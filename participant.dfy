/** A participant as the bot keeps it: a record whose fields the handlers
    update in place. Identity is the username, which is never reassigned:
    Participant.__eq__ compares usernames, and every scan of the participant
    list tests `username == u` directly. */
module Participants {
  import opened Ledger

  class Participant {
    const username: Username
    var balance: real
    var isArticleAuthor: bool
    var alreadyUbied: bool
    var betChoices: map<ThreadId, real>

    /** The participant's current state as a value. */
    function Rec(): Record
      reads this
    {
      Record(username, balance, isArticleAuthor, alreadyUbied, betChoices)
    }

    constructor (username: Username)
      ensures Rec() == NewRecord(username)
    {
      this.username := username;
      balance := 0.0;
      isArticleAuthor := false;
      alreadyUbied := false;
      betChoices := map[];
    }

    /** Record `amount` as the stake on `t`, replacing any earlier stake,
        and debit it. */
    method Bet(t: ThreadId, amount: real)
      modifies this
      ensures Rec() == AfterBet(old(Rec()), t, amount)
      ensures betChoices[t] == amount && balance == old(balance) - amount
      ensures forall t' :: t' != t ==> AmountOn(betChoices, t') == AmountOn(old(betChoices), t')
    {
      betChoices := betChoices[t := amount];
      balance := balance - amount;
    }

    /** Pay out the stake on the winner times the odds; a participant who
        did not back the winner keeps its balance. */
    method CollectReward(winner: ThreadId, odds: real)
      modifies this
      ensures Rec() == AfterReward(old(Rec()), winner, odds)
      ensures balance == old(balance) + AmountOn(betChoices, winner) * odds
    {
      if winner in betChoices {
        balance := balance + betChoices[winner] * odds;
      }
    }

    /** Grant the basic income once; `granted` selects the message sent back. */
    method CollectUbi() returns (granted: bool)
      modifies this
      ensures Rec() == AfterUbi(old(Rec()))
      ensures granted == !old(alreadyUbied) && alreadyUbied
      ensures balance == old(balance) + (if granted then UBI_GRANT else 0.0)
    {
      granted := !alreadyUbied;
      if !alreadyUbied {
        balance := balance + UBI_GRANT;
        alreadyUbied := true;
      }
    }
  }
}
