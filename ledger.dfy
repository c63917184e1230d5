/** The participant ledger as values: one Record per participant and, for
    every operation the bot performs on the ledger, a function from the old
    ledger to the new one. The classes in participant.dfy, control_panel.dfy
    and competition.dfy are proved to follow these functions; the lemmas
    here state what the functions guarantee. */
module Ledger {

  type ThreadId = int
  type Username = string

  /** The one-time basic-income grant (Bet.py:53). */
  const UBI_GRANT: real := 100.0
  /** An article counts when its opening message is longer than this (Bet.py:23). */
  const ARTICLE_VALIDITY_THRESHOLD: int := 500
  /** Tokens granted once to the author of a qualifying article (Bet.py:24). */
  const ARTICLE_AUTHOR_REWARD: real := 300.0

  /** The state of one participant; `betChoices` maps a thread to the stake on it. */
  datatype Record = Record(
    username: Username,
    balance: real,
    isArticleAuthor: bool,
    alreadyUbied: bool,
    betChoices: map<ThreadId, real>)

  /** A participant as first constructed: no tokens, no grants, no bets. */
  function NewRecord(u: Username): Record
  {
    Record(u, 0.0, false, false, map[])
  }

  // ---------------------------------------------------------------------
  // One participant

  /** Participant.bet: overwrite the stake on `t` and debit the amount. */
  function AfterBet(r: Record, t: ThreadId, amount: real): Record
  {
    r.(betChoices := r.betChoices[t := amount], balance := r.balance - amount)
  }

  /** What a stake returns when its thread wins at the given odds. */
  function Payoff(stake: real, odds: real): real
  {
    stake * odds
  }

  /** Participant.collect_reward: pay stake times odds if the winner was backed. */
  function AfterReward(r: Record, winner: ThreadId, odds: real): Record
  {
    if winner in r.betChoices then r.(balance := r.balance + Payoff(r.betChoices[winner], odds)) else r
  }

  /** The grant decision of Participant.collect_ubi. */
  function AfterUbi(r: Record): Record
  {
    if !r.alreadyUbied then r.(balance := r.balance + UBI_GRANT, alreadyUbied := true) else r
  }

  /** The update grant_reward_to_article_author applies to a qualifying author. */
  function AfterAuthorReward(r: Record, amount: real): Record
  {
    r.(isArticleAuthor := true, balance := r.balance + amount)
  }

  /** The value stored under `t`, or 0 when there is none. */
  function AmountOn(m: map<ThreadId, real>, t: ThreadId): real
  {
    if t in m then m[t] else 0.0
  }

  // ---------------------------------------------------------------------
  // Sums over a stake map

  /** A non-empty map has a key to take out. */
  lemma MapHasKey(m: map<ThreadId, real>)
    requires m != map[]
    ensures exists k :: k in m
  {
    if forall k :: k !in m {
      assert false;
    }
  }

  /** A non-empty set of threads has a member to pick. */
  lemma SetHasMember(s: set<ThreadId>)
    requires s != {}
    ensures exists t :: t in s
  {
    if forall t :: t !in s {
      assert false;
    }
  }

  /** The sum of all values of a stake map. */
  ghost function MapSum(m: map<ThreadId, real>): real
    decreases m.Keys
  {
    if m == map[] then 0.0 else MapHasKey(m); var k :| k in m; m[k] + MapSum(m - {k})
  }

  /** The part of `m` whose keys lie in `s`. */
  function Restrict(m: map<ThreadId, real>, s: set<ThreadId>): map<ThreadId, real>
  {
    map k | k in m && k in s :: m[k]
  }

  /** MapSum does not depend on the order in which keys are taken out. */
  lemma {:induction false} MapSumRemove(m: map<ThreadId, real>, k: ThreadId)
    requires k in m
    ensures MapSum(m) == m[k] + MapSum(m - {k})
    decreases m.Keys
  {
    MapHasKey(m);
    var j :| j in m && MapSum(m) == m[j] + MapSum(m - {j});
    if j != k {
      assert (m - {j}).Keys < m.Keys;
      MapSumRemove(m - {j}, k);
      assert (m - {k}).Keys < m.Keys;
      MapSumRemove(m - {k}, j);
      assert m - {j} - {k} == m - {k} - {j};
    }
  }

  /** Overwriting one entry changes the sum by the difference. */
  lemma MapSumUpdate(m: map<ThreadId, real>, t: ThreadId, a: real)
    ensures MapSum(m[t := a]) == MapSum(m) - AmountOn(m, t) + a
  {
    MapSumRemove(m[t := a], t);
    if t in m {
      MapSumRemove(m, t);
      assert m[t := a] - {t} == m - {t};
    } else {
      assert m[t := a] - {t} == m;
    }
  }

  /** Tokens a participant holds plus tokens it has staked. */
  ghost function Worth(r: Record): real
  {
    r.balance + MapSum(r.betChoices)
  }

  /** A bet moves `amount` from the balance into the stakes, but a stake it
      overwrites is lost: re-betting on a thread is not refunded. */
  lemma BetWorth(r: Record, t: ThreadId, amount: real)
    ensures Worth(AfterBet(r, t, amount)) == Worth(r) - AmountOn(r.betChoices, t)
  {
    MapSumUpdate(r.betChoices, t, amount);
  }

  // ---------------------------------------------------------------------
  // The ledger: identity is the username (Participant.__eq__)

  predicate HasUser(l: seq<Record>, u: Username)
  {
    exists i :: 0 <= i < |l| && l[i].username == u
  }

  predicate UniqueUsernames(l: seq<Record>)
  {
    forall i, j :: 0 <= i < j < |l| ==> l[i].username != l[j].username
  }

  /** UBI dispatch: an unknown user is created, granted and appended;
      otherwise every matching record not yet granted is granted. */
  function UbiStep(r: Record, u: Username): Record
  {
    if r.username == u && !r.alreadyUbied then AfterUbi(r) else r
  }

  function ClaimUbi(l: seq<Record>, u: Username): seq<Record>
  {
    if !HasUser(l, u) then l + [AfterUbi(NewRecord(u))]
    else seq(|l|, i requires 0 <= i < |l| => UbiStep(l[i], u))
  }

  /** grant_reward_to_article_author, with the article reduced to its length. */
  function AuthorStep(r: Record, u: Username, contentLength: int, threshold: int, amount: real): Record
  {
    if r.username == u && !r.isArticleAuthor && contentLength >= threshold
    then AfterAuthorReward(r, amount) else r
  }

  function GrantAuthorReward(l: seq<Record>, u: Username, contentLength: int, threshold: int, amount: real): seq<Record>
  {
    if !HasUser(l, u) then
      (if contentLength >= threshold then l + [AfterAuthorReward(NewRecord(u), amount)] else l)
    else seq(|l|, i requires 0 <= i < |l| => AuthorStep(l[i], u, contentLength, threshold, amount))
  }

  /** Which message the bet gate of send_bet_modal answers with. */
  datatype BetVerdict = NotParticipant | InsufficientFunds | Placed

  function Verdict(l: seq<Record>, u: Username, amount: int): BetVerdict
  {
    if !HasUser(l, u) then NotParticipant
    else if exists i :: 0 <= i < |l| && l[i].username == u && l[i].balance < amount as real then InsufficientFunds
    else Placed
  }

  function BetStep(r: Record, u: Username, t: ThreadId, amount: int): Record
  {
    if r.username == u && !(r.balance < amount as real) then AfterBet(r, t, amount as real) else r
  }

  /** The ledger after the bet gate of send_bet_modal. */
  function PlaceBet(l: seq<Record>, u: Username, t: ThreadId, amount: int): seq<Record>
  {
    if !HasUser(l, u) then l
    else seq(|l|, i requires 0 <= i < |l| => BetStep(l[i], u, t, amount))
  }

  /** distribute_bet_rewards once the winner's odds are known. */
  function Settle(l: seq<Record>, winner: ThreadId, odds: real): seq<Record>
  {
    seq(|l|, i requires 0 <= i < |l| => AfterReward(l[i], winner, odds))
  }

  // ---------------------------------------------------------------------
  // Sums over the ledger

  /** All stakes on thread `t`: its pari-mutuel pool. */
  function Pool(l: seq<Record>, t: ThreadId): real
  {
    if l == [] then 0.0 else Pool(l[..|l| - 1], t) + AmountOn(l[|l| - 1].betChoices, t)
  }

  /** All stakes on all threads. */
  ghost function TotalStake(l: seq<Record>): real
  {
    if l == [] then 0.0 else TotalStake(l[..|l| - 1]) + MapSum(l[|l| - 1].betChoices)
  }

  /** The threads somebody has a stake on. */
  function Backed(l: seq<Record>): set<ThreadId>
  {
    if l == [] then {} else Backed(l[..|l| - 1]) + l[|l| - 1].betChoices.Keys
  }

  function BalanceSum(l: seq<Record>): real
  {
    if l == [] then 0.0 else BalanceSum(l[..|l| - 1]) + l[|l| - 1].balance
  }

  ghost function LedgerWorth(l: seq<Record>): real
  {
    if l == [] then 0.0 else LedgerWorth(l[..|l| - 1]) + Worth(l[|l| - 1])
  }

  /** The username-to-balance table write_json builds; a later record with
      the same username overwrites an earlier one, as in a dict. */
  function BalanceMap(l: seq<Record>): map<Username, real>
  {
    if l == [] then map[] else BalanceMap(l[..|l| - 1])[l[|l| - 1].username := l[|l| - 1].balance]
  }

  /** The table has one key per username in the ledger. */
  lemma {:induction false} BalanceMapKeys(l: seq<Record>)
    ensures BalanceMap(l).Keys == set i | 0 <= i < |l| :: l[i].username
  {
    if l != [] {
      var n := |l| - 1;
      BalanceMapKeys(l[..n]);
      var before := set i | 0 <= i < n :: l[..n][i].username;
      var after := set i | 0 <= i < |l| :: l[i].username;
      forall x | x in after
        ensures x in before + {l[n].username}
      {
        var i :| 0 <= i < |l| && l[i].username == x;
        if i < n {
          assert l[..n][i].username == x;
        }
      }
      forall x | x in before + {l[n].username}
        ensures x in after
      {
        if x in before {
          var i :| 0 <= i < n && l[..n][i].username == x;
          assert l[i].username == x;
        }
      }
    }
  }

  /** With unique usernames the table holds every participant's balance. */
  lemma {:induction false} BalanceMapValues(l: seq<Record>)
    requires UniqueUsernames(l)
    ensures forall i :: 0 <= i < |l| ==> l[i].username in BalanceMap(l) && BalanceMap(l)[l[i].username] == l[i].balance
  {
    if l != [] {
      var n := |l| - 1;
      BalanceMapValues(l[..n]);
      forall i | 0 <= i < n
        ensures l[i].username in BalanceMap(l) && BalanceMap(l)[l[i].username] == l[i].balance
      {
        assert l[..n][i] == l[i];
        assert l[i].username != l[n].username;
      }
    }
  }

  /** Replacing one record changes the ledger's worth by that record's change. */
  lemma {:induction false} LedgerWorthUpdate(l: seq<Record>, i: int, x: Record)
    requires 0 <= i < |l|
    ensures LedgerWorth(l[i := x]) == LedgerWorth(l) - Worth(l[i]) + Worth(x)
  {
    var n := |l| - 1;
    if i < n {
      LedgerWorthUpdate(l[..n], i, x);
      assert l[i := x][..n] == l[..n][i := x];
    } else {
      assert l[i := x][..n] == l[..n];
    }
  }

  // ---------------------------------------------------------------------
  // Bet gate

  /** With unique usernames the gate touches exactly the user's record, and
      only when its balance covers the amount. */
  lemma PlaceBetAt(l: seq<Record>, u: Username, t: ThreadId, amount: int, i: int)
    requires UniqueUsernames(l)
    requires 0 <= i < |l| && l[i].username == u
    ensures Verdict(l, u, amount) == (if l[i].balance < amount as real then InsufficientFunds else Placed)
    ensures PlaceBet(l, u, t, amount)
         == (if l[i].balance < amount as real then l else l[i := AfterBet(l[i], t, amount as real)])
  {
    var l' := PlaceBet(l, u, t, amount);
    if l[i].balance < amount as real {
      assert l' == l;
    } else {
      assert l' == l[i := AfterBet(l[i], t, amount as real)];
    }
  }

  /** An unknown user is answered and nothing changes. */
  lemma PlaceBetUnknownUser(l: seq<Record>, u: Username, t: ThreadId, amount: int)
    requires !HasUser(l, u)
    ensures Verdict(l, u, amount) == NotParticipant && PlaceBet(l, u, t, amount) == l
  {
  }

  /** Betting neither creates nor destroys tokens, except that a stake the bet
      overwrites is forfeited. */
  lemma PlaceBetWorth(l: seq<Record>, u: Username, t: ThreadId, amount: int, i: int)
    requires UniqueUsernames(l)
    requires 0 <= i < |l| && l[i].username == u
    ensures Verdict(l, u, amount) == Placed ==>
      LedgerWorth(PlaceBet(l, u, t, amount)) == LedgerWorth(l) - AmountOn(l[i].betChoices, t)
    ensures Verdict(l, u, amount) != Placed ==> LedgerWorth(PlaceBet(l, u, t, amount)) == LedgerWorth(l)
  {
    PlaceBetAt(l, u, t, amount, i);
    if !(l[i].balance < amount as real) {
      LedgerWorthUpdate(l, i, AfterBet(l[i], t, amount as real));
      BetWorth(l[i], t, amount as real);
    }
  }

  /** Non-negative balances stay non-negative under any bet, even a negative
      one: the gate only debits a balance that covers the amount. */
  lemma PlaceBetKeepsSolvent(l: seq<Record>, u: Username, t: ThreadId, amount: int)
    requires forall i :: 0 <= i < |l| ==> l[i].balance >= 0.0
    ensures forall i :: 0 <= i < |PlaceBet(l, u, t, amount)| ==> PlaceBet(l, u, t, amount)[i].balance >= 0.0
  {
  }

  // ---------------------------------------------------------------------
  // Settlement

  /** Multiplication distributes over addition (kept apart so that the
      inductive step below stays linear). */
  lemma MulAddDistributes(a: real, b: real, c: real)
    ensures (a + b) * c == a * c + b * c
  {
  }

  /** One participant's payout is its stake on the winner times the odds. */
  lemma RewardBalance(r: Record, w: ThreadId, odds: real)
    ensures AfterReward(r, w, odds).balance == r.balance + AmountOn(r.betChoices, w) * odds
  {
    if w !in r.betChoices {
      assert AmountOn(r.betChoices, w) * odds == 0.0 * odds == 0.0;
    }
  }

  /** What settlement adds to the balances, participant by participant. */
  ghost function Payout(l: seq<Record>, w: ThreadId, odds: real): real
  {
    if l == [] then 0.0
    else Payout(l[..|l| - 1], w, odds) + (AfterReward(l[|l| - 1], w, odds).balance - l[|l| - 1].balance)
  }

  lemma {:induction false} SettleAddsPayout(l: seq<Record>, w: ThreadId, odds: real)
    ensures BalanceSum(Settle(l, w, odds)) == BalanceSum(l) + Payout(l, w, odds)
  {
    if l == [] {
      assert Settle(l, w, odds) == [];
    } else {
      var n := |l| - 1;
      var s := Settle(l, w, odds);
      SettleAddsPayout(l[..n], w, odds);
      assert s[..n] == Settle(l[..n], w, odds);
      assert BalanceSum(s) == BalanceSum(s[..n]) + s[n].balance;
    }
  }

  lemma {:induction false} PayoutIsPoolTimesOdds(l: seq<Record>, w: ThreadId, odds: real)
    ensures Payout(l, w, odds) == Pool(l, w) * odds
  {
    if l != [] {
      var n := |l| - 1;
      PayoutIsPoolTimesOdds(l[..n], w, odds);
      RewardBalance(l[n], w, odds);
      MulAddDistributes(Pool(l[..n], w), AmountOn(l[n].betChoices, w), odds);
    }
  }

  /** Settlement pays out the winner's pool times the odds, in total. */
  lemma SettlePaysPool(l: seq<Record>, w: ThreadId, odds: real)
    ensures BalanceSum(Settle(l, w, odds)) == BalanceSum(l) + Pool(l, w) * odds
  {
    SettleAddsPayout(l, w, odds);
    PayoutIsPoolTimesOdds(l, w, odds);
  }

  /** Pari-mutuel odds times the pool they were computed from give back the
      total staked. */
  lemma OddsTimesPool(total: real, pool: real)
    requires pool != 0.0
    ensures pool * (total / pool) == total
  {
  }

  /** Odds computed as total over pool, for every pool: a whole pool paid
      out at its odds returns the total staked. */
  lemma OddsTimesPools(odds: map<ThreadId, real>, pools: map<ThreadId, real>, total: real)
    requires forall t :: t in pools ==> t in odds && pools[t] != 0.0 && odds[t] == total / pools[t]
    ensures forall t :: t in pools ==> Payoff(pools[t], odds[t]) == total
  {
    forall t | t in pools
      ensures Payoff(pools[t], odds[t]) == total
    {
      OddsTimesPool(total, pools[t]);
    }
  }

  /** With pari-mutuel odds (total over pool) the payouts add up to the whole
      amount staked. */
  lemma SettleDistributesTotal(l: seq<Record>, w: ThreadId)
    requires Pool(l, w) != 0.0
    ensures BalanceSum(Settle(l, w, TotalStake(l) / Pool(l, w))) == BalanceSum(l) + TotalStake(l)
  {
    var total, pool := TotalStake(l), Pool(l, w);
    SettlePaysPool(l, w, total / pool);
    OddsTimesPool(total, pool);
  }

  /** Each participant is paid its own stake on the winner times the odds;
      one who did not back the winner is left exactly as it was. */
  lemma SettlePaysEachStake(l: seq<Record>, w: ThreadId, odds: real)
    ensures |Settle(l, w, odds)| == |l|
    ensures forall i :: 0 <= i < |l| ==>
              Settle(l, w, odds)[i].balance == l[i].balance + AmountOn(l[i].betChoices, w) * odds
    ensures forall i :: 0 <= i < |l| && w !in l[i].betChoices ==> Settle(l, w, odds)[i] == l[i]
  {
    forall i | 0 <= i < |l|
      ensures Settle(l, w, odds)[i].balance == l[i].balance + AmountOn(l[i].betChoices, w) * odds
    {
      RewardBalance(l[i], w, odds);
    }
  }

  /** Two participants staking 30 on thread 1 and 70 on thread 2: the pools
      are 30 and 70, the total is 100, and the odds are 100/30 and 100/70. */
  lemma OddsExample(alice: Username, bob: Username)
    ensures var l := [Record(alice, 0.0, false, true, map[1 := 30.0]), Record(bob, 0.0, false, true, map[2 := 70.0])];
      && Pool(l, 1) == 30.0 && Pool(l, 2) == 70.0 && Backed(l) == {1, 2}
      && TotalStake(l) == 100.0
      && TotalStake(l) / Pool(l, 1) == 100.0 / 30.0 && TotalStake(l) / Pool(l, 2) == 100.0 / 70.0
  {
    var l := [Record(alice, 0.0, false, true, map[1 := 30.0]), Record(bob, 0.0, false, true, map[2 := 70.0])];
    MapSumRemove(map[1 := 30.0], 1);
    assert map[1 := 30.0] - {1} == map[];
    MapSumRemove(map[2 := 70.0], 2);
    assert map[2 := 70.0] - {2} == map[];
    var first := l[..1];
    assert first[..0] == [];
    assert Pool(first, 1) == 30.0 && Pool(first, 2) == 0.0;
    assert Backed(first) == {1};
    assert TotalStake(first) == 30.0;
    assert l[..|l| - 1] == first;
  }

  // ---------------------------------------------------------------------
  // One-time grants

  /** Claiming basic income a second time changes nothing. */
  lemma ClaimUbiIdempotent(l: seq<Record>, u: Username)
    ensures ClaimUbi(ClaimUbi(l, u), u) == ClaimUbi(l, u)
  {
    var l1 := ClaimUbi(l, u);
    if !HasUser(l, u) {
      assert l1[|l|].username == u;
    } else {
      var k :| 0 <= k < |l| && l[k].username == u;
      assert l1[k].username == u;
    }
    var l2 := ClaimUbi(l1, u);
    assert forall i :: 0 <= i < |l1| ==> l1[i].username == u ==> l1[i].alreadyUbied;
    assert l2 == l1;
  }

  /** After a claim the user has exactly one record and it is granted; an
      unknown user is appended with the grant as balance. */
  lemma ClaimUbiRecords(l: seq<Record>, u: Username)
    requires UniqueUsernames(l)
    ensures UniqueUsernames(ClaimUbi(l, u))
    ensures HasUser(ClaimUbi(l, u), u)
    ensures forall i :: 0 <= i < |ClaimUbi(l, u)| && ClaimUbi(l, u)[i].username == u ==> ClaimUbi(l, u)[i].alreadyUbied
    ensures !HasUser(l, u) ==> ClaimUbi(l, u) == l + [Record(u, UBI_GRANT, false, true, map[])]
    ensures HasUser(l, u) ==> |ClaimUbi(l, u)| == |l|
  {
    var l1 := ClaimUbi(l, u);
    if !HasUser(l, u) {
      assert l1[|l|].username == u;
    } else {
      var k :| 0 <= k < |l| && l[k].username == u;
      assert l1[k].username == u;
    }
  }

  /** Rewarding an author a second time changes nothing. */
  lemma GrantAuthorRewardIdempotent(l: seq<Record>, u: Username, contentLength: int, threshold: int, amount: real)
    ensures var l1 := GrantAuthorReward(l, u, contentLength, threshold, amount);
            GrantAuthorReward(l1, u, contentLength, threshold, amount) == l1
  {
    var l1 := GrantAuthorReward(l, u, contentLength, threshold, amount);
    if !HasUser(l, u) && contentLength >= threshold {
      assert l1[|l|].username == u;
    } else if HasUser(l, u) {
      var k :| 0 <= k < |l| && l[k].username == u;
      assert l1[k].username == u;
    }
    if HasUser(l1, u) {
      assert forall i :: 0 <= i < |l1| ==> l1[i].username == u && contentLength >= threshold ==> l1[i].isArticleAuthor;
      var l2 := GrantAuthorReward(l1, u, contentLength, threshold, amount);
      assert l2 == l1;
    }
  }

  /** The author reward keeps usernames unique; an unknown author with a
      long enough article is appended as an author holding `amount`, a short
      article appends nothing, and a known user is rewarded at most once. */
  lemma GrantAuthorRewardRecords(l: seq<Record>, u: Username, contentLength: int, threshold: int, amount: real)
    requires UniqueUsernames(l)
    ensures var l1 := GrantAuthorReward(l, u, contentLength, threshold, amount);
      && UniqueUsernames(l1)
      && (!HasUser(l, u) && contentLength >= threshold ==> l1 == l + [Record(u, amount, true, false, map[])])
      && (!HasUser(l, u) && contentLength < threshold ==> l1 == l)
      && (HasUser(l, u) ==> |l1| == |l|)
      && (forall i :: 0 <= i < |l| && (l[i].username != u || l[i].isArticleAuthor) ==> l1[i] == l[i])
  {
    var l1 := GrantAuthorReward(l, u, contentLength, threshold, amount);
    if !HasUser(l, u) && contentLength >= threshold {
      assert l1[|l|].username == u;
      assert AfterAuthorReward(NewRecord(u), amount) == Record(u, amount, true, false, map[]);
    }
  }
}
