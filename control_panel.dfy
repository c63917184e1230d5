/** The control panel of one competition: the list of participants, the
    registered articles, the pools and odds, and the phase. */
module ControlPanels {
  import opened Ledger
  import opened Participants

  /** CompetitionPhase; the source numbers these 1 to 4. */
  datatype Phase = Prematch | Ongoing | Grading | Concluding

  /** How the announcement of a winner ended. */
  datatype Settlement = WinnerNotAnInteger | ZeroPool | UnknownWinner | Settled

  /** What int() made of a reply typed into a modal. */
  datatype IntReply = Integer(value: int) | NotAnInteger

  /** send_bet_modal starts from 0 and keeps it when the reply does not parse. */
  function AmountOf(reply: IntReply): int
  {
    if reply.Integer? then reply.value else 0
  }

  /** add_new_bet_option_ui registers an article strictly longer than the threshold. */
  predicate IsValidArticle(contentLength: int)
  {
    contentLength > ARTICLE_VALIDITY_THRESHOLD
  }

  /** The records of a list of participants, in list order. */
  ghost function Records(ps: seq<Participant>): seq<Record>
    reads ps
  {
    seq(|ps|, i requires 0 <= i < |ps| reads ps => ps[i].Rec())
  }

  /** No two participants share a username (and so no object is listed twice). */
  ghost predicate DistinctUsers(ps: seq<Participant>)
  {
    forall i, j :: 0 <= i < j < |ps| ==> ps[i].username != ps[j].username
  }

  class ControlPanel {
    var participants: seq<Participant>
    var articles: seq<ThreadId>
    var pools: map<ThreadId, real>
    var odds: map<ThreadId, real>
    var phase: Phase

    ghost predicate Valid()
      reads this`participants
    {
      DistinctUsers(participants)
    }

    /** The ledger this panel holds. */
    ghost function Accounts(): seq<Record>
      reads this`participants, participants
    {
      Records(participants)
    }

    constructor ()
      ensures Valid() && Accounts() == []
      ensures articles == [] && pools == map[] && odds == map[] && phase == Prematch
    {
      participants := [];
      articles := [];
      pools := map[];
      odds := map[];
      phase := Prematch;
    }

    /** `Participant(u) in self.all_participants`: a scan comparing usernames. */
    method Includes(u: Username) returns (found: bool)
      ensures found == HasUser(Accounts(), u)
    {
      found := false;
      var i := 0;
      while i < |participants| && !found
        invariant 0 <= i <= |participants|
        invariant found == exists j :: 0 <= j < i && participants[j].username == u
      {
        found := participants[i].username == u;
        i := i + 1;
      }
      assert forall j :: 0 <= j < |participants| ==> Accounts()[j].username == participants[j].username;
    }

    /** The loop of the 'collect_ubi' button for a user already listed:
        grant every matching participant not granted yet. */
    method GrantUbiToKnown(u: Username) returns (granted: bool)
      requires Valid() && HasUser(Accounts(), u)
      modifies participants
      ensures Valid()
      ensures Accounts() == ClaimUbi(old(Accounts()), u)
      ensures granted == exists j :: 0 <= j < |old(Accounts())|
                           && old(Accounts())[j].username == u && !old(Accounts())[j].alreadyUbied
    {
      ghost var before := Accounts();
      granted := false;
      var i := 0;
      while i < |participants|
        invariant 0 <= i <= |participants| == |before|
        invariant forall j :: 0 <= j < i ==> participants[j].Rec() == UbiStep(before[j], u)
        invariant forall j :: i <= j < |participants| ==> participants[j].Rec() == before[j]
        invariant granted == exists j :: 0 <= j < i && before[j].username == u && !before[j].alreadyUbied
      {
        var p := participants[i];
        if p.username == u && !p.alreadyUbied {
          granted := p.CollectUbi();
        }
        i := i + 1;
      }
      assert Accounts() == ClaimUbi(before, u);
    }

    /** The loop of grant_reward_to_article_author for an author already
        listed: a participant not yet rewarded is rewarded when the post is
        long enough. */
    method RewardKnownAuthor(author: Username, contentLength: int, threshold: int, amount: real)
      requires Valid() && HasUser(Accounts(), author)
      modifies participants
      ensures Valid()
      ensures Accounts() == GrantAuthorReward(old(Accounts()), author, contentLength, threshold, amount)
    {
      ghost var before := Accounts();
      var i := 0;
      while i < |participants|
        invariant 0 <= i <= |participants| == |before|
        invariant forall j :: 0 <= j < i ==> participants[j].Rec() == AuthorStep(before[j], author, contentLength, threshold, amount)
        invariant forall j :: i <= j < |participants| ==> participants[j].Rec() == before[j]
      {
        var p := participants[i];
        if p.username == author && !p.isArticleAuthor {
          if contentLength >= threshold {
            p.isArticleAuthor := true;
            p.balance := p.balance + amount;
          }
        }
        i := i + 1;
      }
      assert Accounts() == GrantAuthorReward(before, author, contentLength, threshold, amount);
    }

    /** add_new_bet_option_ui: offer the thread for betting if its opening
        message is long enough. */
    method AddNewBetOption(t: ThreadId, contentLength: int)
      modifies this`articles
      ensures articles == old(articles) + (if IsValidArticle(contentLength) then [t] else [])
    {
      if contentLength > ARTICLE_VALIDITY_THRESHOLD {
        articles := articles + [t];
      }
    }

    /** The bet gate of send_bet_modal: unknown user, then insufficient
        funds, then the bet. */
    method SendBetModal(u: Username, t: ThreadId, reply: IntReply) returns (verdict: BetVerdict)
      requires Valid()
      modifies participants
      ensures Valid()
      ensures verdict == Verdict(old(Accounts()), u, AmountOf(reply))
      ensures Accounts() == PlaceBet(old(Accounts()), u, t, AmountOf(reply))
    {
      var amount := AmountOf(reply);
      var known := Includes(u);
      if !known {
        verdict := NotParticipant;
        return;
      }
      verdict := BetKnown(u, t, amount);
    }

    /** The loop of send_bet_modal for a user already listed: every matching
        participant who can cover the amount places the bet. */
    method BetKnown(u: Username, t: ThreadId, amount: int) returns (verdict: BetVerdict)
      requires Valid() && HasUser(Accounts(), u)
      modifies participants
      ensures Valid()
      ensures verdict == Verdict(old(Accounts()), u, amount)
      ensures Accounts() == PlaceBet(old(Accounts()), u, t, amount)
    {
      ghost var before := Accounts();
      var short := false;
      var i := 0;
      while i < |participants|
        invariant 0 <= i <= |participants| == |before|
        invariant forall j :: 0 <= j < i ==> participants[j].Rec() == BetStep(before[j], u, t, amount)
        invariant forall j :: i <= j < |participants| ==> participants[j].Rec() == before[j]
        invariant short == exists j :: 0 <= j < i && before[j].username == u && before[j].balance < amount as real
      {
        var p := participants[i];
        if p.username == u {
          if p.balance < amount as real {
            short := true;
          } else {
            p.Bet(t, amount as real);
          }
        }
        i := i + 1;
      }
      verdict := if short then InsufficientFunds else Placed;
      assert Accounts() == PlaceBet(before, u, t, amount);
    }

    /** The inner loop of calculate_odds: add one participant's stakes to
        the pools; `sum` is what it adds to the running total. */
    method AddStakes(choices: map<ThreadId, real>) returns (sum: real)
      modifies this`pools
      ensures pools.Keys == old(pools).Keys + choices.Keys
      ensures forall t :: AmountOn(pools, t) == AmountOn(old(pools), t) + AmountOn(choices, t)
      ensures sum == MapSum(choices)
    {
      sum := 0.0;
      var todo := choices.Keys;
      assert Restrict(choices, todo) == choices;
      while todo != {}
        invariant todo <= choices.Keys
        invariant pools.Keys == old(pools).Keys + (choices.Keys - todo)
        invariant forall t :: AmountOn(pools, t)
                    == AmountOn(old(pools), t) + (if t in choices && t !in todo then choices[t] else 0.0)
        invariant sum + MapSum(Restrict(choices, todo)) == MapSum(choices)
        decreases todo
      {
        SetHasMember(todo);
        var t :| t in todo;
        if t !in pools {
          pools := pools[t := choices[t]];
        } else {
          pools := pools[t := pools[t] + choices[t]];
        }
        sum := sum + choices[t];
        MapSumRemove(Restrict(choices, todo), t);
        assert Restrict(choices, todo) - {t} == Restrict(choices, todo - {t});
        todo := todo - {t};
      }
      assert Restrict(choices, {}) == map[];
    }

    /** The first loop of calculate_odds: fold every participant's stakes
        into the pools; the running total it returns starts from zero. */
    method AccumulatePools() returns (total: real)
      modifies this`pools
      ensures pools.Keys == old(pools).Keys + Backed(Accounts())
      ensures forall t :: AmountOn(pools, t) == AmountOn(old(pools), t) + Pool(Accounts(), t)
      ensures total == TotalStake(Accounts())
    {
      ghost var l := Accounts();
      total := 0.0;
      var i := 0;
      while i < |participants|
        invariant 0 <= i <= |participants| == |l|
        invariant pools.Keys == old(pools).Keys + Backed(l[..i])
        invariant forall t :: AmountOn(pools, t) == AmountOn(old(pools), t) + Pool(l[..i], t)
        invariant total == TotalStake(l[..i])
      {
        assert l[..i + 1][..i] == l[..i];
        var sum := AddStakes(participants[i].betChoices);
        total := total + sum;
        i := i + 1;
      }
      assert l[..i] == l;
    }

    /** The second loop of calculate_odds: odds = total / pool for every
        pool, stopping at the first empty pool (a division by zero). */
    method FillOdds(total: real) returns (ok: bool)
      modifies this`odds
      ensures ok <==> forall t :: t in pools ==> pools[t] != 0.0
      ensures ok ==> forall t :: t in pools ==> t in odds && odds[t] == total / pools[t]
      ensures forall t :: t in odds ==>
                (t in old(odds) && odds[t] == old(odds)[t])
                || (t in pools && pools[t] != 0.0 && odds[t] == total / pools[t])
      ensures forall t :: t in old(odds) && t !in pools ==> t in odds && odds[t] == old(odds)[t]
    {
      ok := true;
      var keys := pools.Keys;
      while keys != {}
        invariant keys <= pools.Keys
        invariant forall t :: t in pools && t !in keys ==> pools[t] != 0.0 && t in odds && odds[t] == total / pools[t]
        invariant forall t :: t in odds ==>
                    (t in old(odds) && odds[t] == old(odds)[t]) || (t in pools && t !in keys && pools[t] != 0.0 && odds[t] == total / pools[t])
        invariant forall t :: t in old(odds) && (t !in pools || t in keys) ==> t in odds && odds[t] == old(odds)[t]
        decreases keys
      {
        SetHasMember(keys);
        var t :| t in keys;
        if pools[t] == 0.0 {
          ok := false;
          return;
        }
        odds := odds[t := total / pools[t]];
        keys := keys - {t};
      }
    }

    /** calculate_odds. The pools are added to whatever the pool map already
        held (it is never cleared), while the total is counted afresh; every
        pool gets the odds total / pool, and an empty pool is a division by
        zero that stops the calculation. */
    method CalculateOdds() returns (ok: bool)
      modifies this`pools, this`odds
      ensures pools.Keys == old(pools).Keys + Backed(Accounts())
      ensures forall t :: AmountOn(pools, t) == AmountOn(old(pools), t) + Pool(Accounts(), t)
      ensures old(pools) == map[] ==> pools.Keys == Backed(Accounts()) && forall t :: t in pools ==> pools[t] == Pool(Accounts(), t)
      ensures ok <==> forall t :: t in pools ==> pools[t] != 0.0
      ensures ok ==> forall t :: t in pools ==> t in odds && odds[t] == TotalStake(Accounts()) / pools[t]
      ensures ok ==> forall t :: t in pools ==> Payoff(pools[t], odds[t]) == TotalStake(Accounts())
      ensures forall t :: t in odds ==>
                (t in old(odds) && odds[t] == old(odds)[t])
                || (t in pools && pools[t] != 0.0 && odds[t] == TotalStake(Accounts()) / pools[t])
      ensures forall t :: t in old(odds) && t !in pools ==> t in odds && odds[t] == old(odds)[t]
    {
      var total := AccumulatePools();
      ok := FillOdds(total);
      assert total == TotalStake(Accounts());
      if ok {
        OddsTimesPools(odds, pools, total);
      }
    }

    /** send_announcement_modal once the reply is in: a winner that is not an
        integer is answered and nothing else happens; otherwise the odds are
        computed, which fails on any empty pool, and then the winner's
        backers are paid, which fails when the winner has no odds. */
    method SendAnnouncementModal(winner: IntReply) returns (result: Settlement)
      requires Valid()
      modifies this`pools, this`odds, participants
      ensures Valid()
      ensures result == WinnerNotAnInteger <==> winner.NotAnInteger?
      ensures winner.NotAnInteger? ==> pools == old(pools) && odds == old(odds)
      ensures winner.Integer? ==> pools.Keys == old(pools).Keys + Backed(old(Accounts()))
      ensures winner.Integer? ==> forall t :: AmountOn(pools, t) == AmountOn(old(pools), t) + Pool(old(Accounts()), t)
      ensures winner.Integer? ==> (result == ZeroPool <==> exists t :: t in pools && pools[t] == 0.0)
      ensures winner.Integer? ==> forall t :: t in odds ==>
                (t in old(odds) && odds[t] == old(odds)[t])
                || (t in pools && pools[t] != 0.0 && odds[t] == TotalStake(old(Accounts())) / pools[t])
      ensures winner.Integer? && result != ZeroPool ==>
                forall t :: t in pools ==> t in odds && odds[t] == TotalStake(old(Accounts())) / pools[t]
      ensures winner.Integer? && result != ZeroPool ==> (result == Settled <==> winner.value in odds)
      ensures result == Settled ==>
                winner.value in odds && Accounts() == Settle(old(Accounts()), winner.value, odds[winner.value])
      ensures result != Settled ==> Accounts() == old(Accounts())
      ensures winner.Integer? && result != ZeroPool && old(pools) == map[] && old(odds) == map[] ==>
                (result == Settled <==> winner.value in Backed(old(Accounts())))
      ensures result == Settled && old(pools) == map[] && old(odds) == map[] ==>
                BalanceSum(Accounts()) == BalanceSum(old(Accounts())) + TotalStake(old(Accounts()))
    {
      if winner.NotAnInteger? {
        return WinnerNotAnInteger;
      }
      ghost var l := Accounts();
      var ok := CalculateOdds();
      if !ok {
        return ZeroPool;
      }
      var paid := DistributeBetRewards(winner.value);
      if !paid {
        return UnknownWinner;
      }
      result := Settled;
      var w := winner.value;
      if old(pools) == map[] && old(odds) == map[] {
        assert w in pools && pools[w] == Pool(l, w);
        SettleDistributesTotal(l, w);
      }
    }

    /** distribute_bet_rewards: an unknown winner has no odds entry and fails
        before anyone is paid; otherwise every participant collects. */
    method DistributeBetRewards(winner: ThreadId) returns (ok: bool)
      requires Valid()
      modifies participants
      ensures Valid()
      ensures ok == (winner in odds)
      ensures ok ==> Accounts() == Settle(old(Accounts()), winner, odds[winner])
      ensures !ok ==> Accounts() == old(Accounts())
    {
      if winner !in odds {
        return false;
      }
      ok := true;
      var winnerOdds := odds[winner];
      ghost var before := Accounts();
      var i := 0;
      while i < |participants|
        invariant 0 <= i <= |participants| == |before|
        invariant forall j :: 0 <= j < i ==> participants[j].Rec() == AfterReward(before[j], winner, winnerOdds)
        invariant forall j :: i <= j < |participants| ==> participants[j].Rec() == before[j]
      {
        participants[i].CollectReward(winner, winnerOdds);
        i := i + 1;
      }
      assert Accounts() == Settle(before, winner, winnerOdds);
    }
  }

  /** grant_reward_to_article_author: an unknown author with a long enough
      article joins as an author holding `amount`; a known author who has not
      been rewarded yet is rewarded once. */
  method GrantRewardToArticleAuthor(panel: ControlPanel, author: Username, contentLength: int, threshold: int, amount: real)
    requires panel.Valid()
    modifies panel`participants, panel.participants
    ensures panel.Valid()
    ensures panel.Accounts() == GrantAuthorReward(old(panel.Accounts()), author, contentLength, threshold, amount)
    ensures forall i :: 0 <= i < |panel.participants| ==>
              panel.participants[i] in old(panel.participants) || fresh(panel.participants[i])
  {
    ghost var before := panel.Accounts();
    var known := panel.Includes(author);
    if !known {
      if contentLength >= threshold {
        assert forall j :: 0 <= j < |before| ==> panel.participants[j].username == before[j].username != author;
        var p := new Participant(author);
        p.isArticleAuthor := true;
        p.balance := p.balance + amount;
        panel.participants := panel.participants + [p];
        assert panel.Accounts() == before + [AfterAuthorReward(NewRecord(author), amount)];
      }
    } else {
      panel.RewardKnownAuthor(author, contentLength, threshold, amount);
    }
  }

  /** The username-to-balance table that write_json serialises. */
  method BalanceTable(ps: seq<Participant>) returns (table: map<Username, real>)
    ensures table == BalanceMap(Records(ps))
  {
    table := map[];
    var i := 0;
    while i < |ps|
      invariant 0 <= i <= |ps|
      invariant table == BalanceMap(Records(ps)[..i])
    {
      assert Records(ps)[..i + 1][..i] == Records(ps)[..i];
      table := table[ps[i].username := ps[i].balance];
      i := i + 1;
    }
    assert Records(ps)[..i] == Records(ps);
  }
}
