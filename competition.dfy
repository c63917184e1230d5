/** The event handlers of the competition extension. Each handler runs to
    completion; what the chat platform would deliver (the author and length
    of a post's opening message, the text typed into a modal, whether a new
    thread belongs to the competition forum) arrives as a parameter. */
module Competition {
  import opened Ledger
  import opened Participants
  import opened ControlPanels

  /** A forum post once its opening message has been fetched. */
  datatype Post = Post(threadId: ThreadId, author: Username, contentLength: nat)

  /** The ledger after the author of each post, in order, has been offered
      the article reward. */
  function GrantForPosts(l: seq<Record>, posts: seq<Post>): seq<Record>
  {
    if posts == [] then l
    else
      var p := posts[|posts| - 1];
      GrantAuthorReward(GrantForPosts(l, posts[..|posts| - 1]), p.author, p.contentLength,
                        ARTICLE_VALIDITY_THRESHOLD, ARTICLE_AUTHOR_REWARD)
  }

  /** The threads among `posts` that are offered for betting, in order. */
  function RegisteredThreads(posts: seq<Post>): seq<ThreadId>
  {
    if posts == [] then []
    else
      var p := posts[|posts| - 1];
      RegisteredThreads(posts[..|posts| - 1]) + (if IsValidArticle(p.contentLength) then [p.threadId] else [])
  }

  /** Rewarding the authors of any number of posts keeps usernames unique. */
  lemma {:induction false} GrantForPostsKeepsUnique(l: seq<Record>, posts: seq<Post>)
    requires UniqueUsernames(l)
    ensures UniqueUsernames(GrantForPosts(l, posts))
  {
    if posts != [] {
      var p := posts[|posts| - 1];
      GrantForPostsKeepsUnique(l, posts[..|posts| - 1]);
      GrantAuthorRewardRecords(GrantForPosts(l, posts[..|posts| - 1]), p.author, p.contentLength,
                               ARTICLE_VALIDITY_THRESHOLD, ARTICLE_AUTHOR_REWARD);
    }
  }

  /** An article of exactly the threshold length earns its unknown author the
      reward (>=) but is not offered for betting (>). */
  lemma ThresholdBoundary(l: seq<Record>, p: Post)
    requires p.contentLength == ARTICLE_VALIDITY_THRESHOLD && !HasUser(l, p.author)
    ensures RegisteredThreads([p]) == []
    ensures GrantForPosts(l, [p]) == l + [Record(p.author, ARTICLE_AUTHOR_REWARD, true, false, map[])]
  {
    assert [p][..0] == [];
  }

  class CompetitionExtension {
    var panel: ControlPanel

    ghost predicate Valid()
      reads this, panel
    {
      panel.Valid()
    }

    /** The extension once setup_competition has run: a fresh control panel. */
    constructor ()
      ensures Valid() && fresh(panel)
      ensures panel.Accounts() == [] && panel.articles == [] && panel.pools == map[] && panel.odds == map[]
      ensures panel.phase == Prematch
    {
      panel := new ControlPanel();
    }

    /** setup_competition: replaces the control panel, and with it the whole
        ledger, by a fresh one. */
    method SetupCompetition()
      modifies this
      ensures Valid() && fresh(panel)
      ensures panel.Accounts() == [] && panel.articles == [] && panel.pools == map[] && panel.odds == map[]
      ensures panel.phase == Prematch
    {
      panel := new ControlPanel();
    }

    /** The 'set_phase:ongoing' button. Only when the phase is not already
        ONGOING: enter it, then reward the author of every existing post and
        offer each long enough post for betting. Otherwise nothing happens. */
    method OnSetPhaseOngoing(posts: seq<Post>) returns (started: bool)
      requires Valid()
      modifies panel`phase, panel`articles, panel`participants, panel.participants
      ensures Valid()
      ensures started == (old(panel.phase) != Ongoing)
      ensures panel.phase == Ongoing
      ensures started ==> panel.Accounts() == GrantForPosts(old(panel.Accounts()), posts)
      ensures started ==> panel.articles == old(panel.articles) + RegisteredThreads(posts)
      ensures !started ==> panel.Accounts() == old(panel.Accounts()) && panel.articles == old(panel.articles)
      ensures forall i :: 0 <= i < |panel.participants| ==>
                panel.participants[i] in old(panel.participants) || fresh(panel.participants[i])
    {
      started := panel.phase != Ongoing;
      if !started {
        return;
      }
      panel.phase := Ongoing;
      ghost var before := panel.Accounts();
      var k := 0;
      while k < |posts|
        invariant 0 <= k <= |posts|
        invariant panel.Valid() && panel.phase == Ongoing
        invariant panel.Accounts() == GrantForPosts(before, posts[..k])
        invariant panel.articles == old(panel.articles) + RegisteredThreads(posts[..k])
        invariant forall i :: 0 <= i < |panel.participants| ==>
                    panel.participants[i] in old(panel.participants) || fresh(panel.participants[i])
      {
        var post := posts[k];
        assert posts[..k + 1][..k] == posts[..k];
        ghost var done := GrantForPosts(before, posts[..k + 1]);
        assert done == GrantAuthorReward(panel.Accounts(), post.author, post.contentLength,
                                         ARTICLE_VALIDITY_THRESHOLD, ARTICLE_AUTHOR_REWARD);
        GrantRewardToArticleAuthor(panel, post.author, post.contentLength,
                                   ARTICLE_VALIDITY_THRESHOLD, ARTICLE_AUTHOR_REWARD);
        assert panel.Accounts() == done;
        panel.AddNewBetOption(post.threadId, post.contentLength);
        k := k + 1;
      }
      assert posts[..k] == posts;
    }

    /** The 'set_phase:grading' button: set unconditionally, from any phase. */
    method OnSetPhaseGrading()
      modifies panel`phase
      ensures panel.phase == Grading
    {
      panel.phase := Grading;
    }

    /** The 'set_phase:concluding' button: set the phase unconditionally,
        then announce the winner typed into the modal. */
    method OnSetPhaseConcluding(winner: IntReply) returns (result: Settlement)
      requires Valid()
      modifies panel`phase, panel`pools, panel`odds, panel.participants
      ensures Valid()
      ensures panel.phase == Concluding
      ensures result == WinnerNotAnInteger <==> winner.NotAnInteger?
      ensures winner.NotAnInteger? ==> panel.pools == old(panel.pools) && panel.odds == old(panel.odds)
      ensures winner.Integer? ==> panel.pools.Keys == old(panel.pools).Keys + Backed(old(panel.Accounts()))
      ensures winner.Integer? ==> forall t ::
                AmountOn(panel.pools, t) == AmountOn(old(panel.pools), t) + Pool(old(panel.Accounts()), t)
      ensures winner.Integer? ==> (result == ZeroPool <==> exists t :: t in panel.pools && panel.pools[t] == 0.0)
      ensures winner.Integer? ==> forall t :: t in panel.odds ==>
                (t in old(panel.odds) && panel.odds[t] == old(panel.odds)[t])
                || (t in panel.pools && panel.pools[t] != 0.0
                    && panel.odds[t] == TotalStake(old(panel.Accounts())) / panel.pools[t])
      ensures winner.Integer? && result != ZeroPool ==> forall t :: t in panel.pools ==>
                t in panel.odds && panel.odds[t] == TotalStake(old(panel.Accounts())) / panel.pools[t]
      ensures winner.Integer? && result != ZeroPool ==> (result == Settled <==> winner.value in panel.odds)
      ensures result == Settled ==>
                winner.value in panel.odds
                && panel.Accounts() == Settle(old(panel.Accounts()), winner.value, panel.odds[winner.value])
      ensures result != Settled ==> panel.Accounts() == old(panel.Accounts())
      ensures winner.Integer? && result != ZeroPool && old(panel.pools) == map[] && old(panel.odds) == map[] ==>
                (result == Settled <==> winner.value in Backed(old(panel.Accounts())))
      ensures result == Settled && old(panel.pools) == map[] && old(panel.odds) == map[] ==>
                BalanceSum(panel.Accounts()) == BalanceSum(old(panel.Accounts())) + TotalStake(old(panel.Accounts()))
    {
      panel.phase := Concluding;
      result := panel.SendAnnouncementModal(winner);
    }

    /** The 'collect_ubi' button: an unknown user is created, granted and
        appended; a known user not yet granted is granted. */
    method OnCollectUbi(u: Username) returns (granted: bool)
      requires Valid()
      modifies panel`participants, panel.participants
      ensures Valid()
      ensures panel.Accounts() == ClaimUbi(old(panel.Accounts()), u)
      ensures granted == (!HasUser(old(panel.Accounts()), u)
                          || exists i :: 0 <= i < |old(panel.Accounts())|
                               && old(panel.Accounts())[i].username == u && !old(panel.Accounts())[i].alreadyUbied)
      ensures forall i :: 0 <= i < |panel.participants| ==>
                panel.participants[i] in old(panel.participants) || fresh(panel.participants[i])
    {
      ghost var before := panel.Accounts();
      var p := new Participant(u);
      var known := panel.Includes(u);
      if !known {
        granted := p.CollectUbi();
        assert forall j :: 0 <= j < |before| ==> panel.participants[j].username == before[j].username != u;
        panel.participants := panel.participants + [p];
        forall j | 0 <= j < |before|
          ensures panel.Accounts()[j] == before[j]
        {
          assert panel.participants[j] == old(panel.participants)[j];
        }
        assert panel.Accounts() == before + [AfterUbi(NewRecord(u))];
      } else {
        granted := panel.GrantUbiToKnown(u);
      }
    }

    /** A 'bet' button: the bet modal's gate on the current ledger. */
    method OnBetButton(u: Username, t: ThreadId, reply: IntReply) returns (verdict: BetVerdict)
      requires Valid()
      modifies panel.participants
      ensures Valid()
      ensures verdict == Verdict(old(panel.Accounts()), u, AmountOf(reply))
      ensures panel.Accounts() == PlaceBet(old(panel.Accounts()), u, t, AmountOf(reply))
    {
      verdict := panel.SendBetModal(u, t, reply);
    }

    /** on_new_thread: a thread of the competition forum created while the
        phase is ONGOING is offered for betting if long enough, and its
        author is offered the article reward. Otherwise nothing happens. */
    method OnNewThread(inCompetitionForum: bool, post: Post)
      requires Valid()
      modifies panel`articles, panel`participants, panel.participants
      ensures Valid()
      ensures inCompetitionForum && panel.phase == Ongoing ==>
        && panel.articles == old(panel.articles) + RegisteredThreads([post])
        && panel.Accounts() == GrantForPosts(old(panel.Accounts()), [post])
      ensures !(inCompetitionForum && panel.phase == Ongoing) ==>
        panel.articles == old(panel.articles) && panel.Accounts() == old(panel.Accounts())
      ensures forall i :: 0 <= i < |panel.participants| ==>
                panel.participants[i] in old(panel.participants) || fresh(panel.participants[i])
    {
      if inCompetitionForum && panel.phase == Ongoing {
        panel.AddNewBetOption(post.threadId, post.contentLength);
        GrantRewardToArticleAuthor(panel, post.author, post.contentLength,
                                   ARTICLE_VALIDITY_THRESHOLD, ARTICLE_AUTHOR_REWARD);
        assert [post][..0] == [];
      }
    }
  }
}
