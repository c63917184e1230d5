# Essay-competition wagering engine, modelled in Dafny

`Bet.py` is a chat bot for an essay competition held in a forum. Members
collect a one-time basic income of 100 tokens (UBI). Authors of long enough
posts receive 300 tokens once. Members stake tokens on the post they expect
to win. When a moderator announces the winner, the bot computes
pari-mutuel odds (total staked divided by the stake on a post) and pays
each backer of the winner its stake times those odds.

This project models that engine as the source writes it:

- `ledger.dfy` (module `Ledger`): the participant record as a value and one
  specification function per operation on the ledger (`AfterBet`,
  `AfterReward`, `ClaimUbi`, `GrantAuthorReward`, `PlaceBet`, `Settle`,
  `Pool`, `TotalStake`, `BalanceMap`), with the lemmas about them:
  - one-time grants are idempotent and keep usernames unique;
  - the bet gate touches only the bettor;
  - settlement pays out the winner's pool times the odds.
- `participant.dfy` (module `Participants`): class `Participant`, whose
  methods update its fields in place. Identity is the username: the
  `__eq__` of `Bet.py:70-75` compares usernames, so every scan of the
  participant list is modelled as a loop testing `username == u`, and
  `Ledger.HasUser` is the same test on the ledger value.
- `control_panel.dfy` (module `ControlPanels`): class `ControlPanel`, which
  holds the participant list, the registered articles, the pool and odds
  maps and the phase. It also holds the loops of `send_bet_modal`,
  `calculate_odds`, `distribute_bet_rewards` and
  `grant_reward_to_article_author`, the announcement flow of
  `send_announcement_modal`, plus the balance table that `write_json`
  builds.
- `competition.dfy` (module `Competition`): class `CompetitionExtension`,
  with one method per branch of `on_any_button` and one for
  `on_new_thread`.

Every imperative method is proved to turn the panel's ledger
(`ControlPanel.Accounts()`) into the value its specification function
computes from the old ledger.

Balances, stakes and odds are `real`: stakes are integers converted to
float, and the odds are exact quotients. What the chat platform delivers
arrives as a parameter:

- the author and length of a post's opening message;
- the text typed into a modal, as an `IntReply`;
- whether a new thread belongs to the competition forum.

Behaviour kept as the code has it:

- **The pool map is never reset.** It is created empty once. The running
  total is local. A second odds calculation therefore adds every stake to
  the pools again. The pool facts are stated for a panel whose pool map
  was empty.
- **Zero and negative amounts are accepted.** A reply that does not parse
  bets 0.
- **An empty pool is not excluded from the odds.** It is a division by
  zero that aborts the calculation (`ZeroPool`). The odds computed before
  it are kept.
- **A winner without odds is an error** (a `KeyError` in the source,
  `UnknownWinner` here), raised before anyone is paid.
- **The two length tests differ.** An article is offered for betting only
  when it is strictly longer than 500 (`>` at `Bet.py:148`). Its author is
  rewarded from length 500 up (`>=` at `Bet.py:257`).
- **A second bet on the same thread replaces the stake and debits again.**
  The first stake is lost (`BetWorth`, `PlaceBetWorth`).

## Model

| member | source | states |
|---|---|---|
| Participants.Participant.constructor | Bet.py:36-41 | a new participant has balance 0, no grants and no stakes |
| Participants.Participant.Bet | Bet.py:43-45 | the stake on the thread becomes the amount and the balance drops by exactly the amount; stakes on other threads are unchanged |
| Participants.Participant.CollectReward | Bet.py:47-49 | the balance rises by the stake on the winner times the odds, and is unchanged without such a stake |
| Participants.Participant.CollectUbi | Bet.py:51-57 | the first call adds 100 and sets the flag; a later call changes nothing; `granted` tells which message is sent |
| Ledger.BetWorth | Bet.py:43-45 | a bet moves tokens from balance to stakes, but the stake it overwrites is lost |
| Ledger.RewardBalance | Bet.py:47-49 | one participant's payout is its stake on the winner times the odds, or 0 |
| ControlPanels.ControlPanel.constructor | Bet.py:80-90 | a new panel has no participants, articles, pools or odds and is in PREMATCH |
| ControlPanels.ControlPanel.Includes | Bet.py:169 | a participant with the username is listed iff the scan finds it |
| ControlPanels.ControlPanel.AddNewBetOption | Bet.py:148-150 | the thread is appended to the articles iff its opening message is longer than 500 characters |
| ControlPanels.ControlPanel.SendBetModal | Bet.py:161-185 | answers "not a participant", "insufficient funds" or places the bet, and the ledger becomes `PlaceBet` of the old ledger; an unparsable reply bets 0 |
| ControlPanels.ControlPanel.BetKnown | Bet.py:172-185 | for a listed user, the loop applies the bet to every matching participant who can cover it and reports a shortfall |
| Ledger.PlaceBetAt | Bet.py:172-185 | with unique usernames, the gate changes exactly the bettor's record, and only when its balance covers the amount |
| Ledger.PlaceBetUnknownUser | Bet.py:169-171 | an unknown user is refused and the ledger is unchanged |
| Ledger.PlaceBetWorth | Bet.py:172-185 | a placed bet changes the tokens in the ledger only by the overwritten stake; a refused one changes nothing |
| Ledger.PlaceBetKeepsSolvent | Bet.py:175-185 | non-negative balances stay non-negative under any amount, negative ones included, because the gate only debits a balance that covers the amount |
| ControlPanels.ControlPanel.AddStakes | Bet.py:206-212 | one participant's stakes are added to the pools thread by thread, and the running total grows by the sum of its stakes |
| ControlPanels.ControlPanel.AccumulatePools | Bet.py:204-212 | each pool grows by every participant's stake on its thread; the total is the sum of all stakes |
| ControlPanels.ControlPanel.FillOdds | Bet.py:214-215 | every pool gets odds total/pool; the loop succeeds iff no pool is 0; on failure only odds of non-zero pools were written |
| ControlPanels.ControlPanel.CalculateOdds | Bet.py:203-215 | pools grow by the stakes on each thread (equal to them on a fresh panel); odds are total/pool, so odds times pool is the total staked on every thread; it fails iff some pool is 0 |
| Ledger.OddsTimesPools | Bet.py:214-215 | when every pool's odds are total/pool, each whole pool paid out at its odds (`Payoff`) returns the total |
| Ledger.OddsExample | Bet.py:203-215 | stakes of 30 and 70 on two threads give pools 30 and 70, total 100 and odds 100/30 and 100/70 |
| ControlPanels.ControlPanel.SendAnnouncementModal | Bet.py:196-201 | a non-integer winner changes nothing; otherwise the pools grow by the stakes, the result is ZeroPool iff some pool is 0 (any thread, not only the winner), the odds are total/pool, the winner is paid iff it has odds, and the ledger is settled at those odds or unchanged; on a fresh panel the winner is paid iff somebody staked on it, and the balance sum then rises by the total staked |
| ControlPanels.ControlPanel.DistributeBetRewards | Bet.py:217-220 | fails iff the winner has no odds, changing nothing; otherwise the ledger becomes `Settle` of the old one |
| Ledger.SettlePaysEachStake | Bet.py:217-220 | each participant is paid its own stake on the winner times the odds; non-backers are left exactly as they were |
| Ledger.SettleAddsPayout | Bet.py:219-220 | settlement raises the balance sum by the participants' payouts |
| Ledger.PayoutIsPoolTimesOdds | Bet.py:217-220 | the payouts add up to the winner's pool times the odds |
| Ledger.SettlePaysPool | Bet.py:217-220 | settlement raises the balance sum by the winner's pool times the odds |
| Ledger.SettleDistributesTotal | Bet.py:203-220 | with odds total/pool, settlement hands out exactly the total staked |
| ControlPanels.BalanceTable | Bet.py:224-227 | the table write_json builds maps each username to the balance of its last record |
| Ledger.BalanceMapKeys | Bet.py:224-227 | the table has exactly one key per username in the ledger |
| Ledger.BalanceMapValues | Bet.py:224-227 | with unique usernames the table holds every participant's balance |
| ControlPanels.ControlPanel.RewardKnownAuthor | Bet.py:262-267 | for a listed author, the loop rewards a participant not yet rewarded when the post is long enough |
| ControlPanels.GrantRewardToArticleAuthor | Bet.py:248-267 | the ledger becomes `GrantAuthorReward` of the old one: an unknown author with a post of 500 characters or more is appended, rewarded; a listed non-author is rewarded |
| Ledger.GrantAuthorRewardRecords | Bet.py:248-267 | usernames stay unique; an unknown qualifying author is appended as an author holding the reward; a short post appends nothing; an existing author is unchanged |
| Ledger.GrantAuthorRewardIdempotent | Bet.py:248-267 | a second reward for the same post changes nothing |
| ControlPanels.ControlPanel.GrantUbiToKnown | Bet.py:340-343 | for a listed user, every matching participant not yet granted is granted |
| Ledger.ClaimUbiRecords | Bet.py:334-343 | after a claim the user has a granted record; an unknown user is appended once with balance 100; usernames stay unique |
| Ledger.ClaimUbiIdempotent | Bet.py:334-343 | a second claim changes nothing |
| Competition.CompetitionExtension.constructor | Bet.py:292-297 | the extension holds a fresh, empty panel in PREMATCH |
| Competition.CompetitionExtension.SetupCompetition | Bet.py:292-297 | setup replaces the panel, and with it the ledger, by a fresh empty one |
| Competition.CompetitionExtension.OnSetPhaseOngoing | Bet.py:305-316 | only when not already ONGOING: enter ONGOING, reward the author of every post and register the long enough posts; otherwise nothing changes; every listed participant was listed before or is newly created |
| Competition.GrantForPostsKeepsUnique | Bet.py:309-315 | rewarding the authors of any number of posts keeps usernames unique |
| Competition.ThresholdBoundary | Bet.py:148-150 | a post of exactly 500 characters rewards its unknown author (line 257 uses >=) but is not offered for betting (line 148 uses >) |
| Competition.CompetitionExtension.OnSetPhaseGrading | Bet.py:318-319 | GRADING is set from any phase |
| Competition.CompetitionExtension.OnSetPhaseConcluding | Bet.py:321-323 | CONCLUDING is set from any phase, then the announcement runs with the contract of `SendAnnouncementModal`: pools, odds, the ZeroPool iff some pool is 0, settlement iff the winner has odds, and the fresh-panel totals |
| Competition.CompetitionExtension.OnCollectUbi | Bet.py:334-343 | the ledger becomes `ClaimUbi` of the old one; `granted` holds iff the user was unknown or had a record not yet granted; every listed participant was listed before or is newly created |
| Competition.CompetitionExtension.OnBetButton | Bet.py:345-346 | a bet button runs the bet gate on the current ledger |
| Competition.CompetitionExtension.OnNewThread | Bet.py:348-362 | only for a thread in the competition forum while ONGOING: register it if long enough and reward its author; otherwise nothing changes; every listed participant was listed before or is newly created |

## Left out

- Chat-platform plumbing is not modelled: the client, buttons, modals, `wait_for_modal`, the messages sent back, `create_post`, `fetch_posts`, `fetch_message`. Their results arrive as parameters.
- Decoding the thread id from a button's `custom_id` (`Bet.py:180`) is not modelled: the thread id is a parameter.
- `on_reaction_added` and `remove_premature_reactions` (`Bet.py:243-244`, `Bet.py:364-369`) only delete reactions in the chat and do not touch the ledger.
- Writing the balance file is left out. `write_json` is modelled only as the table it builds (`BalanceTable`).
- The balance report printed at the end of the concluding branch is not modelled. Neither are `__str__`, `print_competition_info` or the URL and label strings.
- Floating-point rounding and range are not modelled: arithmetic is exact on `real`. In particular `float(amount)` at `Bet.py:185` raises `OverflowError` for an integer beyond the float range. A negative amount of that size passes the balance test at `Bet.py:175` and then aborts after the confirmation message at `Bet.py:182-184`, without recording the bet. The model records that bet.
- Interleaving of asynchronous handlers is not modelled: each handler runs to completion.
- The extension before `setup_competition`, whose channel and panel are `None`, is not modelled. The button and reaction handlers that use the panel would fail on it. `on_new_thread` filters out every thread (`Bet.py:350-351`). A button whose `custom_id` matches no branch does nothing.
- The `TypeError` branch of `__eq__` (`Bet.py:74-75`) is not modelled: it cannot arise between two participants.
- ControlPanels.ControlPanel.FillOdds: which odds are written before a zero pool aborts depends on dict order in the source. The model writes them in an unspecified order and states only that each written entry is total/pool.
