# The verifier's replay core, modelled and proved

An independent verifier replays a signed record of activities and recomputes, from that record alone, who
was a member of a hub, what each vote weighed, whether a round could still be decided, which bid won an
auction, what a period's work was worth, and whether a hash chain was tampered with. This project models
that arithmetic in Dafny and proves what it promises for every record, every order of a pool, every run of
a round and every chain.

Activities are typed datatypes. The digest of an activity is a field, and a lemma that needs digests to
tell activities apart says so (`CollisionFree`). Whether a signature verifies is a boolean of the ballot.
Instants are integers. Loops that update variables are methods with invariants, each proved equal to a
specification function (or proved outright), and the lemmas are about those functions. The modules named
`...Meaning` tie each of them to the activities' own fields, so that a statement about a doomed round or a
recomputed summary can be read without any definition of the model in between.

| file | models |
|---|---|
| `Prelude`, `Ordering`, `Arithmetic`, `Sums` | optional values, Python's string order and stable sort, gcd/lcm/powers, sums over dictionaries |
| `Membership`, `MembershipMeaning`, `MembershipTheorems`, `LateDecisions` | the membership trail, its role and operator folds, ratified acts, pinned rounds and what reaches back into them |
| `Weights`, `OperatorPower`, `Accountability` | voter weights, what they make of a quorum, and who answers for a fork |
| `Round`, `RoundMeaning`, `RoundRuns` | the bar, the tally, doom, the reasons for no decision; the round as a transition system |
| `Equivocation`, `EquivocationMeaning` | conviction, succession, the joint-replay equivocation scan |
| `Chain`, `ChainChecks`, `HubSlice` | per-actor hash chains with redaction, half-open intervals of a hub's chain |
| `Contribution`, `Summary`, `SummaryMeaning`, `SummaryTheorems`, `SummaryOrder` | contribution credit, period summaries, and what a summary depends on |
| `Terminal`, `TerminalTheorems` | lawful supersession of summaries, and how a dispute over one ends |
| `Coverage`, `CoverageMeaning`, `Ranking`, `BidPool`, `BidPoolMeaning`, `Reputation`, `ReputationMeaning` | the two selection rules, the admitted bid pool, decayed reputation |
| `Utf16`, `Jcs`, `JcsParser`, `JcsTheorems`, `Digits`, `Base58` | canonical JSON (RFC 8785) and base58 multikeys |

## Where the code and its documentation part

Each of these is proved with a concrete input, an exact condition, or both.

- A membership act without an `afp:action`, bound to a round whose policy names nothing for its outcome,
  edits the trail although its actuation check fails: `SilentExpulsion`. The two agree otherwise:
  `RatifiedVersusChecks`.
- A decision published after a round was pinned can complete the ratification of an act dated before it and
  so move the round's roles: `LateDecisionMovesRound`. It changes the trail exactly when the record already
  binds such an act to it (`LateDecisionReachesBack`), and an agent's role or instance exactly when a completed
  act is the last on the agent and leaves something else than was there (`LateDecisionKeepsSeatIff`).
- Under an explicit bar `threshold-not-met` can be justified although an option clears the bar, because
  silent seats outweigh it: `ExplicitBarCanBeClearedYetNotMet`, exactly when: `ThresholdNotMetMeans`.
- Two ballots of one voter at different sequence numbers both count: `RevoteOutgrowsElectorate`. The tally
  equals the pinned total exactly when nobody with weight is counted twice: `TallyIsPinnedTotalIff`.
- Counting the ballot of a convicted voter can undo a doom: `ConvictedBallotCanUndoDoom`, exactly when:
  `ConvictedBallotUndoesDoom`.
- A stub can be slipped into a passing chain at some places unnoticed: `ExtraStubPassesExactlyWhere`.
- From an empty start, a gap in the pool reads as the beginning of the hub's chain: `IntervalFromStart`.
- A boolean `true` share is credited although the denominator leaves it out, so one Result can be worth more
  than one: `BooleanShareIsCredited`. A period's credit is conserved exactly when no Result read for it
  declares one: `CreditIsConserved`.
- A negative share is credited too when the split's sum is positive, so reading more can lower an operator's
  credit: `NegativeShareLowersCredit`, exactly when: `WiderScopeLowersCreditIff`.
- Consecutive periods fold their operator mappings at their own closes, so an operator's credit need not add
  up; exactly when it does: `RecomputedPeriodsAddIff`.
- The operator mapping of a summary breaks ties by pool order, not by digest: `OperatorTieFollowsPoolOrder`.
  It is the same for every order exactly when each agent's latest Enrolls up to the close name one operator:
  `OperatorsForgetOrderIff`.
- The equivocation scan names the holders of the first convicting slot of a pair only:
  `LaterHolderGoesUnnamed`, exactly who is named: `FindingsNameFirstHolders`.
- Only the first commitment a reveal opens is held against the window, so an earlier duplicate shuts out a
  timely one: `EarlierDuplicateShutsOut`, exactly when order can matter: `AnyArrangementPassesIff`.
- With a positive latency weight an unparseable latency wins: `UnparseableLatency`.
- "Exactly one standing summary" is checked as "at most one", and a revision may name another period. Two
  ratified summaries that supersede each other pass and neither stands (`MutualSupersessionPasses`); a ratified
  revision that names another period passes and leaves two answers to one period's dispute
  (`CrossPeriodRevisionPasses`). When the checks pass, a dispute ends exactly outside of cycles without exit
  (`DisputeEndsIff`, `SomeDisputeNeverEndsIff`), and a period has one answer exactly when none of its ratified
  summaries is caught in one and none leads to a standing summary of another period (`OneAnswerIff`).
- A standing summary carried by two bundles is reported against itself: `CarriedTwiceIsReported`.
- Settlements that do not score a bidder can still age the older ones that do: `SilentMiddleCounts`. The exact
  fraction is kept if and only if nothing decays or the older and the newer part have one fraction:
  `SilentMiddleKeepsFractionIff`.
- The ranking breaks full ties by pool order: the award is the same for every order exactly when all unbeaten
  offers name one bidder and one payload: `RankingForgetsOrderIff`.

## Model

| member | source | states |
|---|---|---|
| Membership.RatifiedMembershipActs | src/verifier/electorate.py:235-298 | the loop keeps exactly the acts whose decision, round, subject and policy legs all hold and that the hub did not sign |
| Membership.EnrolledRolesAt | src/verifier/decision.py:228-283 | the role loop equals the fold over the trail in (instant, digest) order |
| Membership.EnrolledInstances | src/verifier/decision.py:298-357 | the operator loop equals its fold over the same trail |
| MembershipMeaning.RatifiedMeans | src/verifier/electorate.py:273-298 | an act is ratified if and only if it is this hub's, not signed by the hub, and the pool holds the decision it acts on and that round's first proposal with its subject and, for the outcome, its action |
| MembershipMeaning.TrailMeans | src/verifier/decision.py:253-271 | what counts at an instant is exactly the pool's Enrolls and Unenrolls for the hub and its ratified acts, each published no later |
| MembershipMeaning.SeatMeans | src/verifier/decision.py:228-357 | the last of them on an agent decides, by instant and then digest: an Enroll seats it in its role and for its signer, an Admit in those of the last Enroll, an Unenroll or expulsion not at all |
| MembershipMeaning.NobodySeatsIt | src/verifier/decision.py:228-357 | an agent nothing counts for has neither role nor instance |
| MembershipMeaning.SomeActIsLast | src/verifier/decision.py:269-271 | when something counts for an agent, one act is the last |
| MembershipMeaning.SomeEnrollIsLast | src/verifier/decision.py:346-354 | when something enrolled an agent, one Enroll is the last |
| MembershipMeaning.EffectiveOperatorMeans | src/verifier/decision.py:360-385 | the last change of control an instance declared up to an instant names its operator; without one, or naming nobody, it is its own |
| MembershipMeaning.RecomputedWeightsMean | src/verifier/decision.py:572-577 | every pinned voter's recomputed weight is positive and, times the number of pinned voters with its effective operator, one number for the whole round |
| MembershipTheorems.RolesClosedForm | src/verifier/decision.py:228-283 | an agent's role is decided by its greatest act under (instant, digest); an Admit restores the latest earlier Enroll's role, or `member` |
| MembershipTheorems.InstancesClosedForm | src/verifier/decision.py:298-357 | an agent's instance likewise; a readmitted seat returns to the instance that enrolled it, never to the act's signer |
| MembershipTheorems.InstancesAreEnrolledSeats | src/verifier/decision.py:298-357 | the operator fold has exactly the seated agents that some Enroll of the trail names |
| MembershipTheorems.LastActDecides | src/verifier/decision.py:228-283 | an agent with an act in the trail is seated if and only if the last act about it is an Enroll or an Admit |
| MembershipTheorems.MembershipForgetsOrder | src/verifier/decision.py:228-283 | roles and instances depend on which activities a pool holds, not on their order or on duplicates, at every instant (one proposal per round) |
| MembershipTheorems.WeightsForgetPoolOrder | src/verifier/decision.py:549-577 | nor do the weights a round is checked against |
| MembershipTheorems.RatificationIsKept | src/verifier/electorate.py:273-298 | what a pool ratifies stays ratified whatever is appended |
| MembershipTheorems.PinnedRoundIsStable | src/verifier/decision.py:549-577 | activities dated after a round that decide no round leave its roles, operator buckets and recomputed weights unchanged |
| MembershipTheorems.UnratifiedActIsInvisible | src/verifier/electorate.py:273-298 | appending a membership act that fails any leg changes no role, instance or weight at any instant |
| LateDecisions.CompletesExactly | src/verifier/electorate.py:284-298 | an act counts with the late decision or proposal if and only if it counted before or the record binds it to that decision (or to a decision of that round), with matching subject and policy |
| LateDecisions.LateDecisionReachesBack | src/verifier/decision.py:270-283 | a late decision or proposal changes the trail of an earlier instant if and only if the record binds to it such an act dated within the trail |
| LateDecisions.LateDecisionKeepsSeatIff | src/verifier/decision.py:228-357 | it leaves an agent's role (instance) alone if and only if the last act on the agent is none it completes, or leaves the role (instance) that was there |
| LateDecisions.LateDecisionKeepsWeights | src/verifier/decision.py:572-577 | a round's weights stay when the instances of its voters do |
| LateDecisions.LateDecisionNobodyActsOn | src/verifier/electorate.py:284-294 | a simple sufficient guard: nobody acts on the late decision, or nothing has decided the late round |
| LateDecisions.LateDecisionMovesRound | src/verifier/electorate.py:284-294 | an expulsion dated before a round and completed by a decision dated after it removes a seat of that round |
| MembershipTheorems.RatifiedVersusChecks | src/verifier/decision.py:1501-1556 | an act of this hub passes both actuation findings if and only if the trail admits it and it names an action and its round a subject |
| MembershipTheorems.SilentExpulsion | src/verifier/electorate.py:291-298 | an act with no action under a policy that names nothing fails its check and still removes a seat |
| Weights.VoterWeights | src/verifier/decision.py:388-410 | the counting and lcm loops give the weight dictionary of the pinned voters |
| Weights.CountSeats | src/verifier/decision.py:396-399 | the counting loop holds every operator's number of seats, in order of first appearance |
| Weights.FoldLcm | src/verifier/decision.py:400-405 | the lcm loop over the sorted operators reaches the common total |
| Weights.WeightIsExactShare | src/verifier/decision.py:406-410 | every weight is a positive integer, and as many of them as the operator has seats make the common total exactly |
| Weights.OperatorsCarryEqualTotals | src/verifier/decision.py:388-410 | each operator's voters together weigh the same total |
| Weights.CommonTotalIsLeast | src/verifier/decision.py:400-405 | that total is the least positive integer divisible by every bucket size |
| Weights.PinnedTotal | src/verifier/decision.py:388-410 | all weights sum to that total times the number of operators |
| Weights.WeightsForgetOrder | src/verifier/decision.py:388-410 | the dictionary does not depend on the order of the voters |
| OperatorPower.CoalitionClearsIff | src/verifier/decision.py:53-84 | all seats of some operators clear a majority (two-thirds) bar if and only if they are more than a half (two thirds) of the operators, whatever they seat |
| OperatorPower.TallyIsBackersWeight | src/verifier/decision.py:662-664 | with each voter counted once an option holds exactly the weight of those who voted for it |
| OperatorPower.MinorityNeverDecides | src/verifier/decision.py:388-410 | in every run, an option backed only by voters of a minority of operators never clears, however many agents they seat |
| Accountability.ForksShareBackers | src/verifier/decision.py:53-84 | two counts of one proposal that clear two options share backers of more than a third of the weight under two thirds, of some weight under a majority |
| Accountability.ForksAreAccountable | src/verifier/equivocation.py:43-61 | when they clear different options, votes cast under one sequence number convict that weight |
| Round.RecomputeTally | src/verifier/decision.py:619-673 | the tally loop gives the tally, counted voters and four finding lists of a recount hash by hash |
| Round.RecountTally | src/verifier/decision.py:619-673 | the tally is that of exactly the ballots present, signed or received, and pinned |
| Round.RecountVoters | src/verifier/decision.py:619-673 | counted voters are those ballots' authors, all of them pinned |
| Round.RecountAccountsForAll | src/verifier/decision.py:619-673 | each hash is counted or reported once, and nothing is reported if and only if every hash is an admissible ballot |
| RoundMeaning.FindingsMean | src/verifier/decision.py:631-673 | the four finding lists hold exactly the absent, the unsigned and not received, the unpinned and the late hashes, in order |
| RoundMeaning.RecountedTallyMeans | src/verifier/decision.py:662-664 | an option's tally is the sum of the declared weights of the hashes that resolve to a vote for it by a pinned voter, signed or received |
| RoundMeaning.FinalTallyMeans | src/verifier/decision.py:758-765 | only `abstain` gains by silence: the weight of the pinned voters without a counted ballot |
| Round.TallyConservation | src/verifier/decision.py:758-765 | tally plus abstention is the pinned total plus (n-1) times the weight of each voter counted n times |
| Round.TallyIsPinnedTotalIff | src/verifier/decision.py:758-765 | it is exactly the pinned total if and only if no voter of positive weight is counted twice |
| Round.RevoteOutgrowsElectorate | src/verifier/decision.py:662-664 | two counted ballots of one voter make the tally exceed the pinned total by its weight |
| Round.AtMostOneClears | src/verifier/decision.py:53-84 | under a relative rule at most one entry of the tally, `abstain` included, clears the bar |
| Round.QuorumsIntersect | src/verifier/decision.py:53-84 | two sets that reach a two-thirds bar share more than a third of the weight; two majorities share some |
| Round.Winner | src/verifier/decision.py:836-841 | the loop finds the first candidate of greatest weight among the options and `abstain` |
| RoundMeaning.LeaderIsFirst | src/verifier/decision.py:836-841 | what it finds is ahead of every earlier candidate and not behind any later one |
| RoundMeaning.ClearsMeans | src/verifier/decision.py:53-84 | an option clears if and only if the rule sets a bar and the option holds more than a half, more than two thirds, or at least the declared number |
| RoundMeaning.ExplicitBarIsTheNumber | src/verifier/decision.py:68-83 | under an explicit rule for n, integer or float, clearing is holding n, and doom is that no option can reach n |
| RoundMeaning.NoBarDecidesNothing | src/verifier/decision.py:68-84 | without a rule, with an unknown form, or with a boolean, missing, fractional or non-positive threshold nothing clears and nothing is doomed |
| RoundMeaning.DoomedMeans | src/verifier/equivocation.py:157-191 | doomed if and only if the rule sets a bar, there are options, and none meets the rule with the weight of all pinned voters that are neither counted nor convicted |
| RoundMeaning.NotMetMeans | src/verifier/decision.py:842-844 | `threshold-not-met` is justified if and only if there is no bar, no option meets it, or abstention outweighs every option |
| RoundMeaning.ExhaustedMeans | src/verifier/decision.py:87-137 | exhausted if and only if somebody was recused and the whole pinned weight fails the bar, or there is neither rule nor voter |
| Round.ThresholdNotMetMeans | src/verifier/decision.py:843-844 | for every form: justified if and only if no option clears, or abstention outweighs every option |
| Round.ThresholdNotMetExact | src/verifier/decision.py:843-844 | under a relative rule with each voter counted once: justified if and only if no option clears |
| Round.ExplicitBarCanBeClearedYetNotMet | src/verifier/decision.py:843-844 | under an explicit bar an option can clear while the reason is justified |
| Round.ExhaustedIsDoomed | src/verifier/decision.py:87-137 | an electorate that cannot reach its bar is doomed whatever ballots were counted, each voter once |
| Round.DoomedHasNoWinner | src/verifier/equivocation.py:157-191 | in a doomed round no option clears and `threshold-not-met` is justified too (`abstain` being no option) |
| RoundRuns.DoomIsStable | src/verifier/equivocation.py:157-191 | once doomed, doomed along every run of first casts and convictions |
| RoundRuns.DoomedIffNothingCanClear | src/verifier/equivocation.py:157-191 | doomed if and only if no run of further casts and convictions lets any option clear |
| RoundRuns.DoomedIffNoCompletionClears | src/verifier/equivocation.py:157-191 | doomed if and only if no assignment of the undecided voters to options reaches the bar |
| RoundRuns.ConvictedBallotUndoesDoom | src/verifier/equivocation.py:157-191 | a counted ballot of a convicted voter keeps the doom if and only if its weight does not lift its option to the bar |
| RoundRuns.ConvictedBallotCanUndoDoom | src/verifier/equivocation.py:157-191 | such a ballot of a voter of weight 1 undoes a doom under an explicit bar of 1 |
| RoundRuns.RunIsReplayed | src/verifier/decision.py:619-673 | replaying the evidence of any run, one present ballot for each cast, recounts its tally and its voters and raises no finding |
| RoundRuns.RunCountsOnce | src/verifier/decision.py:653-664 | every run counts only pinned voters, each at most once |
| RoundRuns.WeightIsConserved | src/verifier/equivocation.py:157-191 | in every reachable state tally, reserve and forfeited weight add up to the pinned total |
| RoundRuns.RunIsMonotone | src/verifier/equivocation.py:157-191 | along every run tallies only grow and what an option can reach only falls |
| RoundRuns.NoTwoOptionsEverClear | src/verifier/decision.py:53-84 | under a relative rule two different options never clear, at whatever moments of one run |
| RoundRuns.DoomAndDecisionExclude | src/verifier/equivocation.py:157-191 | a run in which an option clears was doomed at no moment |
| RoundRuns.ExhaustedNeverClears | src/verifier/decision.py:107-137 | an exhausted electorate with a rule lets no option clear in any run |
| Equivocation.ConvictedActorsInRound | src/verifier/equivocation.py:85-101 | the nested loops collect every actor a well-formed proof names for the round |
| EquivocationMeaning.ConvictsMeans | src/verifier/equivocation.py:24-61 | two votes convict if and only if actor, round, phase and a positive integer sequence number agree and value or proposal hash differ |
| EquivocationMeaning.NamedByProofMeans | src/verifier/equivocation.py:64-101 | an actor is convicted, and announced, for a round if and only if a two-vote proof for that round has a vote of the actor |
| Equivocation.ConvictionsAreReal | src/verifier/equivocation.py:43-61 | if proofs pass their check, each convicted actor cast two votes in one slot of that round that say different things |
| Equivocation.Successor | src/verifier/equivocation.py:126-154 | the scan returns the first seat after the proposer that is neither convicted nor silent, and none if and only if every voter is |
| Equivocation.RotationKeepsVoters | src/verifier/equivocation.py:126-154 | seat k of the rotation is the k-th after the proposer, cyclically; nobody is lost |
| EquivocationMeaning.RotationStartsAfterProposer | src/verifier/equivocation.py:147-148 | the rotation starts after the proposer's first place |
| EquivocationMeaning.RotationWithoutProposer | src/verifier/equivocation.py:147-148 | or with the first voter when the proposer is none |
| Equivocation.GroupVotes | src/verifier/afp_verify.py:1419-1434 | the grouping pass gives per slot the distinct digests and the domains that hold each |
| Equivocation.ScanGroup | src/verifier/afp_verify.py:1441-1465 | one group's pass finds whether some pair convicts, and exactly the domains holding a convicting vote |
| Equivocation.GroupScanIsAllPairs | src/verifier/afp_verify.py:1441-1465 | scanning a slot's group finds a convicting pair if and only if two votes of that slot anywhere in the pool convict |
| Equivocation.GroupConvictsIffSomeVoteDiffers | src/verifier/equivocation.py:43-61 | a group convicts if and only if some vote differs from the first in value or proposal; re-signed copies never do |
| Equivocation.EquivocationScan | src/verifier/afp_verify.py:1401-1476 | a (round, actor) pair is reported if and only if two votes somewhere in the merged pool convict and no announced proof names it |
| EquivocationMeaning.ScanMeans | src/verifier/afp_verify.py:1401-1476 | over the votes' own fields: a pair is reported if and only if no proof on record names it and two votes of that actor in that round contradict each other in one phase and sequence number |
| EquivocationMeaning.HoldersMean | src/verifier/afp_verify.py:1452-1465 | a named domain holds one of two contradicting votes in that very place |
| EquivocationMeaning.SlotsInOrderOfArrival | src/verifier/afp_verify.py:1425-1434 | groups come in the order their first vote arrived |
| Equivocation.ReportedIsConcealed | src/verifier/afp_verify.py:1401-1476 | the group by group report equals the all-pairs specification |
| Equivocation.FindingsNameFirstHolders | src/verifier/afp_verify.py:1452-1476 | a domain is named if and only if it holds a convicting vote in the first convicting slot of an unannounced pair |
| Equivocation.LaterHolderGoesUnnamed | src/verifier/afp_verify.py:1452-1476 | a domain that holds two convicting votes of a later slot of the same pair goes unnamed |
| Chain.Report.Record | src/verifier/afp_verify.py:92-95 | appends one finding and returns its verdict; earlier findings stay |
| Chain.CheckChain | src/verifier/afp_verify.py:329-399 | the loop appends exactly the link and instant findings of the walk, stub by stub |
| ChainChecks.RecordMeans | src/verifier/afp_verify.py:343-399 | on any chain each entry has its findings: a stub that it declares a digest; a disclosed entry that it is not before the latest disclosed one and names the nearest known digest, or starts the chain |
| ChainChecks.ExpectedIsOne | src/verifier/afp_verify.py:369-397 | that digest and that instant are determined by the entries before |
| Chain.PassesIffIntact | src/verifier/afp_verify.py:329-399 | all findings hold if and only if every disclosed activity names its predecessor, stubs declare digests, and disclosed instants never fall |
| Chain.UniqueHistory | src/verifier/afp_verify.py:343-412 | two non-empty passing stub-free chains with one head digest are the same sequence |
| Chain.AgreeBackToStub | src/verifier/afp_verify.py:343-412 | with stubs they agree from the head back as far as neither is redacted, and on the digest expected before |
| Chain.DigestsAreDistinct | src/verifier/afp_verify.py:343-412 | no digest occurs twice on a passing stub-free chain |
| Chain.RearrangementIsPrefix | src/verifier/afp_verify.py:343-412 | any passing chain made of a passing chain's activities is a prefix of it |
| Chain.DeletionIsDetected | src/verifier/afp_verify.py:343-412 | deleting any activity but the newest makes the check fail |
| Chain.ReorderingIsDetected | src/verifier/afp_verify.py:343-412 | any other order of the same activities makes the check fail |
| Chain.RedactionIsTransparent | src/verifier/afp_verify.py:343-412 | replacing any set of activities by stubs that declare their digests still passes and keeps the head digest |
| Chain.ExtraStubPassesExactlyWhere | src/verifier/afp_verify.py:369-397 | an added stub passes if and only if it is last, precedes a stub, or declares the digest expected there |
| HubSlice.HubChainSlice | src/verifier/summary.py:95-118 | the backward walk ends, returns the half-open interval in chain order, and None only when no interval resolves |
| HubSlice.IntervalIsUnique | src/verifier/summary.py:95-118 | at most one list is the interval between two ends |
| HubSlice.IntervalsCompose | src/verifier/summary.py:95-118 | slice(a,c) is slice(a,b) followed by slice(b,c) |
| HubSlice.IntervalOnChain | src/verifier/summary.py:95-118 | on a held chain the interval after position i up to j is exactly those entries |
| HubSlice.IntervalFromStart | src/verifier/summary.py:112-118 | from the empty start it is all that is held; it is the whole history if and only if nothing older is missing |
| HubSlice.IntervalResolvesWithin | src/verifier/summary.py:105-118 | with a named start an interval resolves only when that start is held at or before the end |
| Contribution.LcmOf | src/verifier/summary.py:138-146 | the fold is the least common multiple of positive values |
| Contribution.CreditOfAddsUp | src/verifier/summary.py:121-135 | one Result's rows share a positive denominator and add up to it, boolean shares aside |
| Contribution.WorthIsExact | src/verifier/summary.py:269-273 | every share divides out exactly over the common denominator |
| Contribution.CreditedIsSum | src/verifier/summary.py:270-273 | an operator's credit is the sum over its agents' rows |
| Contribution.CreditedTotal | src/verifier/summary.py:270-273 | the total credit does not depend on how agents are grouped |
| Contribution.ResultWorth | src/verifier/summary.py:121-135 | one Result is worth one denominator plus one part per boolean `true` share |
| SummaryMeaning.SplitMeans | src/verifier/summary.py:126-130 | a split of several authors credits each integer or boolean share over the sum of its integer shares, when that is positive |
| SummaryMeaning.WholeMeans | src/verifier/summary.py:131-135 | any other Result is one whole of its author, or of the first of its authors when that one is named |
| SummaryMeaning.DenominatorMeans | src/verifier/summary.py:269 | the denominator is the least positive number every credited row's own one divides |
| Summary.RecomputeSummary | src/verifier/summary.py:149-303 | None if and only if the interval does not resolve; otherwise denominator, credit, unreadable, qualified and inputs of exactly that interval |
| SummaryMeaning.JoinMeans | src/verifier/summary.py:225-234 | a Result is read for a settlement if and only if it is on the thread of the settled task's last announce in the pool, and visible in scope |
| SummaryMeaning.InputsMean | src/verifier/summary.py:224-262 | the inputs are exactly the digests of the period's settlements and of the Results read for them |
| SummaryMeaning.CreditMeans | src/verifier/summary.py:209-273 | an operator's credit is the double sum over the period's settlements and the pool's Results read for them of the shares of the agents it operates |
| Prelude.FloorDivMeans | src/verifier/summary.py:273 | the whole quotient, also of a negative share: the only one whose remainder is zero or has the sign of the divisor and is smaller |
| SummaryMeaning.UnreadableMeans | src/verifier/summary.py:235-249 | its unreadable count is the number of settlements without a Result to read that name an agent of it, or that name nobody when it operates `unattributed` |
| SummaryMeaning.QualifiedMeans | src/verifier/summary.py:250-267 | its qualified count is the number of pairs of a settlement and a Result read for it that credits it and on whose thread something was superseded |
| SummaryMeaning.SummaryMeans | src/verifier/summary.py:149-303 | all of these for the recomputed summary of a declared frame, over the deduplicated pool and the operators at the period's close |
| SummaryMeaning.UnrelatedResultIsIgnored | src/verifier/summary.py:227-234 | adding a Result on the thread of no settled task leaves the recomputed summary unchanged |
| Summary.FoldOperators | src/verifier/summary.py:189-204 | the loop equals the fold of Enrolls up to the period's close |
| Summary.ReadResults | src/verifier/summary.py:261-267 | the loop adds each readable Result's rows and qualifications once |
| Summary.Credit | src/verifier/summary.py:270-273 | the dictionary loop gives each operator its credit |
| Summary.SliceFoldRows | src/verifier/summary.py:214-267 | the pass collects exactly the rows of the period, whatever the operator mapping |
| SummaryTheorems.CreditIsConserved | src/verifier/summary.py:209-273 | for every grouping, total credit is at least the denominator times the number of (settlement, readable Result) pairs that carry credit, and exactly that if and only if no Result read declares a boolean `true` share |
| SummaryTheorems.ResultIsWholeIff | src/verifier/summary.py:126-130 | a Result is worth exactly one if and only if no share is a boolean `true` |
| SummaryTheorems.BooleanShareIsCredited | src/verifier/summary.py:126-130 | a split of 1 and `true` is credited twice over a denominator of 1 |
| SummaryTheorems.ScopesAdd | src/verifier/summary.py:227-273 | an operator's credit in two disjoint scopes adds up to its credit in both, as fractions of their own denominators |
| SummaryTheorems.WiderScopeLowersCreditIff | src/verifier/summary.py:227-273 | a wider scope keeps or raises an operator's fraction if and only if what only the wider scope reads credits it with no negative amount |
| SummaryTheorems.WiderScopeNeverLowersCredit | src/verifier/summary.py:227-273 | so it never lowers anyone's when no newly read Result declares a negative share |
| SummaryTheorems.NegativeShareLowersCredit | src/verifier/summary.py:126-130 | a split of 2 and -1 is accepted and lowers its second author's credit for whoever reads it |
| SummaryTheorems.WiderScopeNeverHidesWork | src/verifier/summary.py:235-249 | nor does it raise an operator's count of unreadable work |
| SummaryTheorems.ConsecutivePeriodsAdd | src/verifier/summary.py:214-273 | adjacent periods under one operator mapping: interval, rows, unreadable counts and credit fractions of the joined period are the sums of the two |
| SummaryTheorems.RecomputedPeriodsAddIff | src/verifier/summary.py:189-204 | with each period's own mapping an operator's fractions add up if and only if the first period credits it alike under both |
| SummaryTheorems.SameOperatorsSameCredit | src/verifier/summary.py:206-207 | which holds for everyone when no agent credited in the first period changes operator in between |
| SummaryTheorems.DedupKeepsDigests | src/verifier/summary.py:165 | deduplication keeps every digest |
| SummaryTheorems.DedupHasNoCopies | src/verifier/summary.py:165 | and keeps each once |
| SummaryTheorems.CopiesDoNotCount | src/verifier/summary.py:160-165 | copies that arrive behind a pool leave the deduplicated pool unchanged |
| SummaryTheorems.OperatorsMean | src/verifier/summary.py:189-204 | an agent maps to the signer of a latest Enroll up to the close, and to nothing if and only if there is none |
| SummaryMeaning.OperatorMeans | src/verifier/summary.py:189-207 | over the Enrolls' own fields: an agent has an operator if and only if an Enroll for the hub up to the close names it, and it is the signer of a latest one |
| SummaryTheorems.OperatorsForgetOrder | src/verifier/summary.py:189-204 | when an agent's latest Enrolls up to the close name one operator, the mapping depends on neither order nor copies |
| SummaryTheorems.OperatorsForgetOrderIff | src/verifier/summary.py:189-204 | the mapping is the same for every order of the pool if and only if each agent's latest Enrolls up to the close name one operator |
| SummaryTheorems.OperatorTieFollowsPoolOrder | src/verifier/summary.py:201-204 | each of several tied latest Enrolls wins in some order of the pool |
| SummaryOrder.SummaryForgetsOrder | src/verifier/summary.py:149-303 | two pools with the same activities, in any order and with any copies, recompute one interval, denominator, credit, unreadable and qualified work and inputs, given one thread per task and agreeing latest Enrolls |
| Terminal.CheckSummaryTerminal | src/verifier/summary.py:323-420 | the loops report exactly the unlawful supersessions and the labels of periods in which two entries stand |
| TerminalTheorems.UnlawfulMeans | src/verifier/summary.py:370-394 | reported are exactly the summaries that supersede one no bundle lists, or that are undecided and supersede a decided one |
| TerminalTheorems.CompetingMeans | src/verifier/summary.py:396-420 | and the decided, unsuperseded summaries of a period in which two places of the listing hold one |
| Terminal.Gather | src/verifier/summary.py:354-368 | the bundle loops list every summary and every superseded id |
| Terminal.RatifyingDecisionFound | src/verifier/summary.py:306-320 | the lookup finds a decision if and only if some decision record names the summary as its outcome |
| TerminalTheorems.NoUnlawfulIff | src/verifier/summary.py:370-394 | no parity finding if and only if every supersession names a listed summary and a ratified one is superseded only by a ratified one |
| Terminal.NothingCompetesIff | src/verifier/summary.py:396-420 | no competing finding if and only if no two entries of one period are ratified and unsuperseded |
| TerminalTheorems.RatificationIsInherited | src/verifier/summary.py:384-387 | along lawful revisions a ratified summary is followed only by ratified ones |
| TerminalTheorems.DisputeEndsIff | src/verifier/summary.py:323-345 | under lawful supersession the revisions of a ratified summary lead to one that stands if and only if it is in no set of ratified ids that are superseded, and only by one another |
| TerminalTheorems.SomeDisputeNeverEndsIff | src/verifier/summary.py:323-345 | some ratified summary never reaches one that stands if and only if such a set exists |
| TerminalTheorems.DisputeEnds | src/verifier/summary.py:323-345 | acyclic supersession is enough: the revisions of any ratified summary end |
| TerminalTheorems.OneAnswerIff | src/verifier/summary.py:323-345 | when both checks pass, all ratified summaries of a period are revised into one standing summary of it and no other if and only if none is in such a set and none leads to a standing summary of another period |
| TerminalTheorems.OneAnswerPerPeriod | src/verifier/summary.py:323-345 | when both checks pass and revisions are acyclic and keep their period, any two ratified summaries of a period are revised into the same standing one |
| TerminalTheorems.MutualSupersessionPasses | src/verifier/summary.py:396-420 | without acyclicity both checks can pass and nothing stand |
| TerminalTheorems.CrossPeriodRevisionPasses | src/verifier/summary.py:370-394 | an acyclic ratified revision that names another period passes both checks and leaves a period's two ratified summaries with two answers |
| TerminalTheorems.CarriedTwiceIsReported | src/verifier/summary.py:358-368 | a standing summary in two of any number of bundles is reported |
| Coverage.SelectCoverage | src/verifier/allocation.py:173-216 | announces nobody if and only if no subset covers the domains; otherwise a covering subset that no other beats on (size, joined sorted keys) |
| CoverageMeaning.NobodyMeans | src/verifier/allocation.py:182-209 | nobody is awarded if and only if no domain was announced or some announced domain is claimed at the floor by no bid |
| CoverageMeaning.AwardMeans | src/verifier/allocation.py:173-216 | otherwise a team of bids that claims every announced domain at the floor, that no choice of bids betters in size and then by the joined sorted tie-break digests, in the order of those digests; the synthesizer of more than one claims the most domains, then has the lowest digest |
| CoverageMeaning.CoversMeans | src/verifier/allocation.py:185-201 | a choice of bids covers if and only if every announced domain is claimed at the floor by one of them |
| Ordering.LexLeMeans | src/verifier/allocation.py:204 | one key is no later than another if and only if it is a prefix, or is smaller where the two first differ |
| Ordering.SortIsStable | src/verifier/allocation.py:212 | entries the sort cannot tell apart keep the order they came in |
| Coverage.BestCover | src/verifier/allocation.py:195-206 | the mask loop keeps the best covering subset among all masks so far |
| Coverage.MaskOfChoice | src/verifier/allocation.py:197-198 | every subset is enumerated by some mask from 1 to 2^n-1 |
| Coverage.ChoiceOfMask | src/verifier/allocation.py:197-198 | every mask enumerates a subset |
| Coverage.OptimalIsSmallest | src/verifier/allocation.py:173-216 | no covering subset is smaller |
| Coverage.OptimalIsIrredundant | src/verifier/allocation.py:173-216 | no bid of the optimum can be spared |
| Coverage.OptimalIsNoLargerThanDomains | src/verifier/allocation.py:173-216 | the optimum has at most one bid per domain |
| Coverage.SelectionIsNoLargerThanDomains | src/verifier/allocation.py:173-216 | so a selection never names more performers than there are announced domains |
| Coverage.JoinInjective | src/verifier/allocation.py:202 | comma-joining digests of one length loses nothing, so equal keys mean equal bids |
| Coverage.SelectionForgetsOrder | src/verifier/allocation.py:173-216 | for distinct tie-break digests the selection is the same for every order of the bids |
| Coverage.DistinctBiddersSeparate | src/verifier/allocation.py:101-103 | bidders with distinct tie-break digests make the entries that result needs |
| Coverage.LeadCoversMost | src/verifier/allocation.py:211-215 | the synthesizer covers the most domains, with the lowest key among those |
| Ranking.SelectRanking | src/verifier/allocation.py:139-170 | the loop keeps the first offer of greatest (score, then lower digest) |
| Ranking.ChampionIsUnbeaten | src/verifier/allocation.py:148-166 | the winner is an offer and no offer beats it |
| Ranking.WinnerMeans | src/verifier/allocation.py:145-166 | over the offers' own fields: nobody is ahead of the winner by the weighted sum of fields, or by a missing latency, and none level with it has a lower tie-break digest |
| Ranking.AheadMeans | src/verifier/allocation.py:145-163 | score order is order by weight times field, summed, with a missing latency on the side its weight's sign gives |
| Ranking.ImprovingKeepsTheAward | src/verifier/allocation.py:149-163 | a winner that moves any field in the direction of that field's own weight still wins |
| Ranking.WinsIffBeatsAll | src/verifier/allocation.py:148-166 | an offer wins if and only if it beats every other one |
| Ranking.RankingForgetsOrder | src/verifier/allocation.py:139-170 | with distinct tie-break digests the award does not depend on the order of the pool |
| Ranking.RankingForgetsOrderIff | src/verifier/allocation.py:139-170 | the award is the same for every order if and only if all unbeaten offers name one bidder and one payload |
| Ranking.UnparseableLatency | src/verifier/allocation.py:106-125 | an infinite latency loses under a negative weight, wins under a positive one, and has no effect under a zero weight |
| Ranking.RankingIsScaleFree | src/verifier/allocation.py:145-163 | scaling all weights by a positive factor changes nothing |
| BidPool.Reconstruct | src/verifier/allocation.py:301-480 | the loops rebuild the findings and the admitted pool of an award |
| BidPool.JudgeReveals | src/verifier/allocation.py:349-385 | each reveal goes to unmatched, bound elsewhere, early or matched, by the first commitment it opens |
| BidPool.SplitByWindow | src/verifier/allocation.py:401-409 | each matched entry goes inside or outside the window by its commitment |
| BidPool.EveryRevealIsAccounted | src/verifier/allocation.py:349-409 | every reveal is under exactly one finding or goes on to admission |
| BidPool.PoolIsTheAdmitted | src/verifier/allocation.py:472-479 | an entry is in the pool if and only if it passes every leg of admission |
| BidPoolMeaning.PoolMeans | src/verifier/allocation.py:325-479 | over the activities' own fields and the terms: a bid is in the pool if and only if revealed on the task in its own bidder's name after the close, first committed to inside the window, by a member no exclusion, estimator wall or prior task keeps out |
| BidPoolMeaning.MembersMean | src/verifier/allocation.py:312-323 | the members at an instant are exactly the agents whose last act that counts seats them as one: an Enroll as member, or an Admit whose last Enroll is one or is missing |
| BidPoolMeaning.FindingsMean | src/verifier/allocation.py:349-399 | each reveal finding lists exactly the reveals on the task without a commitment, in another's name, or shown early |
| BidPoolMeaning.OutsideMeans | src/verifier/allocation.py:401-416 | and the window finding exactly those whose first commitment is dated outside |
| BidPoolMeaning.SeveralCommitmentsMean | src/verifier/allocation.py:332-340 | an actor is found to hold several commitments if and only if two of its own on the task differ |
| BidPool.AdmittedBidWasSealed | src/verifier/allocation.py:349-409 | an admitted bid was committed by its own bidder inside the window and revealed, to that digest, only after it closed |
| BidPool.NoFreeOption | src/verifier/allocation.py:332-347 | without the multiple-commitment finding all admitted bids of one bidder are one payload |
| BidPool.AnyArrangementPassesIff | src/verifier/allocation.py:362-365 | a reveal with a timely commitment passes for every order of the record if and only if none of its commitments is untimely |
| BidPool.EarlierDuplicateShutsOut | src/verifier/allocation.py:362-365 | an untimely duplicate before a timely commitment keeps the bid out |
| BidPool.ClosedAwardIsStable | src/verifier/allocation.py:312-323 | membership acts after the award's instant leave its pool unchanged |
| Reputation.DivergenceDecay | src/verifier/reputation.py:56-102 | the loop's explicitly weighted sums equal the Horner form of the decayed score |
| Reputation.AccuracyBounds | src/verifier/reputation.py:81-94 | one settlement gives between 0 and 100 plus the bonus |
| ReputationMeaning.AccuracyMeans | src/verifier/reputation.py:81-92 | a comparable first entry gives 100 less the divergence in whole percent of the estimate, not below zero, and the bonus when vindicated |
| ReputationMeaning.OtherwiseMeans | src/verifier/reputation.py:90-94 | without a comparable entry the bidder scores 100 when vindicated and nothing otherwise |
| ReputationMeaning.ScoreMeans | src/verifier/reputation.py:62-102 | the score is the whole part of the accuracies weighed by how many settlements are newer and older, over the weights of those that score |
| ReputationMeaning.LaterWeighsMore | src/verifier/reputation.py:62-70 | of two settlements that score, in either order, the later weighs `den` where the earlier weighs `num` |
| Reputation.ScoreIsBounded | src/verifier/reputation.py:56-102 | so does the decayed score |
| Reputation.NoHistoryIsNeutral | src/verifier/reputation.py:100-101 | it is 50 whenever no settlement scores the bidder |
| Reputation.ScoreForgetsOrder | src/verifier/reputation.py:62 | it does not depend on the order of the snapshot |
| Reputation.ScoreIsScaleFree | src/verifier/reputation.py:58-70 | only the ratio of the decay matters |
| Reputation.SilentEndsDoNotCount | src/verifier/reputation.py:67-98 | settlements that do not score the bidder change nothing when only oldest or only newest |
| Reputation.WeightedJoin | src/verifier/reputation.py:67-98 | a history in two parts is the older sum aged by the newer part plus the newer sum over the common denominator |
| Reputation.SilentMiddleKeepsFractionIff | src/verifier/reputation.py:67-102 | settlements that do not score the bidder, between older and newer ones, keep the exact fraction if and only if there are none, nothing decays, or both parts have one fraction |
| Reputation.SilentMiddleKeepsScore | src/verifier/reputation.py:67-102 | and then the rounded score is kept |
| Reputation.SilentMiddleCounts | src/verifier/reputation.py:67-98 | otherwise the score can move: one in between takes 66 to 80 |
| Utf16.ByteOrderIsUnitOrder | src/verifier/jcs.py:29-31 | comparing big-endian bytes is comparing code units |
| Utf16.KeyOrderIsUnitOrder | src/verifier/jcs.py:29-31 | names are ordered by UTF-16 code units, as section 3.2.3 of RFC 8785 requires |
| Utf16.SortKeyInjective | src/verifier/jcs.py:29-31 | different names have different keys |
| Utf16.NotCodePointOrder | src/verifier/jcs.py:29-31 | that order is not the order of code points |
| Jcs.SerializeString | src/verifier/jcs.py:34-44 | the loop writes the quoted text in which each character is escaped on its own |
| JcsTheorems.EscapesAreShortest | src/verifier/jcs.py:19-27 | seven characters have a two-character escape, every other control a six-character one, and any other character stands for itself |
| JcsParser.ParseQuoted | src/verifier/jcs.py:34-44 | a quoted string reads back, whatever follows |
| JcsParser.ParseDecimal | src/verifier/jcs.py:47-58 | an integer's text reads back when no digit follows |
| JcsTheorems.DecimalShape | src/verifier/jcs.py:50-55 | an integer's text has no leading zero, and a minus sign exactly when negative |
| JcsTheorems.IntegerMeans | src/verifier/jcs.py:47-58 | a number is written as k if and only if it is the integer k or the float k |
| JcsParser.ParseWrite | src/verifier/jcs.py:61-79 | every document's text reads back, whatever follows; after a number, anything but a digit |
| JcsTheorems.CanonicalizeIsWrite | src/verifier/jcs.py:61-79 | the canonical text is the plain text of the normal form, and is refused if and only if some number has no integer value |
| JcsTheorems.CanonicalTextReadsBack | src/verifier/jcs.py:61-79 | parsing a canonical text recovers the document's normal form |
| JcsTheorems.CanonicalTextsAgreeIffSame | src/verifier/jcs.py:61-79 | two documents have one canonical text if and only if they say the same, member order and integer-valued floats aside |
| JcsTheorems.MemberOrderDoesNotMatter | src/verifier/jcs.py:71-77 | any order of an object's members gives the same text |
| JcsTheorems.MembersAscend | src/verifier/jcs.py:71-77 | members come out in strictly ascending code-unit order |
| Base58.B58Decode | src/verifier/proof.py:25-35 | the digit loop and the byte conversion give the decoding; the first foreign character ends it with an error |
| Base58.AlphabetMeans | src/verifier/proof.py:22 | the alphabet is the digits and ASCII letters without `0`, `O`, `I` and `l` |
| Base58.DigitsAreCharacters | src/verifier/proof.py:22 | digits and alphabet characters correspond one to one |
| Base58.BytesAreNumeral | src/verifier/proof.py:33 | the bit length yields just enough bytes: no leading zero byte, none lost |
| Base58.DecodeMeaning | src/verifier/proof.py:25-35 | a text decodes if and only if all its characters are in the alphabet, to its leading zeros and the same number in base 256 |
| Base58.DecodeEncode | src/verifier/proof.py:25-35 | every byte string comes back from its encoding, leading zeros included |
| Base58.EncodeDecode | src/verifier/proof.py:25-35 | every text that decodes is the encoding of its decoding |
| Base58.DecodeInjective | src/verifier/proof.py:25-35 | two texts never decode alike |
| Base58.DecodeMultikey | src/verifier/proof.py:38-47 | the checks in order give the multikey's key bytes |
| Base58.MultikeyAcceptsExactly | src/verifier/proof.py:38-47 | accepted if and only if the text is `z` and the encoding of the two-byte prefix followed by 32 key bytes |

## Left out

- Ed25519 verification, SHA-256, key loading and key history: a ballot carries whether its signature holds, an activity carries its digest.
- Digest collisions: lemmas that need it assume that different activities have different digests; `HubSlice.HubChainSlice` takes a ghost rank that says backward links never run in a circle, as a hash chain cannot.
- Parsing of timestamps and durations, and float rounding: instants are integers, latencies and scores are reals or infinite.
- Malformed shapes of single fields (an `actor` that is no string, a `settles` that is no list): the models start from typed activities; type guards whose outcome changes the arithmetic (booleans, integer-valued floats, absent fields) are modelled.
- The `membership` window of `recompute` (compared as strings) and the sorted `inputs` list; inputs are a set.
- SummaryTheorems.ConsecutivePeriodsAdd: compares the periods under one operator mapping; what each period's own mapping changes is `SummaryTheorems.RecomputedPeriodsAddIff`.
- Reputation.SilentMiddleKeepsScore: goes one way, since different fractions can round to one score; the exact fraction goes both ways in `Reputation.SilentMiddleKeepsFractionIff`.
- LateDecisions.LateDecisionKeepsWeights: goes one way, since different instances can give one weight dictionary; roles and instances go both ways in `LateDecisions.LateDecisionKeepsSeatIff`.
- Ranking.SelectRanking: adds exact reals where the source adds floats, so rounding and overflow are not modelled.
- Ranking.RankingIsScaleFree: holds for exact reals only, since float rounding can break it.
- Equivocation.EquivocationScan: findings are a set; the order in which they are printed is not modelled.
- Terminal.CheckSummaryTerminal: competing labels are a set, without the per-bundle repetition and order of the report lines.
- Re-votes at a higher sequence number in `RoundRuns`: runs cast once per voter; what a re-vote does to the tally is stated in `Round`.
- BidPool.Reconstruct: excluded bidders, estimators and prior performers are sets of the announced terms; the lookups that fill them from earlier awards are single passes.
- Equivocation.Successor: takes the silent actors as a set; collecting them (`silent_actors_in_round`) reads the `afp:uncounted` list of the round's first decision record.
- Recusal causes, `zero_state`, `partition` and the declared-exclusion checks of a pinned electorate: single lookups and set differences.
- Supersession of answers and dispositions of actions in `action.py`: its parity rule is the one proved for summaries.
- Policy, asset, pin, federation and key checks, bundle loading, reports, the census and the command line.
- The instance, its hub, queues and demonstrations.
