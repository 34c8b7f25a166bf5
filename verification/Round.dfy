/** One weighted-quorum round: the bar, the recomputed tally, doom and the
    reasons a round may give for deciding nothing. */
module Round {
  import opened Prelude
  import opened Arithmetic
  import opened Sums

  /** `afp:quorumRule`. */
  datatype Rule = Rule(form: string, threshold: Scalar)

  datatype Exclusion = Exclusion(agent: string, status: string)

  /** The parts of an `afp:Proposal` the round's arithmetic reads. */
  datatype Proposal = Proposal(voters: seq<string>, weights: map<string, int>, rule: Option<Rule>,
                               options: seq<string>, deadline: Option<int>, excluded: seq<Exclusion>) {
    /** The explicit voter list, or the weight map's keys when it is absent or empty. */
    function Pinned(): set<string> {
      if voters == [] then weights.Keys else set v | v in voters
    }
  }

  const MAJORITY := "majority-of-total"
  const TWO_THIRDS := "two-thirds-of-total"
  const EXPLICIT := "explicit"
  const ABSTAIN := "abstain"

  /** The bar for a pinned total, in integers throughout. */
  function BarOf(rule: Option<Rule>, total: int): Option<int> {
    match rule
    case None => None
    case Some(r) =>
      if r.form == MAJORITY then Some(total / 2 + 1)
      else if r.form == TWO_THIRDS then Some(2 * total / 3 + 1)
      else if r.form == EXPLICIT then
        match WholeNumber(r.threshold)
        case Some(n) => if n >= 1 then Some(n) else None
        case None => None
      else None
  }

  ghost function ThresholdOf(rule: Option<Rule>, weights: map<string, int>): Option<int> {
    BarOf(rule, Total(weights))
  }

  /** A form relative to the pinned total. */
  predicate Relative(rule: Option<Rule>) {
    rule.Some? && (rule.value.form == MAJORITY || rule.value.form == TWO_THIRDS)
  }

  ghost predicate QuorumReachable(p: Proposal) {
    match p.rule
    case None => p.voters != []
    case Some(_) =>
      var bar := ThresholdOf(p.rule, p.weights);
      bar.None? || Total(p.weights) >= bar.value
  }

  ghost predicate ElectorateExhausted(p: Proposal) {
    (exists e :: e in p.excluded && e.status == "recused") && !QuorumReachable(p)
  }

  // ---- the tally

  /** An `afp:Vote` activity the counted hashes may resolve to. */
  datatype Ballot = Ballot(actor: string, value: string, published: int, signed: bool)

  datatype Verdict = Missing | Unsigned | Outside | Counted(ballot: Ballot)

  /** What the tally loop does with one counted hash. */
  function Judge(p: Proposal, votes: map<string, Ballot>, received: set<string>, hash: string): Verdict {
    if hash !in votes then Missing
    else if !votes[hash].signed && hash !in received then Unsigned
    else if votes[hash].actor !in p.Pinned() then Outside
    else Counted(votes[hash])
  }

  function CountedBallots(p: Proposal, votes: map<string, Ballot>, received: set<string>,
                          hashes: seq<string>): seq<Ballot> {
    if hashes == [] then []
    else
      var k := |hashes| - 1;
      CountedBallots(p, votes, received, hashes[..k])
      + match Judge(p, votes, received, hashes[k])
        case Counted(b) => [b]
        case _ => []
  }

  function TallyOf(w: map<string, int>, ballots: seq<Ballot>): map<string, int> {
    if ballots == [] then map[]
    else
      var k := |ballots| - 1;
      Added(w, TallyOf(w, ballots[..k]), ballots[k])
  }

  function Added(w: map<string, int>, tally: map<string, int>, b: Ballot): map<string, int> {
    tally[b.value := At(tally, b.value) + At(w, b.actor)]
  }

  function VotersOf(ballots: seq<Ballot>): set<string> {
    if ballots == [] then {} else VotersOf(ballots[..|ballots|-1]) + {ballots[|ballots|-1].actor}
  }

  /** Weight of the pinned voters without a counted ballot. */
  ghost function AbstainWeight(p: Proposal, counted: set<string>): int {
    SumOver(p.Pinned() - counted, p.weights)
  }

  /** The tally with the silent weight under `abstain`. */
  ghost function WithAbstain(p: Proposal, tally: map<string, int>, counted: set<string>): map<string, int> {
    if AbstainWeight(p, counted) == 0 then tally
    else tally[ABSTAIN := At(tally, ABSTAIN) + AbstainWeight(p, counted)]
  }

  ghost function FinalTally(p: Proposal, ballots: seq<Ballot>): map<string, int> {
    WithAbstain(p, TallyOf(p.weights, ballots), VotersOf(ballots))
  }

  /** The lists `check_decision_record` fills while it tallies. */
  datatype Recount = Recount(tally: map<string, int>, counted: set<string>, missing: seq<string>,
                             unsigned: seq<string>, outside: seq<string>, late: seq<string>)

  function RecountStep(p: Proposal, votes: map<string, Ballot>, received: set<string>, st: Recount,
                       hash: string): Recount {
    match Judge(p, votes, received, hash)
    case Missing => st.(missing := st.missing + [hash])
    case Unsigned => st.(unsigned := st.unsigned + [hash])
    case Outside => st.(outside := st.outside + [hash])
    case Counted(vote) =>
      st.(tally := st.tally[vote.value := At(st.tally, vote.value) + At(p.weights, vote.actor)],
          counted := st.counted + {vote.actor},
          late := if IsLate(p, vote) then st.late + [hash] else st.late)
  }

  function RecountOf(p: Proposal, votes: map<string, Ballot>, received: set<string>, hashes: seq<string>): Recount {
    if hashes == [] then Recount(map[], {}, [], [], [], [])
    else
      var k := |hashes| - 1;
      RecountStep(p, votes, received, RecountOf(p, votes, received, hashes[..k]), hashes[k])
  }

  predicate IsLate(p: Proposal, vote: Ballot) {
    p.deadline.Some? && vote.published > p.deadline.value
  }

  method RecomputeTally(p: Proposal, votes: map<string, Ballot>, received: set<string>, hashes: seq<string>)
    returns (tally: map<string, int>, counted: set<string>, missing: seq<string>,
             unsigned: seq<string>, outside: seq<string>, late: seq<string>)
    ensures Recount(tally, counted, missing, unsigned, outside, late) == RecountOf(p, votes, received, hashes)
  {
    var pinned := p.Pinned();
    tally, counted, missing, unsigned, outside, late := map[], {}, [], [], [], [];
    for i := 0 to |hashes|
      invariant Recount(tally, counted, missing, unsigned, outside, late) == RecountOf(p, votes, received, hashes[..i])
    {
      assert hashes[..i+1][..i] == hashes[..i];
      var hash := hashes[i];
      if hash !in votes {
        missing := missing + [hash];
        continue;
      }
      var vote := votes[hash];
      if !vote.signed && hash !in received {
        unsigned := unsigned + [hash];
        continue;
      }
      if vote.actor !in pinned {
        outside := outside + [hash];
        continue;
      }
      tally := tally[vote.value := At(tally, vote.value) + At(p.weights, vote.actor)];
      counted := counted + {vote.actor};
      if IsLate(p, vote) {
        late := late + [hash];
      }
    }
    assert hashes[..|hashes|] == hashes;
  }

  lemma CountedSnoc(p: Proposal, votes: map<string, Ballot>, received: set<string>, hashes: seq<string>)
    requires hashes != []
    ensures var before := CountedBallots(p, votes, received, hashes[..|hashes|-1]);
            var verdict := Judge(p, votes, received, hashes[|hashes|-1]);
            CountedBallots(p, votes, received, hashes)
            == if verdict.Counted? then before + [verdict.ballot] else before
  {
  }

  /** What one hash adds to the tally and to the counted voters. */
  lemma RecountStepTally(p: Proposal, votes: map<string, Ballot>, received: set<string>, st: Recount, hash: string)
    ensures var next, verdict := RecountStep(p, votes, received, st, hash), Judge(p, votes, received, hash);
            if verdict.Counted? then
              && next.tally == Added(p.weights, st.tally, verdict.ballot)
              && next.counted == st.counted + {verdict.ballot.actor}
            else next.tally == st.tally && next.counted == st.counted
  {
  }

  /** The loop's tally is that of the accepted ballots. */
  lemma {:induction false} RecountTally(p: Proposal, votes: map<string, Ballot>, received: set<string>,
                                        hashes: seq<string>)
    ensures RecountOf(p, votes, received, hashes).tally
         == TallyOf(p.weights, CountedBallots(p, votes, received, hashes))
  {
    if hashes != [] {
      var k := |hashes| - 1;
      var before := RecountOf(p, votes, received, hashes[..k]);
      RecountTally(p, votes, received, hashes[..k]);
      CountedSnoc(p, votes, received, hashes);
      RecountStepTally(p, votes, received, before, hashes[k]);
      var verdict := Judge(p, votes, received, hashes[k]);
      if verdict.Counted? {
        TallySnoc(p.weights, CountedBallots(p, votes, received, hashes[..k]), verdict.ballot);
      }
    }
  }

  /** Its counted voters are those of the accepted ballots, all of them pinned. */
  lemma {:induction false} RecountVoters(p: Proposal, votes: map<string, Ballot>, received: set<string>,
                                         hashes: seq<string>)
    ensures RecountOf(p, votes, received, hashes).counted
         == VotersOf(CountedBallots(p, votes, received, hashes)) <= p.Pinned()
  {
    if hashes != [] {
      var k := |hashes| - 1;
      RecountVoters(p, votes, received, hashes[..k]);
      CountedSnoc(p, votes, received, hashes);
      RecountStepTally(p, votes, received, RecountOf(p, votes, received, hashes[..k]), hashes[k]);
      var verdict := Judge(p, votes, received, hashes[k]);
      if verdict.Counted? {
        TallySnoc(p.weights, CountedBallots(p, votes, received, hashes[..k]), verdict.ballot);
      }
    }
  }

  /** Every hash is accounted for once, and when no finding is raised every counted hash is a
      present ballot of a pinned voter that is signed or was received. */
  lemma {:induction false} RecountAccountsForAll(p: Proposal, votes: map<string, Ballot>, received: set<string>,
                                                 hashes: seq<string>)
    ensures var r := RecountOf(p, votes, received, hashes);
            && |hashes| == |CountedBallots(p, votes, received, hashes)| + |r.missing| + |r.unsigned| + |r.outside|
            && (r.missing == r.unsigned == r.outside == [] <==>
                  forall i :: 0 <= i < |hashes| ==>
                    hashes[i] in votes && (votes[hashes[i]].signed || hashes[i] in received)
                    && votes[hashes[i]].actor in p.Pinned())
  {
    if hashes != [] {
      var k := |hashes| - 1;
      RecountAccountsForAll(p, votes, received, hashes[..k]);
      assert forall i :: 0 <= i < k ==> hashes[..k][i] == hashes[i];
    }
  }

  lemma TallySnoc(w: map<string, int>, before: seq<Ballot>, b: Ballot)
    ensures TallyOf(w, before + [b]) == Added(w, TallyOf(w, before), b)
    ensures VotersOf(before + [b]) == VotersOf(before) + {b.actor}
  {
    assert (before + [b])[..|before|] == before;
  }

  // ---- the winner and the reasons for no decision

  datatype Standing = NoStanding | Leads(option: string, weight: int)

  /** The first candidate with the strictly greatest weight so far. */
  function LeaderOf(tally: map<string, int>, candidates: seq<string>): Standing {
    if candidates == [] then NoStanding
    else
      var k := |candidates| - 1;
      var before := LeaderOf(tally, candidates[..k]);
      var weight := At(tally, candidates[k]);
      if before.NoStanding? || weight > before.weight then Leads(candidates[k], weight) else before
  }

  method Winner(tally: map<string, int>, options: seq<string>) returns (winner: Standing)
    ensures winner == LeaderOf(tally, options + [ABSTAIN])
  {
    var candidates := options + [ABSTAIN];
    winner := NoStanding;
    for i := 0 to |candidates|
      invariant winner == LeaderOf(tally, candidates[..i])
    {
      assert candidates[..i+1][..i] == candidates[..i];
      var weight := At(tally, candidates[i]);
      if winner.NoStanding? || weight > winner.weight {
        winner := Leads(candidates[i], weight);
      }
    }
    assert candidates[..|candidates|] == candidates;
  }

  /** The justification test for `threshold-not-met`. */
  ghost predicate ThresholdNotMet(p: Proposal, tally: map<string, int>) {
    var bar := ThresholdOf(p.rule, p.weights);
    var winner := LeaderOf(tally, p.options + [ABSTAIN]);
    bar.None? || winner.NoStanding? || winner.option == ABSTAIN || winner.weight < bar.value
  }

  ghost predicate Clears(p: Proposal, tally: map<string, int>, option: string) {
    var bar := ThresholdOf(p.rule, p.weights);
    bar.Some? && At(tally, option) >= bar.value
  }

  ghost predicate SomeOptionClears(p: Proposal, tally: map<string, int>) {
    exists o :: o in p.options && Clears(p, tally, o)
  }

  /** Pinned voters who may still cast a ballot that counts. */
  function Undecided(p: Proposal, counted: set<string>, convicted: set<string>): set<string> {
    p.Pinned() - counted - convicted
  }

  ghost function Reserve(p: Proposal, counted: set<string>, convicted: set<string>): int {
    SumOver(Undecided(p, counted, convicted), p.weights)
  }

  /** The justification test for `quorum-impossible`. */
  ghost predicate Doomed(p: Proposal, tally: map<string, int>, counted: set<string>, convicted: set<string>) {
    var bar := ThresholdOf(p.rule, p.weights);
    && bar.Some?
    && p.options != []
    && forall o :: o in p.options ==> At(tally, o) + Reserve(p, counted, convicted) < bar.value
  }

  // ---- conservation

  /** How many ballots of one voter were counted. */
  function Casts(ballots: seq<Ballot>, voter: string): nat {
    if ballots == [] then 0
    else
      var k := |ballots| - 1;
      Casts(ballots[..k], voter) + if ballots[k].actor == voter then 1 else 0
  }

  ghost predicate CountedOnce(ballots: seq<Ballot>) {
    forall v :: Casts(ballots, v) <= 1
  }

  lemma {:induction false} CastsOfVoters(ballots: seq<Ballot>, voter: string)
    ensures voter in VotersOf(ballots) <==> Casts(ballots, voter) > 0
  {
    if ballots != [] {
      var k := |ballots| - 1;
      CastsOfVoters(ballots[..k], voter);
      assert ballots == ballots[..k] + [ballots[k]];
    }
  }

  lemma CountedOnceSnoc(before: seq<Ballot>, b: Ballot)
    requires CountedOnce(before) && b.actor !in VotersOf(before)
    ensures CountedOnce(before + [b])
  {
    CastsOfVoters(before, b.actor);
    assert (before + [b])[..|before|] == before;
  }

  /** Repeated weight: `(n-1)` times the weight of a voter counted `n` times. */
  ghost function Repeats(w: map<string, int>, ballots: seq<Ballot>): map<string, int> {
    map v | v in VotersOf(ballots) :: At(w, v) * (Casts(ballots, v) - 1)
  }

  /** The weight of every ballot whose voter was counted before. */
  ghost function RepeatWeight(w: map<string, int>, ballots: seq<Ballot>): int {
    if ballots == [] then 0
    else
      var before, v := ballots[..|ballots|-1], ballots[|ballots|-1].actor;
      RepeatWeight(w, before) + if v in VotersOf(before) then At(w, v) else 0
  }

  lemma RepeatsAt(w: map<string, int>, ballots: seq<Ballot>, v: string)
    ensures At(Repeats(w, ballots), v) == if v in VotersOf(ballots) then At(w, v) * (Casts(ballots, v) - 1) else 0
  {
  }

  lemma RepeatsStep(w: map<string, int>, ballots: seq<Ballot>, u: string)
    requires ballots != []
    ensures var before, v := ballots[..|ballots|-1], ballots[|ballots|-1].actor;
            At(Repeats(w, ballots), u)
            == At(Repeats(w, before), u) + if u == v && v in VotersOf(before) then At(w, v) else 0
  {
    var before, v := ballots[..|ballots|-1], ballots[|ballots|-1].actor;
    RepeatsAt(w, before, u);
    RepeatsAt(w, ballots, u);
    CastsOfVoters(before, u);
    var c, x := Casts(before, u), At(w, u);
    if u == v && c > 0 {
      assert Casts(ballots, u) - 1 == (c - 1) + 1;
      OneMore(x, c - 1);
    }
  }

  lemma {:induction false} RepeatWeightIs(w: map<string, int>, ballots: seq<Ballot>)
    ensures RepeatWeight(w, ballots) == SumOver(VotersOf(ballots), Repeats(w, ballots))
  {
    if ballots == [] {
      assert VotersOf(ballots) == {};
    } else {
      var before, v := ballots[..|ballots|-1], ballots[|ballots|-1].actor;
      RepeatWeightIs(w, before);
      forall u ensures u != v ==> At(Repeats(w, before), u) == At(Repeats(w, ballots), u) {
        RepeatsStep(w, ballots, u);
      }
      RepeatsStep(w, ballots, v);
      SumOverChange(VotersOf(before), v, Repeats(w, before), Repeats(w, ballots));
    }
  }

  lemma {:induction false} TallyTotal(w: map<string, int>, ballots: seq<Ballot>)
    ensures Total(TallyOf(w, ballots)) == SumOver(VotersOf(ballots), w) + RepeatWeight(w, ballots)
  {
    if ballots == [] {
      assert VotersOf(ballots) == {};
    } else {
      var before, b := ballots[..|ballots|-1], ballots[|ballots|-1];
      TallyTotal(w, before);
      SumOverChange(VotersOf(before), b.actor, w, w);
      TotalUpdate(TallyOf(w, before), b.value, At(TallyOf(w, before), b.value) + At(w, b.actor));
    }
  }

  lemma TotalWithAbstain(p: Proposal, tally: map<string, int>, counted: set<string>)
    ensures Total(WithAbstain(p, tally, counted)) == Total(tally) + AbstainWeight(p, counted)
  {
    TotalUpdate(tally, ABSTAIN, At(tally, ABSTAIN) + AbstainWeight(p, counted));
  }

  /** Weight is conserved: tally plus abstention is the pinned total, plus whatever voters
      counted more than once contribute again. */
  lemma TallyConservation(p: Proposal, ballots: seq<Ballot>)
    requires VotersOf(ballots) <= p.Pinned()
    ensures Total(FinalTally(p, ballots))
         == SumOver(p.Pinned(), p.weights) + SumOver(VotersOf(ballots), Repeats(p.weights, ballots))
  {
    var voters := VotersOf(ballots);
    TallyTotal(p.weights, ballots);
    RepeatWeightIs(p.weights, ballots);
    TotalWithAbstain(p, TallyOf(p.weights, ballots), voters);
    SumOverDisjoint(voters, p.Pinned() - voters, p.weights);
    assert voters + (p.Pinned() - voters) == p.Pinned();
  }

  lemma {:induction false} PositiveSumHasPositiveTerm(s: set<string>, w: map<string, int>)
    requires forall k :: k in s ==> At(w, k) >= 0
    ensures SumOver(s, w) >= 0
    ensures SumOver(s, w) == 0 <==> forall k :: k in s ==> At(w, k) == 0
    decreases s
  {
    if s != {} {
      var k :| k in s;
      SumOverPick(s, w, k);
      PositiveSumHasPositiveTerm(s - {k}, w);
      assert forall j :: j in s <==> j == k || j in s - {k};
    }
  }

  /** The total is exactly the pinned total if and only if nobody with weight was counted twice. */
  lemma TallyIsPinnedTotalIff(p: Proposal, ballots: seq<Ballot>)
    requires VotersOf(ballots) <= p.Pinned() && NonNegative(p.weights)
    ensures Total(FinalTally(p, ballots)) == SumOver(p.Pinned(), p.weights) <==>
            forall v :: At(p.weights, v) > 0 ==> Casts(ballots, v) <= 1
  {
    TallyConservation(p, ballots);
    var voters, r := VotersOf(ballots), Repeats(p.weights, ballots);
    forall v
      ensures v in voters ==> At(r, v) >= 0
      ensures v in voters && At(p.weights, v) > 0 ==> (At(r, v) == 0 <==> Casts(ballots, v) <= 1)
      ensures v in voters && At(p.weights, v) == 0 ==> At(r, v) == 0
      ensures v !in voters ==> Casts(ballots, v) == 0
    {
      CastsOfVoters(ballots, v);
      if v in voters {
        SignOfProduct(At(p.weights, v), Casts(ballots, v) - 1);
      }
    }
    PositiveSumHasPositiveTerm(voters, r);
  }

  lemma SignOfProduct(x: int, y: int)
    requires x >= 0 && y >= 0
    ensures x * y >= 0
    ensures x > 0 ==> (x * y == 0 <==> y == 0)
    ensures x == 0 ==> x * y == 0
  {
  }

  /** Two ballots of one voter at different sequence numbers both count: the tally outgrows
      the electorate. */
  lemma RevoteOutgrowsElectorate(p: Proposal, voter: string, value: string)
    requires voter in p.Pinned() && At(p.weights, voter) > 0
    ensures var b := Ballot(voter, value, 0, true);
            Total(FinalTally(p, [b, b])) == SumOver(p.Pinned(), p.weights) + At(p.weights, voter)
  {
    var b := Ballot(voter, value, 0, true);
    var ballots := [b, b];
    assert ballots[..1] == [b] && [b][..0] == [];
    assert VotersOf([b]) == {voter};
    assert VotersOf(ballots) == VotersOf([b]) + {voter};
    assert Casts([b], voter) == 1;
    assert Casts(ballots, voter) == 2;
    var r := Repeats(p.weights, ballots);
    SumOverPick({voter}, r, voter);
    assert {voter} - {voter} == {};
    TallyConservation(p, ballots);
  }

  // ---- what clearing the bar means

  lemma {:induction false} TallyNonNegative(w: map<string, int>, ballots: seq<Ballot>)
    requires NonNegative(w)
    ensures NonNegative(TallyOf(w, ballots))
  {
    if ballots != [] {
      TallyNonNegative(w, ballots[..|ballots|-1]);
    }
  }

  lemma FinalTallyNonNegative(p: Proposal, ballots: seq<Ballot>)
    requires NonNegative(p.weights)
    ensures NonNegative(FinalTally(p, ballots))
  {
    TallyNonNegative(p.weights, ballots);
    SumOverNonNegative(p.Pinned() - VotersOf(ballots), p.weights);
  }

  lemma TwoEntriesAtMostTotal(t: map<string, int>, a: string, b: string)
    requires NonNegative(t) && a != b
    ensures At(t, a) + At(t, b) <= Total(t)
  {
    SumOverPick({a, b}, t, a);
    SumOverPick({b}, t, b);
    assert {a, b} - {a} == {b} && {b} - {b} == {};
    SumOverAtMostTotal({a, b}, t);
  }

  lemma CountedOnceTotal(p: Proposal, ballots: seq<Ballot>)
    requires VotersOf(ballots) <= p.Pinned() && NonNegative(p.weights) && CountedOnce(ballots)
    ensures Total(FinalTally(p, ballots)) == SumOver(p.Pinned(), p.weights) <= Total(p.weights)
  {
    TallyIsPinnedTotalIff(p, ballots);
    SumOverAtMostTotal(p.Pinned(), p.weights);
  }

  /** Under a relative rule, with each voter counted once, at most one entry of the tally,
      `abstain` included, clears the bar. */
  lemma AtMostOneClears(p: Proposal, ballots: seq<Ballot>, a: string, b: string)
    requires VotersOf(ballots) <= p.Pinned() && NonNegative(p.weights) && CountedOnce(ballots)
    requires Relative(p.rule)
    requires Clears(p, FinalTally(p, ballots), a) && Clears(p, FinalTally(p, ballots), b)
    ensures a == b
  {
    var t := FinalTally(p, ballots);
    FinalTallyNonNegative(p, ballots);
    CountedOnceTotal(p, ballots);
    SumOverNonNegative(p.weights.Keys, p.weights);
    if a != b {
      TwoEntriesAtMostTotal(t, a, b);
    }
  }

  /** Quorum intersection: two voter sets that reach a two-thirds bar share more than a third
      of the total, and two that reach a majority bar share some weight. */
  lemma QuorumsIntersect(p: Proposal, a: set<string>, b: set<string>)
    requires NonNegative(p.weights) && Relative(p.rule)
    requires SumOver(a, p.weights) >= ThresholdOf(p.rule, p.weights).value
    requires SumOver(b, p.weights) >= ThresholdOf(p.rule, p.weights).value
    ensures p.rule.value.form == TWO_THIRDS ==> 3 * SumOver(a * b, p.weights) > Total(p.weights)
    ensures SumOver(a * b, p.weights) > 0
    ensures exists v :: v in a && v in b && At(p.weights, v) > 0
  {
    SumOverInclusionExclusion(a, b, p.weights);
    SumOverAtMostTotal(a + b, p.weights);
    SumOverNonNegative(p.weights.Keys, p.weights);
    PositiveSumHasPositiveTerm(a * b, p.weights);
  }

  // ---- the reasons

  lemma {:induction false} LeaderIsGreatest(tally: map<string, int>, candidates: seq<string>)
    requires candidates != []
    ensures var l := LeaderOf(tally, candidates);
            && l.Leads? && l.option in candidates && l.weight == At(tally, l.option)
            && forall c :: c in candidates ==> At(tally, c) <= l.weight
  {
    var k := |candidates| - 1;
    assert candidates == candidates[..k] + [candidates[k]];
    if k > 0 {
      LeaderIsGreatest(tally, candidates[..k]);
    }
  }

  /** For every form: the reason holds exactly when no option clears, or abstention
      outweighs every option. */
  lemma ThresholdNotMetMeans(p: Proposal, tally: map<string, int>)
    requires ABSTAIN !in p.options
    ensures ThresholdNotMet(p, tally) <==>
              || !SomeOptionClears(p, tally)
              || (forall o :: o in p.options ==> At(tally, o) < At(tally, ABSTAIN))
  {
    var all := p.options + [ABSTAIN];
    assert all[..|p.options|] == p.options;
    LeaderIsGreatest(tally, all);
    if p.options != [] {
      LeaderIsGreatest(tally, p.options);
    }
  }

  /** Under a relative rule the reason holds exactly when no option clears the bar. */
  lemma ThresholdNotMetExact(p: Proposal, ballots: seq<Ballot>)
    requires VotersOf(ballots) <= p.Pinned() && NonNegative(p.weights) && CountedOnce(ballots)
    requires Relative(p.rule) && ABSTAIN !in p.options
    ensures ThresholdNotMet(p, FinalTally(p, ballots)) <==> !SomeOptionClears(p, FinalTally(p, ballots))
  {
    var t := FinalTally(p, ballots);
    ThresholdNotMetMeans(p, t);
    if o :| o in p.options && Clears(p, t, o) {
      if At(t, o) < At(t, ABSTAIN) {
        AtMostOneClears(p, ballots, o, ABSTAIN);
      }
    }
  }

  /** Not so for an explicit bar: one vote of three clears a bar of one, and two silent seats
      still justify `threshold-not-met`. */
  lemma ExplicitBarCanBeClearedYetNotMet() returns (p: Proposal, ballots: seq<Ballot>)
    ensures VotersOf(ballots) <= p.Pinned() && NonNegative(p.weights) && CountedOnce(ballots)
    ensures ABSTAIN !in p.options && SomeOptionClears(p, FinalTally(p, ballots))
    ensures ThresholdNotMet(p, FinalTally(p, ballots))
  {
    var w := map["a" := 1, "b" := 1, "c" := 1];
    p := Proposal(["a", "b", "c"], w, Some(Rule(EXPLICIT, IntVal(1))), ["yes"], None, []);
    var b := Ballot("a", "yes", 0, true);
    ballots := [b];
    assert ballots[..0] == [];
    assert TallyOf(w, ballots) == map["yes" := 1];
    assert VotersOf(ballots) == {"a"};
    assert p.Pinned() - {"a"} == {"b", "c"};
    SumOverPick({"b", "c"}, w, "b");
    assert {"b", "c"} - {"b"} == {"c"};
    SumOverPick({"c"}, w, "c");
    assert {"c"} - {"c"} == {};
    var t := FinalTally(p, ballots);
    assert "yes" in p.options && Clears(p, t, "yes");
    ThresholdNotMetMeans(p, t);
  }

  lemma AttainableIsBounded(p: Proposal, ballots: seq<Ballot>, convicted: set<string>, o: string)
    requires VotersOf(ballots) <= p.Pinned() && NonNegative(p.weights) && CountedOnce(ballots)
    requires o != ABSTAIN
    ensures At(FinalTally(p, ballots), o) + Reserve(p, VotersOf(ballots), convicted) <= Total(p.weights)
  {
    var voters := VotersOf(ballots);
    var free := Undecided(p, voters, convicted);
    TallyTotal(p.weights, ballots);
    NoRepeats(p.weights, ballots);
    TallyNonNegative(p.weights, ballots);
    SumOverPick({o}, TallyOf(p.weights, ballots), o);
    assert {o} - {o} == {};
    SumOverAtMostTotal({o}, TallyOf(p.weights, ballots));
    SumOverDisjoint(voters, free, p.weights);
    SumOverAtMostTotal(voters + free, p.weights);
  }

  lemma {:induction false} NoRepeats(w: map<string, int>, ballots: seq<Ballot>)
    requires CountedOnce(ballots)
    ensures RepeatWeight(w, ballots) == 0
  {
    RepeatWeightIs(w, ballots);
    forall v | v in VotersOf(ballots) ensures At(Repeats(w, ballots), v) == 0 {
      CastsOfVoters(ballots, v);
    }
    SumOverZero(VotersOf(ballots), Repeats(w, ballots));
  }

  /** An electorate that cannot reach its bar is doomed, whatever has been cast. */
  lemma ExhaustedIsDoomed(p: Proposal, ballots: seq<Ballot>, convicted: set<string>)
    requires VotersOf(ballots) <= p.Pinned() && NonNegative(p.weights) && CountedOnce(ballots)
    requires p.rule.Some? && !QuorumReachable(p)
    requires p.options != [] && ABSTAIN !in p.options
    ensures Doomed(p, FinalTally(p, ballots), VotersOf(ballots), convicted)
  {
    forall o | o in p.options
      ensures At(FinalTally(p, ballots), o) + Reserve(p, VotersOf(ballots), convicted) <= Total(p.weights)
    {
      AttainableIsBounded(p, ballots, convicted, o);
    }
  }

  /** A doomed round has no option that clears, and may also report `threshold-not-met`. */
  lemma DoomedHasNoWinner(p: Proposal, tally: map<string, int>, counted: set<string>, convicted: set<string>)
    requires NonNegative(p.weights) && ABSTAIN !in p.options
    requires Doomed(p, tally, counted, convicted)
    ensures !SomeOptionClears(p, tally)
    ensures ThresholdNotMet(p, tally)
  {
    SumOverNonNegative(Undecided(p, counted, convicted), p.weights);
    ThresholdNotMetMeans(p, tally);
  }
}
