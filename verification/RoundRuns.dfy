/** The round as a transition system: first-time casts by unconvicted voters, and
    convictions.  What every run keeps, and what a doomed round means. */
module RoundRuns {
  import opened Prelude
  import opened Sums
  import opened Round

  datatype State = State(tally: map<string, int>, counted: set<string>, convicted: set<string>)

  datatype Event = Cast(voter: string, value: string) | Convict(actor: string)

  const OPENED := State(map[], {}, {})

  /** What the checks on a counted ballot admit: a pinned voter, not counted before, with no
      equivocation proof on record.  A conviction needs no permission. */
  predicate Enabled(p: Proposal, s: State, e: Event) {
    match e
    case Cast(v, _) => v in p.Pinned() && v !in s.counted && v !in s.convicted
    case Convict(_) => true
  }

  function Next(p: Proposal, s: State, e: Event): State {
    match e
    case Cast(v, o) => State(s.tally[o := At(s.tally, o) + At(p.weights, v)], s.counted + {v}, s.convicted)
    case Convict(v) => s.(convicted := s.convicted + {v})
  }

  function Exec(p: Proposal, s: State, run: seq<Event>): State {
    if run == [] then s else Next(p, Exec(p, s, run[..|run|-1]), run[|run|-1])
  }

  ghost predicate ValidRun(p: Proposal, s: State, run: seq<Event>) {
    forall i :: 0 <= i < |run| ==> Enabled(p, Exec(p, s, run[..i]), run[i])
  }

  lemma ValidPrefix(p: Proposal, s: State, run: seq<Event>)
    requires ValidRun(p, s, run) && run != []
    ensures ValidRun(p, s, run[..|run|-1])
    ensures Enabled(p, Exec(p, s, run[..|run|-1]), run[|run|-1])
  {
    var k := |run| - 1;
    forall i | 0 <= i < k ensures Enabled(p, Exec(p, s, run[..k][..i]), run[..k][i]) {
      assert run[..k][..i] == run[..i];
    }
  }

  ghost predicate DoomedIn(p: Proposal, s: State) {
    Doomed(p, s.tally, s.counted, s.convicted)
  }

  /** What an option could still reach. */
  ghost function Attainable(p: Proposal, s: State, o: string): int {
    At(s.tally, o) + Reserve(p, s.counted, s.convicted)
  }

  lemma StepNeverRaises(p: Proposal, s: State, e: Event, o: string)
    requires NonNegative(p.weights) && Enabled(p, s, e)
    ensures At(s.tally, o) <= At(Next(p, s, e).tally, o)
    ensures Attainable(p, Next(p, s, e), o) <= Attainable(p, s, o)
  {
    var t := Next(p, s, e);
    var before, after := Undecided(p, s.counted, s.convicted), Undecided(p, t.counted, t.convicted);
    match e {
      case Cast(v, _) =>
        assert after == before - {v};
        SumOverPick(before, p.weights, v);
      case Convict(v) =>
        SumOverMonotone(after, before, p.weights);
    }
  }

  lemma {:induction false} RunNeverRaises(p: Proposal, s: State, run: seq<Event>, o: string)
    requires NonNegative(p.weights) && ValidRun(p, s, run)
    ensures At(s.tally, o) <= At(Exec(p, s, run).tally, o)
    ensures Attainable(p, Exec(p, s, run), o) <= Attainable(p, s, o)
  {
    if run != [] {
      var k := |run| - 1;
      ValidPrefix(p, s, run);
      RunNeverRaises(p, s, run[..k], o);
      StepNeverRaises(p, Exec(p, s, run[..k]), run[k], o);
    }
  }

  /** Once doomed, doomed along every run. */
  lemma DoomIsStable(p: Proposal, s: State, run: seq<Event>)
    requires NonNegative(p.weights) && ValidRun(p, s, run)
    requires DoomedIn(p, s)
    ensures DoomedIn(p, Exec(p, s, run))
  {
    forall o | o in p.options ensures Attainable(p, Exec(p, s, run), o) <= Attainable(p, s, o) {
      RunNeverRaises(p, s, run, o);
    }
  }

  // ---- a doomed round, exactly

  lemma ExecSnoc(p: Proposal, s: State, run: seq<Event>, e: Event)
    requires ValidRun(p, s, run) && Enabled(p, Exec(p, s, run), e)
    ensures ValidRun(p, s, run + [e])
    ensures Exec(p, s, run + [e]) == Next(p, Exec(p, s, run), e)
  {
    var longer := run + [e];
    assert longer[..|run|] == run;
    forall i | 0 <= i < |longer| ensures Enabled(p, Exec(p, s, longer[..i]), longer[i]) {
      if i < |run| {
        assert longer[..i] == run[..i];
      }
    }
  }

  /** A run in which every voter of `free` casts for `o`. */
  lemma {:induction false} AllCastFor(p: Proposal, s: State, free: set<string>, o: string) returns (run: seq<Event>)
    requires free <= Undecided(p, s.counted, s.convicted)
    ensures ValidRun(p, s, run)
    ensures Exec(p, s, run).counted == s.counted + free && Exec(p, s, run).convicted == s.convicted
    ensures At(Exec(p, s, run).tally, o) == At(s.tally, o) + SumOver(free, p.weights)
    decreases free
  {
    run := [];
    if free != {} {
      var v :| v in free;
      run := AllCastFor(p, s, free - {v}, o);
      SumOverPick(free, p.weights, v);
      ExecSnoc(p, s, run, Cast(v, o));
      assert free == (free - {v}) + {v};
      run := run + [Cast(v, o)];
    }
  }

  ghost predicate CanStillClear(p: Proposal, s: State) {
    exists run: seq<Event> :: ValidRun(p, s, run) && SomeOptionClears(p, Exec(p, s, run).tally)
  }

  /** The early close is exact: a round is doomed if and only if no sequence of further casts
      and convictions lets any option reach the bar. */
  lemma DoomedIffNothingCanClear(p: Proposal, s: State)
    requires NonNegative(p.weights)
    requires ThresholdOf(p.rule, p.weights).Some? && p.options != []
    ensures DoomedIn(p, s) <==> !CanStillClear(p, s)
  {
    var bar := ThresholdOf(p.rule, p.weights).value;
    if DoomedIn(p, s) && CanStillClear(p, s) {
      var run :| ValidRun(p, s, run) && SomeOptionClears(p, Exec(p, s, run).tally);
      DoomIsStable(p, s, run);
      var t := Exec(p, s, run);
      SumOverNonNegative(Undecided(p, t.counted, t.convicted), p.weights);
      assert false;
    }
    if !DoomedIn(p, s) {
      var o :| o in p.options && Attainable(p, s, o) >= bar;
      assert Attainable(p, s, o) == At(s.tally, o) + SumOver(Undecided(p, s.counted, s.convicted), p.weights);
      var run := AllCastFor(p, s, Undecided(p, s.counted, s.convicted), o);
      assert Clears(p, Exec(p, s, run).tally, o);
    }
  }

  /** The same in terms of completions: an assignment sends some undecided voters to options. */
  ghost function Completed(p: Proposal, s: State, choice: map<string, string>, o: string): int {
    At(s.tally, o) + SumOver(Choosing(p, s, choice, o), p.weights)
  }

  ghost function Choosing(p: Proposal, s: State, choice: map<string, string>, o: string): set<string> {
    set v | v in Undecided(p, s.counted, s.convicted) && v in choice && choice[v] == o
  }

  lemma DoomedIffNoCompletionClears(p: Proposal, s: State)
    requires NonNegative(p.weights)
    requires ThresholdOf(p.rule, p.weights).Some? && p.options != []
    ensures DoomedIn(p, s) <==>
              forall choice: map<string, string>, o :: o in p.options ==>
                Completed(p, s, choice, o) < ThresholdOf(p.rule, p.weights).value
  {
    var free := Undecided(p, s.counted, s.convicted);
    forall choice: map<string, string>, o ensures Completed(p, s, choice, o) <= Attainable(p, s, o) {
      SumOverMonotone(Choosing(p, s, choice, o), free, p.weights);
    }
    if !DoomedIn(p, s) {
      var o :| o in p.options && Attainable(p, s, o) >= ThresholdOf(p.rule, p.weights).value;
      var choice := map v | v in free :: o;
      assert Choosing(p, s, choice, o) == free;
      assert Completed(p, s, choice, o) == Attainable(p, s, o);
    }
  }

  /** Counting a convicted ballot anyway can undo a doom, which is why a separate check
      refuses it: the voter's weight left the reserve when it was convicted. */
  lemma ConvictedBallotUndoesDoom(p: Proposal, s: State, v: string, o: string)
    requires DoomedIn(p, s) && o in p.options
    requires v in p.Pinned() && v !in s.counted && v in s.convicted
    ensures DoomedIn(p, Next(p, s, Cast(v, o))) <==>
              Attainable(p, s, o) + At(p.weights, v) < ThresholdOf(p.rule, p.weights).value
  {
    var t := Next(p, s, Cast(v, o));
    assert Undecided(p, t.counted, t.convicted) == Undecided(p, s.counted, s.convicted);
    forall x | x in p.options && x != o ensures Attainable(p, t, x) == Attainable(p, s, x) {}
  }

  /** Such a doom: a pinned voter of weight 1 under an explicit bar of 1, convicted before it voted. */
  lemma ConvictedBallotCanUndoDoom() returns (p: Proposal, s: State)
    ensures DoomedIn(p, s) && "a" in p.Pinned() && "a" !in s.counted && "a" in s.convicted
    ensures !DoomedIn(p, Next(p, s, Cast("a", "yes")))
  {
    p := Proposal([], map["a" := 1], Some(Rule(EXPLICIT, IntVal(1))), ["yes"], None, []);
    s := State(map[], {}, {"a"});
    assert Undecided(p, s.counted, s.convicted) == {};
    ConvictedBallotUndoesDoom(p, s, "a", "yes");
  }

  // ---- what every run from the opening keeps

  /** The ballots a run casts, in order. */
  function BallotsOf(run: seq<Event>): seq<Ballot> {
    if run == [] then []
    else
      BallotsOf(run[..|run|-1])
      + match run[|run|-1]
        case Cast(v, o) => [Ballot(v, o, 0, true)]
        case Convict(_) => []
  }

  lemma BallotsSnoc(run: seq<Event>)
    requires run != []
    ensures var before, e := BallotsOf(run[..|run|-1]), run[|run|-1];
            BallotsOf(run) == if e.Cast? then before + [Ballot(e.voter, e.value, 0, true)] else before
  {
  }

  /** A run's tally and voters are those of its ballots. */
  lemma {:induction false} RunIsRecounted(p: Proposal, run: seq<Event>)
    ensures Exec(p, OPENED, run).tally == TallyOf(p.weights, BallotsOf(run))
    ensures Exec(p, OPENED, run).counted == VotersOf(BallotsOf(run))
  {
    if run != [] {
      var k := |run| - 1;
      RunIsRecounted(p, run[..k]);
      BallotsSnoc(run);
      if run[k].Cast? {
        TallySnoc(p.weights, BallotsOf(run[..k]), Ballot(run[k].voter, run[k].value, 0, true));
      }
    }
  }

  lemma {:induction false} SameBallotsSameTally(w: map<string, int>, x: seq<Ballot>, y: seq<Ballot>)
    requires |x| == |y| && forall i :: 0 <= i < |x| ==> x[i].actor == y[i].actor && x[i].value == y[i].value
    ensures TallyOf(w, x) == TallyOf(w, y) && VotersOf(x) == VotersOf(y)
  {
    if x != [] {
      SameBallotsSameTally(w, x[..|x|-1], y[..|y|-1]);
    }
  }

  lemma {:induction false} AllCounted(p: Proposal, votes: map<string, Ballot>, received: set<string>,
                                      hashes: seq<string>)
    requires forall i :: 0 <= i < |hashes| ==>
               hashes[i] in votes && (votes[hashes[i]].signed || hashes[i] in received)
                   && votes[hashes[i]].actor in p.Pinned()
    ensures var counted := CountedBallots(p, votes, received, hashes);
            |counted| == |hashes| && forall i :: 0 <= i < |hashes| ==> counted[i] == votes[hashes[i]]
  {
    if hashes != [] {
      var k := |hashes| - 1;
      AllCounted(p, votes, received, hashes[..k]);
      CountedSnoc(p, votes, received, hashes);
    }
  }

  /** The evidence a decision record names for a run: one present ballot for each cast, in order. */
  ghost predicate EvidenceFor(p: Proposal, run: seq<Event>, votes: map<string, Ballot>, received: set<string>,
                              hashes: seq<string>) {
    var cast := BallotsOf(run);
    && |hashes| == |cast|
    && forall i :: 0 <= i < |hashes| ==>
         && hashes[i] in votes && (votes[hashes[i]].signed || hashes[i] in received)
         && votes[hashes[i]].actor == cast[i].actor && votes[hashes[i]].value == cast[i].value
  }

  /** Replaying a run's evidence recounts the run: its tally, its voters, and no finding. */
  lemma RunIsReplayed(p: Proposal, run: seq<Event>, votes: map<string, Ballot>, received: set<string>,
                      hashes: seq<string>)
    requires ValidRun(p, OPENED, run) && EvidenceFor(p, run, votes, received, hashes)
    ensures var r, s := RecountOf(p, votes, received, hashes), Exec(p, OPENED, run);
            && r.tally == s.tally && r.counted == s.counted
            && r.missing == r.unsigned == r.outside == []
  {
    var cast := BallotsOf(run);
    RunIsRecounted(p, run);
    RunCountsOnce(p, run);
    forall i | 0 <= i < |hashes| ensures votes[hashes[i]].actor in p.Pinned() {
      VotersCast(cast, i);
    }
    AllCounted(p, votes, received, hashes);
    SameBallotsSameTally(p.weights, cast, CountedBallots(p, votes, received, hashes));
    RecountTally(p, votes, received, hashes);
    RecountVoters(p, votes, received, hashes);
    RecountAccountsForAll(p, votes, received, hashes);
  }

  lemma {:induction false} VotersCast(ballots: seq<Ballot>, i: nat)
    requires i < |ballots|
    ensures ballots[i].actor in VotersOf(ballots)
  {
    if i < |ballots| - 1 {
      VotersCast(ballots[..|ballots|-1], i);
    }
  }

  /** Every run counts each pinned voter at most once, and nobody else. */
  lemma {:induction false} RunCountsOnce(p: Proposal, run: seq<Event>)
    requires ValidRun(p, OPENED, run)
    ensures VotersOf(BallotsOf(run)) <= p.Pinned()
    ensures CountedOnce(BallotsOf(run))
  {
    if run != [] {
      var k := |run| - 1;
      ValidPrefix(p, OPENED, run);
      RunCountsOnce(p, run[..k]);
      RunIsRecounted(p, run[..k]);
      BallotsSnoc(run);
      if run[k].Cast? {
        var b := Ballot(run[k].voter, run[k].value, 0, true);
        TallySnoc(p.weights, BallotsOf(run[..k]), b);
        CountedOnceSnoc(BallotsOf(run[..k]), b);
      }
    }
  }

  /** In every reachable state weight is conserved: what the tally holds, what may still be
      cast and what silent convicts forfeited add up to the pinned total. */
  lemma WeightIsConserved(p: Proposal, run: seq<Event>)
    requires ValidRun(p, OPENED, run)
    ensures var s := Exec(p, OPENED, run);
            Total(s.tally) + Reserve(p, s.counted, s.convicted)
            + SumOver((p.Pinned() - s.counted) * s.convicted, p.weights)
            == SumOver(p.Pinned(), p.weights)
  {
    RunIsRecounted(p, run);
    RunCountsOnce(p, run);
    var s, ballots := Exec(p, OPENED, run), BallotsOf(run);
    TallyTotal(p.weights, ballots);
    NoRepeats(p.weights, ballots);
    var rest := p.Pinned() - s.counted;
    SumOverDisjoint(Undecided(p, s.counted, s.convicted), rest * s.convicted, p.weights);
    assert Undecided(p, s.counted, s.convicted) + rest * s.convicted == rest;
    SumOverDisjoint(s.counted, rest, p.weights);
    assert s.counted + rest == p.Pinned();
  }

  /** Along a run from the opening, an option's tally only grows and what it can reach only falls. */
  lemma {:induction false} RunIsMonotone(p: Proposal, run: seq<Event>, i: nat, o: string)
    requires NonNegative(p.weights) && ValidRun(p, OPENED, run) && i <= |run|
    ensures At(Exec(p, OPENED, run[..i]).tally, o) <= At(Exec(p, OPENED, run).tally, o)
    ensures Attainable(p, Exec(p, OPENED, run), o) <= Attainable(p, Exec(p, OPENED, run[..i]), o)
    decreases |run|
  {
    if i == |run| {
      assert run[..i] == run;
    } else {
      var k := |run| - 1;
      ValidPrefix(p, OPENED, run);
      assert run[..k][..i] == run[..i];
      RunIsMonotone(p, run[..k], i, o);
      StepNeverRaises(p, Exec(p, OPENED, run[..k]), run[k], o);
    }
  }

  /** Agreement over whole runs: under a relative rule, once an option has cleared, no other
      option ever clears. */
  lemma NoTwoOptionsEverClear(p: Proposal, run: seq<Event>, i: nat, a: string, b: string)
    requires NonNegative(p.weights) && Relative(p.rule)
    requires ValidRun(p, OPENED, run) && i <= |run|
    requires Clears(p, Exec(p, OPENED, run[..i]).tally, a)
    requires Clears(p, Exec(p, OPENED, run).tally, b)
    ensures a == b
  {
    RunIsMonotone(p, run, i, a);
    RunIsRecounted(p, run);
    RunCountsOnce(p, run);
    var ballots := BallotsOf(run);
    SumOverNonNegative(p.Pinned() - VotersOf(ballots), p.weights);
    AtMostOneClears(p, ballots, a, b);
  }

  /** A round in which an option has cleared was doomed at no earlier moment. */
  lemma DoomAndDecisionExclude(p: Proposal, run: seq<Event>, i: nat, o: string)
    requires NonNegative(p.weights) && ValidRun(p, OPENED, run) && i <= |run|
    requires o in p.options && Clears(p, Exec(p, OPENED, run).tally, o)
    ensures !DoomedIn(p, Exec(p, OPENED, run[..i]))
  {
    var s := Exec(p, OPENED, run);
    RunIsMonotone(p, run, i, o);
    SumOverNonNegative(Undecided(p, s.counted, s.convicted), p.weights);
  }

  /** An electorate that recusal left unable to reach its bar decides nothing in any run. */
  lemma ExhaustedNeverClears(p: Proposal, run: seq<Event>)
    requires NonNegative(p.weights) && ValidRun(p, OPENED, run)
    requires ElectorateExhausted(p) && p.rule.Some?
    ensures !SomeOptionClears(p, Exec(p, OPENED, run).tally)
  {
    var s := Exec(p, OPENED, run);
    forall o ensures !Clears(p, s.tally, o) {
      RunNeverRaises(p, OPENED, run, o);
      SumOverAtMostTotal(Undecided(p, {}, {}), p.weights);
      SumOverNonNegative(Undecided(p, s.counted, s.convicted), p.weights);
    }
  }
}
