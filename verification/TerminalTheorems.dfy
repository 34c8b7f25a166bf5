/** How far the two checks on summaries take a dispute: when it ends, and when in one answer. */
module TerminalTheorems {
  import opened Prelude
  import opened Terminal

  // ---- lawful revisions

  ghost predicate Supersedes(summaries: seq<Summary>, later: string, earlier: string) {
    exists s :: s in summaries && s.id == later && s.supersedes == Some(earlier)
  }

  /** Each summary but the first supersedes the one before it. */
  ghost predicate Revisions(summaries: seq<Summary>, labels: seq<string>) {
    forall i :: 0 <= i < |labels| - 1 ==> Supersedes(summaries, labels[i + 1], labels[i])
  }

  ghost predicate AllLawful(summaries: seq<Summary>, ratified: set<string>) {
    forall s :: s in summaries ==> Lawful(summaries, ratified, s)
  }

  /** The parity finding is empty exactly when every supersession is lawful. */
  lemma NoUnlawfulIff(summaries: seq<Summary>, ratified: set<string>)
    ensures Filter(Unlawful(summaries, ratified), summaries) == [] <==> AllLawful(summaries, ratified)
  {
    FilterMembers(Unlawful(summaries, ratified), summaries);
    var found := Filter(Unlawful(summaries, ratified), summaries);
    if found != [] {
      assert found[0] in found;
    }
  }

  /** A ratified answer is only ever followed by ratified ones. */
  lemma {:induction false} RatificationIsInherited(summaries: seq<Summary>, ratified: set<string>,
                                                   labels: seq<string>, i: nat)
    requires AllLawful(summaries, ratified) && Revisions(summaries, labels)
    requires i < |labels| && labels[0] in ratified
    ensures labels[i] in ratified
  {
    if i > 0 {
      RatificationIsInherited(summaries, ratified, labels, i - 1);
      assert Supersedes(summaries, labels[i - 1 + 1], labels[i - 1]);
    }
  }

  /** What parity reports: a summary that supersedes one not listed, or, unratified, a ratified one. */
  lemma UnlawfulMeans(bundles: seq<seq<Summary>>, decisions: seq<Decision>, s: Summary)
    ensures s in Filter(Unlawful(AllOf(bundles), Outcomes(decisions)), AllOf(bundles)) <==>
              && (exists b :: b in bundles && s in b)
              && s.supersedes.Some?
              && ((forall b, t :: b in bundles && t in b ==> t.id != s.supersedes.value)
                  || (Decided(decisions, s.supersedes.value) && !Decided(decisions, s.id)))
  {
    FilterMembers(Unlawful(AllOf(bundles), Outcomes(decisions)), AllOf(bundles));
    forall t ensures t in AllOf(bundles) <==> exists b :: b in bundles && t in b {
      AllOfMeans(bundles, t);
    }
  }

  /** A decision record names the summary as its outcome. */
  ghost predicate Decided(decisions: seq<Decision>, id: string) {
    exists d :: d in decisions && d.outcome == Some(id)
  }

  lemma {:induction false} AllOfMeans(bundles: seq<seq<Summary>>, s: Summary)
    ensures s in AllOf(bundles) <==> exists b :: b in bundles && s in b
  {
    if bundles != [] {
      var k := |bundles| - 1;
      AllOfMeans(bundles[..k], s);
      assert bundles == bundles[..k] + [bundles[k]];
    }
  }

  /** Ratified, and superseded by no listed summary. */
  ghost predicate Unchallenged(all: seq<Summary>, decisions: seq<Decision>, s: Summary) {
    Decided(decisions, s.id) && forall t :: t in all ==> t.supersedes != Some(s.id)
  }

  lemma StandsMeans(all: seq<Summary>, decisions: seq<Decision>, s: Summary)
    ensures Stands(SupersededIds(all), Outcomes(decisions), s) <==> Unchallenged(all, decisions, s)
  {
  }

  /** Two places of the listing hold unchallenged summaries of one period. */
  ghost predicate TwoUnchallenged(all: seq<Summary>, decisions: seq<Decision>, p: Period, i: int, j: int) {
    && 0 <= i < j < |all| && all[i].period == p == all[j].period
    && Unchallenged(all, decisions, all[i]) && Unchallenged(all, decisions, all[j])
  }

  lemma TwoStandMeans(all: seq<Summary>, decisions: seq<Decision>, p: Period)
    ensures (exists i, j :: TwoStand(SupersededIds(all), Outcomes(decisions), all, i, j) && all[i].period == p)
            <==> exists i, j :: TwoUnchallenged(all, decisions, p, i, j)
  {
    forall i, j ensures TwoUnchallenged(all, decisions, p, i, j) <==>
                          TwoStand(SupersededIds(all), Outcomes(decisions), all, i, j) && all[i].period == p {
      if 0 <= i < j < |all| {
        StandsMeans(all, decisions, all[i]);
        StandsMeans(all, decisions, all[j]);
      }
    }
  }

  ghost predicate Contested(all: seq<Summary>, decisions: seq<Decision>, s: Summary) {
    s in all && Unchallenged(all, decisions, s) && exists i, j :: TwoUnchallenged(all, decisions, s.period, i, j)
  }

  /** What is reported as competing: an unchallenged summary of a period in which two places of the
      listing hold one. */
  lemma CompetingMeans(all: seq<Summary>, decisions: seq<Decision>, id: string)
    ensures id in Competing(StandingFold(SupersededIds(all), Outcomes(decisions), all)) <==>
              exists s :: Contested(all, decisions, s) && s.id == id
  {
    var superseded, ratified := SupersededIds(all), Outcomes(decisions);
    var standing := StandingFold(superseded, ratified, all);
    if id in Competing(standing) {
      var p :| p in standing && |standing[p]| > 1 && id in standing[p];
      StandingAt(superseded, ratified, all, p, id);
      StandingCount(superseded, ratified, all, p);
      TwoStandMeans(all, decisions, p);
      var k :| 0 <= k < |all| && all[k].id == id && all[k].period == p && Stands(superseded, ratified, all[k]);
      StandsMeans(all, decisions, all[k]);
      assert Contested(all, decisions, all[k]);
    }
    if s :| Contested(all, decisions, s) && s.id == id {
      TwoStandMeans(all, decisions, s.period);
      StandingCount(superseded, ratified, all, s.period);
      StandsMeans(all, decisions, s);
      var k :| 0 <= k < |all| && all[k] == s;
      StandingAt(superseded, ratified, all, s.period, id);
    }
  }

  // ---- where revisions lead

  /** From one summary to another through revisions. */
  ghost predicate Reaches(summaries: seq<Summary>, from: string, to: string) {
    exists ids :: Leads(summaries, ids, from, to)
  }

  ghost predicate Leads(summaries: seq<Summary>, ids: seq<string>, from: string, to: string) {
    Revisions(summaries, ids) && ids != [] && ids[0] == from && ids[|ids| - 1] == to
  }

  lemma ReachesItself(summaries: seq<Summary>, id: string)
    ensures Reaches(summaries, id, id)
  {
    assert Leads(summaries, [id], id, id);
  }

  lemma ReachesOneMore(summaries: seq<Summary>, from: string, to: string, next: Summary)
    requires Reaches(summaries, from, to) && next in summaries && next.supersedes == Some(to)
    ensures Reaches(summaries, from, next.id)
  {
    var ids :| Leads(summaries, ids, from, to);
    var more := ids + [next.id];
    forall i | 0 <= i < |more| - 1 ensures Supersedes(summaries, more[i + 1], more[i]) {
      assert i < |ids| - 1 ==> Supersedes(summaries, ids[i + 1], ids[i]);
    }
    assert Leads(summaries, more, from, next.id);
  }

  /** A standing summary that the revisions of an id lead to. */
  ghost predicate EndOf(summaries: seq<Summary>, ratified: set<string>, id: string, t: Summary) {
    t in summaries && Stands(SupersededIds(summaries), ratified, t) && Reaches(summaries, id, t.id)
  }

  /** Ratified ids that only ever supersede one another: each is superseded, and by ids of the set
      alone. */
  ghost predicate Trap(summaries: seq<Summary>, ratified: set<string>, ids: set<string>) {
    forall id :: id in ids ==>
      && id in ratified && id in SupersededIds(summaries)
      && forall s :: s in summaries && s.supersedes == Some(id) ==> s.id in ids
  }

  lemma {:induction false} TrapHolds(summaries: seq<Summary>, ratified: set<string>, trap: set<string>,
                                     ids: seq<string>, i: nat)
    requires Trap(summaries, ratified, trap) && Revisions(summaries, ids)
    requires i < |ids| && ids[0] in trap
    ensures ids[i] in trap
  {
    if i > 0 {
      TrapHolds(summaries, ratified, trap, ids, i - 1);
      assert Supersedes(summaries, ids[i - 1 + 1], ids[i - 1]);
    }
  }

  /** Every id a summary's revisions lead to. */
  ghost function ReachedFrom(summaries: seq<Summary>, id: string): set<string> {
    set s | s in summaries && Reaches(summaries, id, s.id) :: s.id
  }

  lemma EndlessIsTrap(summaries: seq<Summary>, ratified: set<string>, s: Summary)
    requires AllLawful(summaries, ratified) && s in summaries && s.id in ratified
    requires forall t :: !EndOf(summaries, ratified, s.id, t)
    ensures s.id in ReachedFrom(summaries, s.id) && Trap(summaries, ratified, ReachedFrom(summaries, s.id))
  {
    ReachesItself(summaries, s.id);
    var reached := ReachedFrom(summaries, s.id);
    forall id | id in reached
      ensures id in ratified && id in SupersededIds(summaries)
      ensures forall next :: next in summaries && next.supersedes == Some(id) ==> next.id in reached
    {
      var t :| t in summaries && Reaches(summaries, s.id, t.id) && t.id == id;
      var ids :| Leads(summaries, ids, s.id, t.id);
      RatificationIsInherited(summaries, ratified, ids, |ids| - 1);
      assert !EndOf(summaries, ratified, s.id, t);
      forall next | next in summaries && next.supersedes == Some(id) ensures next.id in reached {
        ReachesOneMore(summaries, s.id, id, next);
      }
    }
  }

  /** A dispute ends exactly outside of traps: the revisions of a ratified summary lead to one that
      stands if and only if it is in no set of ratified ids that only ever supersede one another. */
  lemma DisputeEndsIff(summaries: seq<Summary>, ratified: set<string>, s: Summary)
    requires AllLawful(summaries, ratified) && s in summaries && s.id in ratified
    ensures (exists t :: EndOf(summaries, ratified, s.id, t)) <==>
              forall trap :: Trap(summaries, ratified, trap) ==> s.id !in trap
  {
    if t :| EndOf(summaries, ratified, s.id, t) {
      var ids :| Leads(summaries, ids, s.id, t.id);
      forall trap | Trap(summaries, ratified, trap) ensures s.id !in trap {
        if s.id in trap {
          TrapHolds(summaries, ratified, trap, ids, |ids| - 1);
        }
      }
    } else {
      EndlessIsTrap(summaries, ratified, s);
    }
  }

  ghost predicate Endless(summaries: seq<Summary>, ratified: set<string>, s: Summary) {
    s in summaries && s.id in ratified && forall t :: !EndOf(summaries, ratified, s.id, t)
  }

  lemma TrapIsEndless(summaries: seq<Summary>, ratified: set<string>, trap: set<string>) returns (s: Summary)
    requires AllLawful(summaries, ratified) && trap != {} && Trap(summaries, ratified, trap)
    ensures Endless(summaries, ratified, s)
  {
    var id :| id in trap;
    var next :| next in summaries && next.supersedes.Some? && next.supersedes.value == id;
    assert Lawful(summaries, ratified, next);
    s :| s in summaries && s.id == id;
    DisputeEndsIff(summaries, ratified, s);
  }

  /** Some ratified summary never reaches one that stands if and only if a trap exists. */
  lemma SomeDisputeNeverEndsIff(summaries: seq<Summary>, ratified: set<string>)
    requires AllLawful(summaries, ratified)
    ensures (exists s :: Endless(summaries, ratified, s)) <==>
              exists trap :: trap != {} && Trap(summaries, ratified, trap)
  {
    if s :| Endless(summaries, ratified, s) {
      EndlessIsTrap(summaries, ratified, s);
    }
    if trap :| trap != {} && Trap(summaries, ratified, trap) {
      var _ := TrapIsEndless(summaries, ratified, trap);
    }
  }

  // ---- one answer

  ghost predicate RatifiedFor(summaries: seq<Summary>, ratified: set<string>, p: Period, s: Summary) {
    s in summaries && s.period == p && s.id in ratified
  }

  /** Every dispute over the period ends in `t` and nowhere else. */
  ghost predicate OnlyAnswer(summaries: seq<Summary>, ratified: set<string>, p: Period, t: Summary) {
    forall s :: RatifiedFor(summaries, ratified, p, s) ==>
      EndOf(summaries, ratified, s.id, t) && forall u :: EndOf(summaries, ratified, s.id, u) ==> u == t
  }

  ghost predicate NoTrapFor(summaries: seq<Summary>, ratified: set<string>, p: Period) {
    forall s, trap :: RatifiedFor(summaries, ratified, p, s) && Trap(summaries, ratified, trap) ==> s.id !in trap
  }

  /** No dispute over the period ends in a summary of another period. */
  ghost predicate EndsInPeriod(summaries: seq<Summary>, ratified: set<string>, p: Period) {
    forall s, t :: RatifiedFor(summaries, ratified, p, s) && EndOf(summaries, ratified, s.id, t) ==> t.period == p
  }

  lemma StandingOfOnePeriod(summaries: seq<Summary>, ratified: set<string>, t: Summary, u: Summary)
    requires Competing(StandingFold(SupersededIds(summaries), ratified, summaries)) == {}
    requires t in summaries && u in summaries && t.period == u.period
    requires Stands(SupersededIds(summaries), ratified, t) && Stands(SupersededIds(summaries), ratified, u)
    ensures t == u
  {
    NothingCompetesIff(summaries, ratified);
    var i :| 0 <= i < |summaries| && summaries[i] == t;
    var j :| 0 <= j < |summaries| && summaries[j] == u;
    assert !TwoStand(SupersededIds(summaries), ratified, summaries, i, j);
    assert !TwoStand(SupersededIds(summaries), ratified, summaries, j, i);
  }

  /** One answer per period, exactly: when both checks pass, all ratified summaries of a period are
      revised into one and the same standing summary of it if and only if none of them is trapped
      and no revision of theirs stands for another period. */
  lemma OneAnswerIff(summaries: seq<Summary>, ratified: set<string>, p: Period, s: Summary)
    requires Filter(Unlawful(summaries, ratified), summaries) == []
    requires Competing(StandingFold(SupersededIds(summaries), ratified, summaries)) == {}
    requires RatifiedFor(summaries, ratified, p, s)
    ensures (exists t: Summary :: t.period == p && OnlyAnswer(summaries, ratified, p, t)) <==>
              NoTrapFor(summaries, ratified, p) && EndsInPeriod(summaries, ratified, p)
  {
    NoUnlawfulIff(summaries, ratified);
    if t: Summary :| t.period == p && OnlyAnswer(summaries, ratified, p, t) {
      forall x, trap | RatifiedFor(summaries, ratified, p, x) && Trap(summaries, ratified, trap) ensures x.id !in trap {
        DisputeEndsIff(summaries, ratified, x);
      }
    }
    if NoTrapFor(summaries, ratified, p) && EndsInPeriod(summaries, ratified, p) {
      DisputeEndsIff(summaries, ratified, s);
      var t :| EndOf(summaries, ratified, s.id, t);
      forall x | RatifiedFor(summaries, ratified, p, x)
        ensures EndOf(summaries, ratified, x.id, t) && forall u :: EndOf(summaries, ratified, x.id, u) ==> u == t
      {
        DisputeEndsIff(summaries, ratified, x);
        forall u | EndOf(summaries, ratified, x.id, u) ensures u == t {
          StandingOfOnePeriod(summaries, ratified, u, t);
        }
      }
      assert OnlyAnswer(summaries, ratified, p, t);
    }
  }

  /** No revision is, through others, a revision of itself. */
  ghost predicate Ranked(summaries: seq<Summary>, rank: string -> nat, top: nat) {
    forall s :: s in summaries ==> rank(s.id) <= top && (s.supersedes.Some? ==> rank(s.supersedes.value) < rank(s.id))
  }

  ghost predicate KeepsPeriod(summaries: seq<Summary>) {
    forall s, t :: s in summaries && t in summaries && (s.id == t.id || s.supersedes == Some(t.id))
      ==> s.period == t.period
  }

  // ---- sufficient: acyclic revisions that keep their period

  /** When supersession is acyclic, following the revisions of a ratified summary ends. */
  lemma {:induction false} DisputeEnds(summaries: seq<Summary>, ratified: set<string>, rank: string -> nat, top: nat,
                                       s: Summary)
    returns (labels: seq<string>, last: Summary)
    requires AllLawful(summaries, ratified) && Ranked(summaries, rank, top)
    requires s in summaries && s.id in ratified
    ensures Revisions(summaries, labels) && labels != [] && labels[0] == s.id && labels[|labels| - 1] == last.id
    ensures last in summaries && Stands(SupersededIds(summaries), ratified, last)
    ensures KeepsPeriod(summaries) ==> last.period == s.period
    decreases top - rank(s.id)
  {
    if s.id !in SupersededIds(summaries) {
      labels, last := [s.id], s;
    } else {
      var next :| next in summaries && next.supersedes.Some? && next.supersedes.value == s.id;
      var rest;
      rest, last := DisputeEnds(summaries, ratified, rank, top, next);
      labels := [s.id] + rest;
      assert Supersedes(summaries, rest[0], s.id);
      forall i | 0 <= i < |labels| - 1 ensures Supersedes(summaries, labels[i + 1], labels[i]) {
        assert i > 0 ==> labels[i] == rest[i - 1] && labels[i + 1] == rest[i];
      }
    }
  }

  /** One answer per period: when both checks pass, revisions are acyclic and stay in their period,
      any two ratified summaries of a period are revised into the same standing summary. */
  lemma OneAnswerPerPeriod(summaries: seq<Summary>, ratified: set<string>, rank: string -> nat, top: nat,
                           s: Summary, t: Summary)
    returns (from: seq<string>, to: seq<string>)
    requires Filter(Unlawful(summaries, ratified), summaries) == []
    requires Competing(StandingFold(SupersededIds(summaries), ratified, summaries)) == {}
    requires Ranked(summaries, rank, top) && KeepsPeriod(summaries)
    requires s in summaries && t in summaries && s.period == t.period && s.id in ratified && t.id in ratified
    ensures Revisions(summaries, from) && Revisions(summaries, to) && from != [] && to != []
    ensures from[0] == s.id && to[0] == t.id && from[|from| - 1] == to[|to| - 1]
    ensures to[|to| - 1] in ratified && to[|to| - 1] !in SupersededIds(summaries)
  {
    NoUnlawfulIff(summaries, ratified);
    NothingCompetesIff(summaries, ratified);
    var x, y;
    from, x := DisputeEnds(summaries, ratified, rank, top, s);
    to, y := DisputeEnds(summaries, ratified, rank, top, t);
    var i :| 0 <= i < |summaries| && summaries[i] == x;
    var j :| 0 <= j < |summaries| && summaries[j] == y;
    assert !TwoStand(SupersededIds(summaries), ratified, summaries, i, j);
    assert !TwoStand(SupersededIds(summaries), ratified, summaries, j, i);
  }

  /** Without acyclicity nothing need stand: two ratified summaries that supersede each other pass
      both checks. */
  lemma MutualSupersessionPasses(p: Period) returns (summaries: seq<Summary>, ratified: set<string>)
    ensures |summaries| == 2 && forall s :: s in summaries ==> s.id in ratified && s.period == p
    ensures AllLawful(summaries, ratified)
    ensures forall s :: s in summaries ==> !Stands(SupersededIds(summaries), ratified, s)
    ensures Competing(StandingFold(SupersededIds(summaries), ratified, summaries)) == {}
  {
    var a, b := Summary("a", p, Some("b")), Summary("b", p, Some("a"));
    summaries, ratified := [a, b], {"a", "b"};
    assert a in summaries && b in summaries;
    NothingCompetesIff(summaries, ratified);
  }

  /** Nor need one answer stand without it: a ratified revision that names another period leaves the
      summary it revises with that period's answer, while a second one stands for its own. */
  lemma CrossPeriodRevisionPasses(p: Period, q: Period)
    returns (summaries: seq<Summary>, ratified: set<string>, s: Summary, t: Summary, u: Summary)
    requires p != q
    ensures Filter(Unlawful(summaries, ratified), summaries) == []
    ensures Competing(StandingFold(SupersededIds(summaries), ratified, summaries)) == {}
    ensures exists rank: string -> nat :: Ranked(summaries, rank, 1)
    ensures RatifiedFor(summaries, ratified, p, s) && RatifiedFor(summaries, ratified, p, t) && s != t
    ensures EndOf(summaries, ratified, s.id, u) && u.period == q && EndOf(summaries, ratified, t.id, t)
  {
    s, t, u := Summary("s", p, None), Summary("t", p, None), Summary("u", q, Some("s"));
    summaries, ratified := [s, t, u], {"s", "t", "u"};
    CrossPeriodChecks(summaries, ratified, s, t, u);
    assert s in summaries && t in summaries && u in summaries;
    assert Ranked(summaries, (id: string) => if id == "u" then 1 else 0, 1);
    ReachesItself(summaries, "s");
    ReachesOneMore(summaries, "s", "s", u);
    ReachesItself(summaries, "t");
  }

  /** Three ratified summaries, one of another period and a revision of the first. */
  lemma CrossPeriodChecks(summaries: seq<Summary>, ratified: set<string>, s: Summary, t: Summary, u: Summary)
    requires summaries == [s, t, u] && s.id in ratified && t.id in ratified && u.id in ratified
    requires s.supersedes == t.supersedes == None && u.supersedes == Some(s.id)
    requires s.id != t.id && s.id != u.id && t.id != u.id && u.period != t.period
    ensures Filter(Unlawful(summaries, ratified), summaries) == []
    ensures Competing(StandingFold(SupersededIds(summaries), ratified, summaries)) == {}
    ensures SupersededIds(summaries) == {s.id}
  {
    assert forall x :: x in summaries <==> x == s || x == t || x == u;
    NoUnlawfulIff(summaries, ratified);
    NothingCompetesIff(summaries, ratified);
  }

  // ---- copies of a summary

  lemma {:induction false} CarriedTwice(bundles: seq<seq<Summary>>, i: nat, j: nat, s: Summary) returns (m: nat, n: nat)
    requires i < j < |bundles| && s in bundles[i] && s in bundles[j]
    ensures m < n < |AllOf(bundles)| && AllOf(bundles)[m] == s == AllOf(bundles)[n]
  {
    var k := |bundles| - 1;
    if j < k {
      m, n := CarriedTwice(bundles[..k], i, j, s);
    } else {
      m := PlaceOf(bundles[..k], i, s);
      var at :| 0 <= at < |bundles[k]| && bundles[k][at] == s;
      n := |AllOf(bundles[..k])| + at;
    }
  }

  lemma {:induction false} PlaceOf(bundles: seq<seq<Summary>>, i: nat, s: Summary) returns (m: nat)
    requires i < |bundles| && s in bundles[i]
    ensures m < |AllOf(bundles)| && AllOf(bundles)[m] == s
  {
    var k := |bundles| - 1;
    if i < k {
      m := PlaceOf(bundles[..k], i, s);
    } else {
      var at :| 0 <= at < |bundles[k]| && bundles[k][at] == s;
      m := |AllOf(bundles[..k])| + at;
    }
  }

  /** A standing summary carried by two bundles is reported against itself. */
  lemma CarriedTwiceIsReported(bundles: seq<seq<Summary>>, ratified: set<string>, i: nat, j: nat, s: Summary)
    requires i < j < |bundles| && s in bundles[i] && s in bundles[j]
    requires Stands(SupersededIds(AllOf(bundles)), ratified, s)
    ensures s.id in Competing(StandingFold(SupersededIds(AllOf(bundles)), ratified, AllOf(bundles)))
  {
    var all := AllOf(bundles);
    var superseded := SupersededIds(all);
    var m, n := CarriedTwice(bundles, i, j, s);
    assert TwoStand(superseded, ratified, all, m, n);
    StandingCount(superseded, ratified, all, s.period);
    StandingAt(superseded, ratified, all, s.period, s.id);
  }
}
