/** How a dispute over a period's summary ends: lawful supersession and one standing summary. */
module Terminal {
  import opened Prelude

  datatype Period = Period(hub: string, from: string, to: string)

  datatype Summary = Summary(id: string, period: Period, supersedes: Option<string>)

  /** The summaries of all bundles, bundle by bundle; a summary carried by two bundles is listed twice. */
  function AllOf(bundles: seq<seq<Summary>>): seq<Summary> {
    if bundles == [] then [] else AllOf(bundles[..|bundles| - 1]) + bundles[|bundles| - 1]
  }

  function SupersededIds(summaries: seq<Summary>): set<string> {
    set s | s in summaries && s.supersedes.Some? :: s.supersedes.value
  }

  predicate Listed(summaries: seq<Summary>, id: string) {
    exists s :: s in summaries && s.id == id
  }

  /** An `afp:DecisionRecord`, as far as ratification reads it. */
  datatype Decision = Decision(outcome: Option<string>)

  /** The first decision record whose outcome names the summary. */
  function RatifyingDecision(id: string, decisions: seq<Decision>): Option<Decision> {
    if decisions == [] then None
    else if decisions[0].outcome == Some(id) then Some(decisions[0])
    else RatifyingDecision(id, decisions[1..])
  }

  /** The ids some decision record ratifies. */
  function Outcomes(decisions: seq<Decision>): set<string> {
    set d | d in decisions && d.outcome.Some? :: d.outcome.value
  }

  /** The lookup finds a decision exactly for the outcomes on record, whatever their order. */
  lemma {:induction false} RatifyingDecisionFound(id: string, decisions: seq<Decision>)
    ensures RatifyingDecision(id, decisions).Some? <==> id in Outcomes(decisions)
  {
    if decisions != [] {
      RatifyingDecisionFound(id, decisions[1..]);
      assert decisions == [decisions[0]] + decisions[1..];
    }
  }

  predicate Lawful(summaries: seq<Summary>, ratified: set<string>, s: Summary) {
    s.supersedes.Some? ==>
      Listed(summaries, s.supersedes.value) && (s.supersedes.value in ratified ==> s.id in ratified)
  }

  function Unlawful(summaries: seq<Summary>, ratified: set<string>): Summary -> bool {
    (s: Summary) => !Lawful(summaries, ratified, s)
  }

  predicate Stands(superseded: set<string>, ratified: set<string>, s: Summary) {
    s.id in ratified && s.id !in superseded
  }

  /** `standing`: for each period the labels of its ratified, unsuperseded entries. */
  function StandingFold(superseded: set<string>, ratified: set<string>, summaries: seq<Summary>)
    : map<Period, seq<string>>
  {
    if summaries == [] then map[]
    else
      var s := summaries[|summaries| - 1];
      var before := StandingFold(superseded, ratified, summaries[..|summaries| - 1]);
      if Stands(superseded, ratified, s) then before[s.period := LabelsAt(before, s.period) + [s.id]] else before
  }

  function LabelsAt(standing: map<Period, seq<string>>, p: Period): seq<string> {
    if p in standing then standing[p] else []
  }

  /** The labels reported as competing. */
  function Competing(standing: map<Period, seq<string>>): set<string> {
    set p, l | p in standing && |standing[p]| > 1 && l in standing[p] :: l
  }

  method Gather(bundles: seq<seq<Summary>>) returns (summaries: seq<Summary>, superseded: set<string>)
    ensures summaries == AllOf(bundles) && superseded == SupersededIds(summaries)
  {
    summaries, superseded := [], {};
    for b := 0 to |bundles|
      invariant summaries == AllOf(bundles[..b]) && superseded == SupersededIds(summaries)
    {
      assert bundles[..b + 1][..b] == bundles[..b];
      var bundle := bundles[b];
      ghost var before := summaries;
      for i := 0 to |bundle|
        invariant summaries == before + bundle[..i] && superseded == SupersededIds(summaries)
      {
        assert bundle[..i + 1] == bundle[..i] + [bundle[i]];
        summaries := summaries + [bundle[i]];
        if bundle[i].supersedes.Some? {
          superseded := superseded + {bundle[i].supersedes.value};
        }
      }
      assert bundle[..|bundle|] == bundle;
    }
    assert bundles[..|bundles|] == bundles;
  }

  method CheckSummaryTerminal(bundles: seq<seq<Summary>>, decisions: seq<Decision>)
    returns (unlawful: seq<Summary>, competing: set<string>)
    ensures unlawful == Filter(Unlawful(AllOf(bundles), Outcomes(decisions)), AllOf(bundles))
    ensures competing == Competing(StandingFold(SupersededIds(AllOf(bundles)), Outcomes(decisions), AllOf(bundles)))
  {
    var summaries, superseded := Gather(bundles);
    ghost var ratified := Outcomes(decisions);
    var standing: map<Period, seq<string>> := map[];
    unlawful := [];
    for i := 0 to |summaries|
      invariant unlawful == Filter(Unlawful(summaries, ratified), summaries[..i])
      invariant standing == StandingFold(superseded, ratified, summaries[..i])
    {
      assert summaries[..i + 1][..i] == summaries[..i];
      var s := summaries[i];
      RatifyingDecisionFound(s.id, decisions);
      if s.supersedes.Some? {
        var target := s.supersedes.value;
        RatifyingDecisionFound(target, decisions);
        if !Listed(summaries, target)
           || (RatifyingDecision(target, decisions).Some? && RatifyingDecision(s.id, decisions).None?) {
          unlawful := unlawful + [s];
        }
      }
      if RatifyingDecision(s.id, decisions).Some? && s.id !in superseded {
        standing := standing[s.period := LabelsAt(standing, s.period) + [s.id]];
      }
    }
    assert summaries[..|summaries|] == summaries;
    competing := ReportCompeting(standing);
  }

  method ReportCompeting(standing: map<Period, seq<string>>) returns (competing: set<string>)
    ensures competing == Competing(standing)
  {
    competing := {};
    var left := standing.Keys;
    while left != {}
      invariant left <= standing.Keys
      invariant competing == set p, l | p in standing && p !in left && |standing[p]| > 1 && l in standing[p] :: l
      decreases left
    {
      var p :| p in left;
      if |standing[p]| > 1 {
        competing := competing + set l | l in standing[p];
      }
      left := left - {p};
    }
  }

  // ---- what the standing check decides

  ghost predicate TwoStand(superseded: set<string>, ratified: set<string>, summaries: seq<Summary>, i: int, j: int) {
    && 0 <= i < j < |summaries|
    && Stands(superseded, ratified, summaries[i]) && Stands(superseded, ratified, summaries[j])
    && summaries[i].period == summaries[j].period
  }

  /** The standing entries of a period, in order. */
  lemma {:induction false} StandingAt(superseded: set<string>, ratified: set<string>, summaries: seq<Summary>,
                                      p: Period, l: string)
    ensures l in LabelsAt(StandingFold(superseded, ratified, summaries), p) <==>
              exists i :: 0 <= i < |summaries| && summaries[i].id == l && summaries[i].period == p
                          && Stands(superseded, ratified, summaries[i])
  {
    if summaries != [] {
      var k := |summaries| - 1;
      var front := summaries[..k];
      StandingAt(superseded, ratified, front, p, l);
      assert forall i :: 0 <= i < k ==> summaries[i] == front[i];
    }
  }

  lemma {:induction false} StandingCount(superseded: set<string>, ratified: set<string>, summaries: seq<Summary>,
                                         p: Period)
    ensures |LabelsAt(StandingFold(superseded, ratified, summaries), p)| > 1 <==>
              exists i, j :: TwoStand(superseded, ratified, summaries, i, j) && summaries[i].period == p
  {
    if summaries != [] {
      var k := |summaries| - 1;
      var front, s := summaries[..k], summaries[k];
      StandingCount(superseded, ratified, front, p);
      forall i, j | TwoStand(superseded, ratified, front, i, j) && front[i].period == p
        ensures TwoStand(superseded, ratified, summaries, i, j) && summaries[i].period == p {}
      if Stands(superseded, ratified, s) && s.period == p {
        var labels := LabelsAt(StandingFold(superseded, ratified, front), p);
        if labels != [] {
          StandingAt(superseded, ratified, front, p, labels[0]);
          var i :| 0 <= i < |front| && front[i].id == labels[0] && front[i].period == p
              && Stands(superseded, ratified, front[i]);
          assert TwoStand(superseded, ratified, summaries, i, k);
        }
      }
      forall i, j | TwoStand(superseded, ratified, summaries, i, j) && summaries[i].period == p
        ensures |LabelsAt(StandingFold(superseded, ratified, summaries), p)| > 1
      {
        if j < k {
          assert TwoStand(superseded, ratified, front, i, j) && front[i].period == p;
        } else {
          assert front[i] == summaries[i];
          StandingAt(superseded, ratified, front, p, front[i].id);
        }
      }
    }
  }

  /** Nothing is reported exactly when no two entries of one period stand, counting a summary
      once for every bundle that carries it. */
  lemma NothingCompetesIff(summaries: seq<Summary>, ratified: set<string>)
    ensures Competing(StandingFold(SupersededIds(summaries), ratified, summaries)) == {} <==>
              forall i, j :: !TwoStand(SupersededIds(summaries), ratified, summaries, i, j)
  {
    var superseded := SupersededIds(summaries);
    var standing := StandingFold(superseded, ratified, summaries);
    forall i, j | TwoStand(superseded, ratified, summaries, i, j) ensures Competing(standing) != {} {
      var p := summaries[i].period;
      StandingCount(superseded, ratified, summaries, p);
      assert p in standing && |standing[p]| > 1 && standing[p][0] in standing[p];
      assert standing[p][0] in Competing(standing);
    }
    if Competing(standing) != {} {
      var l :| l in Competing(standing);
      var p :| p in standing && |standing[p]| > 1 && l in standing[p];
      StandingCount(superseded, ratified, summaries, p);
    }
  }
}
