/** What the per-operator weights are for: a round is decided by how many operators stand behind
    an option, never by how many agents an operator seats. */
module OperatorPower {
  import opened Prelude
  import opened Arithmetic
  import opened Sums
  import opened Weights
  import opened Round
  import opened RoundRuns

  /** Distinct operators that each seat some voter. */
  ghost predicate AreOperators(voters: seq<Voter>, ops: seq<string>) {
    && (forall op :: op in ops ==> op in Operators(voters))
    && (forall i, j :: 0 <= i < j < |ops| ==> ops[i] != ops[j])
  }

  lemma CoalitionWeight(voters: seq<Voter>, ops: seq<string>)
    requires DistinctAgents(voters) && AreOperators(voters, ops)
    ensures SumOver(SeatsOfAll(voters, ops), WeightsOf(voters)) == CommonTotal(voters) * |ops|
  {
    forall i | 0 <= i < |ops| ensures SumOver(Seats(voters, ops[i]), WeightsOf(voters)) == CommonTotal(voters) {
      OperatorsCarryEqualTotals(voters, ops[i]);
    }
    TotalOfOperators(voters, ops, WeightsOf(voters), CommonTotal(voters));
  }

  lemma Ordered(l: int, x: int, y: int)
    requires l > 0
    ensures l * x > l * y <==> x > y
  {
    assert l * x - l * y == l * (x - y);
    if x > y {
      PositiveProduct(l, x - y);
    } else if x < y {
      PositiveProduct(l, y - x);
      assert l * (y - x) == l * y - l * x;
    }
  }

  lemma BarMeans(weight: int, total: int)
    ensures weight >= total / 2 + 1 <==> 2 * weight > total
    ensures weight >= 2 * total / 3 + 1 <==> 3 * weight > 2 * total
  {
  }

  lemma Commutes(l: int, c: int, m: int)
    ensures l * (c * m) == c * (l * m)
  {
  }

  lemma BarsCompare(l: int, m: int, k: int)
    requires l > 0
    ensures l * m >= l * k / 2 + 1 <==> 2 * m > k
    ensures l * m >= 2 * (l * k) / 3 + 1 <==> 3 * m > 2 * k
  {
    var weight, total := l * m, l * k;
    BarMeans(weight, total);
    Ordered(l, 2 * m, k);
    Ordered(l, 3 * m, 2 * k);
    Commutes(l, 2, m);
    Commutes(l, 3, m);
    Commutes(l, 2, k);
  }

  /** All seats of some operators together clear a relative bar exactly when the operators are a
      majority, or more than two thirds, of all operators. */
  lemma CoalitionClearsIff(voters: seq<Voter>, ops: seq<string>, threshold: Scalar)
    requires DistinctAgents(voters) && AreOperators(voters, ops)
    ensures var weight := SumOver(SeatsOfAll(voters, ops), WeightsOf(voters));
            && (weight >= ThresholdOf(Some(Rule(MAJORITY, threshold)), WeightsOf(voters)).value
                <==> 2 * |ops| > |Operators(voters)|)
            && (weight >= ThresholdOf(Some(Rule(TWO_THIRDS, threshold)), WeightsOf(voters)).value
                <==> 3 * |ops| > 2 * |Operators(voters)|)
  {
    CoalitionWeight(voters, ops);
    PinnedTotal(voters);
    BarsCompare(CommonTotal(voters), |ops|, |Operators(voters)|);
  }

  // ---- over whole runs

  /** Who cast a ballot for an option. */
  function Backers(ballots: seq<Ballot>, option: string): set<string> {
    if ballots == [] then {}
    else
      var k := |ballots| - 1;
      Backers(ballots[..k], option) + if ballots[k].value == option then {ballots[k].actor} else {}
  }

  lemma {:induction false} BackersVoted(ballots: seq<Ballot>, option: string)
    ensures Backers(ballots, option) <= VotersOf(ballots)
  {
    if ballots != [] {
      BackersVoted(ballots[..|ballots| - 1], option);
    }
  }

  lemma OnceBefore(ballots: seq<Ballot>)
    requires CountedOnce(ballots) && ballots != []
    ensures CountedOnce(ballots[..|ballots| - 1])
    ensures ballots[|ballots| - 1].actor !in VotersOf(ballots[..|ballots| - 1])
  {
    var k := |ballots| - 1;
    forall v ensures Casts(ballots[..k], v) <= 1 {
      assert Casts(ballots, v) <= 1;
    }
    CastsOfVoters(ballots[..k], ballots[k].actor);
    assert Casts(ballots, ballots[k].actor) <= 1;
  }

  /** With each voter counted once, an option holds exactly the weight of its backers. */
  lemma {:induction false} TallyIsBackersWeight(w: map<string, int>, ballots: seq<Ballot>, option: string)
    requires CountedOnce(ballots)
    ensures At(TallyOf(w, ballots), option) == SumOver(Backers(ballots, option), w)
  {
    if ballots != [] {
      var k := |ballots| - 1;
      OnceBefore(ballots);
      TallyIsBackersWeight(w, ballots[..k], option);
      BackersVoted(ballots[..k], option);
      if ballots[k].value == option {
        SumOverAdd(Backers(ballots[..k], option), w, ballots[k].actor);
      } else {
        assert Backers(ballots, option) == Backers(ballots[..k], option);
      }
    }
  }

  lemma WeightsNonNegative(voters: seq<Voter>)
    requires DistinctAgents(voters)
    ensures NonNegative(WeightsOf(voters))
  {
    forall agent | agent in WeightsOf(voters) ensures WeightsOf(voters)[agent] >= 0 {
      WeightMapKeys(voters, voters, agent);
      var v :| v in voters && v.agent == agent;
      WeightIsExactShare(voters, v);
    }
  }

  /** However many agents they seat, operators that are no majority never carry an option alone:
      in no run does an option backed by them only clear a majority bar; nor, when they are at most
      two thirds, a two-thirds bar. */
  lemma MinorityNeverDecides(p: Proposal, voters: seq<Voter>, ops: seq<string>, run: seq<Event>, option: string)
    requires DistinctAgents(voters) && AreOperators(voters, ops) && p.weights == WeightsOf(voters)
    requires ValidRun(p, OPENED, run)
    requires Backers(BallotsOf(run), option) <= SeatsOfAll(voters, ops)
    ensures p.rule.Some? && p.rule.value.form == MAJORITY && Clears(p, Exec(p, OPENED, run).tally, option)
            ==> 2 * |ops| > |Operators(voters)|
    ensures p.rule.Some? && p.rule.value.form == TWO_THIRDS && Clears(p, Exec(p, OPENED, run).tally, option)
            ==> 3 * |ops| > 2 * |Operators(voters)|
  {
    RunIsRecounted(p, run);
    RunCountsOnce(p, run);
    TallyIsBackersWeight(p.weights, BallotsOf(run), option);
    WeightsNonNegative(voters);
    SumOverMonotone(Backers(BallotsOf(run), option), SeatsOfAll(voters, ops), p.weights);
    if p.rule.Some? {
      CoalitionClearsIff(voters, ops, p.rule.value.threshold);
    }
  }
}
