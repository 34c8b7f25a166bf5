/** Accountable safety: a round decided both ways convicts the weight that decided it. */
module Accountability {
  import opened Prelude
  import opened Sums
  import opened Round
  import opened OperatorPower
  import opened Equivocation

  /** Ballots that were cast as these votes, all under one sequence number of one round's phase. */
  ghost predicate CastAs(ballots: seq<Ballot>, votes: seq<Vote>, round: string, phase: string, seqNo: int) {
    && |ballots| == |votes|
    && forall i :: 0 <= i < |votes| ==>
         SlotOf(votes[i]) == Some(Slot(ballots[i].actor, round, phase, seqNo)) && votes[i].value == ballots[i].value
  }

  /** The actors of two votes, one from each list, that convict. */
  ghost function Equivocators(vs: seq<Vote>, us: seq<Vote>): set<string> {
    set v, u | v in vs && u in us && Convicts(v, u) :: SlotOf(v).value.actor
  }

  lemma {:induction false} BackerCast(ballots: seq<Ballot>, option: string, voter: string) returns (i: nat)
    requires voter in Backers(ballots, option)
    ensures i < |ballots| && ballots[i].actor == voter && ballots[i].value == option
  {
    var k := |ballots| - 1;
    if voter in Backers(ballots[..k], option) {
      i := BackerCast(ballots[..k], option, voter);
    } else {
      i := k;
    }
  }

  lemma DoubleBackersConvict(x: seq<Ballot>, y: seq<Ballot>, vs: seq<Vote>, us: seq<Vote>, round: string,
                             phase: string, seqNo: int,
                             a: string, b: string)
    requires CastAs(x, vs, round, phase, seqNo) && CastAs(y, us, round, phase, seqNo) && a != b
    ensures Backers(x, a) * Backers(y, b) <= Equivocators(vs, us)
  {
    forall voter | voter in Backers(x, a) && voter in Backers(y, b) ensures voter in Equivocators(vs, us) {
      var i := BackerCast(x, a, voter);
      var j := BackerCast(y, b, voter);
      assert vs[i] in vs && us[j] in us && Convicts(vs[i], us[j]);
    }
  }

  /** Two counts of one proposal, each counting every voter once, that clear different options share
      backers of more than a third of the weight under two thirds, and of some weight under a majority. */
  lemma ForksShareBackers(p: Proposal, x: seq<Ballot>, y: seq<Ballot>, a: string, b: string)
    requires NonNegative(p.weights) && Relative(p.rule) && CountedOnce(x) && CountedOnce(y)
    requires Clears(p, TallyOf(p.weights, x), a) && Clears(p, TallyOf(p.weights, y), b)
    ensures SumOver(Backers(x, a) * Backers(y, b), p.weights) > 0
    ensures p.rule.value.form == TWO_THIRDS ==> 3 * SumOver(Backers(x, a) * Backers(y, b), p.weights) > Total(p.weights)
  {
    TallyIsBackersWeight(p.weights, x, a);
    TallyIsBackersWeight(p.weights, y, b);
    QuorumsIntersect(p, Backers(x, a), Backers(y, b));
  }

  /** And their votes convict that weight. */
  lemma ForksAreAccountable(p: Proposal, x: seq<Ballot>, y: seq<Ballot>, vs: seq<Vote>, us: seq<Vote>,
                            round: string, phase: string, seqNo: int, a: string, b: string)
    requires NonNegative(p.weights) && Relative(p.rule) && CountedOnce(x) && CountedOnce(y)
    requires CastAs(x, vs, round, phase, seqNo) && CastAs(y, us, round, phase, seqNo)
    requires Clears(p, TallyOf(p.weights, x), a) && Clears(p, TallyOf(p.weights, y), b) && a != b
    ensures SumOver(Equivocators(vs, us), p.weights) > 0
    ensures p.rule.value.form == TWO_THIRDS ==> 3 * SumOver(Equivocators(vs, us), p.weights) > Total(p.weights)
  {
    ForksShareBackers(p, x, y, a, b);
    DoubleBackersConvict(x, y, vs, us, round, phase, seqNo, a, b);
    SumOverMonotone(Backers(x, a) * Backers(y, b), Equivocators(vs, us), p.weights);
  }
}
