/** Per-operator voter weights: `voter_weights`. */
module Weights {
  import opened Ordering
  import opened Arithmetic
  import opened Sums

  datatype Voter = Voter(agent: string, operator: string)

  ghost predicate DistinctAgents(voters: seq<Voter>) {
    forall i, j :: 0 <= i < j < |voters| ==> voters[i].agent != voters[j].agent
  }

  /** How many pinned voters an operator has. */
  function BucketSize(voters: seq<Voter>, operator: string): nat {
    if voters == [] then 0
    else
      var k := |voters| - 1;
      BucketSize(voters[..k], operator) + if voters[k].operator == operator then 1 else 0
  }

  /** The operators in order of first appearance (the key order of a Python dict). */
  function Operators(voters: seq<Voter>): seq<string> {
    if voters == [] then []
    else
      var k := |voters| - 1;
      var ops := Operators(voters[..k]);
      if voters[k].operator in ops then ops else ops + [voters[k].operator]
  }

  lemma {:induction false} SeatedOperators(voters: seq<Voter>, operator: string)
    ensures operator in Operators(voters) <==> BucketSize(voters, operator) > 0
    ensures operator in Operators(voters) <==> exists i :: 0 <= i < |voters| && voters[i].operator == operator
  {
    if voters != [] {
      var k := |voters| - 1;
      SeatedOperators(voters[..k], operator);
      if operator in Operators(voters[..k]) {
        var i :| 0 <= i < k && voters[..k][i].operator == operator;
        assert voters[i].operator == operator;
      } else if exists i :: 0 <= i < |voters| && voters[i].operator == operator {
        var i :| 0 <= i < |voters| && voters[i].operator == operator;
        if i < k {
          assert voters[..k][i].operator == operator;
        }
      }
    }
  }

  lemma {:induction false} OperatorsDistinct(voters: seq<Voter>)
    ensures forall i, j :: 0 <= i < j < |Operators(voters)| ==> Operators(voters)[i] != Operators(voters)[j]
  {
    if voters != [] {
      OperatorsDistinct(voters[..|voters|-1]);
    }
  }

  function SizesOf(voters: seq<Voter>, ops: seq<string>): seq<int> {
    seq(|ops|, i requires 0 <= i < |ops| => BucketSize(voters, ops[i]))
  }

  lemma SizesPositive(voters: seq<Voter>, ops: seq<string>)
    requires forall op :: op in ops ==> op in Operators(voters)
    ensures forall i :: 0 <= i < |SizesOf(voters, ops)| ==> SizesOf(voters, ops)[i] > 0
  {
    forall i | 0 <= i < |ops| ensures SizesOf(voters, ops)[i] > 0 {
      SeatedOperators(voters, ops[i]);
      assert ops[i] in ops;
    }
  }

  /** `L`, the total every operator carries. */
  function CommonTotal(voters: seq<Voter>): (l: int)
    ensures l > 0
  {
    SizesPositive(voters, Operators(voters));
    LcmAll(SizesOf(voters, Operators(voters)))
  }

  /** `L / n_I` for a seated operator. */
  function Share(voters: seq<Voter>, operator: string): int {
    if BucketSize(voters, operator) == 0 then 0 else CommonTotal(voters) / BucketSize(voters, operator)
  }

  /** The comprehension `{agent: total // counts[instance] for agent, instance in voters}`. */
  function WeightMap(all: seq<Voter>, voters: seq<Voter>): map<string, int> {
    if voters == [] then map[]
    else
      var k := |voters| - 1;
      WeightMap(all, voters[..k])[voters[k].agent := Share(all, voters[k].operator)]
  }

  /** The weight dictionary of one round's pinned voters. */
  function WeightsOf(voters: seq<Voter>): map<string, int> {
    WeightMap(voters, voters)
  }

  method VoterWeights(voters: seq<Voter>) returns (weights: map<string, int>)
    ensures weights == WeightsOf(voters)
  {
    if voters == [] {
      return map[];
    }
    var counts, order := CountSeats(voters);
    var total := FoldLcm(voters, counts, order);
    weights := map[];
    for i := 0 to |voters|
      invariant weights == WeightMap(voters, voters[..i])
    {
      var instance := voters[i].operator;
      assert voters[..i+1][..i] == voters[..i];
      SeatedOperators(voters, instance);
      assert total / counts[instance] == Share(voters, instance);
      weights := weights[voters[i].agent := total / counts[instance]];
    }
    assert voters[..|voters|] == voters;
  }

  /** The counting loop; `order` is the insertion order of the dictionary. */
  method CountSeats(voters: seq<Voter>) returns (counts: map<string, nat>, order: seq<string>)
    ensures order == Operators(voters)
    ensures forall op :: op in counts <==> op in order
    ensures forall op :: op in counts ==> counts[op] == BucketSize(voters, op) > 0
  {
    counts, order := map[], [];
    for i := 0 to |voters|
      invariant order == Operators(voters[..i])
      invariant forall op :: op in counts <==> op in order
      invariant forall op :: op in counts ==> counts[op] == BucketSize(voters[..i], op) > 0
    {
      var instance := voters[i].operator;
      assert voters[..i+1][..i] == voters[..i];
      SeatedOperators(voters[..i], instance);
      if instance !in order {
        order := order + [instance];
      }
      counts := counts[instance := (if instance in counts then counts[instance] else 0) + 1];
    }
    assert voters[..|voters|] == voters;
  }

  /** The `lcm` loop over the sorted operators. */
  method FoldLcm(voters: seq<Voter>, counts: map<string, nat>, order: seq<string>) returns (total: int)
    requires order == Operators(voters)
    requires forall op :: op in order ==> op in counts && counts[op] == BucketSize(voters, op) > 0
    ensures total == CommonTotal(voters)
  {
    var sorted := Sort(StrLe, order);
    SortedOperatorsTotal(voters, sorted);
    ghost var sizes := SizesOf(voters, sorted);
    total := 1;
    for i := 0 to |sorted|
      invariant total == LcmAll(sizes[..i])
    {
      assert sorted[i] in sorted;
      assert sizes[..i+1][..i] == sizes[..i];
      total := Lcm(total, counts[sorted[i]]);
    }
    assert sizes[..|sorted|] == sizes;
  }

  /** Taking the operators in sorted order changes nothing. */
  lemma SortedOperatorsTotal(voters: seq<Voter>, sorted: seq<string>)
    requires sorted == Sort(StrLe, Operators(voters))
    ensures forall op :: op in sorted <==> op in Operators(voters)
    ensures forall i :: 0 <= i < |SizesOf(voters, sorted)| ==> SizesOf(voters, sorted)[i] > 0
    ensures LcmAll(SizesOf(voters, sorted)) == CommonTotal(voters)
  {
    var order := Operators(voters);
    StrLeTotalOrder();
    SortProperties(StrLe, order);
    SizesPositive(voters, sorted);
    SizesPositive(voters, order);
    SizesSameMembers(voters, voters, sorted, order);
    LcmAllOfMembers(SizesOf(voters, sorted), SizesOf(voters, order));
  }

  lemma SizesSameMembers(v: seq<Voter>, w: seq<Voter>, a: seq<string>, b: seq<string>)
    requires forall op :: op in a <==> op in b
    requires forall op :: op in a ==> BucketSize(v, op) == BucketSize(w, op)
    ensures forall x :: x in SizesOf(v, a) <==> x in SizesOf(w, b)
  {
    forall x | x in SizesOf(v, a) ensures x in SizesOf(w, b) {
      var i :| 0 <= i < |a| && SizesOf(v, a)[i] == x;
      assert a[i] in b;
      var j :| 0 <= j < |b| && b[j] == a[i];
      assert SizesOf(w, b)[j] == x;
    }
    forall x | x in SizesOf(w, b) ensures x in SizesOf(v, a) {
      var i :| 0 <= i < |b| && SizesOf(w, b)[i] == x;
      assert b[i] in a;
      var j :| 0 <= j < |a| && a[j] == b[i];
      assert SizesOf(v, a)[j] == x;
    }
  }

  // ---- what the weights mean

  /** A positive number every operator's seat count divides. */
  ghost predicate DivisibleByAll(voters: seq<Voter>, m: int) {
    m > 0 && forall op :: op in Operators(voters) ==> Divides(BucketSize(voters, op), m)
  }

  /** `L` is the least positive number that divides evenly among every operator's seats. */
  lemma CommonTotalIsLeast(voters: seq<Voter>)
    ensures DivisibleByAll(voters, CommonTotal(voters))
    ensures forall m :: DivisibleByAll(voters, m) ==> CommonTotal(voters) <= m
  {
    var ops := Operators(voters);
    var sizes := SizesOf(voters, ops);
    SizesPositive(voters, ops);
    LcmAllDivides(sizes);
    forall op | op in ops ensures Divides(BucketSize(voters, op), CommonTotal(voters)) {
      var i :| 0 <= i < |ops| && ops[i] == op;
      assert sizes[i] == BucketSize(voters, op);
    }
    forall m | DivisibleByAll(voters, m) ensures CommonTotal(voters) <= m {
      forall i | 0 <= i < |sizes| ensures Divides(sizes[i], m) {
        assert ops[i] in ops;
      }
      DividesPositiveLe(CommonTotal(voters), m);
    }
  }

  lemma ShareIsExact(voters: seq<Voter>, operator: string)
    requires operator in Operators(voters)
    ensures Share(voters, operator) > 0
    ensures Share(voters, operator) * BucketSize(voters, operator) == CommonTotal(voters)
  {
    SeatedOperators(voters, operator);
    CommonTotalIsLeast(voters);
    var n := BucketSize(voters, operator);
    DividesIsMod(n, CommonTotal(voters));
    PositiveFactor(n, Share(voters, operator));
  }

  lemma {:induction false} WeightMapAt(all: seq<Voter>, voters: seq<Voter>, v: Voter)
    requires DistinctAgents(voters) && v in voters
    ensures v.agent in WeightMap(all, voters)
    ensures WeightMap(all, voters)[v.agent] == Share(all, v.operator)
  {
    var k := |voters| - 1;
    if v != voters[k] {
      assert v in voters[..k];
      WeightMapAt(all, voters[..k], v);
    }
  }

  lemma {:induction false} WeightMapKeys(all: seq<Voter>, voters: seq<Voter>, agent: string)
    ensures agent in WeightMap(all, voters) <==> exists v :: v in voters && v.agent == agent
  {
    if voters != [] {
      var k := |voters| - 1;
      WeightMapKeys(all, voters[..k], agent);
      if v :| v in voters[..k] && v.agent == agent {
        assert v in voters;
      }
      if v :| v in voters && v.agent == agent && v != voters[k] {
        assert v in voters[..k];
      }
    }
  }

  /** Every seat's weight is a positive whole number, and `n_I` such seats make up `L`. */
  lemma WeightIsExactShare(voters: seq<Voter>, v: Voter)
    requires DistinctAgents(voters) && v in voters
    ensures v.agent in WeightsOf(voters)
    ensures WeightsOf(voters)[v.agent] > 0
    ensures WeightsOf(voters)[v.agent] * BucketSize(voters, v.operator) == CommonTotal(voters)
  {
    WeightMapAt(voters, voters, v);
    var i :| 0 <= i < |voters| && voters[i] == v;
    SeatedOperators(voters, v.operator);
    ShareIsExact(voters, v.operator);
  }

  /** The agents an operator seated. */
  ghost function Seats(voters: seq<Voter>, operator: string): set<string> {
    set v | v in voters && v.operator == operator :: v.agent
  }

  lemma SeatsSnoc(voters: seq<Voter>, operator: string)
    requires voters != [] && DistinctAgents(voters)
    ensures var k := |voters| - 1;
            Seats(voters, operator)
            == Seats(voters[..k], operator) + if voters[k].operator == operator then {voters[k].agent} else {}
    ensures voters[|voters|-1].agent !in Seats(voters[..|voters|-1], operator)
  {
    var k := |voters| - 1;
    assert voters == voters[..k] + [voters[k]];
    forall v | v in voters[..k] ensures v.agent != voters[k].agent {
      var i :| 0 <= i < k && voters[..k][i] == v;
    }
  }

  /** Sums of an operator's seats, for a dictionary constant on that operator. */
  lemma {:induction false} SeatSum(voters: seq<Voter>, operator: string, w: map<string, int>, share: int)
    requires DistinctAgents(voters)
    requires forall a :: a in Seats(voters, operator) ==> At(w, a) == share
    ensures SumOver(Seats(voters, operator), w) == share * BucketSize(voters, operator)
  {
    if voters != [] {
      var k := |voters| - 1;
      SeatsSnoc(voters, operator);
      var n := BucketSize(voters[..k], operator);
      assert SumOver(Seats(voters[..k], operator), w) == share * n by {
        assert Seats(voters[..k], operator) <= Seats(voters, operator);
        SeatSum(voters[..k], operator, w, share);
      }
      if voters[k].operator == operator {
        SumOverAdd(Seats(voters[..k], operator), w, voters[k].agent);
        OneMore(share, n);
      } else {
        assert Seats(voters, operator) == Seats(voters[..k], operator);
      }
    }
  }

  /** Every seated operator carries the same total `L`. */
  lemma OperatorsCarryEqualTotals(voters: seq<Voter>, operator: string)
    requires DistinctAgents(voters)
    requires operator in Operators(voters)
    ensures SumOver(Seats(voters, operator), WeightsOf(voters)) == CommonTotal(voters)
  {
    var share := Share(voters, operator);
    forall a | a in Seats(voters, operator) ensures At(WeightsOf(voters), a) == share {
      var v :| v in voters && v.operator == operator && v.agent == a;
      WeightMapAt(voters, voters, v);
    }
    SeatSum(voters, operator, WeightsOf(voters), share);
    ShareIsExact(voters, operator);
  }

  ghost function SeatsOfAll(voters: seq<Voter>, ops: seq<string>): set<string> {
    set v | v in voters && v.operator in ops :: v.agent
  }

  lemma SeatsOfAllSnoc(voters: seq<Voter>, ops: seq<string>)
    requires DistinctAgents(voters) && ops != []
    requires forall i, j :: 0 <= i < j < |ops| ==> ops[i] != ops[j]
    ensures var k := |ops| - 1;
            SeatsOfAll(voters, ops) == SeatsOfAll(voters, ops[..k]) + Seats(voters, ops[k])
    ensures SeatsOfAll(voters, ops[..|ops|-1]) !! Seats(voters, ops[|ops|-1])
  {
    var k := |ops| - 1;
    assert ops == ops[..k] + [ops[k]];
    forall u, v | u in voters && v in voters && u.operator in ops[..k] && v.operator == ops[k]
      ensures u.agent != v.agent
    {
      var i :| 0 <= i < |voters| && voters[i] == u;
      var j :| 0 <= j < |voters| && voters[j] == v;
      assert i != j;
    }
  }

  lemma {:induction false} TotalOfOperators(voters: seq<Voter>, ops: seq<string>, w: map<string, int>, l: int)
    requires DistinctAgents(voters)
    requires forall i :: 0 <= i < |ops| ==> SumOver(Seats(voters, ops[i]), w) == l
    requires forall i, j :: 0 <= i < j < |ops| ==> ops[i] != ops[j]
    ensures SumOver(SeatsOfAll(voters, ops), w) == l * |ops|
  {
    if ops == [] {
      assert SeatsOfAll(voters, ops) == {};
    } else {
      var k := |ops| - 1;
      TotalOfOperators(voters, ops[..k], w, l);
      SeatsOfAllSnoc(voters, ops);
      SumOverDisjoint(SeatsOfAll(voters, ops[..k]), Seats(voters, ops[k]), w);
      OneMore(l, k);
    }
  }

  /** The pinned total is `L` times the number of operators. */
  lemma PinnedTotal(voters: seq<Voter>)
    requires DistinctAgents(voters)
    ensures Total(WeightsOf(voters)) == CommonTotal(voters) * |Operators(voters)|
  {
    var ops := Operators(voters);
    OperatorsDistinct(voters);
    forall i | 0 <= i < |ops| ensures SumOver(Seats(voters, ops[i]), WeightsOf(voters)) == CommonTotal(voters) {
      OperatorsCarryEqualTotals(voters, ops[i]);
    }
    TotalOfOperators(voters, ops, WeightsOf(voters), CommonTotal(voters));
    forall agent ensures agent in SeatsOfAll(voters, ops) <==> agent in WeightsOf(voters) {
      WeightMapKeys(voters, voters, agent);
      if v :| v in voters && v.agent == agent {
        var i :| 0 <= i < |voters| && voters[i] == v;
        SeatedOperators(voters, v.operator);
        assert agent in SeatsOfAll(voters, ops);
      }
    }
    assert SeatsOfAll(voters, ops) == WeightsOf(voters).Keys;
  }

  // ---- independence of voter order

  lemma {:induction false} BucketSizeConcat(a: seq<Voter>, b: seq<Voter>, operator: string)
    ensures BucketSize(a + b, operator) == BucketSize(a, operator) + BucketSize(b, operator)
  {
    if b == [] {
      assert a + b == a;
    } else {
      assert (a + b)[..|a + b| - 1] == a + b[..|b|-1];
      BucketSizeConcat(a, b[..|b|-1], operator);
    }
  }

  lemma {:induction false} BucketSizeByMultiset(a: seq<Voter>, b: seq<Voter>, operator: string)
    requires multiset(a) == multiset(b)
    ensures BucketSize(a, operator) == BucketSize(b, operator)
    decreases |a|
  {
    SameMembers(a, b);
    if a != [] {
      var k := |a| - 1;
      var j := MatchLast(a, b);
      var last := [b[j]];
      assert b == b[..j] + last + b[j+1..];
      assert a == a[..k] + last;
      BucketSizeByMultiset(a[..k], b[..j] + b[j+1..], operator);
      BucketSizeConcat(b[..j], b[j+1..], operator);
      BucketSizeConcat(b[..j] + last, b[j+1..], operator);
      BucketSizeConcat(b[..j], last, operator);
      BucketSizeConcat(a[..k], last, operator);
    }
  }

  lemma SharesForgetOrder(a: seq<Voter>, b: seq<Voter>)
    requires multiset(a) == multiset(b)
    ensures forall op :: Share(a, op) == Share(b, op)
  {
    forall op
      ensures BucketSize(a, op) == BucketSize(b, op)
      ensures op in Operators(a) <==> op in Operators(b)
    {
      BucketSizeByMultiset(a, b, op);
      SeatedOperators(a, op);
      SeatedOperators(b, op);
    }
    SizesPositive(a, Operators(a));
    SizesPositive(b, Operators(b));
    SizesSameMembers(a, b, Operators(a), Operators(b));
    LcmAllOfMembers(SizesOf(a, Operators(a)), SizesOf(b, Operators(b)));
  }

  /** The weights do not depend on the order the voters are listed in. */
  lemma WeightsForgetOrder(a: seq<Voter>, b: seq<Voter>)
    requires DistinctAgents(a) && DistinctAgents(b)
    requires multiset(a) == multiset(b)
    ensures WeightsOf(a) == WeightsOf(b)
  {
    SameMembers(a, b);
    SharesForgetOrder(a, b);
    forall agent
      ensures agent in WeightsOf(a) <==> agent in WeightsOf(b)
      ensures agent in WeightsOf(a) ==> WeightsOf(a)[agent] == WeightsOf(b)[agent]
    {
      WeightMapKeys(a, a, agent);
      WeightMapKeys(b, b, agent);
      if v :| v in a && v.agent == agent {
        assert v in b;
        WeightMapAt(a, a, v);
        WeightMapAt(b, b, v);
      }
    }
  }
}
