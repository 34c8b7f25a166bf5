/** The contribution summary: `credit_of`, `_lcm` and `recompute`. */
module Contribution {
  import opened Prelude
  import opened Ordering
  import opened Arithmetic
  import opened Sums
  import opened HubSlice

  /** `(agent, share, denominator)`. */
  datatype Row = Row(agent: string, share: int, own: int)

  // ---- one Result

  /** `isinstance(v, int)`, which a boolean passes. */
  predicate IsInt(s: Scalar) {
    s.IntVal? || s.BoolVal?
  }

  function Amount(s: Scalar): int {
    match s
    case IntVal(n) => n
    case BoolVal(b) => if b then 1 else 0
    case _ => 0
  }

  /** What a share adds to the split's denominator: booleans are left out. */
  function Counted(s: Share): int {
    if s.amount.IntVal? then s.amount.n else 0
  }

  predicate ShareLe(a: Share, b: Share) {
    StrLe(a.agent, b.agent)
  }

  function RowsOfSplit(split: seq<Share>, own: int): seq<Row> {
    if split == [] then []
    else
      var k := |split| - 1;
      RowsOfSplit(split[..k], own)
      + if IsInt(split[k].amount) then [Row(split[k].agent, Amount(split[k].amount), own)] else []
  }

  function CreditOf(r: Payload): seq<Row> {
    if !r.Result? then []
    else if r.attributedTo.Several? && |r.attributedTo.agents| > 1 && r.split.Some? then
      var own := SumBy(Counted, r.split.value);
      if own <= 0 then [] else RowsOfSplit(Sort(ShareLe, r.split.value), own)
    else if r.attributedTo.Single? then [Row(r.attributedTo.agent, 1, 1)]
    else if r.attributedTo.Several? && r.attributedTo.agents != [] && r.attributedTo.agents[0].Some? then
      [Row(r.attributedTo.agents[0].value, 1, 1)]
    else []
  }

  // ---- the common denominator

  predicate AllPositive(values: seq<int>) {
    forall i :: 0 <= i < |values| ==> values[i] > 0
  }

  /** The fold of `_lcm`; zero when a value is not positive. */
  method LcmOf(values: seq<int>) returns (lcm: int)
    ensures AllPositive(values) ==> lcm == LcmAll(values)
    ensures !AllPositive(values) ==> lcm == 0
  {
    var sorted := Sort((a: int, b: int) => a <= b, values);
    SortProperties((a: int, b: int) => a <= b, values);
    lcm := 1;
    for i := 0 to |sorted|
      invariant AllPositive(sorted[..i])
      invariant lcm == LcmAll(sorted[..i])
    {
      if sorted[i] <= 0 {
        assert sorted[i] in values;
        return 0;
      }
      assert sorted[..i+1] == sorted[..i] + [sorted[i]];
      assert sorted[..i+1][..i] == sorted[..i];
      lcm := Lcm(lcm, sorted[i]);
    }
    assert sorted[..|sorted|] == sorted;
    forall i | 0 <= i < |values| ensures values[i] > 0 {
      assert values[i] in sorted;
    }
    LcmAllOfMembers(sorted, values);
  }

  function Owns(rows: seq<Row>): seq<int> {
    seq(|rows|, i requires 0 <= i < |rows| => rows[i].own)
  }

  predicate PositiveOwns(rows: seq<Row>) {
    forall r :: r in rows ==> r.own > 0
  }

  /** The summary's denominator. */
  function Denominator(rows: seq<Row>): (d: int)
    requires PositiveOwns(rows)
    ensures d > 0
  {
    LcmAll(Owns(rows))
  }

  lemma OwnsDivideDenominator(rows: seq<Row>)
    requires PositiveOwns(rows)
    ensures OwnsDivide(rows, Denominator(rows))
  {
    LcmAllDivides(Owns(rows));
    forall r | r in rows ensures Divides(r.own, Denominator(rows)) {
      var i :| 0 <= i < |rows| && rows[i] == r;
      assert Owns(rows)[i] == r.own;
    }
  }

  ghost predicate OwnsDivide(rows: seq<Row>, d: int) {
    forall r :: r in rows ==> r.own > 0 && Divides(r.own, d)
  }

  // ---- credit

  function OperatorOf(operators: map<string, string>, agent: string): string {
    if agent in operators then operators[agent] else agent
  }

  /** `share * denominator // own`. */
  function Worth(r: Row, d: int): int {
    if r.own == 0 then 0 else FloorDiv(r.share * d, r.own)
  }

  function CreditedOf(rows: seq<Row>, operators: map<string, string>, d: int): map<string, int> {
    if rows == [] then map[]
    else
      var k := |rows| - 1;
      var credited, operator := CreditedOf(rows[..k], operators, d), OperatorOf(operators, rows[k].agent);
      credited[operator := At(credited, operator) + Worth(rows[k], d)]
  }

  function WorthAt(d: int): Row -> int {
    (r: Row) => Worth(r, d)
  }

  function WorthTo(operators: map<string, string>, operator: string, d: int): Row -> int {
    (r: Row) => if OperatorOf(operators, r.agent) == operator then Worth(r, d) else 0
  }

  /** An operator's credit is the sum over its agents' rows. */
  lemma {:induction false} CreditedIsSum(rows: seq<Row>, operators: map<string, string>, d: int, operator: string)
    ensures At(CreditedOf(rows, operators, d), operator) == SumBy(WorthTo(operators, operator, d), rows)
  {
    if rows != [] {
      CreditedIsSum(rows[..|rows|-1], operators, d, operator);
    }
  }

  /** The credit of all operators together does not depend on the grouping. */
  lemma {:induction false} CreditedTotal(rows: seq<Row>, operators: map<string, string>, d: int)
    ensures Total(CreditedOf(rows, operators, d)) == SumBy(WorthAt(d), rows)
  {
    if rows != [] {
      var k := |rows| - 1;
      CreditedTotal(rows[..k], operators, d);
      var credited, operator := CreditedOf(rows[..k], operators, d), OperatorOf(operators, rows[k].agent);
      TotalUpdate(credited, operator, At(credited, operator) + Worth(rows[k], d));
    }
  }

  /** Every share divides out exactly over a common denominator. */
  lemma WorthIsExact(r: Row, d: int)
    requires r.own > 0 && Divides(r.own, d)
    ensures (r.share * d) % r.own == 0
    ensures Worth(r, d) == r.share * (d / r.own)
    ensures Worth(r, d) * r.own == r.share * d
  {
    DividesIsMod(r.own, d);
    var q := d / r.own;
    assert r.share * d == r.own * (r.share * q) by { assert r.share * (r.own * q) == r.own * (r.share * q); }
    DivExact(r.share * d, r.own, r.share * q);
  }

  // ---- conservation

  function ShareOf(r: Row): int { r.share }

  function TrueBit(s: Share): int {
    if s.amount == BoolVal(true) then 1 else 0
  }

  lemma {:induction false} SharesOfSplit(split: seq<Share>, own: int)
    ensures SumBy(ShareOf, RowsOfSplit(split, own)) == SumBy(Counted, split) + SumBy(TrueBit, split)
    ensures forall r :: r in RowsOfSplit(split, own) ==> r.own == own
  {
    if split != [] {
      var k := |split| - 1;
      var last := RowsOfSplit(split[..k], own);
      SharesOfSplit(split[..k], own);
      if IsInt(split[k].amount) {
        var row := Row(split[k].agent, Amount(split[k].amount), own);
        assert RowsOfSplit(split, own) == last + [row];
        assert (last + [row])[..|last|] == last;
      } else {
        assert RowsOfSplit(split, own) == last;
      }
    }
  }

  /** How many boolean `true` shares a multi-author Result is credited with. */
  function TrueShares(r: Payload): int {
    if CreditOf(r) != [] && r.Result? && r.attributedTo.Several? && |r.attributedTo.agents| > 1 && r.split.Some?
    then SumBy(TrueBit, r.split.value) else 0
  }

  /** The rows of one Result share one positive denominator and add up to it, boolean shares aside. */
  lemma CreditOfAddsUp(r: Payload)
    requires CreditOf(r) != []
    ensures var own := CreditOf(r)[0].own;
            && own > 0
            && (forall row :: row in CreditOf(r) ==> row.own == own)
            && SumBy(ShareOf, CreditOf(r)) == own + TrueShares(r)
  {
    assert forall row: Row :: [row][..0] == [];
    if r.attributedTo.Several? && |r.attributedTo.agents| > 1 && r.split.Some? {
      var split := r.split.value;
      SharesOfSplit(Sort(ShareLe, split), SumBy(Counted, split));
      SumBySort(Counted, ShareLe, split);
      SumBySort(TrueBit, ShareLe, split);
      assert CreditOf(r)[0] in CreditOf(r);
    } else {
      var row := CreditOf(r)[0];
      assert CreditOf(r) == [row] && row.own == 1 && row.share == 1;
      assert SumBy(ShareOf, [row][..0]) == 0;
    }
  }

  lemma {:induction false} WorthOfRows(rows: seq<Row>, own: int, d: int)
    requires own > 0 && Divides(own, d) && forall row :: row in rows ==> row.own == own
    ensures SumBy(WorthAt(d), rows) == SumBy(ShareOf, rows) * (d / own)
  {
    if rows != [] {
      var k := |rows| - 1;
      assert rows[k] in rows;
      WorthOfRows(rows[..k], own, d);
      WorthIsExact(rows[k], d);
      Distribute(SumBy(ShareOf, rows[..k]), rows[k].share, d / own);
    }
  }

  lemma Distribute(a: int, b: int, c: int)
    ensures (a + b) * c == a * c + b * c
  {
  }

  /** One Result is worth exactly one denominator, plus one part per boolean `true` share. */
  lemma ResultWorth(r: Payload, d: int)
    requires CreditOf(r) != [] && d > 0
    requires OwnsDivide(CreditOf(r), d)
    ensures SumBy(WorthAt(d), CreditOf(r)) == d + TrueShares(r) * (d / CreditOf(r)[0].own)
    ensures CreditOf(r)[0].own > 0 && d / CreditOf(r)[0].own > 0
  {
    var own := CreditOf(r)[0].own;
    CreditOfAddsUp(r);
    assert CreditOf(r)[0] in CreditOf(r);
    WorthOfRows(CreditOf(r), own, d);
    DividesIsMod(own, d);
    PositiveFactor(own, d / own);
    Distribute(own, TrueShares(r), d / own);
  }
}
