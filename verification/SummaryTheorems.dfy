/** What a recomputed summary promises: credit is conserved, a wider scope never lowers
    anyone's share, consecutive periods add up, and copies in the pool do not count. */
module SummaryTheorems {
  import opened Prelude
  import opened Ordering
  import opened Arithmetic
  import opened Sums
  import opened HubSlice
  import opened Contribution
  import opened Summary

  // ---- conservation

  /** How many Results of a list carry credit. */
  function Carrying(results: seq<Activity>): nat {
    if results == [] then 0
    else Carrying(results[..|results|-1]) + if CreditOf(results[|results|-1].payload) != [] then 1 else 0
  }

  /** The (settlement, readable Result) pairs of a period that carry credit. */
  function Readings(pool: seq<Activity>, scope: set<string>, slice: seq<Activity>): nat {
    if slice == [] then 0
    else Readings(pool, scope, slice[..|slice|-1]) + ReadingsFor(pool, scope, slice[|slice|-1])
  }

  function ReadingsFor(pool: seq<Activity>, scope: set<string>, a: Activity): nat {
    if a.payload.Settlement? then Carrying(ResultsOn(pool, ThreadOf(Threads(pool), a.payload.task), scope)) else 0
  }

  /** No Result read for the period declares a boolean `true` share. */
  ghost predicate NoTrueReads(pool: seq<Activity>, scope: set<string>, slice: seq<Activity>) {
    forall a :: a in slice ==> NoTrueReadsFor(pool, scope, a)
  }

  ghost predicate NoTrueReadsFor(pool: seq<Activity>, scope: set<string>, a: Activity) {
    a.payload.Settlement? ==> NoTrueShares(ResultsOn(pool, ThreadOf(Threads(pool), a.payload.task), scope))
  }

  ghost predicate NoTrueShares(results: seq<Activity>) {
    forall a :: a in results ==> TrueShares(a.payload) == 0
  }

  /** `n` times `d`, by repeated addition. */
  function Times(d: int, n: nat): int {
    if n == 0 then 0 else Times(d, n - 1) + d
  }

  lemma {:induction false} TimesAdds(d: int, m: nat, n: nat)
    ensures Times(d, m + n) == Times(d, m) + Times(d, n)
  {
    if n > 0 {
      TimesAdds(d, m, n - 1);
    }
  }

  lemma {:induction false} TimesIsProduct(d: int, n: nat)
    ensures Times(d, n) == d * n
  {
    if n > 0 {
      TimesIsProduct(d, n - 1);
      OneMore(d, n - 1);
    }
  }

  lemma TrueSharesCount(r: Payload)
    ensures TrueShares(r) >= 0
  {
    NonNegativeBits(if r.Result? && r.split.Some? then r.split.value else []);
  }

  /** One Result is worth its denominator or more; exactly that when no share is `true`. */
  lemma OneWorth(r: Payload, d: int)
    requires d > 0 && OwnsDivide(CreditOf(r), d)
    ensures SumBy(WorthAt(d), CreditOf(r)) >= Times(d, if CreditOf(r) != [] then 1 else 0)
    ensures SumBy(WorthAt(d), CreditOf(r)) == Times(d, if CreditOf(r) != [] then 1 else 0) <==> TrueShares(r) == 0
  {
    TrueSharesCount(r);
    assert Times(d, 1) == Times(d, 0) + d;
    if CreditOf(r) != [] {
      ResultWorth(r, d);
      SignOfMultiple(TrueShares(r), d / CreditOf(r)[0].own);
    }
  }

  lemma SignOfMultiple(n: int, x: int)
    requires n >= 0 && x > 0
    ensures n * x >= 0 && (n * x == 0 <==> n == 0)
  {
    if n > 0 {
      PositiveProduct(n, x);
    }
  }

  lemma WorthAdds(worth: Row -> int, x: seq<Row>, y: seq<Row>, d: int, m: nat, n: nat)
    requires PaysAtLeast(worth, x, d, m) && PaysAtLeast(worth, y, d, n)
    ensures PaysAtLeast(worth, x + y, d, m + n)
    ensures PaysExactly(worth, x + y, d, m + n) <==> PaysExactly(worth, x, d, m) && PaysExactly(worth, y, d, n)
  {
    SumByConcat(worth, x, y);
    TimesAdds(d, m, n);
  }

  function CreditAt(a: Activity): seq<Row> {
    CreditOf(a.payload)
  }

  function CarriesAt(a: Activity): nat {
    if CreditOf(a.payload) != [] then 1 else 0
  }

  lemma {:induction false} CreditsAreFlat(results: seq<Activity>)
    ensures CreditsOf(results) == Flatten(CreditAt, results) && Carrying(results) == CountAll(CarriesAt, results)
  {
    if results != [] {
      CreditsAreFlat(results[..|results|-1]);
    }
  }

  lemma CarriedWorth(results: seq<Activity>, d: int)
    requires d > 0 && OwnsDivide(CreditsOf(results), d)
    ensures SumBy(WorthAt(d), CreditsOf(results)) >= Times(d, Carrying(results))
    ensures SumBy(WorthAt(d), CreditsOf(results)) == Times(d, Carrying(results)) <==> NoTrueShares(results)
  {
    forall a | a in results
      ensures PaysAtLeast(WorthAt(d), CreditAt(a), d, CarriesAt(a))
      ensures PaysExactly(WorthAt(d), CreditAt(a), d, CarriesAt(a)) <==> TrueShares(a.payload) == 0
    {
      forall row | row in CreditOf(a.payload) ensures row in CreditsOf(results) {
        CreditsMember(results, row);
      }
      OneWorth(a.payload, d);
    }
    FlattenWorth(WorthAt(d), CreditAt, CarriesAt, results, d);
    CreditsAreFlat(results);
  }

  lemma SettlementWorth(pool: seq<Activity>, scope: set<string>, a: Activity, d: int)
    requires d > 0 && OwnsDivide(RowsFor(pool, scope, a), d)
    ensures SumBy(WorthAt(d), RowsFor(pool, scope, a)) >= Times(d, ReadingsFor(pool, scope, a))
    ensures SumBy(WorthAt(d), RowsFor(pool, scope, a)) == Times(d, ReadingsFor(pool, scope, a))
            <==> NoTrueReadsFor(pool, scope, a)
  {
    if a.payload.Settlement? {
      CarriedWorth(ResultsOn(pool, ThreadOf(Threads(pool), a.payload.task), scope), d);
    }
  }

  lemma OwnsDivideParts(x: seq<Row>, y: seq<Row>, d: int)
    requires OwnsDivide(x + y, d)
    ensures OwnsDivide(x, d) && OwnsDivide(y, d)
  {
    forall r | r in x || r in y ensures r.own > 0 && Divides(r.own, d) {
      assert r in x + y;
    }
  }

  ghost predicate Fits(pool: seq<Activity>, scope: set<string>, a: Activity, d: int) {
    OwnsDivide(RowsFor(pool, scope, a), d)
  }

  lemma {:induction false} RowsFit(pool: seq<Activity>, scope: set<string>, slice: seq<Activity>, d: int)
    requires OwnsDivide(RowsOf(pool, scope, slice), d)
    ensures forall a :: a in slice ==> Fits(pool, scope, a, d)
  {
    if slice != [] {
      var before, a := slice[..|slice|-1], slice[|slice|-1];
      OwnsDivideParts(RowsOf(pool, scope, before), RowsFor(pool, scope, a), d);
      RowsFit(pool, scope, before, d);
      assert slice == before + [a];
    }
  }

  function Flatten<A>(rows: A -> seq<Row>, slice: seq<A>): seq<Row> {
    if slice == [] then [] else Flatten(rows, slice[..|slice|-1]) + rows(slice[|slice|-1])
  }

  function CountAll<A>(count: A -> nat, slice: seq<A>): nat {
    if slice == [] then 0 else CountAll(count, slice[..|slice|-1]) + count(slice[|slice|-1])
  }

  ghost predicate PaysAtLeast(worth: Row -> int, rows: seq<Row>, d: int, n: nat) {
    SumBy(worth, rows) >= Times(d, n)
  }

  ghost predicate PaysExactly(worth: Row -> int, rows: seq<Row>, d: int, n: nat) {
    SumBy(worth, rows) == Times(d, n)
  }

  /** When each part pays at least `d` for each count, so does the whole; and exactly so when each
      part does. */
  lemma {:induction false} FlattenWorth<A>(worth: Row -> int, rows: A -> seq<Row>, count: A -> nat, slice: seq<A>,
                                           d: int)
    requires forall a :: a in slice ==> PaysAtLeast(worth, rows(a), d, count(a))
    ensures PaysAtLeast(worth, Flatten(rows, slice), d, CountAll(count, slice))
    ensures PaysExactly(worth, Flatten(rows, slice), d, CountAll(count, slice)) <==>
              forall a :: a in slice ==> PaysExactly(worth, rows(a), d, count(a))
  {
    if slice != [] {
      var before, a := slice[..|slice|-1], slice[|slice|-1];
      assert slice == before + [a];
      FlattenWorth(worth, rows, count, before, d);
      WorthAdds(worth, Flatten(rows, before), rows(a), d, CountAll(count, before), count(a));
    }
  }

  function RowsAt(pool: seq<Activity>, scope: set<string>): Activity -> seq<Row> {
    (a: Activity) => RowsFor(pool, scope, a)
  }

  function ReadingsAt(pool: seq<Activity>, scope: set<string>): Activity -> nat {
    (a: Activity) => ReadingsFor(pool, scope, a)
  }

  lemma {:induction false} PeriodIsFlat(pool: seq<Activity>, scope: set<string>, slice: seq<Activity>)
    ensures RowsOf(pool, scope, slice) == Flatten(RowsAt(pool, scope), slice)
    ensures Readings(pool, scope, slice) == CountAll(ReadingsAt(pool, scope), slice)
  {
    if slice != [] {
      PeriodIsFlat(pool, scope, slice[..|slice|-1]);
    }
  }

  lemma PeriodWorth(pool: seq<Activity>, scope: set<string>, slice: seq<Activity>, d: int)
    requires d > 0 && OwnsDivide(RowsOf(pool, scope, slice), d)
    ensures SumBy(WorthAt(d), RowsOf(pool, scope, slice)) >= Times(d, Readings(pool, scope, slice))
    ensures SumBy(WorthAt(d), RowsOf(pool, scope, slice)) == Times(d, Readings(pool, scope, slice))
            <==> NoTrueReads(pool, scope, slice)
  {
    var rows, readings := RowsAt(pool, scope), ReadingsAt(pool, scope);
    RowsFit(pool, scope, slice, d);
    forall a | a in slice
      ensures PaysAtLeast(WorthAt(d), rows(a), d, readings(a))
      ensures PaysExactly(WorthAt(d), rows(a), d, readings(a)) <==> NoTrueReadsFor(pool, scope, a)
    {
      assert Fits(pool, scope, a, d);
      SettlementWorth(pool, scope, a, d);
    }
    FlattenWorth(WorthAt(d), rows, readings, slice, d);
    PeriodIsFlat(pool, scope, slice);
  }

  lemma ResultsAreInPool(pool: seq<Activity>, thread: Option<string>, scope: set<string>)
    ensures forall a :: a in ResultsOn(pool, thread, scope) <==>
              thread.Some? && a in pool && Readable(thread.value, scope, a)
  {
    if thread.Some? {
      FilterMembers(ReadableIn(thread.value, scope), pool);
    }
  }

  /** Credit is conserved, exactly: over all operators it is never less than the denominator times
      the number of credit-carrying readings, whichever way agents are grouped; and it is exactly
      that if and only if no Result that was read declares a boolean `true` share. */
  lemma CreditIsConserved(pool: seq<Activity>, scope: set<string>, slice: seq<Activity>, operators: map<string, string>)
    ensures PositiveOwns(RowsOf(pool, scope, slice))
    ensures var rows := RowsOf(pool, scope, slice);
            var total, due := Total(CreditedOf(rows, operators, Denominator(rows))),
                Denominator(rows) * Readings(pool, scope, slice);
            total >= due && (total == due <==> NoTrueReads(pool, scope, slice))
  {
    var rows := RowsOf(pool, scope, slice);
    RowsOfArePositive(pool, scope, slice);
    OwnsDivideDenominator(rows);
    PeriodWorth(pool, scope, slice, Denominator(rows));
    TimesIsProduct(Denominator(rows), Readings(pool, scope, slice));
    CreditedTotal(rows, operators, Denominator(rows));
  }

  /** One multi-author Result keeps its worth exactly when no share of it is a boolean `true`:
      such a share is credited but not counted in the denominator. */
  lemma ResultIsWholeIff(r: Payload)
    requires CreditOf(r) != []
    ensures PositiveOwns(CreditOf(r))
    ensures var d := Denominator(CreditOf(r));
            SumBy(WorthAt(d), CreditOf(r)) == d <==> TrueShares(r) == 0
  {
    CreditOfAddsUp(r);
    var d := Denominator(CreditOf(r));
    OwnsDivideDenominator(CreditOf(r));
    ResultWorth(r, d);
    NonNegativeBits(if r.split.Some? then r.split.value else []);
    Multiples(d / CreditOf(r)[0].own, TrueShares(r));
  }

  lemma {:induction false} NonNegativeBits(split: seq<Share>)
    ensures SumBy(TrueBit, split) >= 0
  {
    if split != [] {
      NonNegativeBits(split[..|split|-1]);
    }
  }

  /** Such a Result exists: one share of 1 and one of `true` make two rows over one. */
  lemma BooleanShareIsCredited() returns (r: Payload)
    ensures CreditOf(r) != [] && TrueShares(r) == 1
  {
    var a, b := Share("a", IntVal(1)), Share("b", BoolVal(true));
    var split := [a, b];
    r := Result(Several([Some("a"), Some("b")]), Some(split));
    SumOfTwo(Counted, a, b);
    SumOfTwo(TrueBit, a, b);
    SharesOfSplit(Sort(ShareLe, split), 1);
    SumBySort(Counted, ShareLe, split);
    SumBySort(TrueBit, ShareLe, split);
    assert SumBy(ShareOf, RowsOfSplit(Sort(ShareLe, split), 1)) == 2;
    assert SumBy(ShareOf, []) == 0;
  }

  // ---- fractions of different denominators

  lemma {:induction false} Rescale(rows: seq<Row>, operators: map<string, string>, operator: string, d: int, e: int)
    requires OwnsDivide(rows, d) && OwnsDivide(rows, e)
    ensures SumBy(WorthTo(operators, operator, d), rows) * e == SumBy(WorthTo(operators, operator, e), rows) * d
  {
    if rows != [] {
      var k := |rows| - 1;
      assert rows[k] in rows;
      Rescale(rows[..k], operators, operator, d, e);
      RescaleRow(rows[k], d, e);
      var f, g := WorthTo(operators, operator, d), WorthTo(operators, operator, e);
      Distribute(SumBy(f, rows[..k]), f(rows[k]), e);
      Distribute(SumBy(g, rows[..k]), g(rows[k]), d);
    }
  }

  lemma RescaleRow(r: Row, d: int, e: int)
    requires r.own > 0 && Divides(r.own, d) && Divides(r.own, e)
    ensures Worth(r, d) * e == Worth(r, e) * d
  {
    WorthIsExact(r, d);
    WorthIsExact(r, e);
    DividesIsMod(r.own, d);
    DividesIsMod(r.own, e);
    var x, y := d / r.own, e / r.own;
    CrossMultiply(r.share, r.own, x, y);
  }

  lemma CrossMultiply(s: int, o: int, x: int, y: int)
    ensures (s * x) * (o * y) == (s * y) * (o * x)
  {
    Interchange(s, x, o, y);
    Interchange(s, y, o, x);
  }

  // ---- scope

  /** What two disjoint scopes read of a thread is what they read together. */
  lemma {:induction false} ScopesFilter(pool: seq<Activity>, thread: string, m: set<string>, n: set<string>,
                                        f: Row -> int)
    requires m !! n
    ensures SumBy(f, CreditsOf(Filter(ReadableIn(thread, m + n), pool)))
         == SumBy(f, CreditsOf(Filter(ReadableIn(thread, m), pool)))
            + SumBy(f, CreditsOf(Filter(ReadableIn(thread, n), pool)))
  {
    if pool != [] {
      ScopesFilter(pool[..|pool|-1], thread, m, n, f);
      FilteredCredit(pool, thread, m, f);
      FilteredCredit(pool, thread, n, f);
      FilteredCredit(pool, thread, m + n, f);
    }
  }

  lemma FilteredCredit(pool: seq<Activity>, thread: string, scope: set<string>, f: Row -> int)
    requires pool != []
    ensures var k := |pool| - 1;
            SumBy(f, CreditsOf(Filter(ReadableIn(thread, scope), pool)))
            == SumBy(f, CreditsOf(Filter(ReadableIn(thread, scope), pool[..k])))
               + if Readable(thread, scope, pool[k]) then SumBy(f, CreditOf(pool[k].payload)) else 0
  {
    var k := |pool| - 1;
    var before := Filter(ReadableIn(thread, scope), pool[..k]);
    if Readable(thread, scope, pool[k]) {
      assert (before + [pool[k]])[..|before|] == before;
      SumByConcat(f, CreditsOf(before), CreditOf(pool[k].payload));
    } else {
      assert Filter(ReadableIn(thread, scope), pool) == before;
    }
  }

  lemma {:induction false} NonNegativeSum(f: Row -> int, rows: seq<Row>)
    requires forall row :: row in rows ==> f(row) >= 0
    ensures SumBy(f, rows) >= 0
  {
    if rows != [] {
      NonNegativeSum(f, rows[..|rows|-1]);
      assert rows[|rows|-1] in rows;
    }
  }

  lemma {:induction false} ScopeRowsAdd(pool: seq<Activity>, m: set<string>, n: set<string>, slice: seq<Activity>,
                                        f: Row -> int)
    requires m !! n
    ensures SumBy(f, RowsOf(pool, m + n, slice)) == SumBy(f, RowsOf(pool, m, slice)) + SumBy(f, RowsOf(pool, n, slice))
  {
    if slice != [] {
      var k := |slice| - 1;
      var a := slice[k];
      ScopeRowsAdd(pool, m, n, slice[..k], f);
      SumByConcat(f, RowsOf(pool, m, slice[..k]), RowsFor(pool, m, a));
      SumByConcat(f, RowsOf(pool, n, slice[..k]), RowsFor(pool, n, a));
      SumByConcat(f, RowsOf(pool, m + n, slice[..k]), RowsFor(pool, m + n, a));
      if a.payload.Settlement? {
        var thread := ThreadOf(Threads(pool), a.payload.task);
        if thread.Some? {
          ScopesFilter(pool, thread.value, m, n, f);
        }
      }
    }
  }

  lemma {:induction false} NarrowRowsAreWide(pool: seq<Activity>, narrow: set<string>, wide: set<string>,
                                             slice: seq<Activity>, row: Row)
    requires narrow <= wide && row in RowsOf(pool, narrow, slice)
    ensures row in RowsOf(pool, wide, slice)
  {
    var k := |slice| - 1;
    if row in RowsOf(pool, narrow, slice[..k]) {
      NarrowRowsAreWide(pool, narrow, wide, slice[..k], row);
    } else {
      var thread := ThreadOf(Threads(pool), slice[k].payload.task);
      CreditsMember(ResultsOn(pool, thread, narrow), row);
      CreditsMember(ResultsOn(pool, thread, wide), row);
      ResultsAreInPool(pool, thread, narrow);
      ResultsAreInPool(pool, thread, wide);
    }
  }

  lemma {:induction false} CreditsMember(results: seq<Activity>, row: Row)
    ensures row in CreditsOf(results) <==> exists a :: a in results && row in CreditOf(a.payload)
  {
    if results != [] {
      var k := |results| - 1;
      CreditsMember(results[..k], row);
      assert results == results[..k] + [results[k]];
    }
  }

  lemma WorthIsMonotone(row: Row, d: int)
    requires row.own > 0 && row.share >= 0 && d >= 0
    ensures Worth(row, d) >= 0
  {
    SignedProduct(row.share, d);
  }

  lemma SignedProduct(x: int, y: int)
    requires x >= 0 && y >= 0
    ensures x * y >= 0
  {
  }

  /** Credit adds up over disjoint scopes, as fractions of their own denominators. */
  lemma ScopesAdd(pool: seq<Activity>, m: set<string>, n: set<string>, slice: seq<Activity>,
                  operators: map<string, string>, operator: string)
    requires m !! n
    ensures var p, q, u := RowsOf(pool, m, slice), RowsOf(pool, n, slice), RowsOf(pool, m + n, slice);
            PositiveOwns(p) && PositiveOwns(q) && PositiveOwns(u) && AddUp(p, q, u, operators, operator)
  {
    var p, q, u := RowsOf(pool, m, slice), RowsOf(pool, n, slice), RowsOf(pool, m + n, slice);
    RowsOfArePositive(pool, m, slice);
    RowsOfArePositive(pool, n, slice);
    RowsOfArePositive(pool, m + n, slice);
    forall r | r in p || r in q ensures r in u {
      if r in p {
        NarrowRowsAreWide(pool, m, m + n, slice, r);
      } else {
        NarrowRowsAreWide(pool, n, m + n, slice, r);
      }
    }
    ScopeRowsAdd(pool, m, n, slice, WorthTo(operators, operator, Denominator(u)));
    FractionsAdd(p, q, u, operators, operator);
  }

  lemma SameSign(d: int, e: int, f: int, few: int, more: int, many: int)
    requires d > 0 && e > 0 && f > 0
    requires many * (d * e) == few * (f * e) + more * (f * d)
    ensures few * f <= many * d <==> more >= 0
  {
    var gain, scale := many * d - few * f, f * d;
    PositiveProduct(f, d);
    assert gain * e == more * scale by {
      Regroup(many, d, e);
      Regroup(few, f, e);
      Distribute(many * d, -(few * f), e);
      Negated(few * f, e);
    }
    SignOfProductWith(gain, e);
    SignOfProductWith(more, scale);
  }

  lemma Negated(x: int, y: int)
    ensures (-x) * y == -(x * y)
  {
  }

  lemma SignOfProductWith(x: int, y: int)
    requires y > 0
    ensures x * y >= 0 <==> x >= 0
  {
    if x > 0 {
      PositiveProduct(x, y);
    } else if x < 0 {
      PositiveProduct(-x, y);
      Negated(x, y);
    }
  }

  /** Widening the frame's scope lowers an operator's credit, as a fraction of its own denominator,
      exactly when the Results that only the wider scope reads credit the operator negatively. */
  lemma WiderScopeLowersCreditIff(pool: seq<Activity>, narrow: set<string>, wide: set<string>, slice: seq<Activity>,
                                  operators: map<string, string>, operator: string)
    requires narrow <= wide
    ensures var few, many := RowsOf(pool, narrow, slice), RowsOf(pool, wide, slice);
            var more := RowsOf(pool, wide - narrow, slice);
            && PositiveOwns(few) && PositiveOwns(more) && PositiveOwns(many)
            && (CreditOver(few, operators, operator, Denominator(few)) * Denominator(many)
                <= CreditOver(many, operators, operator, Denominator(many)) * Denominator(few)
                <==> CreditOver(more, operators, operator, Denominator(more)) >= 0)
  {
    var few, more, many := RowsOf(pool, narrow, slice), RowsOf(pool, wide - narrow, slice), RowsOf(pool, wide, slice);
    assert narrow + (wide - narrow) == wide;
    ScopesAdd(pool, narrow, wide - narrow, slice, operators, operator);
    SameSign(Denominator(few), Denominator(more), Denominator(many),
             CreditOver(few, operators, operator, Denominator(few)),
             CreditOver(more, operators, operator, Denominator(more)),
             CreditOver(many, operators, operator, Denominator(many)));
  }

  /** It never does when the Results that only the wider scope reads declare no negative share. */
  lemma WiderScopeNeverLowersCredit(pool: seq<Activity>, narrow: set<string>, wide: set<string>, slice: seq<Activity>,
                                    operators: map<string, string>, operator: string)
    requires narrow <= wide
    requires forall row :: row in RowsOf(pool, wide - narrow, slice) ==> row.share >= 0
    ensures PositiveOwns(RowsOf(pool, narrow, slice)) && PositiveOwns(RowsOf(pool, wide, slice))
    ensures var few, many := RowsOf(pool, narrow, slice), RowsOf(pool, wide, slice);
            CreditOver(few, operators, operator, Denominator(few)) * Denominator(many)
            <= CreditOver(many, operators, operator, Denominator(many)) * Denominator(few)
  {
    var more := RowsOf(pool, wide - narrow, slice);
    WiderScopeLowersCreditIff(pool, narrow, wide, slice, operators, operator);
    var g := WorthTo(operators, operator, Denominator(more));
    forall row | row in more ensures g(row) >= 0 {
      WorthIsMonotone(row, Denominator(more));
    }
    NonNegativeSum(g, more);
    CreditedIsSum(more, operators, Denominator(more), operator);
  }

  lemma TwoShares(a: Share, b: Share, own: int)
    requires a.amount.IntVal? && b.amount.IntVal? && ShareLe(a, b)
    ensures SumBy(Counted, [a, b]) == a.amount.n + b.amount.n
    ensures RowsOfSplit(Sort(ShareLe, [a, b]), own) == [Row(a.agent, a.amount.n, own), Row(b.agent, b.amount.n, own)]
  {
    assert [a, b][1..] == [b] && [b][1..] == [] && [a] + [b] == [a, b];
    assert Sort(ShareLe, [b]) == [b] && Sort(ShareLe, [a, b]) == [a, b];
    assert [a, b][..1] == [a] && [a][..0] == [];
    SumOfTwo(Counted, a, b);
    assert RowsOfSplit([a], own) == [Row(a.agent, a.amount.n, own)];
  }

  lemma OneSettlement(pool: seq<Activity>, scope: set<string>, settled: Activity)
    ensures RowsOf(pool, scope, [settled]) == RowsFor(pool, scope, settled)
  {
    assert [settled][..0] == [];
  }

  lemma OneThread(task: Activity, settled: Activity, result: Activity)
    requires task.payload.Task? && !settled.payload.Task? && !result.payload.Task?
    ensures ThreadOf(Threads([task, settled, result]), task.payload.id) == task.context
  {
    var three, two, one := [task, settled, result], [task, settled], [task];
    assert three[..2] == two && two[..1] == one && one[..0] == [];
    assert Threads(one) == map[task.payload.id := task.context];
    assert Threads(two) == Threads(one) && Threads(three) == Threads(two);
  }

  lemma OneCredit(result: Activity)
    ensures CreditsOf([result]) == CreditOf(result.payload)
  {
    assert [result][..0] == [];
  }

  /** A hub's task and settlement with one Result on its thread, visible to `v`. */
  lemma OneReading(pool: seq<Activity>, task: Activity, settled: Activity, result: Activity)
    requires pool == [task, settled, result] && task.payload.Task? && task.context.Some?
    requires settled.payload == Settlement(task.payload.id, [])
    requires result.payload.Result? && result.context == task.context && result.visibility == "v"
    ensures RowsOf(pool, {}, [settled]) == [] && RowsOf(pool, {"v"}, [settled]) == CreditOf(result.payload)
  {
    var two := [task, settled];
    assert pool[..2] == two;
    OneThread(task, settled, result);
    var none, all := ReadableIn(task.context.value, {}), ReadableIn(task.context.value, {"v"});
    FilterNone(none, pool);
    FilterNone(all, two);
    assert Filter(all, pool) == [result];
    OneSettlement(pool, {}, settled);
    OneSettlement(pool, {"v"}, settled);
    OneCredit(result);
  }

  lemma LossOfSecond(rows: seq<Row>, d: int)
    requires rows == [Row("a", 2, 1), Row("b", -1, 1)] && d > 0
    ensures CreditOver(rows, map[], "b", d) < 0
  {
    assert rows[..1] == [Row("a", 2, 1)] && rows[..1][..0] == [];
    assert CreditedOf(rows[..1], map[], d) == map["a" := 0 + Worth(rows[0], d)];
    assert Worth(rows[1], d) == FloorDiv(-d, 1) == -d;
  }

  /** A split of 2 and -1 is accepted, and whoever reads it sees its second author lose. */
  lemma NegativeShareLowersCredit() returns (pool: seq<Activity>, slice: seq<Activity>)
    ensures var few, many := RowsOf(pool, {}, slice), RowsOf(pool, {"v"}, slice);
            && PositiveOwns(few) && PositiveOwns(many)
            && CreditOver(few, map[], "b", Denominator(few)) == 0
            && CreditOver(many, map[], "b", Denominator(many)) < 0
  {
    var a, b := Share("a", IntVal(2)), Share("b", IntVal(-1));
    var task := Activity("h", "1", None, 1, Some("t"), "v", false, Task("x"));
    var settled := Activity("h", "2", Some("1"), 2, None, "v", false, Settlement("x", []));
    var payload := Result(Several([Some("a"), Some("b")]), Some([a, b]));
    var result := Activity("a", "3", None, 1, Some("t"), "v", false, payload);
    pool, slice := [task, settled, result], [settled];
    RowsOfArePositive(pool, {}, slice);
    RowsOfArePositive(pool, {"v"}, slice);
    OneReading(pool, task, settled, result);
    TwoShares(a, b, 1);
    var many := RowsOf(pool, {"v"}, slice);
    LossOfSecond(many, Denominator(many));
  }

  /** How many settlements of a period are unreadable and attributed to an operator. */
  function UnreadCount(pool: seq<Activity>, scope: set<string>, operators: map<string, string>, slice: seq<Activity>,
                       operator: string): nat {
    if slice == [] then 0
    else
      var a := slice[|slice|-1];
      UnreadCount(pool, scope, operators, slice[..|slice|-1], operator)
      + if a.payload.Settlement? && ResultsOn(pool, ThreadOf(Threads(pool), a.payload.task), scope) == []
           && operator in Attributed(operators, a.payload.settled)
        then 1 else 0
  }

  lemma {:induction false} ResultsFoldReads(t: Tally, operators: map<string, string>, superseded: bool,
                                            results: seq<Activity>)
    ensures ResultsFold(t, operators, superseded, results).unreadable == t.unreadable
  {
    if results != [] {
      ResultsFoldReads(t, operators, superseded, results[..|results| - 1]);
    }
  }

  lemma {:induction false} UnreadableIsCount(pool: seq<Activity>, scope: set<string>, operators: map<string, string>,
                                             slice: seq<Activity>, operator: string)
    ensures At(SliceFold(pool, scope, operators, slice).unreadable, operator)
        == UnreadCount(pool, scope, operators, slice, operator)
  {
    if slice != [] {
      var k := |slice| - 1;
      var a := slice[k];
      UnreadableIsCount(pool, scope, operators, slice[..k], operator);
      if a.payload.Settlement? {
        var thread := ThreadOf(Threads(pool), a.payload.task);
        var t := SliceFold(pool, scope, operators, slice[..k]);
        ResultsFoldReads(t.(inputs := t.inputs + {a.digest}), operators, Superseded(pool, thread),
                         ResultsOn(pool, thread, scope));
      }
    }
  }

  lemma {:induction false} WiderScopeReadsMore(pool: seq<Activity>, narrow: set<string>, wide: set<string>,
                                               slice: seq<Activity>, operators: map<string, string>, operator: string)
    requires narrow <= wide
    ensures UnreadCount(pool, wide, operators, slice, operator) <= UnreadCount(pool, narrow, operators, slice, operator)
  {
    if slice != [] {
      var k := |slice| - 1;
      WiderScopeReadsMore(pool, narrow, wide, slice[..k], operators, operator);
      if slice[k].payload.Settlement? {
        var thread := ThreadOf(Threads(pool), slice[k].payload.task);
        ResultsAreInPool(pool, thread, narrow);
        ResultsAreInPool(pool, thread, wide);
        if ResultsOn(pool, thread, narrow) != [] {
          var r := ResultsOn(pool, thread, narrow)[0];
          assert r in ResultsOn(pool, thread, narrow);
          assert r in ResultsOn(pool, thread, wide);
        }
      }
    }
  }

  /** Nor does it raise anyone's count of unreadable work. */
  lemma WiderScopeNeverHidesWork(pool: seq<Activity>, narrow: set<string>, wide: set<string>, slice: seq<Activity>,
                                 operators: map<string, string>, operator: string)
    requires narrow <= wide
    ensures At(SliceFold(pool, wide, operators, slice).unreadable, operator)
         <= At(SliceFold(pool, narrow, operators, slice).unreadable, operator)
  {
    UnreadableIsCount(pool, wide, operators, slice, operator);
    UnreadableIsCount(pool, narrow, operators, slice, operator);
    WiderScopeReadsMore(pool, narrow, wide, slice, operators, operator);
  }

  // ---- consecutive periods

  lemma {:induction false} FlattenConcat<A>(rows: A -> seq<Row>, s: seq<A>, t: seq<A>)
    ensures Flatten(rows, s + t) == Flatten(rows, s) + Flatten(rows, t)
  {
    if t == [] {
      assert s + t == s;
    } else {
      var front, a := t[..|t|-1], t[|t|-1];
      assert (s + t)[..|s + t| - 1] == s + front;
      FlattenConcat(rows, s, front);
      ConcatAssociates(Flatten(rows, s), Flatten(rows, front), rows(a));
    }
  }

  lemma RowsOfConcat(pool: seq<Activity>, scope: set<string>, s: seq<Activity>, t: seq<Activity>)
    ensures RowsOf(pool, scope, s + t) == RowsOf(pool, scope, s) + RowsOf(pool, scope, t)
  {
    PeriodIsFlat(pool, scope, s);
    PeriodIsFlat(pool, scope, t);
    PeriodIsFlat(pool, scope, s + t);
    FlattenConcat(RowsAt(pool, scope), s, t);
  }

  lemma {:induction false} UnreadCountConcat(pool: seq<Activity>, scope: set<string>, operators: map<string, string>,
                                             s: seq<Activity>, t: seq<Activity>, operator: string)
    ensures UnreadCount(pool, scope, operators, s + t, operator)
         == UnreadCount(pool, scope, operators, s, operator) + UnreadCount(pool, scope, operators, t, operator)
  {
    if t == [] {
      assert s + t == s;
    } else {
      assert (s + t)[..|s + t| - 1] == s + t[..|t|-1];
      UnreadCountConcat(pool, scope, operators, s, t[..|t|-1], operator);
    }
  }

  /** An operator's credit over some rows, as a numerator over `d`. */
  function CreditOver(rows: seq<Row>, operators: map<string, string>, operator: string, d: int): int {
    At(CreditedOf(rows, operators, d), operator)
  }

  /** Adjacent periods add up: the joined interval is the two intervals in a row, its rows are
      theirs, unreadable counts add, and so do the fractions each operator earned. */
  lemma ConsecutivePeriodsAdd(pool: seq<Activity>, scope: set<string>, hub: string, rank: map<string, nat>,
                              a: string, b: string, c: string, s: seq<Activity>, t: seq<Activity>,
                              operators: map<string, string>, operator: string)
    requires var held := ByDigest(pool, hub);
             Ranked(held, rank) && "" !in held && IsInterval(held, a, b, s) && IsInterval(held, b, c, t)
    ensures IsInterval(ByDigest(pool, hub), a, c, s + t)
    ensures RowsOf(pool, scope, s + t) == RowsOf(pool, scope, s) + RowsOf(pool, scope, t)
    ensures PositiveOwns(RowsOf(pool, scope, s)) && PositiveOwns(RowsOf(pool, scope, t))
        && PositiveOwns(RowsOf(pool, scope, s + t))
    ensures AddUp(RowsOf(pool, scope, s), RowsOf(pool, scope, t), RowsOf(pool, scope, s + t), operators, operator)
    ensures At(SliceFold(pool, scope, operators, s + t).unreadable, operator)
         == At(SliceFold(pool, scope, operators, s).unreadable, operator)
            + At(SliceFold(pool, scope, operators, t).unreadable, operator)
  {
    ByDigestKeys(pool, hub);
    IntervalsCompose(ByDigest(pool, hub), rank, a, b, c, s, t);
    RowsOfConcat(pool, scope, s, t);
    RowsOfArePositive(pool, scope, s);
    RowsOfArePositive(pool, scope, t);
    RowsOfArePositive(pool, scope, s + t);
    var p, q, u := RowsOf(pool, scope, s), RowsOf(pool, scope, t), RowsOf(pool, scope, s + t);
    SumByConcat(WorthTo(operators, operator, Denominator(u)), p, q);
    FractionsAdd(p, q, u, operators, operator);
    UnreadableIsCount(pool, scope, operators, s, operator);
    UnreadableIsCount(pool, scope, operators, t, operator);
    UnreadableIsCount(pool, scope, operators, s + t, operator);
    UnreadCountConcat(pool, scope, operators, s, t, operator);
  }

  lemma GapCloses(x: int, x': int, y: int, z: int, d: int, e: int, f: int)
    requires e > 0 && f > 0 && z * (d * e) == x' * (f * e) + y * (f * d)
    ensures z * (d * e) == x * (f * e) + y * (f * d) <==> x == x'
  {
    PositiveProduct(f, e);
    if x < x' {
      PositiveProduct(x' - x, f * e);
    } else if x > x' {
      PositiveProduct(x - x', f * e);
    }
    Distribute(x, -x', f * e);
    Negated(x', f * e);
    Distribute(x', -x, f * e);
    Negated(x, f * e);
  }

  lemma TwoMappingsAddIff(pool: seq<Activity>, scope: set<string>, s: seq<Activity>, t: seq<Activity>,
                          first: map<string, string>, second: map<string, string>, operator: string)
    ensures var p, q, u := RowsOf(pool, scope, s), RowsOf(pool, scope, t), RowsOf(pool, scope, s + t);
            && PositiveOwns(p) && PositiveOwns(q) && PositiveOwns(u)
            && var d, e, f := Denominator(p), Denominator(q), Denominator(u);
               (CreditOver(u, second, operator, f) * (d * e)
                == CreditOver(p, first, operator, d) * (f * e) + CreditOver(q, second, operator, e) * (f * d)
                <==> CreditOver(p, first, operator, d) == CreditOver(p, second, operator, d))
  {
    var p, q, u := RowsOf(pool, scope, s), RowsOf(pool, scope, t), RowsOf(pool, scope, s + t);
    RowsOfConcat(pool, scope, s, t);
    RowsOfArePositive(pool, scope, s);
    RowsOfArePositive(pool, scope, t);
    RowsOfArePositive(pool, scope, s + t);
    var d, e, f := Denominator(p), Denominator(q), Denominator(u);
    SumByConcat(WorthTo(second, operator, f), p, q);
    FractionsAdd(p, q, u, second, operator);
    GapCloses(CreditOver(p, first, operator, d), CreditOver(p, second, operator, d),
              CreditOver(q, second, operator, e), CreditOver(u, second, operator, f), d, e, f);
  }

  /** The mapping a period folds at its own close. */
  function OwnOperators(pool: seq<Activity>, hub: string, slice: seq<Activity>): map<string, string> {
    OperatorsOf(pool, hub, ClosesAt(slice)).operators
  }

  lemma JoinedClose(s: seq<Activity>, t: seq<Activity>)
    requires t != []
    ensures ClosesAt(s + t) == ClosesAt(t)
  {
  }

  /** Each period folds its own operator mapping at its own close, and the joined period that of the
      second. An operator's fractions then add up exactly when the first period credits it alike
      under both mappings. */
  lemma RecomputedPeriodsAddIff(pool: seq<Activity>, scope: set<string>, hub: string,
                                s: seq<Activity>, t: seq<Activity>, operator: string)
    requires t != []
    ensures OwnOperators(pool, hub, s + t) == OwnOperators(pool, hub, t)
    ensures var p, q, u := RowsOf(pool, scope, s), RowsOf(pool, scope, t), RowsOf(pool, scope, s + t);
            var first, second := OwnOperators(pool, hub, s), OwnOperators(pool, hub, t);
            && PositiveOwns(p) && PositiveOwns(q) && PositiveOwns(u)
            && var d, e, f := Denominator(p), Denominator(q), Denominator(u);
               (CreditOver(u, second, operator, f) * (d * e)
                == CreditOver(p, first, operator, d) * (f * e) + CreditOver(q, second, operator, e) * (f * d)
                <==> CreditOver(p, first, operator, d) == CreditOver(p, second, operator, d))
  {
    JoinedClose(s, t);
    TwoMappingsAddIff(pool, scope, s, t, OwnOperators(pool, hub, s), OwnOperators(pool, hub, t), operator);
  }

  /** It does when no agent credited in the first period changes operator before the second closes. */
  lemma {:induction false} SameOperatorsSameCredit(rows: seq<Row>, m: map<string, string>, n: map<string, string>,
                                                   d: int)
    requires forall r :: r in rows ==> OperatorOf(m, r.agent) == OperatorOf(n, r.agent)
    ensures CreditedOf(rows, m, d) == CreditedOf(rows, n, d)
  {
    if rows != [] {
      SameOperatorsSameCredit(rows[..|rows|-1], m, n, d);
      assert rows[|rows|-1] in rows;
    }
  }

  /** An operator's fraction of `u` is the sum of its fractions of `p` and of `q`. */
  ghost predicate AddUp(p: seq<Row>, q: seq<Row>, u: seq<Row>, operators: map<string, string>, operator: string)
    requires PositiveOwns(p) && PositiveOwns(q) && PositiveOwns(u)
  {
    var d, e, f := Denominator(p), Denominator(q), Denominator(u);
    CreditOver(u, operators, operator, f) * (d * e)
    == CreditOver(p, operators, operator, d) * (f * e) + CreditOver(q, operators, operator, e) * (f * d)
  }

  lemma FractionsAdd(p: seq<Row>, q: seq<Row>, u: seq<Row>, operators: map<string, string>, operator: string)
    requires PositiveOwns(p) && PositiveOwns(q) && PositiveOwns(u)
    requires forall r :: r in p || r in q ==> r in u
    requires var g := WorthTo(operators, operator, Denominator(u)); SumBy(g, u) == SumBy(g, p) + SumBy(g, q)
    ensures AddUp(p, q, u, operators, operator)
  {
    var d, e, f := Denominator(p), Denominator(q), Denominator(u);
    OwnsDivideDenominator(p);
    OwnsDivideDenominator(q);
    OwnsDivideDenominator(u);
    assert OwnsDivide(p, f) && OwnsDivide(q, f);
    CreditedIsSum(u, operators, f, operator);
    CreditedIsSum(p, operators, d, operator);
    CreditedIsSum(q, operators, e, operator);
    var g := WorthTo(operators, operator, f);
    Rescale(p, operators, operator, d, f);
    Rescale(q, operators, operator, e, f);
    CommonFraction(SumBy(g, p), SumBy(g, q), CreditOver(p, operators, operator, d),
                   CreditOver(q, operators, operator, e), d, e, f);
  }

  lemma CommonFraction(x: int, y: int, m: int, n: int, d: int, e: int, f: int)
    requires m * f == x * d && n * f == y * e
    ensures (x + y) * (d * e) == m * (f * e) + n * (f * d)
  {
    calc {
      (x + y) * (d * e);
      { Distribute(x, y, d * e); }
      x * (d * e) + y * (d * e);
      { Regroup(x, d, e); Regroup(y, e, d); assert d * e == e * d; }
      (x * d) * e + (y * e) * d;
      (m * f) * e + (n * f) * d;
      { Regroup(m, f, e); Regroup(n, f, d); }
      m * (f * e) + n * (f * d);
    }
  }

  lemma Regroup(x: int, y: int, z: int)
    ensures x * (y * z) == (x * y) * z
  {
  }

  // ---- copies in a merged pool

  /** The deduplicated pool has every digest, and each once. */
  lemma {:induction false} DedupKeepsDigests(pool: seq<Activity>, d: string)
    ensures Seen(Dedup(pool), d) <==> Seen(pool, d)
  {
    if pool != [] {
      var k := |pool| - 1;
      DedupKeepsDigests(pool[..k], d);
      assert pool == pool[..k] + [pool[k]];
    }
  }

  lemma {:induction false} DedupHasNoCopies(pool: seq<Activity>)
    ensures forall i, j :: 0 <= i < j < |Dedup(pool)| ==> Dedup(pool)[i].digest != Dedup(pool)[j].digest
  {
    if pool != [] {
      var k := |pool| - 1;
      DedupHasNoCopies(pool[..k]);
      DedupKeepsDigests(pool[..k], pool[k].digest);
      assert forall i :: 0 <= i < |Dedup(pool[..k])| ==> Dedup(pool[..k])[i] in Dedup(pool[..k]);
    }
  }

  /** The same activities arriving again, as received bytes in another bundle, change nothing. */
  lemma {:induction false} CopiesDoNotCount(pool: seq<Activity>, copies: seq<Activity>)
    requires forall a :: a in copies ==> a in pool
    ensures Dedup(pool + copies) == Dedup(pool)
  {
    if copies == [] {
      assert pool + copies == pool;
    } else {
      var k := |copies| - 1;
      var all := pool + copies;
      assert all[..|all|-1] == pool + copies[..k];
      CopiesDoNotCount(pool, copies[..k]);
      assert copies[k] in copies;
      assert copies[k] in pool + copies[..k];
    }
  }

  // ---- the operator mapping

  /** An Enroll of the agent up to the close. */
  ghost predicate Enrolls(hub: string, closesAt: int, agent: string, e: Activity) {
    EnrollsFor(hub, closesAt, e) && e.payload.agent == Some(agent)
  }

  /** `e` enrolls the agent no earlier than any other Enroll up to the close. */
  ghost predicate Latest(pool: seq<Activity>, hub: string, closesAt: int, agent: string, e: Activity) {
    && e in pool && Enrolls(hub, closesAt, agent, e)
    && forall o :: o in pool && Enrolls(hub, closesAt, agent, o) ==> o.published <= e.published
  }

  /** What the mapping holds for one agent: nothing, or a latest Enroll up to the close. */
  ghost predicate HoldsLatest(pool: seq<Activity>, hub: string, closesAt: int, agent: string, st: Operators) {
    && (agent in st.operators <==> agent in st.seen)
    && (agent !in st.seen ==> forall o :: o in pool ==> !Enrolls(hub, closesAt, agent, o))
    && (agent in st.seen && agent in st.operators ==>
          exists e :: Latest(pool, hub, closesAt, agent, e)
                      && e.published == st.seen[agent] && e.actor == st.operators[agent])
  }

  lemma HoldsLatestStep(pool: seq<Activity>, hub: string, closesAt: int, agent: string, st: Operators, a: Activity)
    requires HoldsLatest(pool, hub, closesAt, agent, st)
    ensures HoldsLatest(pool + [a], hub, closesAt, agent, OperatorsStep(st, hub, closesAt, a))
  {
    if agent in st.seen {
      var e :| Latest(pool, hub, closesAt, agent, e) && e.published == st.seen[agent] && e.actor == st.operators[agent];
      if Enrolls(hub, closesAt, agent, a) && a.published >= e.published {
        assert Latest(pool + [a], hub, closesAt, agent, a);
      } else {
        assert Latest(pool + [a], hub, closesAt, agent, e);
      }
    } else if Enrolls(hub, closesAt, agent, a) {
      assert Latest(pool + [a], hub, closesAt, agent, a);
    }
  }

  lemma {:induction false} OperatorsMean(pool: seq<Activity>, hub: string, closesAt: int, agent: string)
    ensures HoldsLatest(pool, hub, closesAt, agent, OperatorsOf(pool, hub, closesAt))
  {
    if pool != [] {
      var k := |pool| - 1;
      OperatorsMean(pool[..k], hub, closesAt, agent);
      HoldsLatestStep(pool[..k], hub, closesAt, agent, OperatorsOf(pool[..k], hub, closesAt), pool[k]);
      assert pool == pool[..k] + [pool[k]];
    }
  }

  /** An agent's latest Enrolls up to the close name one operator. */
  ghost predicate LatestAgree(pool: seq<Activity>, hub: string, closesAt: int) {
    forall agent, a, b :: Latest(pool, hub, closesAt, agent, a) && Latest(pool, hub, closesAt, agent, b)
        ==> a.actor == b.actor
  }

  /** When latest Enrolls agree, the mapping does not depend on the order of the pool. */
  lemma OperatorsForgetOrder(p: seq<Activity>, q: seq<Activity>, hub: string, closesAt: int)
    requires (forall a :: a in p <==> a in q) && LatestAgree(p, hub, closesAt)
    ensures OperatorsOf(p, hub, closesAt).operators == OperatorsOf(q, hub, closesAt).operators
  {
    var m, n := OperatorsOf(p, hub, closesAt).operators, OperatorsOf(q, hub, closesAt).operators;
    forall agent
      ensures agent in m <==> agent in n
      ensures agent in m ==> m[agent] == n[agent]
    {
      OperatorsMean(p, hub, closesAt, agent);
      OperatorsMean(q, hub, closesAt, agent);
      assert forall e :: Latest(p, hub, closesAt, agent, e) <==> Latest(q, hub, closesAt, agent, e);
    }
  }

  /** Among tied latest Enrolls the last of the pool wins, whatever its digest: each can be made to. */
  lemma OperatorTieFollowsPoolOrder(p: seq<Activity>, hub: string, closesAt: int, agent: string, a: Activity)
    returns (q: seq<Activity>)
    requires Latest(p, hub, closesAt, agent, a)
    ensures multiset(q) == multiset(p)
    ensures var m := OperatorsOf(q, hub, closesAt).operators; agent in m && m[agent] == a.actor
  {
    var j :| 0 <= j < |p| && p[j] == a;
    var others := p[..j] + p[j + 1..];
    q := others + [a];
    assert p == p[..j] + [a] + p[j + 1..];
    assert q[..|q| - 1] == others;
    OperatorsMean(others, hub, closesAt, agent);
    var st := OperatorsOf(others, hub, closesAt);
    if agent in st.seen {
      var e :| Latest(others, hub, closesAt, agent, e) && e.published == st.seen[agent];
      assert e in p;
    }
  }

  /** The mapping is the same for every order of the pool if and only if each agent's latest Enrolls
      up to the close name one operator. */
  lemma OperatorsForgetOrderIff(p: seq<Activity>, hub: string, closesAt: int)
    ensures (forall q :: multiset(q) == multiset(p) ==>
               OperatorsOf(q, hub, closesAt).operators == OperatorsOf(p, hub, closesAt).operators)
            <==> LatestAgree(p, hub, closesAt)
  {
    if LatestAgree(p, hub, closesAt) {
      forall q | multiset(q) == multiset(p)
        ensures OperatorsOf(q, hub, closesAt).operators == OperatorsOf(p, hub, closesAt).operators
      {
        SameMembers(q, p);
        OperatorsForgetOrder(p, q, hub, closesAt);
      }
    } else {
      var agent, a, b :| Latest(p, hub, closesAt, agent, a) && Latest(p, hub, closesAt, agent, b) && a.actor != b.actor;
      var m := OperatorTieFollowsPoolOrder(p, hub, closesAt, agent, a);
      var n := OperatorTieFollowsPoolOrder(p, hub, closesAt, agent, b);
      assert OperatorsOf(m, hub, closesAt).operators != OperatorsOf(n, hub, closesAt).operators;
    }
  }
}
