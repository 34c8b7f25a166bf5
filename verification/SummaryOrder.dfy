/** A recomputed summary does not depend on the order, or on copies, in which a pool was merged. */
module SummaryOrder {
  import opened Prelude
  import opened Ordering
  import opened Arithmetic
  import opened Sums
  import opened HubSlice
  import opened Contribution
  import opened Summary
  import opened SummaryTheorems

  ghost predicate SamePool(p: seq<Activity>, q: seq<Activity>) {
    forall a :: a in p <==> a in q
  }

  ghost predicate CollisionFree(pool: seq<Activity>) {
    forall a, b :: a in pool && b in pool && a.digest == b.digest ==> a == b
  }

  /** All announces of one task name one thread. */
  ghost predicate OneThreadPerTask(pool: seq<Activity>) {
    forall a, b :: a in pool && b in pool && a.payload.Task? && b.payload.Task? && a.payload.id == b.payload.id
      ==> a.context == b.context
  }

  // ---- the deduplicated pool

  lemma {:induction false} DedupMembers(pool: seq<Activity>)
    requires CollisionFree(pool)
    ensures SamePool(Dedup(pool), pool) && NoCopies(Dedup(pool))
  {
    if pool != [] {
      var k := |pool| - 1;
      DedupMembers(pool[..k]);
      assert pool == pool[..k] + [pool[k]];
      if Seen(pool[..k], pool[k].digest) {
        var a :| a in pool[..k] && a.digest == pool[k].digest;
        assert a == pool[k];
      }
    }
  }

  lemma SameDedup(g: seq<Activity>, h: seq<Activity>)
    requires CollisionFree(g) && SamePool(g, h)
    ensures multiset(Dedup(g)) == multiset(Dedup(h))
    ensures SamePool(Dedup(g), g) && SamePool(Dedup(h), g)
  {
    DedupMembers(g);
    DedupMembers(h);
    SameMembersNoCopies(Dedup(g), Dedup(h));
  }

  lemma SameByDigest(p: seq<Activity>, q: seq<Activity>, hub: string)
    requires SamePool(p, q) && CollisionFree(p)
    ensures ByDigest(p, hub) == ByDigest(q, hub)
  {
    ByDigestKeys(p, hub);
    ByDigestKeys(q, hub);
    var m, n := ByDigest(p, hub), ByDigest(q, hub);
    forall d ensures d in m <==> d in n {
      if d in m {
        assert m[d] in q;
      }
      if d in n {
        assert n[d] in p;
      }
    }
    forall d | d in m ensures m[d] == n[d] {
      assert m[d] in p && n[d] in p;
    }
  }

  // ---- threads and Results

  lemma {:induction false} ThreadsMean(pool: seq<Activity>, task: string)
    ensures task in Threads(pool) <==> exists a :: a in pool && a.payload.Task? && a.payload.id == task
    ensures task in Threads(pool) ==>
              exists a :: a in pool && a.payload.Task? && a.payload.id == task && a.context == Threads(pool)[task]
  {
    if pool != [] {
      var k := |pool| - 1;
      ThreadsMean(pool[..k], task);
      assert pool == pool[..k] + [pool[k]];
    }
  }

  lemma SameThread(p: seq<Activity>, q: seq<Activity>, task: string)
    requires SamePool(p, q) && OneThreadPerTask(p)
    ensures ThreadOf(Threads(p), task) == ThreadOf(Threads(q), task)
  {
    ThreadsMean(p, task);
    ThreadsMean(q, task);
  }

  lemma {:induction false} FilterCounts<T>(test: T -> bool, s: seq<T>, x: T)
    ensures multiset(Filter(test, s))[x] == if test(x) then multiset(s)[x] else 0
  {
    if s != [] {
      var k := |s| - 1;
      FilterCounts(test, s[..k], x);
      assert s == s[..k] + [s[k]];
    }
  }

  lemma SameResults(p: seq<Activity>, q: seq<Activity>, thread: Option<string>, scope: set<string>)
    requires multiset(p) == multiset(q)
    ensures multiset(ResultsOn(p, thread, scope)) == multiset(ResultsOn(q, thread, scope))
  {
    if thread.Some? {
      var test := ReadableIn(thread.value, scope);
      forall x ensures multiset(Filter(test, p))[x] == multiset(Filter(test, q))[x] {
        FilterCounts(test, p, x);
        FilterCounts(test, q, x);
      }
    }
  }

  // ---- rows

  /** How often a Result yields a row. */
  function Yields(row: Row): Activity -> int {
    (a: Activity) => multiset(CreditOf(a.payload))[row]
  }

  lemma {:induction false} CreditsCount(results: seq<Activity>, row: Row)
    ensures multiset(CreditsOf(results))[row] == SumBy(Yields(row), results)
  {
    if results != [] {
      CreditsCount(results[..|results|-1], row);
    }
  }

  lemma SameCredits(a: seq<Activity>, b: seq<Activity>)
    requires multiset(a) == multiset(b)
    ensures multiset(CreditsOf(a)) == multiset(CreditsOf(b))
  {
    forall row ensures multiset(CreditsOf(a))[row] == multiset(CreditsOf(b))[row] {
      CreditsCount(a, row);
      CreditsCount(b, row);
      SumByForgetsOrder(Yields(row), a, b);
    }
  }

  lemma {:induction false} SameRows(p: seq<Activity>, q: seq<Activity>, scope: set<string>, slice: seq<Activity>)
    requires multiset(p) == multiset(q) && OneThreadPerTask(p)
    ensures multiset(RowsOf(p, scope, slice)) == multiset(RowsOf(q, scope, slice))
  {
    if slice != [] {
      var k := |slice| - 1;
      SameRows(p, q, scope, slice[..k]);
      if slice[k].payload.Settlement? {
        SameMembers(p, q);
        SameThread(p, q, slice[k].payload.task);
        var thread := ThreadOf(Threads(p), slice[k].payload.task);
        SameResults(p, q, thread, scope);
        SameCredits(ResultsOn(p, thread, scope), ResultsOn(q, thread, scope));
      }
    }
  }

  lemma {:induction false} CreditedKeys(rows: seq<Row>, operators: map<string, string>, d: int, operator: string)
    ensures operator in CreditedOf(rows, operators, d) <==>
              exists r :: r in rows && OperatorOf(operators, r.agent) == operator
  {
    if rows != [] {
      var k := |rows| - 1;
      CreditedKeys(rows[..k], operators, d, operator);
      assert rows == rows[..k] + [rows[k]];
    }
  }

  lemma SameCredited(m: seq<Row>, n: seq<Row>, operators: map<string, string>, d: int)
    requires multiset(m) == multiset(n)
    ensures CreditedOf(m, operators, d) == CreditedOf(n, operators, d)
  {
    SameMembers(m, n);
    var x, y := CreditedOf(m, operators, d), CreditedOf(n, operators, d);
    forall operator
      ensures operator in x <==> operator in y
      ensures At(x, operator) == At(y, operator)
    {
      CreditedKeys(m, operators, d, operator);
      CreditedKeys(n, operators, d, operator);
      CreditedIsSum(m, operators, d, operator);
      CreditedIsSum(n, operators, d, operator);
      SumByForgetsOrder(WorthTo(operators, operator, d), m, n);
    }
    SameMap(x, y);
  }

  lemma SameMap(x: map<string, int>, y: map<string, int>)
    requires forall k :: (k in x <==> k in y) && At(x, k) == At(y, k)
    ensures x == y
  {
    forall k | k in x ensures x[k] == y[k] {
      assert At(x, k) == At(y, k);
    }
  }

  lemma SameDenominator(m: seq<Row>, n: seq<Row>)
    requires multiset(m) == multiset(n) && PositiveOwns(m)
    ensures PositiveOwns(n) && Denominator(m) == Denominator(n)
  {
    SameMembers(m, n);
    forall v ensures v in Owns(m) <==> v in Owns(n) {
      OwnsMean(m, v);
      OwnsMean(n, v);
    }
    LcmAllOfMembers(Owns(m), Owns(n));
  }

  lemma OwnsMean(rows: seq<Row>, v: int)
    ensures v in Owns(rows) <==> exists r :: r in rows && r.own == v
  {
    if v in Owns(rows) {
      var i :| 0 <= i < |rows| && Owns(rows)[i] == v;
      assert rows[i] in rows;
    }
    if r :| r in rows && r.own == v {
      var i :| 0 <= i < |rows| && rows[i] == r;
      assert Owns(rows)[i] == v;
    }
  }

  // ---- qualified and unreadable work, and the inputs

  function OperatorsCredited(operators: map<string, string>, a: Activity): set<string> {
    OperatorsIn(operators, CreditedAgents(CreditOf(a.payload)))
  }

  function QualifiedBit(operators: map<string, string>, operator: string): Activity -> int {
    (a: Activity) => if operator in OperatorsCredited(operators, a) then 1 else 0
  }

  /** The digests of some Results, and the operators they credit. */
  function DigestsOf(results: seq<Activity>): set<string> {
    if results == [] then {} else DigestsOf(results[..|results|-1]) + {results[|results|-1].digest}
  }

  function AllCredited(operators: map<string, string>, results: seq<Activity>): set<string> {
    if results == [] then {}
    else AllCredited(operators, results[..|results|-1]) + OperatorsCredited(operators, results[|results|-1])
  }

  lemma {:induction false} DigestsMean(results: seq<Activity>, d: string)
    ensures d in DigestsOf(results) <==> exists a :: a in results && a.digest == d
  {
    if results != [] {
      var k := |results| - 1;
      DigestsMean(results[..k], d);
      assert results == results[..k] + [results[k]];
    }
  }

  lemma {:induction false} CreditedMean(operators: map<string, string>, results: seq<Activity>, o: string)
    ensures o in AllCredited(operators, results) <==> exists a :: a in results && o in OperatorsCredited(operators, a)
  {
    if results != [] {
      var k := |results| - 1;
      CreditedMean(operators, results[..k], o);
      assert results == results[..k] + [results[k]];
    }
  }

  /** Both depend on which Results there are only. */
  lemma SameNames(operators: map<string, string>, a: seq<Activity>, b: seq<Activity>)
    requires SamePool(a, b)
    ensures DigestsOf(a) == DigestsOf(b) && AllCredited(operators, a) == AllCredited(operators, b)
  {
    forall d ensures d in DigestsOf(a) <==> d in DigestsOf(b) {
      DigestsMean(a, d);
      DigestsMean(b, d);
    }
    forall o ensures o in AllCredited(operators, a) <==> o in AllCredited(operators, b) {
      CreditedMean(operators, a, o);
      CreditedMean(operators, b, o);
    }
  }

  lemma BumpAt(m: map<string, int>, operators: set<string>, operator: string)
    ensures At(Bump(m, operators), operator) == At(m, operator) + if operator in operators then 1 else 0
    ensures operator in Bump(m, operators) <==> operator in m || operator in operators
  {
  }

  lemma {:induction false} FoldQualified(t: Tally, operators: map<string, string>, results: seq<Activity>,
                                         operator: string)
    ensures At(ResultsFold(t, operators, true, results).qualified, operator)
         == At(t.qualified, operator) + SumBy(QualifiedBit(operators, operator), results)
  {
    if results != [] {
      var k := |results| - 1;
      FoldQualified(t, operators, results[..k], operator);
      BumpAt(ResultsFold(t, operators, true, results[..k]).qualified, OperatorsCredited(operators, results[k]),
             operator);
    }
  }

  lemma {:induction false} FoldQualifiedKeys(t: Tally, operators: map<string, string>, results: seq<Activity>)
    ensures ResultsFold(t, operators, true, results).qualified.Keys
        == t.qualified.Keys + AllCredited(operators, results)
  {
    if results != [] {
      FoldQualifiedKeys(t, operators, results[..|results|-1]);
    }
  }

  lemma {:induction false} FoldInputs(t: Tally, operators: map<string, string>, superseded: bool,
                                      results: seq<Activity>)
    ensures ResultsFold(t, operators, superseded, results).inputs == t.inputs + DigestsOf(results)
    ensures !superseded ==> ResultsFold(t, operators, superseded, results).qualified == t.qualified
  {
    if results != [] {
      FoldInputs(t, operators, superseded, results[..|results|-1]);
    }
  }

  /** What a pass leaves besides its rows. */
  ghost predicate SameRest(x: Tally, y: Tally) {
    x.unreadable == y.unreadable && x.qualified == y.qualified && x.inputs == y.inputs
  }

  lemma SameFold(x: Tally, y: Tally, operators: map<string, string>, superseded: bool, a: seq<Activity>,
                 b: seq<Activity>)
    requires SameRest(x, y) && multiset(a) == multiset(b)
    ensures SameRest(ResultsFold(x, operators, superseded, a), ResultsFold(y, operators, superseded, b))
  {
    SameMembers(a, b);
    ResultsFoldReads(x, operators, superseded, a);
    ResultsFoldReads(y, operators, superseded, b);
    FoldInputs(x, operators, superseded, a);
    FoldInputs(y, operators, superseded, b);
    SameNames(operators, a, b);
    if superseded {
      FoldQualifiedKeys(x, operators, a);
      FoldQualifiedKeys(y, operators, b);
      forall operator
        ensures var m, n := ResultsFold(x, operators, true, a).qualified, ResultsFold(y, operators, true, b).qualified;
                (operator in m <==> operator in n) && At(m, operator) == At(n, operator)
      {
        FoldQualified(x, operators, a, operator);
        FoldQualified(y, operators, b, operator);
        SumByForgetsOrder(QualifiedBit(operators, operator), a, b);
      }
      SameMap(ResultsFold(x, operators, true, a).qualified, ResultsFold(y, operators, true, b).qualified);
    }
  }

  lemma {:induction false} SameSliceFold(p: seq<Activity>, q: seq<Activity>, scope: set<string>,
                                         operators: map<string, string>, slice: seq<Activity>)
    requires multiset(p) == multiset(q) && OneThreadPerTask(p)
    ensures SameRest(SliceFold(p, scope, operators, slice), SliceFold(q, scope, operators, slice))
  {
    if slice != [] {
      var k := |slice| - 1;
      SameSliceFold(p, q, scope, operators, slice[..k]);
      var a := slice[k];
      if a.payload.Settlement? {
        SameMembers(p, q);
        SameThread(p, q, a.payload.task);
        var thread := ThreadOf(Threads(p), a.payload.task);
        SameResults(p, q, thread, scope);
        SameMembers(ResultsOn(p, thread, scope), ResultsOn(q, thread, scope));
        assert Superseded(p, thread) <==> Superseded(q, thread);
        var x, y := SliceFold(p, scope, operators, slice[..k]), SliceFold(q, scope, operators, slice[..k]);
        SameFold(x.(inputs := x.inputs + {a.digest}), y.(inputs := y.inputs + {a.digest}), operators,
                 Superseded(p, thread), ResultsOn(p, thread, scope), ResultsOn(q, thread, scope));
      }
    }
  }

  // ---- the whole summary

  lemma SameLatest(g: seq<Activity>, p: seq<Activity>, hub: string, closesAt: int)
    requires SamePool(g, p) && LatestAgree(g, hub, closesAt)
    ensures LatestAgree(p, hub, closesAt)
  {
    forall agent, a | Latest(p, hub, closesAt, agent, a) ensures Latest(g, hub, closesAt, agent, a) {}
  }

  /** Two pools with the same activities, in whatever order and however often, recompute one summary,
      provided each task has one thread and each agent's latest Enrolls name one operator. */
  lemma SummaryForgetsOrder(g: seq<Activity>, h: seq<Activity>, frame: Frame, hub: string,
                            s: seq<Activity>, t: seq<Activity>, m: Recomputed, n: Recomputed)
    requires CollisionFree(g) && SamePool(g, h) && OneThreadPerTask(g) && LatestAgree(g, hub, ClosesAt(s))
    requires Recomputes(g, frame, hub, s, m) && Recomputes(h, frame, hub, t, n)
    ensures s == t && m == n
  {
    var p, q := Dedup(g), Dedup(h);
    SameDedup(g, h);
    SameMembers(p, q);
    SameByDigest(p, q, frame.hub);
    ByDigestKeys(p, frame.hub);
    IntervalIsUnique(ByDigest(p, frame.hub), frame.start, frame.end, s, t);
    SameLatest(g, p, hub, ClosesAt(s));
    OperatorsForgetOrder(p, q, hub, ClosesAt(s));
    var operators := OperatorsOf(p, hub, ClosesAt(s)).operators;
    SliceFoldRows(p, frame.scope, operators, s);
    SliceFoldRows(q, frame.scope, operators, s);
    SameRows(p, q, frame.scope, s);
    var x, y := RowsOf(p, frame.scope, s), RowsOf(q, frame.scope, s);
    SameDenominator(x, y);
    SameCredited(x, y, operators, Denominator(x));
    SameSliceFold(p, q, frame.scope, operators, s);
  }
}
