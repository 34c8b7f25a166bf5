/** Lexicographic orders and the stable sort behind Python's `sorted`. */
module Ordering {
  import opened Prelude

  /** Python's `<=` on lists of integers. */
  predicate LexLe(a: seq<int>, b: seq<int>) {
    a == [] || (b != [] && (a[0] < b[0] || (a[0] == b[0] && LexLe(a[1..], b[1..]))))
  }

  /** The code points of a string, the sequence by which Python compares strings. */
  function CodePoints(s: string): seq<int> {
    seq(|s|, i requires 0 <= i < |s| => s[i] as int)
  }

  /** Python's `<=` on strings. */
  predicate StrLe(a: string, b: string) {
    LexLe(CodePoints(a), CodePoints(b))
  }

  lemma {:induction false} LexLeTotal(a: seq<int>, b: seq<int>)
    ensures LexLe(a, b) || LexLe(b, a)
    ensures LexLe(a, b) && LexLe(b, a) ==> a == b
  {
    if a != [] && b != [] {
      LexLeTotal(a[1..], b[1..]);
      assert a == [a[0]] + a[1..] && b == [b[0]] + b[1..];
    }
  }

  lemma {:induction false} LexLeTransitive(a: seq<int>, b: seq<int>, c: seq<int>)
    requires LexLe(a, b) && LexLe(b, c)
    ensures LexLe(a, c)
  {
    if a != [] {
      if a[0] == b[0] == c[0] {
        LexLeTransitive(a[1..], b[1..], c[1..]);
      }
    }
  }

  /** `a` is a prefix of `b`, or smaller where the two first differ. */
  ghost predicate LexPrecedes(a: seq<int>, b: seq<int>) {
    a <= b || exists i :: DiffersDownAt(a, b, i)
  }

  ghost predicate DiffersDownAt(a: seq<int>, b: seq<int>, i: nat) {
    i < |a| && i < |b| && a[i] < b[i] && a[..i] == b[..i]
  }

  lemma {:induction false} LexLeMeans(a: seq<int>, b: seq<int>)
    ensures LexLe(a, b) <==> LexPrecedes(a, b)
  {
    if a != [] && b != [] {
      if a[0] == b[0] {
        LexLeMeans(a[1..], b[1..]);
        assert a == [a[0]] + a[1..] && b == [b[0]] + b[1..];
        if i: nat :| DiffersDownAt(a, b, i) {
          assert a[1..][..i-1] == a[..i][1..] && b[1..][..i-1] == b[..i][1..];
          assert DiffersDownAt(a[1..], b[1..], i - 1);
        }
        if i: nat :| DiffersDownAt(a[1..], b[1..], i) {
          var next := i + 1;
          assert a[..next] == [a[0]] + a[1..][..i] && b[..next] == [b[0]] + b[1..][..i];
          assert DiffersDownAt(a, b, next);
        }
      } else if a[0] < b[0] {
        assert DiffersDownAt(a, b, 0);
      } else {
        forall i: nat | 0 < i < |a| && i < |b| ensures a[..i] != b[..i] {
          assert a[..i][0] == a[0] && b[..i][0] == b[0];
        }
      }
    }
  }

  lemma CodePointsInjective(a: string, b: string)
    requires CodePoints(a) == CodePoints(b)
    ensures a == b
  {
    assert |CodePoints(a)| == |a| && |CodePoints(b)| == |b|;
    forall i | 0 <= i < |a| ensures a[i] == b[i] {
      assert CodePoints(a)[i] == CodePoints(b)[i];
    }
  }

  lemma StrLeTotalOrder()
    ensures TotalPreorder(StrLe)
    ensures forall a, b :: StrLe(a, b) && StrLe(b, a) ==> a == b
  {
    forall a, b
      ensures StrLe(a, b) || StrLe(b, a)
      ensures StrLe(a, b) && StrLe(b, a) ==> a == b
    {
      LexLeTotal(CodePoints(a), CodePoints(b));
      if StrLe(a, b) && StrLe(b, a) {
        CodePointsInjective(a, b);
      }
    }
    forall a, b, c | StrLe(a, b) && StrLe(b, c) ensures StrLe(a, c) {
      LexLeTransitive(CodePoints(a), CodePoints(b), CodePoints(c));
    }
  }

  ghost predicate TotalPreorder<T(!new)>(le: (T, T) -> bool) {
    && (forall x, y :: le(x, y) || le(y, x))
    && (forall x, y, z :: le(x, y) && le(y, z) ==> le(x, z))
  }

  ghost predicate SortedBy<T>(le: (T, T) -> bool, s: seq<T>) {
    forall i, j :: 0 <= i < j < |s| ==> le(s[i], s[j])
  }

  /** Elements the order cannot tell apart are equal. */
  ghost predicate Separates<T>(le: (T, T) -> bool, s: seq<T>) {
    forall x, y :: x in s && y in s && le(x, y) && le(y, x) ==> x == y
  }

  function Insert<T>(le: (T, T) -> bool, x: T, s: seq<T>): seq<T> {
    if s == [] || le(x, s[0]) then [x] + s
    else [s[0]] + Insert(le, x, s[1..])
  }

  /** The stable sort: equal keys keep their order of appearance. */
  function Sort<T>(le: (T, T) -> bool, s: seq<T>): seq<T> {
    if s == [] then [] else Insert(le, s[0], Sort(le, s[1..]))
  }

  lemma {:induction false} InsertMultiset<T(!new)>(le: (T, T) -> bool, x: T, s: seq<T>)
    ensures multiset(Insert(le, x, s)) == multiset(s) + multiset{x}
  {
    if s != [] {
      assert s == [s[0]] + s[1..];
      if !le(x, s[0]) {
        InsertMultiset(le, x, s[1..]);
      }
    }
  }

  lemma {:induction false} InsertSorted<T(!new)>(le: (T, T) -> bool, x: T, s: seq<T>)
    requires TotalPreorder(le) && SortedBy(le, s)
    ensures SortedBy(le, Insert(le, x, s))
  {
    if s != [] && !le(x, s[0]) {
      var rest := Insert(le, x, s[1..]);
      InsertSorted(le, x, s[1..]);
      InsertMultiset(le, x, s[1..]);
      forall j | 0 <= j < |rest| ensures le(s[0], rest[j]) {
        assert rest[j] in multiset(rest);
        if rest[j] != x {
          assert rest[j] in s[1..];
        }
      }
    }
  }

  lemma {:induction false} SortProperties<T(!new)>(le: (T, T) -> bool, s: seq<T>)
    requires TotalPreorder(le)
    ensures SortedBy(le, Sort(le, s))
    ensures multiset(Sort(le, s)) == multiset(s)
    ensures |Sort(le, s)| == |s|
    ensures forall x :: x in Sort(le, s) <==> x in s
  {
    if s != [] {
      SortProperties(le, s[1..]);
      InsertMultiset(le, s[0], Sort(le, s[1..]));
      InsertSorted(le, s[0], Sort(le, s[1..]));
      assert s == [s[0]] + s[1..];
    }
    SameMembers(Sort(le, s), s);
  }

  lemma {:induction false} InsertIsStable<T(!new)>(le: (T, T) -> bool, tied: T -> bool, x: T, s: seq<T>)
    requires tied(x) ==> forall y :: y in s && tied(y) ==> le(x, y)
    ensures Filter(tied, Insert(le, x, s)) == Filter(tied, [x]) + Filter(tied, s)
  {
    if s == [] || le(x, s[0]) {
      FilterConcat(tied, [x], s);
    } else {
      InsertIsStable(le, tied, x, s[1..]);
      FilterConcat(tied, [s[0]], Insert(le, x, s[1..]));
      FilterConcat(tied, [s[0]], s[1..]);
      assert [s[0]] + s[1..] == s;
      assert [x][..0] == [] && [s[0]][..0] == [];
      assert !tied(x) || !tied(s[0]);
    }
  }

  /** Elements that tie come out in the order they came in. */
  lemma {:induction false} SortIsStable<T(!new)>(le: (T, T) -> bool, tied: T -> bool, s: seq<T>)
    requires TotalPreorder(le)
    requires forall x, y :: x in s && y in s && tied(x) && tied(y) ==> le(x, y)
    ensures Filter(tied, Sort(le, s)) == Filter(tied, s)
  {
    if s != [] {
      SortIsStable(le, tied, s[1..]);
      SortProperties(le, s[1..]);
      InsertIsStable(le, tied, s[0], Sort(le, s[1..]));
      FilterConcat(tied, [s[0]], s[1..]);
      assert [s[0]] + s[1..] == s;
    }
  }

  lemma SameMembers<T>(a: seq<T>, b: seq<T>)
    requires multiset(a) == multiset(b)
    ensures |a| == |b|
    ensures forall x :: x in a <==> x in b
  {
    assert |multiset(a)| == |a| && |multiset(b)| == |b|;
    forall x ensures x in a <==> x in b {
      assert x in a <==> x in multiset(a);
      assert x in b <==> x in multiset(b);
    }
  }

  lemma Without<T>(s: seq<T>, j: nat)
    requires j < |s|
    ensures multiset(s) == multiset(s[..j] + s[j+1..]) + multiset{s[j]}
  {
    assert s == s[..j] + [s[j]] + s[j+1..];
  }

  /** Removes the partner of the last element of `a` from a rearrangement `b`. */
  lemma MatchLast<T>(a: seq<T>, b: seq<T>) returns (j: nat)
    requires multiset(a) == multiset(b) && a != []
    ensures j < |b| && b[j] == a[|a|-1]
    ensures multiset(a[..|a|-1]) == multiset(b[..j] + b[j+1..])
  {
    var k := |a| - 1;
    assert a[k] in multiset(b);
    j :| 0 <= j < |b| && b[j] == a[k];
    Without(b, j);
    Without(a, k);
    assert a[..k] + a[k+1..] == a[..k];
    CancelOne(multiset(a[..k]), multiset(b[..j] + b[j+1..]), a[k]);
  }

  lemma CancelOne<T>(u: multiset<T>, v: multiset<T>, x: T)
    requires u + multiset{x} == v + multiset{x}
    ensures u == v
  {
    assert (u + multiset{x}) - multiset{x} == u && (v + multiset{x}) - multiset{x} == v;
  }

  /** A sorted arrangement of a collection is unique. */
  lemma {:induction false} SortedUnique<T(!new)>(le: (T, T) -> bool, a: seq<T>, b: seq<T>)
    requires TotalPreorder(le)
    requires SortedBy(le, a) && SortedBy(le, b)
    requires multiset(a) == multiset(b)
    requires Separates(le, a)
    ensures a == b
  {
    SameMembers(a, b);
    if a != [] {
      SameHead(le, a, b);
      TailKeepsOrder(le, a);
      TailKeepsOrder(le, b);
      TailMultiset(a);
      TailMultiset(b);
      SortedUnique(le, a[1..], b[1..]);
      HeadAndTail(a);
      HeadAndTail(b);
    }
  }

  lemma HeadAndTail<T>(s: seq<T>)
    requires s != []
    ensures s == [s[0]] + s[1..]
  {
  }

  lemma TailKeepsOrder<T>(le: (T, T) -> bool, s: seq<T>)
    requires s != []
    ensures SortedBy(le, s) ==> SortedBy(le, s[1..])
    ensures Separates(le, s) ==> Separates(le, s[1..])
  {
    forall x | x in s[1..] ensures x in s {}
  }

  lemma SameHead<T(!new)>(le: (T, T) -> bool, a: seq<T>, b: seq<T>)
    requires TotalPreorder(le) && Separates(le, a)
    requires SortedBy(le, a) && SortedBy(le, b)
    requires a != [] && b != [] && forall x :: x in a <==> x in b
    ensures a[0] == b[0]
  {
    HeadIsLeast(le, a, b[0]);
    HeadIsLeast(le, b, a[0]);
  }

  lemma HeadIsLeast<T(!new)>(le: (T, T) -> bool, s: seq<T>, x: T)
    requires TotalPreorder(le) && SortedBy(le, s) && x in s
    ensures le(s[0], x)
  {
    var i :| 0 <= i < |s| && s[i] == x;
  }

  ghost predicate NoCopies<T>(s: seq<T>) {
    forall i, j :: 0 <= i < j < |s| ==> s[i] != s[j]
  }

  lemma {:induction false} NoCopiesMultiset<T>(s: seq<T>, x: T)
    requires NoCopies(s)
    ensures multiset(s)[x] == if x in s then 1 else 0
  {
    if s != [] {
      var k := |s| - 1;
      NoCopiesMultiset(s[..k], x);
      assert s == s[..k] + [s[k]];
      assert s[k] !in s[..k];
    }
  }

  lemma SameMembersNoCopies<T>(a: seq<T>, b: seq<T>)
    requires NoCopies(a) && NoCopies(b) && forall x :: x in a <==> x in b
    ensures multiset(a) == multiset(b)
  {
    forall x ensures multiset(a)[x] == multiset(b)[x] {
      NoCopiesMultiset(a, x);
      NoCopiesMultiset(b, x);
    }
  }

  lemma {:induction false} SameSizeSubset<T>(a: seq<T>, b: seq<T>)
    requires NoCopies(a) && |a| == |b| && forall x :: x in a ==> x in b
    ensures multiset(a) == multiset(b)
  {
    if a != [] {
      var k := |a| - 1;
      assert a[k] in b;
      var j :| 0 <= j < |b| && b[j] == a[k];
      Without(b, j);
      var front, others := a[..k], b[..j] + b[j+1..];
      forall x | x in front ensures x in others {
        assert x in a && x != a[k] && x in multiset(b);
        assert x in multiset(others);
      }
      SameSizeSubset(front, others);
      assert a == front + [a[k]];
    }
  }

  lemma TailMultiset<T>(s: seq<T>)
    requires s != []
    ensures multiset(s[1..]) == multiset(s) - multiset{s[0]}
  {
    assert s == [s[0]] + s[1..];
  }

  /** Sorting forgets the order its input came in. */
  lemma SortForgetsOrder<T(!new)>(le: (T, T) -> bool, a: seq<T>, b: seq<T>)
    requires TotalPreorder(le)
    requires multiset(a) == multiset(b)
    requires Separates(le, a)
    ensures Sort(le, a) == Sort(le, b)
  {
    SortProperties(le, a);
    SortProperties(le, b);
    SortedUnique(le, Sort(le, a), Sort(le, b));
  }

  /** `sum(f(x) for x in s)`. */
  function SumBy<T>(f: T -> int, s: seq<T>): int {
    if s == [] then 0 else SumBy(f, s[..|s|-1]) + f(s[|s|-1])
  }

  lemma SumOfTwo<T>(f: T -> int, a: T, b: T)
    ensures SumBy(f, [a, b]) == f(a) + f(b)
  {
    assert [a, b][..1] == [a] && [a][..0] == [];
    assert SumBy(f, [a]) == SumBy(f, [a][..0]) + f(a);
  }

  lemma {:induction false} SumByConcat<T>(f: T -> int, a: seq<T>, b: seq<T>)
    ensures SumBy(f, a + b) == SumBy(f, a) + SumBy(f, b)
  {
    if b == [] {
      assert a + b == a;
    } else {
      assert (a + b)[..|a + b| - 1] == a + b[..|b|-1];
      SumByConcat(f, a, b[..|b|-1]);
    }
  }

  lemma {:induction false} SumByInsert<T>(f: T -> int, le: (T, T) -> bool, x: T, s: seq<T>)
    ensures SumBy(f, Insert(le, x, s)) == f(x) + SumBy(f, s)
  {
    assert [x][..0] == [];
    assert SumBy(f, [x]) == f(x);
    if s == [] || le(x, s[0]) {
      SumByConcat(f, [x], s);
    } else {
      SumByInsert(f, le, x, s[1..]);
      SumByConcat(f, [s[0]], Insert(le, x, s[1..]));
      SumByConcat(f, [s[0]], s[1..]);
      assert [s[0]] + s[1..] == s;
    }
  }

  /** A sum does not change when its terms are sorted. */
  lemma {:induction false} SumBySort<T>(f: T -> int, le: (T, T) -> bool, s: seq<T>)
    ensures SumBy(f, Sort(le, s)) == SumBy(f, s)
  {
    if s != [] {
      SumBySort(f, le, s[1..]);
      SumByInsert(f, le, s[0], Sort(le, s[1..]));
      SumByConcat(f, [s[0]], s[1..]);
      assert [s[0]][..0] == [] && SumBy(f, [s[0]]) == f(s[0]);
      assert [s[0]] + s[1..] == s;
    }
  }

  /** Nor does it change when they are rearranged. */
  lemma {:induction false} SumByForgetsOrder<T>(f: T -> int, a: seq<T>, b: seq<T>)
    requires multiset(a) == multiset(b)
    ensures SumBy(f, a) == SumBy(f, b)
    decreases |a|
  {
    SameMembers(a, b);
    if a != [] {
      var k := |a| - 1;
      var j := MatchLast(a, b);
      SumByForgetsOrder(f, a[..k], b[..j] + b[j+1..]);
      SumByConcat(f, b[..j], b[j+1..]);
      SumByConcat(f, b[..j], [b[j]] + b[j+1..]);
      SumByConcat(f, [b[j]], b[j+1..]);
      assert b == b[..j] + ([b[j]] + b[j+1..]);
      assert [b[j]][..0] == [] && SumBy(f, [b[j]]) == f(b[j]);
    }
  }
}
