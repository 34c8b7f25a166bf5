/** Integer weights held in dictionaries, and their sums over sets of keys. */
module Sums {

  /** Python's `w.get(k, 0)`. */
  function At(w: map<string, int>, k: string): int {
    if k in w then w[k] else 0
  }

  ghost predicate NonNegative(w: map<string, int>) {
    forall k :: k in w ==> w[k] >= 0
  }

  ghost function SumOver(s: set<string>, w: map<string, int>): int {
    if s == {} then 0
    else
      var k :| k in s;
      At(w, k) + SumOver(s - {k}, w)
  }

  /** `sum(w.values())`. */
  ghost function Total(w: map<string, int>): int {
    SumOver(w.Keys, w)
  }

  /** The sum does not depend on the order in which keys are taken. */
  lemma {:induction false} SumOverPick(s: set<string>, w: map<string, int>, k: string)
    requires k in s
    ensures SumOver(s, w) == At(w, k) + SumOver(s - {k}, w)
    decreases s
  {
    var j :| j in s && SumOver(s, w) == At(w, j) + SumOver(s - {j}, w);
    if j != k {
      SumOverPick(s - {j}, w, k);
      SumOverPick(s - {k}, w, j);
      assert s - {j} - {k} == s - {k} - {j};
    }
  }

  lemma {:induction false} SumOverAdd(s: set<string>, w: map<string, int>, k: string)
    requires k !in s
    ensures SumOver(s + {k}, w) == At(w, k) + SumOver(s, w)
  {
    SumOverPick(s + {k}, w, k);
    assert s + {k} - {k} == s;
  }

  lemma {:induction false} SumOverDisjoint(a: set<string>, b: set<string>, w: map<string, int>)
    requires a !! b
    ensures SumOver(a + b, w) == SumOver(a, w) + SumOver(b, w)
    decreases a
  {
    if a == {} {
      assert a + b == b;
    } else {
      var k :| k in a;
      SumOverPick(a, w, k);
      SumOverPick(a + b, w, k);
      assert a + b - {k} == (a - {k}) + b;
      SumOverDisjoint(a - {k}, b, w);
    }
  }

  lemma SumOverInclusionExclusion(a: set<string>, b: set<string>, w: map<string, int>)
    ensures SumOver(a, w) + SumOver(b, w) == SumOver(a + b, w) + SumOver(a * b, w)
  {
    SumOverDisjoint(a, b - a, w);
    SumOverDisjoint(b - a, a * b, w);
    assert a + (b - a) == a + b;
    assert (b - a) + (a * b) == b;
  }

  lemma {:induction false} SumOverNonNegative(s: set<string>, w: map<string, int>)
    requires NonNegative(w)
    ensures SumOver(s, w) >= 0
    decreases s
  {
    if s != {} {
      var k :| k in s;
      SumOverPick(s, w, k);
      SumOverNonNegative(s - {k}, w);
    }
  }

  lemma SumOverMonotone(a: set<string>, b: set<string>, w: map<string, int>)
    requires a <= b && NonNegative(w)
    ensures SumOver(a, w) <= SumOver(b, w)
  {
    SumOverDisjoint(a, b - a, w);
    SumOverNonNegative(b - a, w);
    assert a + (b - a) == b;
  }

  lemma {:induction false} SumOverAgree(s: set<string>, v: map<string, int>, w: map<string, int>)
    requires forall k :: k in s ==> At(v, k) == At(w, k)
    ensures SumOver(s, v) == SumOver(s, w)
    decreases s
  {
    if s != {} {
      var k :| k in s;
      SumOverPick(s, v, k);
      SumOverPick(s, w, k);
      SumOverAgree(s - {k}, v, w);
    }
  }

  lemma {:induction false} SumOverZero(s: set<string>, w: map<string, int>)
    requires forall k :: k in s ==> At(w, k) == 0
    ensures SumOver(s, w) == 0
    decreases s
  {
    if s != {} {
      var k :| k in s;
      SumOverPick(s, w, k);
      SumOverZero(s - {k}, w);
    }
  }

  /** Keys outside the dictionary weigh nothing. */
  lemma SumOverAtMostTotal(s: set<string>, w: map<string, int>)
    requires NonNegative(w)
    ensures SumOver(s, w) <= Total(w)
  {
    SumOverDisjoint(s * w.Keys, s - w.Keys, w);
    SumOverZero(s - w.Keys, w);
    SumOverMonotone(s * w.Keys, w.Keys, w);
    assert (s * w.Keys) + (s - w.Keys) == s;
  }

  lemma TotalUpdate(w: map<string, int>, k: string, n: int)
    ensures Total(w[k := n]) == Total(w) - At(w, k) + n
  {
    var w' := w[k := n];
    assert w'.Keys == w.Keys + {k};
    SumOverPick(w'.Keys, w', k);
    assert w'.Keys - {k} == w.Keys - {k};
    SumOverAgree(w.Keys - {k}, w', w);
    if k in w {
      SumOverPick(w.Keys, w, k);
    } else {
      assert w.Keys - {k} == w.Keys;
    }
  }

  /** Two dictionaries that differ at one key only. */
  lemma SumOverChange(s: set<string>, k: string, v: map<string, int>, w: map<string, int>)
    requires forall j :: j in s && j != k ==> At(v, j) == At(w, j)
    ensures SumOver(s + {k}, w) == SumOver(s, v) - (if k in s then At(v, k) else 0) + At(w, k)
  {
    SumOverAgree(s - {k}, v, w);
    SumOverPick(s + {k}, w, k);
    assert s + {k} - {k} == s - {k};
    if k in s {
      SumOverPick(s, v, k);
    } else {
      assert s - {k} == s;
    }
  }
}
