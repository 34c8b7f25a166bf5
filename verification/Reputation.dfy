/** The `divergence-decay` reputation derivation: exact rational decay over recency. */
module Reputation {
  import opened Prelude
  import opened Ordering
  import opened Arithmetic

  datatype Cost = Cost(unit: Option<string>, amount: Scalar) | NoCost

  /** One entry of `afp:settles`. */
  datatype Entry = Entry(actor: Option<string>, estimated: Cost, actual: Cost)

  datatype Settlement = Settlement(published: int, digest: string, settles: seq<Entry>, vindicated: Option<seq<string>>)

  datatype Params = Params(num: int, den: int, bonus: int)

  datatype Usable = Unusable | Usable(unit: string, amount: int)

  function UsableCost(c: Cost): Usable {
    if c.NoCost? || c.unit.None? then Unusable
    else
      match WholeNumber(c.amount)
      case Some(n) => Usable(c.unit.value, n)
      case None => Unusable
  }

  function EntryFor(settles: seq<Entry>, bidder: string): Option<Entry> {
    if settles == [] then None
    else if settles[0].actor == Some(bidder) then Some(settles[0])
    else EntryFor(settles[1..], bidder)
  }

  function Abs(x: int): nat {
    if x < 0 then -x else x
  }

  /** The accuracy one settlement gives a bidder, or none. */
  function Accuracy(s: Settlement, bidder: string, bonus: int): Option<int> {
    var vindicated := s.vindicated.Some? && bidder in s.vindicated.value;
    var fallback := if vindicated then Some(100) else None;
    match EntryFor(s.settles, bidder)
    case None => fallback
    case Some(e) =>
      var estimated, actual := UsableCost(e.estimated), UsableCost(e.actual);
      if estimated.Usable? && actual.Usable? && estimated.unit == actual.unit && estimated.amount > 0 then
        var divergence := 100 * Abs(actual.amount - estimated.amount) / estimated.amount;
        var a := if divergence >= 100 then 0 else 100 - divergence;
        Some(if vindicated then a + bonus else a)
      else fallback
  }

  /** The recency order: by instant, then by digest. */
  predicate RecencyLe(a: Settlement, b: Settlement) {
    a.published < b.published || (a.published == b.published && StrLe(a.digest, b.digest))
  }

  /** The weighted sum in Horner form: each newer settlement ages the older ones by `num` and
      enters over the common denominator. */
  function Weighted(s: seq<Settlement>, value: Settlement -> int, num: int, den: int): int {
    if s == [] then 0
    else
      var k := |s| - 1;
      num * Weighted(s[..k], value, num, den) + value(s[k]) * Pow(den, k)
  }

  function Gained(bidder: string, bonus: int): Settlement -> int {
    (s: Settlement) => var a := Accuracy(s, bidder, bonus); if a.Some? then a.value else 0
  }

  function Scored(bidder: string, bonus: int): Settlement -> int {
    (s: Settlement) => if Accuracy(s, bidder, bonus).Some? then 1 else 0
  }

  /** The score of settlements already in recency order. */
  function ScoreOf(ordered: seq<Settlement>, bidder: string, p: Params): int {
    var den := Weighted(ordered, Scored(bidder, p.bonus), p.num, p.den);
    if den == 0 then 50 else FloorDiv(Weighted(ordered, Gained(bidder, p.bonus), p.num, p.den), den)
  }

  function Score(settlements: seq<Settlement>, bidder: string, p: Params): int {
    ScoreOf(Sort(RecencyLe, settlements), bidder, p)
  }

  /** The loop: settlement `idx` steps back from the newest weighs `num^k * den^(n-1-k)`. */
  method DivergenceDecay(p: Params, settlements: seq<Settlement>, bidder: string) returns (score: int)
    ensures score == Score(settlements, bidder, p)
  {
    var ordered := Sort(RecencyLe, settlements);
    var n := |ordered|;
    var scoreNum, scoreDen := 0, 0;
    ghost var gained, scored := Gained(bidder, p.bonus), Scored(bidder, p.bonus);
    for idx := 0 to n
      invariant scoreNum == Pow(p.num, n - idx) * Weighted(ordered[..idx], gained, p.num, p.den)
      invariant scoreDen == Pow(p.num, n - idx) * Weighted(ordered[..idx], scored, p.num, p.den)
    {
      var k := n - 1 - idx;
      var weight := Pow(p.num, k) * Pow(p.den, n - 1 - k);
      var a := Accuracy(ordered[idx], bidder, p.bonus);
      HornerStep(ordered, idx, gained, p.num, p.den, weight);
      HornerStep(ordered, idx, scored, p.num, p.den, weight);
      if a.Some? {
        scoreNum := scoreNum + a.value * weight;
        scoreDen := scoreDen + weight;
      }
    }
    assert ordered[..n] == ordered;
    if scoreDen == 0 {
      return 50;
    }
    return FloorDiv(scoreNum, scoreDen);
  }

  /** Adding one term of the explicit sum advances the Horner form. */
  lemma HornerStep(ordered: seq<Settlement>, idx: nat, value: Settlement -> int, num: int, den: int, weight: int)
    requires idx < |ordered|
    requires weight == Pow(num, |ordered| - 1 - idx) * Pow(den, idx)
    ensures Pow(num, |ordered| - idx - 1) * Weighted(ordered[..idx+1], value, num, den)
            == Pow(num, |ordered| - idx) * Weighted(ordered[..idx], value, num, den) + value(ordered[idx]) * weight
  {
    assert ordered[..idx+1][..idx] == ordered[..idx];
    HornerAlgebra(Pow(num, |ordered| - idx - 1), num, Weighted(ordered[..idx], value, num, den),
                  value(ordered[idx]), Pow(den, idx));
  }

  lemma HornerAlgebra(p: int, num: int, w: int, v: int, d: int)
    ensures p * (num * w + v * d) == (num * p) * w + v * (p * d)
  {
    assert p * (num * w + v * d) == p * (num * w) + p * (v * d);
    assert p * (num * w) == (num * p) * w;
    assert p * (v * d) == v * (p * d);
  }

  // ---- bounds and the neutral prior

  lemma AccuracyBounds(s: Settlement, bidder: string, bonus: int)
    requires bonus >= 0
    ensures Accuracy(s, bidder, bonus).Some? ==> 0 <= Accuracy(s, bidder, bonus).value <= 100 + bonus
  {
    match EntryFor(s.settles, bidder)
    case None =>
    case Some(e) =>
      var estimated, actual := UsableCost(e.estimated), UsableCost(e.actual);
      if estimated.Usable? && actual.Usable? && estimated.amount > 0 {
        QuotientNonNegative(100 * Abs(actual.amount - estimated.amount), estimated.amount);
      }
  }

  lemma QuotientNonNegative(a: int, b: int)
    requires a >= 0 && b > 0
    ensures a / b >= 0
  {
  }

  lemma {:induction false} WeightedBounds(s: seq<Settlement>, bidder: string, p: Params)
    requires p.num > 0 && p.den > 0 && p.bonus >= 0
    ensures var g := Weighted(s, Gained(bidder, p.bonus), p.num, p.den);
            var c := Weighted(s, Scored(bidder, p.bonus), p.num, p.den);
            0 <= g <= (100 + p.bonus) * c
    ensures Weighted(s, Scored(bidder, p.bonus), p.num, p.den) >= 0
    ensures Weighted(s, Scored(bidder, p.bonus), p.num, p.den) == 0 <==>
              forall i :: 0 <= i < |s| ==> Accuracy(s[i], bidder, p.bonus).None?
  {
    if s != [] {
      var k := |s| - 1;
      WeightedBounds(s[..k], bidder, p);
      AccuracyBounds(s[k], bidder, p.bonus);
      PowPositive(p.den, k);
      var gained, scored := Gained(bidder, p.bonus), Scored(bidder, p.bonus);
      var g, c := Weighted(s[..k], gained, p.num, p.den), Weighted(s[..k], scored, p.num, p.den);
      BoundStep(g, c, p.num, 100 + p.bonus, gained(s[k]), scored(s[k]), Pow(p.den, k));
      assert forall i :: 0 <= i < k ==> s[..k][i] == s[i];
    }
  }

  lemma BoundStep(g: int, c: int, num: int, top: int, a: int, one: int, w: int)
    requires num > 0 && w > 0 && 0 <= g <= top * c && c >= 0 && 0 <= one <= 1 && 0 <= a <= top * one
    ensures 0 <= num * g + a * w <= top * (num * c + one * w)
    ensures num * c + one * w >= 0
    ensures num * c + one * w == 0 <==> c == 0 && one == 0
  {
    Scale(num, g, top * c);
    Scale(w, a, top * one);
    Scale(num, 0, c);
    assert top * (num * c + one * w) == num * (top * c) + (top * one) * w by {
      assert top * (num * c) == num * (top * c);
      assert top * (one * w) == (top * one) * w;
    }
    assert a * w == w * a && (top * one) * w == w * (top * one);
    if c > 0 {
      PositiveProduct(num, c);
    }
    assert one * w == if one == 1 then w else 0;
    assert num * 0 == 0;
  }

  /** A score lies between 0 and 100 plus the bonus. */
  lemma ScoreIsBounded(settlements: seq<Settlement>, bidder: string, p: Params)
    requires p.num > 0 && p.den > 0 && p.bonus >= 0
    ensures 0 <= Score(settlements, bidder, p) <= 100 + p.bonus
  {
    var s := Sort(RecencyLe, settlements);
    WeightedBounds(s, bidder, p);
    var g, c := Weighted(s, Gained(bidder, p.bonus), p.num, p.den), Weighted(s, Scored(bidder, p.bonus), p.num, p.den);
    if c != 0 {
      QuotientBounds(g, c, 100 + p.bonus);
    }
  }

  lemma QuotientBounds(g: int, c: int, top: int)
    requires c > 0 && 0 <= g <= top * c
    ensures 0 <= g / c <= top
  {
    var q, r := g / c, g % c;
    assert g == c * q + r;
    if q > top {
      Scale(c, top + 1, q);
      OneMore(c, top);
    }
  }

  /** No history is not bad history: exactly 50 whenever nothing scores the bidder. */
  lemma NoHistoryIsNeutral(settlements: seq<Settlement>, bidder: string, p: Params)
    requires p.num > 0 && p.den > 0 && p.bonus >= 0
    requires forall s :: s in settlements ==> Accuracy(s, bidder, p.bonus).None?
    ensures Score(settlements, bidder, p) == 50
  {
    RecencyPreorder();
    SortProperties(RecencyLe, settlements);
    WeightedBounds(Sort(RecencyLe, settlements), bidder, p);
  }

  lemma RecencyPreorder()
    ensures TotalPreorder(RecencyLe)
  {
    StrLeTotalOrder();
  }

  // ---- what a score does not depend on

  /** Different settlements of a snapshot have different digests. */
  ghost predicate CollisionFree(settlements: seq<Settlement>) {
    forall a, b :: a in settlements && b in settlements && a.digest == b.digest ==> a == b
  }

  /** A score does not depend on the order of the snapshot. */
  lemma ScoreForgetsOrder(a: seq<Settlement>, b: seq<Settlement>, bidder: string, p: Params)
    requires multiset(a) == multiset(b) && CollisionFree(a)
    ensures Score(a, bidder, p) == Score(b, bidder, p)
  {
    StrLeTotalOrder();
    SortForgetsOrder(RecencyLe, a, b);
  }

  lemma {:induction false} WeightedScales(s: seq<Settlement>, value: Settlement -> int, num: int, den: int, c: int)
    ensures c * Weighted(s, value, c * num, c * den) == Pow(c, |s|) * Weighted(s, value, num, den)
  {
    if s != [] {
      var k := |s| - 1;
      var w, w' := Weighted(s[..k], value, num, den), Weighted(s[..k], value, c * num, c * den);
      WeightedScales(s[..k], value, num, den, c);
      PowProduct(c, den, k);
      ScaleAlgebra(c, num, w, w', value(s[k]), Pow(c, k), Pow(den, k));
    }
  }

  lemma ScaleAlgebra(c: int, num: int, w: int, w': int, v: int, ck: int, dk: int)
    requires c * w' == ck * w
    ensures c * ((c * num) * w' + v * (ck * dk)) == (c * ck) * (num * w + v * dk)
  {
    calc {
      c * ((c * num) * w' + v * (ck * dk));
      c * ((c * num) * w') + c * (v * (ck * dk));
      { assert (c * num) * w' == num * (c * w'); }
      c * (num * (ck * w)) + c * (v * (ck * dk));
      { assert c * (num * (ck * w)) == (c * ck) * (num * w); }
      { assert c * (v * (ck * dk)) == (c * ck) * (v * dk); }
      (c * ck) * (num * w) + (c * ck) * (v * dk);
      (c * ck) * (num * w + v * dk);
    }
  }

  /** Only the ratio of the decay matters. */
  lemma ScoreIsScaleFree(settlements: seq<Settlement>, bidder: string, p: Params, c: int)
    requires p.num > 0 && p.den > 0 && p.bonus >= 0 && c > 0
    ensures Score(settlements, bidder, Params(c * p.num, c * p.den, p.bonus)) == Score(settlements, bidder, p)
  {
    var s := Sort(RecencyLe, settlements);
    var gained, scored := Gained(bidder, p.bonus), Scored(bidder, p.bonus);
    PositiveProduct(c, p.num);
    PositiveProduct(c, p.den);
    var g, d := Weighted(s, gained, p.num, p.den), Weighted(s, scored, p.num, p.den);
    var g', d' := Weighted(s, gained, c * p.num, c * p.den), Weighted(s, scored, c * p.num, c * p.den);
    WeightedScales(s, gained, p.num, p.den, c);
    WeightedScales(s, scored, p.num, p.den, c);
    WeightedBounds(s, bidder, p);
    WeightedBounds(s, bidder, Params(c * p.num, c * p.den, p.bonus));
    PowPositive(c, |s|);
    if d != 0 {
      DivCancel(c, g', d');
      DivCancel(Pow(c, |s|), g, d);
    }
  }

  /** Settlements that give the bidder no score. */
  ghost predicate Silent(s: seq<Settlement>, bidder: string, bonus: int) {
    forall i :: 0 <= i < |s| ==> Accuracy(s[i], bidder, bonus).None?
  }

  ghost predicate ZeroOn(value: Settlement -> int, s: seq<Settlement>) {
    forall i :: 0 <= i < |s| ==> value(s[i]) == 0
  }

  lemma {:induction false} SilentNewest(s: seq<Settlement>, newer: seq<Settlement>, value: Settlement -> int,
                                        num: int, den: int)
    requires ZeroOn(value, newer)
    ensures Weighted(s + newer, value, num, den) == Pow(num, |newer|) * Weighted(s, value, num, den)
  {
    if newer == [] {
      assert s + newer == s;
    } else {
      var k := |newer| - 1;
      assert (s + newer)[..|s + newer| - 1] == s + newer[..k];
      SilentNewest(s, newer[..k], value, num, den);
      assert value(newer[k]) == 0;
      assert num * (Pow(num, k) * Weighted(s, value, num, den)) == (num * Pow(num, k)) * Weighted(s, value, num, den);
    }
  }

  lemma {:induction false} SilentOldest(older: seq<Settlement>, s: seq<Settlement>, value: Settlement -> int,
                                        num: int, den: int)
    requires ZeroOn(value, older)
    ensures Weighted(older + s, value, num, den) == Pow(den, |older|) * Weighted(s, value, num, den)
  {
    if s == [] {
      assert older + s == [] + older;
      SilentNewest([], older, value, num, den);
    } else {
      var k := |s| - 1;
      assert (older + s)[..|older + s| - 1] == older + s[..k];
      SilentOldest(older, s[..k], value, num, den);
      PowAdd(den, |older|, k);
      OldestAlgebra(Pow(den, |older|), num, Weighted(s[..k], value, num, den), value(s[k]), Pow(den, k));
    }
  }

  lemma OldestAlgebra(c: int, num: int, w: int, v: int, d: int)
    ensures num * (c * w) + v * (c * d) == c * (num * w + v * d)
  {
    assert num * (c * w) == c * (num * w);
    assert v * (c * d) == c * (v * d);
  }

  lemma SilentEndsScale(older: seq<Settlement>, s: seq<Settlement>, newer: seq<Settlement>, value: Settlement -> int,
                        num: int, den: int)
    requires ZeroOn(value, older) && ZeroOn(value, newer)
    ensures Weighted(older + s + newer, value, num, den)
        == Pow(num, |newer|) * (Pow(den, |older|) * Weighted(s, value, num, den))
  {
    SilentOldest(older, s, value, num, den);
    SilentNewest(older + s, newer, value, num, den);
  }

  lemma SilentIsZero(s: seq<Settlement>, bidder: string, bonus: int)
    requires Silent(s, bidder, bonus)
    ensures ZeroOn(Gained(bidder, bonus), s) && ZeroOn(Scored(bidder, bonus), s)
  {
  }

  lemma ScaledQuotient(b: int, a: int, g: int, d: int)
    requires a > 0 && b > 0 && d > 0
    ensures b * (a * d) != 0
    ensures FloorDiv(b * (a * g), b * (a * d)) == FloorDiv(g, d)
  {
    PositiveProduct(a, d);
    PositiveProduct(b, a * d);
    DivCancel(a, g, d);
    DivCancel(b, a * g, a * d);
  }

  /** Settlements that do not score the bidder do not change the score of an ordered history when
      they are only its oldest or its newest. */
  lemma SilentEndsKeepScore(older: seq<Settlement>, s: seq<Settlement>, newer: seq<Settlement>, bidder: string,
                            p: Params)
    requires p.num > 0 && p.den > 0 && p.bonus >= 0
    requires Silent(older, bidder, p.bonus) && Silent(newer, bidder, p.bonus)
    ensures ScoreOf(older + s + newer, bidder, p) == ScoreOf(s, bidder, p)
  {
    var gained, scored := Gained(bidder, p.bonus), Scored(bidder, p.bonus);
    var g, d := Weighted(s, gained, p.num, p.den), Weighted(s, scored, p.num, p.den);
    SilentIsZero(older, bidder, p.bonus);
    SilentIsZero(newer, bidder, p.bonus);
    SilentEndsScale(older, s, newer, gained, p.num, p.den);
    SilentEndsScale(older, s, newer, scored, p.num, p.den);
    PowPositive(p.den, |older|);
    PowPositive(p.num, |newer|);
    WeightedBounds(s, bidder, p);
    if d != 0 {
      ScaledQuotient(Pow(p.num, |newer|), Pow(p.den, |older|), g, d);
    }
  }

  lemma MiddleIsSorted(older: seq<Settlement>, s: seq<Settlement>, newer: seq<Settlement>)
    requires SortedBy(RecencyLe, older + s + newer) && CollisionFree(older + s + newer)
    ensures SortedBy(RecencyLe, s) && CollisionFree(s)
  {
    var all := older + s + newer;
    forall i, j | 0 <= i < j < |s| ensures RecencyLe(s[i], s[j]) {
      assert all[|older| + i] == s[i] && all[|older| + j] == s[j];
    }
    forall x | x in s ensures x in all {}
  }

  /** Settlements that do not score the bidder change nothing when they are only older, or only
      newer, than every other one. */
  lemma SilentEndsDoNotCount(older: seq<Settlement>, s: seq<Settlement>, newer: seq<Settlement>, bidder: string,
                             p: Params)
    requires p.num > 0 && p.den > 0 && p.bonus >= 0
    requires SortedBy(RecencyLe, older + s + newer) && CollisionFree(older + s + newer)
    requires Silent(older, bidder, p.bonus) && Silent(newer, bidder, p.bonus)
    ensures Score(older + s + newer, bidder, p) == Score(s, bidder, p)
  {
    AlreadySorted(older + s + newer);
    MiddleIsSorted(older, s, newer);
    AlreadySorted(s);
    SilentEndsKeepScore(older, s, newer, bidder, p);
  }

  lemma AlreadySorted(s: seq<Settlement>)
    requires SortedBy(RecencyLe, s) && CollisionFree(s)
    ensures Sort(RecencyLe, s) == s
  {
    StrLeTotalOrder();
    SortProperties(RecencyLe, s);
    SortedUnique(RecencyLe, Sort(RecencyLe, s), s);
  }

  // ---- in between they may count: they age the older settlements

  lemma JoinAlgebra(num: int, a: int, older: int, b: int, newer: int, v: int, d: int)
    ensures num * (a * older + b * newer) + v * (b * d) == (num * a) * older + b * (num * newer + v * d)
  {
    assert num * (a * older + b * newer) == num * (a * older) + num * (b * newer);
    assert num * (a * older) == (num * a) * older && num * (b * newer) == b * (num * newer);
    assert v * (b * d) == b * (v * d);
    assert b * (num * newer + v * d) == b * (num * newer) + b * (v * d);
  }

  /** A history in two parts: the newer part ages the older one. */
  lemma {:induction false} WeightedJoin(older: seq<Settlement>, newer: seq<Settlement>, value: Settlement -> int,
                                        num: int, den: int)
    ensures Weighted(older + newer, value, num, den)
         == Pow(num, |newer|) * Weighted(older, value, num, den) + Pow(den, |older|) * Weighted(newer, value, num, den)
  {
    if newer == [] {
      assert older + newer == older;
    } else {
      var k := |newer| - 1;
      assert (older + newer)[..|older + newer| - 1] == older + newer[..k];
      WeightedJoin(older, newer[..k], value, num, den);
      PowAdd(den, |older|, k);
      JoinAlgebra(num, Pow(num, k), Weighted(older, value, num, den), Pow(den, |older|),
                  Weighted(newer[..k], value, num, den), value(newer[k]), Pow(den, k));
    }
  }

  lemma SwapFactors(x: int, y: int, z: int)
    ensures x * (y * z) == y * (x * z)
  {
  }

  lemma GroupFactors(x: int, y: int, z: int)
    ensures (x * y) * z == x * (y * z)
  {
  }

  lemma SilentJoin(older: seq<Settlement>, silent: seq<Settlement>, newer: seq<Settlement>, value: Settlement -> int,
                   num: int, den: int)
    requires ZeroOn(value, silent)
    ensures Weighted(older + silent + newer, value, num, den)
         == Pow(num, |silent|) * (Pow(num, |newer|) * Weighted(older, value, num, den))
            + Pow(den, |silent|) * (Pow(den, |older|) * Weighted(newer, value, num, den))
  {
    WeightedJoin(older + silent, newer, value, num, den);
    SilentNewest(older, silent, value, num, den);
    PowAdd(den, |silent|, |older|);
    SwapFactors(Pow(num, |newer|), Pow(num, |silent|), Weighted(older, value, num, den));
    GroupFactors(Pow(den, |silent|), Pow(den, |older|), Weighted(newer, value, num, den));
  }

  lemma {:induction false} PowGrows(a: int, b: int, k: nat)
    requires 0 < a < b && k > 0
    ensures 0 < Pow(a, k) < Pow(b, k)
  {
    PowPositive(a, k);
    if k == 1 {
      assert Pow(a, 0) == 1 && Pow(b, 0) == 1;
    } else {
      PowGrows(a, b, k - 1);
      Scale(a, Pow(a, k - 1), Pow(b, k - 1));
      PositiveProduct(b - a, Pow(b, k - 1));
      assert (b - a) * Pow(b, k - 1) == b * Pow(b, k - 1) - a * Pow(b, k - 1);
    }
  }

  lemma PowSame(a: int, b: int, k: nat)
    requires a > 0 && b > 0 && k > 0
    ensures Pow(a, k) == Pow(b, k) <==> a == b
  {
    if a < b {
      PowGrows(a, b, k);
    } else if b < a {
      PowGrows(b, a, k);
    }
  }

  lemma ZeroProduct(x: int, y: int)
    ensures x * y == 0 <==> x == 0 || y == 0
  {
  }

  lemma Spread(x: int, y: int, u: int, v: int)
    ensures (x + y) * (u + v) == x * u + x * v + y * u + y * v
  {
  }

  /** Weighing the two parts of a fraction differently keeps it exactly when the weights or the
      parts' own fractions agree. */
  lemma FractionKept(g: int, s: int, h: int, t: int, x: int, y: int)
    ensures (g + h) * (x * s + y * t) == (x * g + y * h) * (s + t) <==> x == y || g * t == h * s
  {
    Spread(g, h, x * s, y * t);
    Spread(x * g, y * h, s, t);
    SwapFactors(g, x, s);
    SwapFactors(g, y, t);
    SwapFactors(h, x, s);
    SwapFactors(h, y, t);
    GroupFactors(x, g, s);
    GroupFactors(x, g, t);
    GroupFactors(y, h, s);
    GroupFactors(y, h, t);
    CrossTerms(x, y, g * t, h * s);
    ZeroProduct(y - x, g * t - h * s);
  }

  lemma CrossTerms(x: int, y: int, m: int, n: int)
    ensures y * m + x * n - x * m - y * n == (y - x) * (m - n)
  {
  }

  lemma CommonFactors(a: int, b: int, g: int, s: int, h: int, t: int)
    requires a > 0 && b > 0
    ensures (a * g) * (b * t) == (b * h) * (a * s) <==> g * t == h * s
  {
    assert (a * g) * (b * t) == (a * b) * (g * t) && (b * h) * (a * s) == (a * b) * (h * s);
    PositiveProduct(a, b);
    assert (a * b) * (g * t) - (a * b) * (h * s) == (a * b) * (g * t - h * s);
    ZeroProduct(a * b, g * t - h * s);
  }

  /** The exact decayed fraction of two ordered histories is the same. */
  ghost predicate SameFraction(a: seq<Settlement>, b: seq<Settlement>, bidder: string, p: Params) {
    var gained, scored := Gained(bidder, p.bonus), Scored(bidder, p.bonus);
    Weighted(a, gained, p.num, p.den) * Weighted(b, scored, p.num, p.den)
    == Weighted(b, gained, p.num, p.den) * Weighted(a, scored, p.num, p.den)
  }

  /** Settlements that do not score the bidder, placed between older and newer ones, keep the exact
      fraction if and only if there are none, nothing decays, or the older and the newer ones have
      the same fraction by themselves. */
  lemma SilentMiddleKeepsFractionIff(older: seq<Settlement>, silent: seq<Settlement>, newer: seq<Settlement>,
                                     bidder: string, p: Params)
    requires p.num > 0 && p.den > 0
    requires Silent(silent, bidder, p.bonus)
    ensures SameFraction(older + newer, older + silent + newer, bidder, p) <==>
              silent == [] || p.num == p.den || SameFraction(older, newer, bidder, p)
  {
    var gained, scored := Gained(bidder, p.bonus), Scored(bidder, p.bonus);
    SilentIsZero(silent, bidder, p.bonus);
    WeightedJoin(older, newer, gained, p.num, p.den);
    WeightedJoin(older, newer, scored, p.num, p.den);
    SilentJoin(older, silent, newer, gained, p.num, p.den);
    SilentJoin(older, silent, newer, scored, p.num, p.den);
    var a, b := Pow(p.num, |newer|), Pow(p.den, |older|);
    var g, s := Weighted(older, gained, p.num, p.den), Weighted(older, scored, p.num, p.den);
    var h, t := Weighted(newer, gained, p.num, p.den), Weighted(newer, scored, p.num, p.den);
    FractionKept(a * g, a * s, b * h, b * t, Pow(p.num, |silent|), Pow(p.den, |silent|));
    PowPositive(p.num, |newer|);
    PowPositive(p.den, |older|);
    CommonFactors(a, b, g, s, h, t);
    if |silent| > 0 {
      PowSame(p.num, p.den, |silent|);
    }
  }

  lemma EqualFractions(g: int, s: int, h: int, t: int)
    requires s > 0 && t > 0 && g * t == h * s
    ensures g / s == h / t
  {
    DivCancel(t, g, s);
    DivCancel(s, h, t);
    assert t * g == g * t && s * h == h * s && t * s == s * t;
  }

  /** So the rounded score of an ordered history keeps whenever one of these holds. */
  lemma SilentMiddleKeepsScore(older: seq<Settlement>, silent: seq<Settlement>, newer: seq<Settlement>,
                               bidder: string, p: Params)
    requires p.num > 0 && p.den > 0 && p.bonus >= 0
    requires Silent(silent, bidder, p.bonus)
    requires silent == [] || p.num == p.den || SameFraction(older, newer, bidder, p)
    ensures ScoreOf(older + silent + newer, bidder, p) == ScoreOf(older + newer, bidder, p)
  {
    SilentMiddleKeepsFractionIff(older, silent, newer, bidder, p);
    var a, b := older + newer, older + silent + newer;
    WeightedBounds(a, bidder, p);
    WeightedBounds(b, bidder, p);
    var gained, scored := Gained(bidder, p.bonus), Scored(bidder, p.bonus);
    SilentAlike(older, silent, newer, bidder, p.bonus);
    var s, t := Weighted(a, scored, p.num, p.den), Weighted(b, scored, p.num, p.den);
    if s != 0 {
      EqualFractions(Weighted(a, gained, p.num, p.den), s, Weighted(b, gained, p.num, p.den), t);
    }
  }

  lemma SilentAlike(older: seq<Settlement>, silent: seq<Settlement>, newer: seq<Settlement>, bidder: string, bonus: int)
    requires Silent(silent, bidder, bonus)
    ensures Silent(older + newer, bidder, bonus) <==> Silent(older + silent + newer, bidder, bonus)
  {
    var a, b := older + newer, older + silent + newer;
    forall i | 0 <= i < |a| ensures exists j :: 0 <= j < |b| && b[j] == a[i] {
      assert b[if i < |older| then i else i + |silent|] == a[i];
    }
    forall j | 0 <= j < |b| ensures (exists i :: 0 <= i < |a| && a[i] == b[j]) || b[j] in silent {
      if j < |older| {
        assert a[j] == b[j];
      } else if j < |older| + |silent| {
        assert b[j] == silent[j - |older|];
      } else {
        assert a[j - |silent|] == b[j];
      }
    }
  }

  /** The weighted sums of two and of three settlements. */
  lemma WeightedOfThree(a: Settlement, m: Settlement, b: Settlement, value: Settlement -> int, num: int, den: int)
    ensures Weighted([a, b], value, num, den) == num * value(a) + value(b) * den
    ensures Weighted([a, m, b], value, num, den) == num * (num * value(a) + value(m) * den) + value(b) * (den * den)
  {
    assert [a, b][..1] == [a] && [a][..0] == [] && [a, m, b][..2] == [a, m] && [a, m][..1] == [a];
    assert Pow(den, 0) == 1 && Pow(den, 1) == den && Pow(den, 2) == den * den;
    assert Weighted([a], value, num, den) == num * 0 + value(a) * 1;
  }

  /** In between one can count: the same fraction is missing here, and the score moves. */
  lemma SilentMiddleCounts() returns (a: Settlement, m: Settlement, b: Settlement, p: Params)
    ensures Silent([m], "x", p.bonus) && SortedBy(RecencyLe, [a, m, b])
    ensures ScoreOf([a, b], "x", p) == 66 && ScoreOf([a, m, b], "x", p) == 80
  {
    p := Params(1, 2, 25);
    a := Settlement(1, "a", [Entry(Some("x"), Cost(Some("h"), IntVal(1)), Cost(Some("h"), IntVal(9)))], None);
    m := Settlement(2, "m", [], None);
    b := Settlement(3, "b", [Entry(Some("x"), Cost(Some("h"), IntVal(1)), Cost(Some("h"), IntVal(1)))], None);
    assert Accuracy(a, "x", 25) == Some(0) && Accuracy(b, "x", 25) == Some(100) && Accuracy(m, "x", 25) == None;
    WeightedOfThree(a, m, b, Gained("x", 25), 1, 2);
    WeightedOfThree(a, m, b, Scored("x", 25), 1, 2);
  }
}
