/** What a reputation score says of the settlements' own fields. */
module ReputationMeaning {
  import opened Prelude
  import opened Ordering
  import opened Arithmetic
  import opened Reputation

  // ---- the accuracy of one settlement

  /** A cost of so many units, as an integer or as a float of that value. */
  predicate Costs(c: Cost, unit: string, n: int) {
    c == Cost(Some(unit), IntVal(n)) || c == Cost(Some(unit), FloatVal(n as real))
  }

  /** The bidder's entry: the first under its name. */
  ghost predicate FirstEntry(settles: seq<Entry>, bidder: string, e: Entry) {
    exists i :: 0 <= i < |settles| && settles[i] == e && e.actor == Some(bidder)
                && forall j :: 0 <= j < i ==> settles[j].actor != Some(bidder)
  }

  ghost predicate NoEntry(settles: seq<Entry>, bidder: string) {
    forall e :: e in settles ==> e.actor != Some(bidder)
  }

  /** Estimate and outcome in one unit, whole numbers, with a positive estimate. */
  ghost predicate Comparable(e: Entry, estimated: int, actual: int) {
    estimated > 0 && exists unit :: Costs(e.estimated, unit, estimated) && Costs(e.actual, unit, actual)
  }

  predicate IsVindicated(s: Settlement, bidder: string) {
    match s.vindicated
    case Some(names) => bidder in names
    case None => false
  }

  lemma {:induction false} EntryForMeans(settles: seq<Entry>, bidder: string)
    ensures match EntryFor(settles, bidder)
            case Some(e) => FirstEntry(settles, bidder, e)
            case None => NoEntry(settles, bidder)
  {
    if settles != [] && settles[0].actor != Some(bidder) {
      EntryForMeans(settles[1..], bidder);
      var tail := settles[1..];
      assert settles == [settles[0]] + tail;
      if EntryFor(tail, bidder).Some? {
        var e := EntryFor(tail, bidder).value;
        var i :| 0 <= i < |tail| && tail[i] == e && e.actor == Some(bidder)
                 && forall j :: 0 <= j < i ==> tail[j].actor != Some(bidder);
        assert settles[i + 1] == e;
        assert forall j :: 0 < j < i + 1 ==> settles[j] == tail[j - 1];
      }
    }
  }

  lemma OneFirstEntry(settles: seq<Entry>, bidder: string, e: Entry)
    requires FirstEntry(settles, bidder, e)
    ensures EntryFor(settles, bidder) == Some(e)
  {
    EntryForMeans(settles, bidder);
    var i :| 0 <= i < |settles| && settles[i] == e && e.actor == Some(bidder)
             && forall j :: 0 <= j < i ==> settles[j].actor != Some(bidder);
    assert e in settles;
    var f := EntryFor(settles, bidder).value;
    var k :| 0 <= k < |settles| && settles[k] == f && f.actor == Some(bidder)
             && forall j :: 0 <= j < k ==> settles[j].actor != Some(bidder);
    assert k == i;
  }

  lemma CostsAreUsable(c: Cost, unit: string, n: int)
    ensures Costs(c, unit, n) <==> UsableCost(c) == Usable(unit, n)
  {
    if c.Cost? && c.amount.FloatVal? && c.amount == FloatVal(n as real) {
      assert c.amount.r.Floor == n;
    }
  }

  ghost function Distance(x: int, y: int): int {
    if x >= y then x - y else y - x
  }

  /** A comparable entry gives the bidder 100 less the divergence in whole percent of the estimate, not
      below zero, and the bonus on top when its dissent was vindicated. */
  lemma AccuracyMeans(s: Settlement, bidder: string, bonus: int, e: Entry, estimated: int, actual: int)
    requires FirstEntry(s.settles, bidder, e) && Comparable(e, estimated, actual)
    ensures Accuracy(s, bidder, bonus).Some?
    ensures var base := Accuracy(s, bidder, bonus).value - if IsVindicated(s, bidder) then bonus else 0;
            && 0 <= base <= 100
            && (base == 0 ==> 100 * Distance(actual, estimated) >= 100 * estimated)
            && (base > 0 ==> && (100 - base) * estimated <= 100 * Distance(actual, estimated)
                             && 100 * Distance(actual, estimated) < (100 - base + 1) * estimated)
  {
    OneFirstEntry(s.settles, bidder, e);
    var unit :| Costs(e.estimated, unit, estimated) && Costs(e.actual, unit, actual);
    CostsAreUsable(e.estimated, unit, estimated);
    CostsAreUsable(e.actual, unit, actual);
    var gap := Distance(actual, estimated);
    assert Abs(actual - estimated) == gap;
    PercentMeans(100 * gap, estimated);
    HundredPercent(100 * gap, estimated);
  }

  lemma PercentMeans(n: int, d: int)
    requires n >= 0 && d > 0
    ensures n / d >= 0 && (n / d) * d <= n < (n / d + 1) * d
  {
    QuotientNonNegative(n, d);
    var q, r := n / d, n % d;
    assert n == d * q + r;
    assert (q + 1) * d == q * d + d;
  }

  lemma HundredPercent(n: int, d: int)
    requires n >= 0 && d > 0
    ensures n / d >= 100 ==> n >= 100 * d
  {
    PercentMeans(n, d);
    if n / d >= 100 {
      Scale(d, 100, n / d);
    }
  }

  /** Without a comparable entry the bidder scores 100 when vindicated, and nothing otherwise. */
  lemma OtherwiseMeans(s: Settlement, bidder: string, bonus: int)
    requires forall e, estimated, actual :: FirstEntry(s.settles, bidder, e) ==> !Comparable(e, estimated, actual)
    ensures Accuracy(s, bidder, bonus) == if IsVindicated(s, bidder) then Some(100) else None
  {
    EntryForMeans(s.settles, bidder);
    var found := EntryFor(s.settles, bidder);
    if found.Some? {
      UsableMeans(found.value);
    }
  }

  lemma UsableMeans(e: Entry)
    ensures (exists estimated, actual :: Comparable(e, estimated, actual)) <==>
              var x, y := UsableCost(e.estimated), UsableCost(e.actual);
              x.Usable? && y.Usable? && x.unit == y.unit && x.amount > 0
  {
    var x, y := UsableCost(e.estimated), UsableCost(e.actual);
    if x.Usable? && y.Usable? && x.unit == y.unit && x.amount > 0 {
      CostsAreUsable(e.estimated, x.unit, x.amount);
      CostsAreUsable(e.actual, x.unit, y.amount);
      assert Comparable(e, x.amount, y.amount);
    }
    if estimated, actual :| Comparable(e, estimated, actual) {
      var unit :| Costs(e.estimated, unit, estimated) && Costs(e.actual, unit, actual);
      CostsAreUsable(e.estimated, unit, estimated);
      CostsAreUsable(e.actual, unit, actual);
    }
  }

  // ---- recency

  /** Oldest first: by instant, and by digest within one. */
  ghost predicate OldestFirst(s: seq<Settlement>) {
    forall i, j :: 0 <= i < j < |s| ==>
      s[i].published < s[j].published || (s[i].published == s[j].published && StrLe(s[i].digest, s[j].digest))
  }

  lemma OldestFirstIsSorted(s: seq<Settlement>)
    requires OldestFirst(s)
    ensures SortedBy(RecencyLe, s)
  {
  }

  /** The explicit sum: each settlement weighs `num` for every newer one and `den` for every older. */
  ghost function WeighedSum(s: seq<Settlement>, value: Settlement -> int, num: int, den: int, upTo: nat): int
    requires upTo <= |s|
  {
    if upTo == 0 then 0
    else
      var i := upTo - 1;
      WeighedSum(s, value, num, den, i) + value(s[i]) * (Pow(num, |s| - 1 - i) * Pow(den, i))
  }

  lemma {:induction false} WeighedIsWeighted(s: seq<Settlement>, value: Settlement -> int, num: int, den: int,
                                             upTo: nat)
    requires upTo <= |s|
    ensures WeighedSum(s, value, num, den, upTo) == Pow(num, |s| - upTo) * Weighted(s[..upTo], value, num, den)
  {
    if upTo > 0 {
      var i := upTo - 1;
      WeighedIsWeighted(s, value, num, den, i);
      HornerStep(s, i, value, num, den, Pow(num, |s| - 1 - i) * Pow(den, i));
    }
  }

  ghost function Points(bidder: string, bonus: int): Settlement -> int {
    (s: Settlement) => match Accuracy(s, bidder, bonus) case Some(a) => a case None => 0
  }

  ghost function Scores(bidder: string, bonus: int): Settlement -> int {
    (s: Settlement) => match Accuracy(s, bidder, bonus) case Some(_) => 1 case None => 0
  }

  lemma {:induction false} WeighedAgrees(s: seq<Settlement>, f: Settlement -> int, g: Settlement -> int, num: int,
                                         den: int, upTo: nat)
    requires upTo <= |s| && forall i :: 0 <= i < |s| ==> f(s[i]) == g(s[i])
    ensures WeighedSum(s, f, num, den, upTo) == WeighedSum(s, g, num, den, upTo)
  {
    if upTo > 0 {
      WeighedAgrees(s, f, g, num, den, upTo - 1);
    }
  }

  /** A snapshot's score: its settlements oldest first, each accuracy weighed by how many are newer and
      older, over the weights of those that score the bidder; 50 when none does. */
  lemma ScoreMeans(given: seq<Settlement>, s: seq<Settlement>, bidder: string, p: Params)
    requires p.num > 0 && p.den > 0 && p.bonus >= 0 && CollisionFree(given)
    requires multiset(s) == multiset(given) && OldestFirst(s)
    ensures var top := WeighedSum(s, Points(bidder, p.bonus), p.num, p.den, |s|);
            var weight := WeighedSum(s, Scores(bidder, p.bonus), p.num, p.den, |s|);
            && weight >= 0
            && (weight == 0 ==> Score(given, bidder, p) == 50)
            && (weight > 0 ==> && Score(given, bidder, p) * weight <= top < (Score(given, bidder, p) + 1) * weight)
  {
    SameMembers(s, given);
    OldestFirstIsSorted(s);
    AlreadySorted(s);
    ScoreForgetsOrder(given, s, bidder, p);
    SumsMean(s, bidder, p);
    WeightedBounds(s, bidder, p);
    var top := Weighted(s, Gained(bidder, p.bonus), p.num, p.den);
    var weight := Weighted(s, Scored(bidder, p.bonus), p.num, p.den);
    if weight > 0 {
      PercentMeans(top, weight);
    }
  }

  lemma SumsMean(s: seq<Settlement>, bidder: string, p: Params)
    ensures WeighedSum(s, Points(bidder, p.bonus), p.num, p.den, |s|)
        == Weighted(s, Gained(bidder, p.bonus), p.num, p.den)
    ensures WeighedSum(s, Scores(bidder, p.bonus), p.num, p.den, |s|)
        == Weighted(s, Scored(bidder, p.bonus), p.num, p.den)
  {
    SumMeans(s, Points(bidder, p.bonus), Gained(bidder, p.bonus), p.num, p.den);
    SumMeans(s, Scores(bidder, p.bonus), Scored(bidder, p.bonus), p.num, p.den);
  }

  lemma SumMeans(s: seq<Settlement>, f: Settlement -> int, g: Settlement -> int, num: int, den: int)
    requires forall x :: f(x) == g(x)
    ensures WeighedSum(s, f, num, den, |s|) == Weighted(s, g, num, den)
  {
    assert s[..|s|] == s;
    WeighedAgrees(s, f, g, num, den, |s|);
    WeighedIsWeighted(s, g, num, den, |s|);
  }

  /** Of two settlements that score a bidder the later one weighs `den` where the earlier weighs `num`. */
  lemma LaterWeighsMore(a: Settlement, b: Settlement, bidder: string, p: Params)
    requires p.num > 0 && p.den > 0 && p.bonus >= 0
    requires a.published < b.published && a.digest != b.digest
    requires Accuracy(a, bidder, p.bonus).Some? && Accuracy(b, bidder, p.bonus).Some?
    ensures var top := p.num * Accuracy(a, bidder, p.bonus).value + p.den * Accuracy(b, bidder, p.bonus).value;
            Score([a, b], bidder, p) == Score([b, a], bidder, p) == top / (p.num + p.den)
  {
    TwoInEitherOrder(a, b, bidder, p);
    TwoWeighted(a, b, Gained(bidder, p.bonus), p.num, p.den);
    TwoWeighted(a, b, Scored(bidder, p.bonus), p.num, p.den);
  }

  lemma TwoInEitherOrder(a: Settlement, b: Settlement, bidder: string, p: Params)
    requires a.published < b.published && a.digest != b.digest
    ensures Score([a, b], bidder, p) == Score([b, a], bidder, p) == ScoreOf([a, b], bidder, p)
  {
    var s, t := [a, b], [b, a];
    assert multiset(s) == multiset{a, b} && multiset(t) == multiset{a, b};
    AlreadySorted(s);
    ScoreForgetsOrder(s, t, bidder, p);
  }

  lemma TwoWeighted(a: Settlement, b: Settlement, value: Settlement -> int, num: int, den: int)
    ensures Weighted([a, b], value, num, den) == num * value(a) + den * value(b)
  {
    WeightedOfThree(a, a, b, value, num, den);
  }
}
