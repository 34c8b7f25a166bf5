/** Divisibility, `math.gcd`, `math.lcm` and integer powers. */
module Arithmetic {

  ghost predicate Divides(d: int, n: int) {
    exists k :: n == d * k
  }

  lemma DividesIntro(d: int, n: int, k: int)
    requires n == d * k
    ensures Divides(d, n)
  {
  }

  /** Euclid's algorithm, as in `math.gcd` on naturals. */
  function Gcd(a: nat, b: nat): nat
    decreases b
  {
    if b == 0 then a else Gcd(b, a % b)
  }

  lemma {:induction false} GcdDividesBoth(a: nat, b: nat)
    ensures Divides(Gcd(a, b), a) && Divides(Gcd(a, b), b)
    decreases b
  {
    if b == 0 {
      DividesIntro(a, a, 1);
      DividesIntro(a, 0, 0);
    } else {
      GcdDividesBoth(b, a % b);
      var g := Gcd(b, a % b);
      var k :| b == g * k;
      var l :| a % b == g * l;
      assert a == g * (k * (a / b) + l) by {
        assert a == b * (a / b) + a % b;
        assert g * k * (a / b) == g * (k * (a / b));
      }
      DividesIntro(g, a, k * (a / b) + l);
    }
  }

  /** Bezout's identity. */
  lemma {:induction false} Bezout(a: nat, b: nat) returns (s: int, t: int)
    ensures Gcd(a, b) == a * s + b * t
    decreases b
  {
    if b == 0 {
      s, t := 1, 0;
    } else {
      var s', t' := Bezout(b, a % b);
      var q := a / b;
      assert a % b == a - b * q;
      s, t := t', s' - q * t';
      assert b * s' + (a - b * q) * t' == a * t' + b * (s' - q * t') by {
        assert (a - b * q) * t' == a * t' - b * q * t';
        assert b * (s' - q * t') == b * s' - b * (q * t');
        assert b * q * t' == b * (q * t');
      }
    }
  }

  /** `lcm // gcd(lcm, value) * value`, the step both lcm folds take. */
  function Lcm(a: nat, b: nat): int
    requires a > 0 && b > 0
  {
    GcdPositive(a, b);
    a / Gcd(a, b) * b
  }

  lemma {:induction false} GcdPositive(a: nat, b: nat)
    requires a > 0 || b > 0
    ensures Gcd(a, b) > 0
    decreases b
  {
    if b > 0 {
      GcdPositive(b, a % b);
    }
  }

  lemma DivExact(n: int, d: int, k: int)
    requires d > 0 && n == d * k
    ensures n / d == k && n % d == 0
  {
    var q, r := n / d, n % d;
    assert n == d * q + r;
    assert d * (k - q) == r;
    Multiples(d, k - q);
  }

  /** A nonzero multiple of `d` is at least `d` away from zero. */
  lemma Multiples(d: int, k: int)
    requires d > 0
    ensures k >= 1 ==> d * k >= d
    ensures k <= 0 ==> d * k <= 0
    ensures k <= -1 ==> d * k <= -d
  {
  }

  lemma DividesIsMod(d: int, n: int)
    requires d > 0
    ensures Divides(d, n) <==> n % d == 0
    ensures Divides(d, n) ==> n == d * (n / d)
  {
    if Divides(d, n) {
      var k :| n == d * k;
      DivExact(n, d, k);
    }
    if n % d == 0 {
      assert n == d * (n / d);
    }
  }

  /** `Lcm` is a positive common multiple, and divides every common multiple. */
  lemma LcmProperties(a: nat, b: nat)
    requires a > 0 && b > 0
    ensures Lcm(a, b) > 0
    ensures Divides(a, Lcm(a, b)) && Divides(b, Lcm(a, b))
    ensures forall m :: Divides(a, m) && Divides(b, m) ==> Divides(Lcm(a, b), m)
  {
    var g := Gcd(a, b);
    GcdDividesBoth(a, b);
    GcdPositive(a, b);
    var x :| a == g * x;
    var y :| b == g * y;
    DivExact(a, g, x);
    PositiveFactor(g, x);
    PositiveFactor(g, y);
    var l := Lcm(a, b);
    assert l == x * b;
    PositiveProduct(x, b);
    DividesIntro(b, l, x) by { assert x * b == b * x; }
    DividesIntro(a, l, y) by { assert x * (g * y) == (g * x) * y; }
    var s, t := Bezout(a, b);
    forall m | Divides(a, m) && Divides(b, m) ensures Divides(l, m) {
      var p :| m == a * p;
      var q :| m == b * q;
      CommonMultiple(m, a, b, g, x, y, s, t, p, q);
    }
  }

  lemma LcmPositive(a: nat, b: nat)
    requires a > 0 && b > 0
    ensures Lcm(a, b) > 0
  {
    LcmProperties(a, b);
  }

  lemma PositiveFactor(g: int, x: int)
    requires g > 0 && g * x > 0
    ensures x > 0
  {
    Multiples(g, x);
  }

  lemma OneMore(x: int, k: int)
    ensures x * (k + 1) == x * k + x
  {
  }

  lemma Scale(k: int, x: int, y: int)
    requires k >= 0 && x <= y
    ensures k * x <= k * y
  {
  }

  lemma PositiveProduct(x: int, y: int)
    requires x > 0 && y > 0
    ensures x * y > 0
  {
  }

  lemma CommonMultiple(m: int, a: int, b: int, g: int, x: int, y: int, s: int, t: int, p: int, q: int)
    requires g > 0 && a == g * x && b == g * y && g == a * s + b * t
    requires m == a * p && m == b * q
    ensures Divides(x * b, m)
  {
    // g = g*(x*s + y*t), hence x*s + y*t = 1
    assert g * (x * s + y * t) == g by {
      assert (g * x) * s == g * (x * s);
      assert (g * y) * t == g * (y * t);
    }
    Cancel(g, x * s + y * t, 1);
    // m = m*(x*s) + m*(y*t) = (b*q)*(x*s) + (a*p)*(y*t) = x*b*(q*s + p*t)
    calc {
      m;
      m * (x * s + y * t);
      m * (x * s) + m * (y * t);
      (b * q) * (x * s) + (a * p) * (y * t);
      { assert (b * q) * (x * s) == (x * b) * (q * s); }
      { assert (a * p) * (y * t) == (x * b) * (p * t) by {
          assert (g * x * p) * (y * t) == (x * (g * y)) * (p * t);
        } }
      (x * b) * (q * s) + (x * b) * (p * t);
      (x * b) * (q * s + p * t);
    }
    DividesIntro(x * b, m, q * s + p * t);
  }

  lemma Cancel(g: int, u: int, v: int)
    requires g != 0 && g * u == g * v
    ensures u == v
  {
    assert g * (u - v) == 0;
  }

  lemma DividesTransitive(a: int, b: int, c: int)
    requires Divides(a, b) && Divides(b, c)
    ensures Divides(a, c)
  {
    var k :| b == a * k;
    var l :| c == b * l;
    assert (a * k) * l == a * (k * l);
    DividesIntro(a, c, k * l);
  }

  lemma DividesPositiveLe(d: int, n: int)
    requires d > 0 && n > 0 && Divides(d, n)
    ensures d <= n
  {
    var k :| n == d * k;
    PositiveFactor(d, k);
    assert d * k >= d * 1;
  }

  /** The least common multiple of a list of positive integers (1 for none). */
  function LcmAll(s: seq<int>): int
    requires forall i :: 0 <= i < |s| ==> s[i] > 0
    ensures LcmAll(s) > 0
  {
    if s == [] then 1
    else
      LcmPositive(LcmAll(s[..|s|-1]), s[|s|-1]);
      Lcm(LcmAll(s[..|s|-1]), s[|s|-1])
  }

  lemma {:induction false} LcmAllDivides(s: seq<int>)
    requires forall i :: 0 <= i < |s| ==> s[i] > 0
    ensures forall i :: 0 <= i < |s| ==> Divides(s[i], LcmAll(s))
    ensures forall m :: (forall i :: 0 <= i < |s| ==> Divides(s[i], m)) ==> Divides(LcmAll(s), m)
  {
    if s == [] {
      forall m: int ensures Divides(1, m) { DividesIntro(1, m, m); }
    } else {
      var n := |s| - 1;
      var l := LcmAll(s[..n]);
      LcmAllDivides(s[..n]);
      LcmProperties(l, s[n]);
      forall i | 0 <= i < |s| ensures Divides(s[i], LcmAll(s)) {
        if i < n {
          assert s[..n][i] == s[i];
          DividesTransitive(s[i], l, LcmAll(s));
        }
      }
      forall m | forall i :: 0 <= i < |s| ==> Divides(s[i], m) ensures Divides(LcmAll(s), m) {
        forall i | 0 <= i < n ensures Divides(s[..n][i], m) { assert s[..n][i] == s[i]; }
        assert Divides(s[n], m);
      }
    }
  }

  /** Two lists with the same members have the same least common multiple. */
  lemma LcmAllOfMembers(a: seq<int>, b: seq<int>)
    requires forall i :: 0 <= i < |a| ==> a[i] > 0
    requires forall i :: 0 <= i < |b| ==> b[i] > 0
    requires forall x :: x in a <==> x in b
    ensures LcmAll(a) == LcmAll(b)
  {
    LcmAllDivides(a);
    LcmAllDivides(b);
    forall i | 0 <= i < |a| ensures Divides(a[i], LcmAll(b)) {
      assert a[i] in b;
    }
    forall i | 0 <= i < |b| ensures Divides(b[i], LcmAll(a)) {
      assert b[i] in a;
    }
    DividesPositiveLe(LcmAll(a), LcmAll(b));
    DividesPositiveLe(LcmAll(b), LcmAll(a));
  }

  /** Python's `base ** e` for a natural exponent. */
  function Pow(base: int, e: nat): int {
    if e == 0 then 1 else base * Pow(base, e - 1)
  }

  lemma {:induction false} PowPositive(base: int, e: nat)
    requires base > 0
    ensures Pow(base, e) > 0
  {
    if e > 0 {
      PowPositive(base, e - 1);
      PositiveProduct(base, Pow(base, e - 1));
    }
  }

  lemma {:induction false} PowAdd(base: int, d: nat, e: nat)
    ensures Pow(base, d + e) == Pow(base, d) * Pow(base, e)
  {
    if d > 0 {
      PowAdd(base, d - 1, e);
      assert base * (Pow(base, d - 1) * Pow(base, e)) == (base * Pow(base, d - 1)) * Pow(base, e);
    }
  }

  lemma {:induction false} PowProduct(c: int, base: int, e: nat)
    ensures Pow(c * base, e) == Pow(c, e) * Pow(base, e)
  {
    if e > 0 {
      PowProduct(c, base, e - 1);
      Interchange(c, base, Pow(c, e - 1), Pow(base, e - 1));
    }
  }

  lemma Interchange(a: int, b: int, x: int, y: int)
    ensures (a * b) * (x * y) == (a * x) * (b * y)
  {
    assert (a * b) * (x * y) == a * (b * (x * y));
    assert b * (x * y) == x * (b * y);
  }

  /** A common positive factor cancels in a rounded quotient. */
  lemma DivCancel(c: int, x: int, y: int)
    requires c > 0 && y > 0
    ensures c * y > 0 && (c * x) / (c * y) == x / y
  {
    PositiveProduct(c, y);
    var q, r := x / y, x % y;
    assert x == y * q + r;
    assert c * x == (c * y) * q + c * r by {
      assert c * (y * q) == (c * y) * q;
    }
    assert 0 <= c * r < c * y;
    QuotientUnique(c * x, c * y, q, c * r);
  }

  lemma QuotientUnique(n: int, d: int, q: int, r: int)
    requires d > 0 && n == d * q + r && 0 <= r < d
    ensures n / d == q && n % d == r
  {
    DivExact(n - r, d, q);
    var q', r' := n / d, n % d;
    assert n == d * q' + r';
    assert d * (q - q') == r' - r;
    Multiples(d, q - q');
  }
}
