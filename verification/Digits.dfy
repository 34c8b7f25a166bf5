/** Positional numerals, most significant digit first. */
module Digits {
  import opened Arithmetic

  predicate AreDigits(ds: seq<int>, base: int) {
    forall i :: 0 <= i < |ds| ==> 0 <= ds[i] < base
  }

  function Value(ds: seq<int>, base: int): int {
    if ds == [] then 0
    else
      var k := |ds| - 1;
      Value(ds[..k], base) * base + ds[k]
  }

  /** The shortest numeral of a number; zero has none. */
  function Numeral(n: nat, base: int): seq<int>
    requires base >= 2
    decreases n
  {
    if n == 0 then []
    else
      Shrinks(n, base);
      Numeral(n / base, base) + [n % base]
  }

  lemma QuotientBetween(n: int, base: int, q: int, r: int)
    requires n > 0 && base >= 2 && n == base * q + r && 0 <= r < base
    ensures 0 <= q < n
  {
    if q < 0 {
      Scale(base, q, -1);
    } else if q >= n {
      Scale(base, n, q);
      Scale(n, 2, base);
    }
  }

  lemma Shrinks(n: int, base: int)
    requires n > 0 && base >= 2
    ensures 0 <= n / base < n && n == (n / base) * base + n % base
  {
    QuotientBetween(n, base, n / base, n % base);
  }

  function Zeros(k: nat): seq<int> {
    seq(k, _ => 0)
  }

  lemma {:induction false} NumeralDigits(n: nat, base: int)
    requires base >= 2
    ensures AreDigits(Numeral(n, base), base)
    decreases n
  {
    if n > 0 {
      Shrinks(n, base);
      NumeralDigits(n / base, base);
    }
  }

  /** A numeral has the value it was made from. */
  lemma {:induction false} ValueOfNumeral(n: nat, base: int)
    requires base >= 2
    ensures Value(Numeral(n, base), base) == n
    decreases n
  {
    if n > 0 {
      Shrinks(n, base);
      var front := Numeral(n / base, base);
      ValueOfNumeral(n / base, base);
      assert (front + [n % base])[..|front|] == front;
    }
  }

  /** A numeral does not start with the digit zero. */
  lemma {:induction false} NumeralLead(n: nat, base: int)
    requires base >= 2 && n > 0
    ensures Numeral(n, base) != [] && Numeral(n, base)[0] != 0
    decreases n
  {
    Shrinks(n, base);
    if n / base > 0 {
      NumeralLead(n / base, base);
    }
  }

  lemma QuotientOfDigit(v: int, d: int, base: int)
    requires base >= 2 && v >= 0 && 0 <= d < base
    ensures (v * base + d) / base == v && (v * base + d) % base == d
    ensures v * base + d >= 0 && (v * base + d == 0 <==> v == 0 && d == 0)
  {
    var n := v * base + d;
    if v > 0 {
      PositiveProduct(v, base);
    }
    QuotientUnique(n, base, v, d);
  }

  lemma {:induction false} ValueSign(ds: seq<int>, base: int)
    requires base >= 2 && AreDigits(ds, base)
    ensures Value(ds, base) >= 0
    ensures ds != [] && ds[0] != 0 ==> Value(ds, base) > 0
  {
    if ds != [] {
      var k := |ds| - 1;
      ValueSign(ds[..k], base);
      QuotientOfDigit(Value(ds[..k], base), ds[k], base);
    }
  }

  lemma NumeralStep(v: nat, d: int, base: int)
    requires base >= 2 && 0 <= d < base && (v > 0 || d > 0)
    ensures v * base + d > 0 && Numeral(v * base + d, base) == Numeral(v, base) + [d]
  {
    QuotientOfDigit(v, d, base);
  }

  /** Digits without a leading zero are the numeral of their value. */
  lemma {:induction false} NumeralOfValue(ds: seq<int>, base: int)
    requires base >= 2 && AreDigits(ds, base)
    ensures Value(ds, base) >= 0
    ensures ds == [] || ds[0] != 0 ==> Numeral(Value(ds, base), base) == ds
  {
    ValueSign(ds, base);
    if ds != [] && ds[0] != 0 {
      var k := |ds| - 1;
      ValueSign(ds[..k], base);
      NumeralOfValue(ds[..k], base);
      NumeralStep(Value(ds[..k], base), ds[k], base);
      assert ds == ds[..k] + [ds[k]];
    }
  }

  lemma {:induction false} LeadingZeros(k: nat, ds: seq<int>, base: int)
    ensures Value(Zeros(k) + ds, base) == Value(ds, base)
    decreases k, |ds|
  {
    var all := Zeros(k) + ds;
    if ds != [] {
      assert all[..|all| - 1] == Zeros(k) + ds[..|ds| - 1];
      LeadingZeros(k, ds[..|ds| - 1], base);
    } else if k > 0 {
      assert all[..k - 1] == Zeros(k - 1) + [];
      LeadingZeros(k - 1, [], base);
    } else {
      assert all == [];
    }
  }

  /** How many leading zeros a digit string has. */
  function ZeroCount(ds: seq<int>): nat {
    if ds == [] || ds[0] != 0 then 0 else 1 + ZeroCount(ds[1..])
  }

  lemma ZeroInFront(ds: seq<int>, base: int)
    requires ds != [] && ds[0] == 0
    ensures Value(ds, base) == Value(ds[1..], base)
  {
    LeadingZeros(1, ds[1..], base);
    assert ds == Zeros(1) + ds[1..];
  }

  lemma OneMoreZero(z: nat, rest: seq<int>)
    ensures Zeros(z + 1) + rest == [0] + (Zeros(z) + rest)
  {
  }

  /** Any digit string splits into its leading zeros and the numeral of its value. */
  lemma {:induction false} SplitZeros(ds: seq<int>, base: int)
    requires base >= 2 && AreDigits(ds, base)
    ensures Value(ds, base) >= 0 && ds == Zeros(ZeroCount(ds)) + Numeral(Value(ds, base), base)
  {
    if ds == [] || ds[0] != 0 {
      NumeralOfValue(ds, base);
      assert Zeros(0) + ds == ds;
    } else {
      SplitZeros(ds[1..], base);
      ZeroInFront(ds, base);
      OneMoreZero(ZeroCount(ds[1..]), Numeral(Value(ds, base), base));
      assert ds == [0] + ds[1..];
    }
  }

  lemma {:induction false} ZeroCountOf(k: nat, n: nat, base: int)
    requires base >= 2
    ensures ZeroCount(Zeros(k) + Numeral(n, base)) == k
  {
    var ds := Zeros(k) + Numeral(n, base);
    if k > 0 {
      assert ds[0] == 0 && ds[1..] == Zeros(k - 1) + Numeral(n, base);
      ZeroCountOf(k - 1, n, base);
    } else {
      assert ds == Numeral(n, base);
      if n > 0 {
        NumeralLead(n, base);
      }
    }
  }
}
