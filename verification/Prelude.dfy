/** Shared value types: optional fields and the scalars a JSON document can carry. */
module Prelude {

  /** A field that may be absent (Python's `None`). */
  datatype Option<+T> = None | Some(value: T)

  /** A JSON scalar as the verifier's type guards see it.  Python's `bool` is a
      subclass of `int`, so the guards tell the two apart explicitly. */
  datatype Scalar =
    | IntVal(n: int)
    | FloatVal(r: real)
    | BoolVal(b: bool)
    | NoNumber

  /** An integer, or a float with an integer value; never a boolean. */
  function WholeNumber(s: Scalar): Option<int> {
    match s
    case IntVal(n) => Some(n)
    case FloatVal(r) => if r.Floor as real == r then Some(r.Floor) else None
    case BoolVal(_) => None
    case NoNumber => None
  }

  /** Python's `//`: the quotient rounded towards minus infinity. */
  function FloorDiv(a: int, b: int): int
    requires b != 0
  {
    if b > 0 then a / b else (-a) / (-b)
  }

  /** The only quotient whose remainder is zero or has the divisor's sign and is smaller than it. */
  lemma FloorDivMeans(a: int, b: int, q: int)
    requires b != 0
    ensures q == FloorDiv(a, b) <==> if b > 0 then 0 <= a - q * b < b else b < a - q * b <= 0
  {
    if b > 0 {
      EuclidUnique(a, b, q);
    } else {
      EuclidUnique(-a, -b, q);
      assert -a - q * -b == -(a - q * b);
    }
  }

  lemma EuclidUnique(a: int, b: int, q: int)
    requires b > 0
    ensures q == a / b <==> 0 <= a - q * b < b
  {
    var p := a / b;
    assert a == p * b + a % b;
    var gap := p - q;
    assert a - q * b == gap * b + a % b;
    if gap >= 1 {
      assert gap * b >= b;
    } else if gap <= -1 {
      assert gap * b <= -b;
    }
  }

  /** The list comprehension `[x for x in s if p(x)]`. */
  function Filter<T>(p: T -> bool, s: seq<T>): seq<T> {
    if s == [] then []
    else
      var k := |s| - 1;
      Filter(p, s[..k]) + if p(s[k]) then [s[k]] else []
  }

  lemma {:induction false} FilterMembers<T>(p: T -> bool, s: seq<T>)
    ensures forall x :: x in Filter(p, s) <==> x in s && p(x)
  {
    if s != [] {
      var k := |s| - 1;
      FilterMembers(p, s[..k]);
      assert s == s[..k] + [s[k]];
    }
  }

  lemma {:induction false} FilterConcat<T>(p: T -> bool, a: seq<T>, b: seq<T>)
    ensures Filter(p, a + b) == Filter(p, a) + Filter(p, b)
  {
    if b == [] {
      assert a + b == a;
    } else {
      assert (a + b)[..|a + b| - 1] == a + b[..|b|-1];
      FilterConcat(p, a, b[..|b|-1]);
    }
  }

  lemma ConcatAssociates<T>(a: seq<T>, b: seq<T>, c: seq<T>)
    ensures a + (b + c) == (a + b) + c
  {
  }

  lemma {:induction false} FilterNone<T>(p: T -> bool, s: seq<T>)
    requires forall x :: x in s ==> !p(x)
    ensures Filter(p, s) == []
  {
    if s != [] {
      FilterNone(p, s[..|s|-1]);
    }
  }

  /** `",".join(parts)`. */
  function Joined(parts: seq<string>): string {
    if parts == [] then ""
    else if |parts| == 1 then parts[0]
    else parts[0] + "," + Joined(parts[1..])
  }
}
