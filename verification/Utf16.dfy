/** UTF-16 code units and their big-endian bytes: the member order of RFC 8785, section 3.2.3. */
module Utf16 {
  import opened Ordering

  /** One code unit below U+10000, a surrogate pair from there on. */
  function UnitsOf(c: char): seq<int> {
    var n := c as int;
    if n < 0x10000 then [n] else [0xD800 + (n - 0x10000) / 0x400, 0xDC00 + (n - 0x10000) % 0x400]
  }

  function Units(s: string): seq<int> {
    if s == "" then [] else UnitsOf(s[0]) + Units(s[1..])
  }

  /** Each unit as two bytes, the high one first. */
  function BigEndian(units: seq<int>): seq<int> {
    if units == [] then [] else [units[0] / 0x100, units[0] % 0x100] + BigEndian(units[1..])
  }

  /** The key members are sorted by: the bytes of the name in big-endian UTF-16. */
  function SortKey(name: string): seq<int> {
    BigEndian(Units(name))
  }

  predicate AreUnits(units: seq<int>) {
    forall i :: 0 <= i < |units| ==> 0 <= units[i] < 0x10000
  }

  lemma {:induction false} UnitsAreUnits(s: string)
    ensures AreUnits(Units(s))
  {
    if s != "" {
      UnitsAreUnits(s[1..]);
    }
  }

  /** Comparing bytes is comparing code units. */
  lemma {:induction false} ByteOrderIsUnitOrder(a: seq<int>, b: seq<int>)
    requires AreUnits(a) && AreUnits(b)
    ensures LexLe(BigEndian(a), BigEndian(b)) <==> LexLe(a, b)
  {
    if a != [] && b != [] {
      ByteOrderIsUnitOrder(a[1..], b[1..]);
      PairOrder(a[0], b[0], BigEndian(a[1..]), BigEndian(b[1..]));
    }
  }

  lemma PairOrder(x: int, y: int, a: seq<int>, b: seq<int>)
    requires 0 <= x < 0x10000 && 0 <= y < 0x10000
    ensures LexLe([x / 0x100, x % 0x100] + a, [y / 0x100, y % 0x100] + b)
            <==> x < y || (x == y && LexLe(a, b))
  {
    var p, q := [x / 0x100, x % 0x100] + a, [y / 0x100, y % 0x100] + b;
    assert p[1..][1..] == a && q[1..][1..] == b;
    assert p[1..][0] == x % 0x100 && q[1..][0] == y % 0x100;
    assert x == x / 0x100 * 0x100 + x % 0x100 && y == y / 0x100 * 0x100 + y % 0x100;
  }

  lemma {:induction false} BigEndianInjective(a: seq<int>, b: seq<int>)
    requires BigEndian(a) == BigEndian(b)
    ensures a == b
  {
    if a != [] && b != [] {
      var p, q := BigEndian(a), BigEndian(b);
      assert p[0] == q[0] && p[1] == q[1] && p[2..] == q[2..];
      assert p[2..] == BigEndian(a[1..]) && q[2..] == BigEndian(b[1..]);
      BigEndianInjective(a[1..], b[1..]);
      assert a == [a[0]] + a[1..] && b == [b[0]] + b[1..];
    }
  }

  /** No character's units start another character's units. */
  lemma UnitsArePrefixFree(c: char, d: char, s: seq<int>, t: seq<int>)
    requires UnitsOf(c) + s == UnitsOf(d) + t
    ensures c == d && s == t
  {
    var p, q := UnitsOf(c) + s, UnitsOf(d) + t;
    assert p[0] == q[0];
    assert |UnitsOf(c)| == |UnitsOf(d)|;
    assert p[|UnitsOf(c)|..] == s && q[|UnitsOf(d)|..] == t;
    if c as int >= 0x10000 {
      assert p[1] == q[1];
      assert c as int == 0x10000 + (p[0] - 0xD800) * 0x400 + (p[1] - 0xDC00);
    }
    assert c as int == d as int;
  }

  lemma {:induction false} UnitsInjective(a: string, b: string)
    requires Units(a) == Units(b)
    ensures a == b
  {
    if a != "" && b != "" {
      UnitsArePrefixFree(a[0], b[0], Units(a[1..]), Units(b[1..]));
      UnitsInjective(a[1..], b[1..]);
      assert a == [a[0]] + a[1..] && b == [b[0]] + b[1..];
    }
  }

  /** Two names have the same sort key only when they are the same name. */
  lemma SortKeyInjective(a: string, b: string)
    requires SortKey(a) == SortKey(b)
    ensures a == b
  {
    BigEndianInjective(Units(a), Units(b));
    UnitsInjective(a, b);
  }

  /** The order of names: sorting by the encoded bytes is sorting by UTF-16 code units. */
  lemma KeyOrderIsUnitOrder(a: string, b: string)
    ensures LexLe(SortKey(a), SortKey(b)) <==> LexLe(Units(a), Units(b))
  {
    UnitsAreUnits(a);
    UnitsAreUnits(b);
    ByteOrderIsUnitOrder(Units(a), Units(b));
  }

  /** It is not the order of code points: a supplementary character sorts below U+FF21. */
  lemma NotCodePointOrder() returns (wide: string, narrow: string)
    ensures StrLe(narrow, wide) && !StrLe(wide, narrow)
    ensures LexLe(SortKey(wide), SortKey(narrow)) && !LexLe(SortKey(narrow), SortKey(wide))
  {
    wide, narrow := "\U{10000}", "\U{FF21}";
    assert wide[0] as int == 0x10000 && narrow[0] as int == 0xFF21;
    assert CodePoints(wide)[0] == 0x10000 && CodePoints(narrow)[0] == 0xFF21;
    KeyOrderIsUnitOrder(wide, narrow);
    KeyOrderIsUnitOrder(narrow, wide);
    assert Units(wide)[0] == 0xD800 && Units(narrow)[0] == 0xFF21;
  }
}
