/** Canonical JSON, RFC 8785 as restricted by the protocol: integers only. */
module Jcs {
  import opened Prelude
  import opened Ordering
  import opened Digits
  import opened Utf16

  /** Objects list their members in insertion order. */
  datatype Json =
    | Null
    | Bool(b: bool)
    | Num(n: Number)
    | Str(s: string)
    | Arr(items: seq<Json>)
    | Obj(members: seq<Member>)

  datatype Member = Member(name: string, value: Json)

  datatype Number = Int(n: int) | Float(r: real) | NotFinite

  /** The integer a number stands for, if it stands for one. */
  function Integer(n: Number): Option<int> {
    match n
    case Int(k) => Some(k)
    case Float(r) => if r.Floor as real == r then Some(r.Floor) else None
    case NotFinite => None
  }

  // ---- scalars

  function HexDigit(d: int): char
    requires 0 <= d < 16
  {
    if d < 10 then (48 + d) as char else (87 + d) as char
  }

  function Hex4(n: int): string
    requires 0 <= n < 0x10000
  {
    [HexDigit(n / 0x1000), HexDigit(n / 0x100 % 0x10), HexDigit(n / 0x10 % 0x10), HexDigit(n % 0x10)]
  }

  function Escape(c: char): string {
    if c == '\"' then "\\\""
    else if c == '\\' then "\\\\"
    else if c == '\U{8}' then "\\b"
    else if c == '\U{C}' then "\\f"
    else if c == '\n' then "\\n"
    else if c == '\r' then "\\r"
    else if c == '\t' then "\\t"
    else if c as int < 0x20 then "\\u" + Hex4(c as int)
    else [c]
  }

  function EscapeAll(s: string): string {
    if s == "" then "" else Escape(s[0]) + EscapeAll(s[1..])
  }

  function Quoted(s: string): string {
    "\"" + EscapeAll(s) + "\""
  }

  lemma {:induction false} EscapeConcat(a: string, b: string)
    ensures EscapeAll(a + b) == EscapeAll(a) + EscapeAll(b)
  {
    if a == "" {
      assert a + b == b;
    } else {
      assert (a + b)[1..] == a[1..] + b;
      EscapeConcat(a[1..], b);
    }
  }

  lemma EscapeOneMore(s: string, i: nat)
    requires i < |s|
    ensures EscapeAll(s[..i + 1]) == EscapeAll(s[..i]) + Escape(s[i])
  {
    var last := [s[i]];
    assert s[..i + 1] == s[..i] + last;
    EscapeConcat(s[..i], last);
    assert last[1..] == "" && EscapeAll(last) == Escape(s[i]) + "";
  }

  method SerializeString(value: string) returns (text: string)
    ensures text == Quoted(value)
  {
    text := "\"";
    for i := 0 to |value|
      invariant text == "\"" + EscapeAll(value[..i])
    {
      EscapeOneMore(value, i);
      ConcatAssociates("\"", EscapeAll(value[..i]), Escape(value[i]));
      text := text + Escape(value[i]);
    }
    assert value[..|value|] == value;
    text := text + "\"";
  }

  function DigitChar(d: int): char
    requires 0 <= d < 10
  {
    (48 + d) as char
  }

  function DigitChars(ds: seq<int>): string
    requires AreDigits(ds, 10)
  {
    seq(|ds|, i requires 0 <= i < |ds| => DigitChar(ds[i]))
  }

  /** Python's `str` on a number that is not negative. */
  function Natural(n: nat): string {
    if n == 0 then "0"
    else
      NumeralDigits(n, 10);
      DigitChars(Numeral(n, 10))
  }

  function Decimal(n: int): string {
    if n < 0 then "-" + Natural(-n) else Natural(n)
  }

  function SerializeNumber(n: Number): Option<string> {
    match Integer(n)
    case Some(k) => Some(Decimal(k))
    case None => None
  }

  // ---- documents

  function Max(a: nat, b: nat): nat {
    if a < b then b else a
  }

  function Depth(v: Json): nat
    decreases v
  {
    match v
    case Arr(items) => 1 + DepthOfItems(items)
    case Obj(members) => 1 + DepthOfMembers(members)
    case _ => 0
  }

  function DepthOfItems(items: seq<Json>): nat
    decreases items
  {
    if items == [] then 0 else Max(Depth(items[0]), DepthOfItems(items[1..]))
  }

  function DepthOfMembers(members: seq<Member>): nat
    decreases members
  {
    if members == [] then 0 else Max(Depth(members[0].value), DepthOfMembers(members[1..]))
  }

  lemma {:induction false} DepthOfItem(items: seq<Json>, v: Json)
    requires v in items
    ensures Depth(v) <= DepthOfItems(items)
  {
    if v != items[0] {
      assert v in items[1..];
      DepthOfItem(items[1..], v);
    }
  }

  lemma {:induction false} DepthOfMember(members: seq<Member>, m: Member)
    requires m in members
    ensures Depth(m.value) <= DepthOfMembers(members)
  {
    if m != members[0] {
      assert m in members[1..];
      DepthOfMember(members[1..], m);
    }
  }

  predicate NameLe(a: Member, b: Member) {
    LexLe(SortKey(a.name), SortKey(b.name))
  }

  lemma NamePreorder()
    ensures TotalPreorder(NameLe)
  {
    forall a: Member, b: Member ensures NameLe(a, b) || NameLe(b, a) {
      LexLeTotal(SortKey(a.name), SortKey(b.name));
    }
    forall a: Member, b: Member, c: Member | NameLe(a, b) && NameLe(b, c) ensures NameLe(a, c) {
      LexLeTransitive(SortKey(a.name), SortKey(b.name), SortKey(c.name));
    }
  }

  lemma SortedMembersAreShallow(members: seq<Member>)
    ensures forall m :: m in Sort(NameLe, members) ==> Depth(m.value) <= DepthOfMembers(members)
  {
    NamePreorder();
    SortProperties(NameLe, members);
    forall m | m in Sort(NameLe, members) ensures Depth(m.value) <= DepthOfMembers(members) {
      DepthOfMember(members, m);
    }
  }

  lemma ItemsAreShallow(items: seq<Json>)
    ensures forall v :: v in items ==> Depth(v) <= DepthOfItems(items)
  {
    forall v | v in items ensures Depth(v) <= DepthOfItems(items) {
      DepthOfItem(items, v);
    }
  }

  function Enclosed(open: string, parts: Option<seq<string>>, close: string): Option<string> {
    match parts
    case Some(texts) => Some(open + Joined(texts) + close)
    case None => None
  }

  /** The canonical text, or none when some number has no integer value. */
  function Canonicalize(v: Json): Option<string>
    decreases Depth(v), 1, 0
  {
    match v
    case Null => Some("null")
    case Bool(b) => Some(if b then "true" else "false")
    case Str(s) => Some(Quoted(s))
    case Num(n) => SerializeNumber(n)
    case Arr(items) =>
      ItemsAreShallow(items);
      Enclosed("[", ItemTexts(items, Depth(v)), "]")
    case Obj(members) =>
      SortedMembersAreShallow(members);
      Enclosed("{", MemberTexts(Sort(NameLe, members), Depth(v)), "}")
  }

  function ItemTexts(items: seq<Json>, bound: nat): Option<seq<string>>
    requires forall v :: v in items ==> Depth(v) < bound
    decreases bound, 0, |items|
  {
    if items == [] then Some([])
    else
      var head, tail := Canonicalize(items[0]), ItemTexts(items[1..], bound);
      if head.Some? && tail.Some? then Some([head.value] + tail.value) else None
  }

  function MemberTexts(members: seq<Member>, bound: nat): Option<seq<string>>
    requires forall m :: m in members ==> Depth(m.value) < bound
    decreases bound, 0, |members|
  {
    if members == [] then Some([])
    else
      var head, tail := Canonicalize(members[0].value), MemberTexts(members[1..], bound);
      if head.Some? && tail.Some? then Some([Quoted(members[0].name) + ":" + head.value] + tail.value) else None
  }

  // ---- what a document means

  /** Every number has an integer value. */
  predicate Representable(v: Json) {
    match v
    case Num(n) => Integer(n).Some?
    case Arr(items) => forall x :: x in items ==> Representable(x)
    case Obj(members) => forall m :: m in members ==> Representable(m.value)
    case _ => true
  }

  /** No object names a member twice. */
  predicate UniqueNames(v: Json) {
    match v
    case Arr(items) => forall x :: x in items ==> UniqueNames(x)
    case Obj(members) =>
      && (forall m :: m in members ==> UniqueNames(m.value))
      && (forall i, j :: 0 <= i < j < |members| ==> members[i].name != members[j].name)
    case _ => true
  }

  /** Two documents say the same: numbers by value, objects by name. */
  ghost predicate Same(a: Json, b: Json) {
    match (a, b)
    case (Num(x), Num(y)) => Integer(x) == Integer(y)
    case (Arr(x), Arr(y)) => |x| == |y| && forall i :: 0 <= i < |x| ==> Same(x[i], y[i])
    case (Obj(x), Obj(y)) => |x| == |y| && forall i :: 0 <= i < |x| ==> HasTwin(x[i], y)
    case (_, _) => a == b && !a.Num? && !a.Arr? && !a.Obj?
  }

  ghost predicate HasTwin(m: Member, members: seq<Member>) {
    exists j :: 0 <= j < |members| && m.name == members[j].name && Same(m.value, members[j].value)
  }
}
