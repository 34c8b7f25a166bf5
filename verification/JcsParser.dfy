/** A reference reader of JSON texts without whitespace, and the plain writer it undoes. */
module JcsParser {
  import opened Prelude
  import opened Digits
  import opened Jcs

  datatype Parsed<+T> = Fail | Got(value: T, rest: string)

  // ---- the plain writer: members in the order they are listed

  function Write(v: Json): string
    decreases v
  {
    match v
    case Null => "null"
    case Bool(b) => if b then "true" else "false"
    case Str(s) => Quoted(s)
    case Num(n) => if Integer(n).Some? then Decimal(Integer(n).value) else "NaN"
    case Arr(items) => "[" + WriteItems(items) + "]"
    case Obj(members) => "{" + WriteMembers(members) + "}"
  }

  function WriteItems(items: seq<Json>): string
    decreases items
  {
    if items == [] then ""
    else if |items| == 1 then Write(items[0])
    else Write(items[0]) + "," + WriteItems(items[1..])
  }

  function WriteMember(m: Member): string
    decreases m
  {
    Quoted(m.name) + ":" + Write(m.value)
  }

  function WriteMembers(members: seq<Member>): string
    decreases members
  {
    if members == [] then ""
    else if |members| == 1 then WriteMember(members[0])
    else WriteMember(members[0]) + "," + WriteMembers(members[1..])
  }

  // ---- strings

  /** The value of a hexadecimal digit, negative when it is none. */
  function HexValue(c: char): int {
    if '0' <= c <= '9' then c as int - 48
    else if 'a' <= c <= 'f' then c as int - 87
    else -1
  }

  function HexRun(text: string): int {
    if text == "" then 0
    else
      var k := |text| - 1;
      var high, low := HexRun(text[..k]), HexValue(text[k]);
      if high < 0 || low < 0 then -1 else high * 16 + low
  }

  function Unescaped(c: char): Option<char> {
    if c == '\"' || c == '\\' then Some(c)
    else if c == 'b' then Some('\U{8}')
    else if c == 'f' then Some('\U{C}')
    else if c == 'n' then Some('\n')
    else if c == 'r' then Some('\r')
    else if c == 't' then Some('\t')
    else None
  }

  /** One character, escaped or not. */
  function ParseChar(text: string): (r: Parsed<char>)
    ensures r.Got? ==> |r.rest| < |text|
  {
    if text == "" || text[0] == '\"' || text[0] as int < 0x20 then Fail
    else if text[0] != '\\' then Got(text[0], text[1..])
    else if |text| < 2 then Fail
    else if text[1] == 'u' then
      if |text| < 6 then Fail
      else
        var n := HexRun(text[2..6]);
        if 0 <= n < 0xD800 then Got(n as char, text[6..]) else Fail
    else
      match Unescaped(text[1])
      case Some(c) => Got(c, text[2..])
      case None => Fail
  }

  /** The rest of a string, up to and with the closing quote. */
  function ParseChars(text: string): (r: Parsed<string>)
    ensures r.Got? ==> |r.rest| < |text|
    decreases |text|
  {
    if text != "" && text[0] == '\"' then Got("", text[1..])
    else
      match ParseChar(text)
      case Fail => Fail
      case Got(c, rest) =>
        match ParseChars(rest)
        case Fail => Fail
        case Got(s, end) => Got([c] + s, end)
  }

  function ParseString(text: string): (r: Parsed<string>)
    ensures r.Got? ==> |r.rest| < |text|
  {
    if text == "" || text[0] != '\"' then Fail else ParseChars(text[1..])
  }

  lemma PrefixOf(a: string, b: string)
    ensures (a + b)[..|a|] == a && (a + b)[|a|..] == b
  {
  }

  lemma HexRunStep(text: string, i: nat, high: int, low: int)
    requires i < |text| && HexRun(text[..i]) == high >= 0 && HexValue(text[i]) == low >= 0
    ensures HexRun(text[..i + 1]) == high * 16 + low
  {
    assert text[..i + 1][..i] == text[..i];
  }

  lemma HexRunOfDigits(a: int, b: int, c: int, d: int)
    requires 0 <= a < 16 && 0 <= b < 16 && 0 <= c < 16 && 0 <= d < 16
    ensures HexRun([HexDigit(a), HexDigit(b), HexDigit(c), HexDigit(d)]) == ((a * 16 + b) * 16 + c) * 16 + d
  {
    var h := [HexDigit(a), HexDigit(b), HexDigit(c), HexDigit(d)];
    assert h[..0] == "" && h[..4] == h;
    HexRunStep(h, 0, 0, a);
    HexRunStep(h, 1, a, b);
    HexRunStep(h, 2, a * 16 + b, c);
    HexRunStep(h, 3, (a * 16 + b) * 16 + c, d);
  }

  lemma Reassembled(n: int)
    requires 0 <= n < 0x10000
    ensures ((n / 0x1000 * 16 + n / 0x100 % 0x10) * 16 + n / 0x10 % 0x10) * 16 + n % 0x10 == n
  {
    assert n / 0x100 == n / 0x1000 * 16 + n / 0x100 % 0x10;
    assert n / 0x10 == n / 0x100 * 16 + n / 0x10 % 0x10;
  }

  lemma HexRunOf(n: int)
    requires 0 <= n < 0x10000
    ensures HexRun(Hex4(n)) == n
  {
    HexRunOfDigits(n / 0x1000, n / 0x100 % 0x10, n / 0x10 % 0x10, n % 0x10);
    Reassembled(n);
  }

  lemma ParseUnicodeEscape(c: char, rest: string)
    requires c as int < 0x20
    ensures ParseChar("\\u" + Hex4(c as int) + rest) == Got(c, rest)
  {
    var text := "\\u" + Hex4(c as int) + rest;
    assert text[2..6] == Hex4(c as int) && text[6..] == rest;
    HexRunOf(c as int);
  }

  lemma ParseShortEscape(c: char, mark: char, rest: string)
    requires mark != 'u' && Unescaped(mark) == Some(c)
    ensures ParseChar(['\\', mark] + rest) == Got(c, rest)
  {
    PrefixOf(['\\', mark], rest);
  }

  lemma ParseEscape(c: char, rest: string)
    ensures ParseChar(Escape(c) + rest) == Got(c, rest)
    ensures Escape(c) != "" && Escape(c)[0] != '\"'
  {
    if c == '\"' || c == '\\' {
      ParseShortEscape(c, c, rest);
    } else if c == '\U{8}' {
      ParseShortEscape(c, 'b', rest);
    } else if c == '\U{C}' {
      ParseShortEscape(c, 'f', rest);
    } else if c == '\n' {
      ParseShortEscape(c, 'n', rest);
    } else if c == '\r' {
      ParseShortEscape(c, 'r', rest);
    } else if c == '\t' {
      ParseShortEscape(c, 't', rest);
    } else if c as int < 0x20 {
      ParseUnicodeEscape(c, rest);
    } else {
      PrefixOf([c], rest);
    }
  }

  lemma CharStep(c: char, s: string, e: string, tail: string, rest: string)
    requires e != "" && e[0] != '\"'
    requires ParseChar(e + tail) == Got(c, tail) && ParseChars(tail) == Got(s, rest)
    ensures ParseChars(e + tail) == Got([c] + s, rest)
  {
    assert (e + tail)[0] == e[0];
  }

  lemma EscapedText(s: string, rest: string)
    requires s != ""
    ensures EscapeAll(s) + "\"" + rest == Escape(s[0]) + (EscapeAll(s[1..]) + "\"" + rest)
  {
    ConcatAssociates(Escape(s[0]), EscapeAll(s[1..]), "\"");
    ConcatAssociates(Escape(s[0]), EscapeAll(s[1..]) + "\"", rest);
  }

  lemma {:induction false} ParseEscaped(s: string, rest: string)
    ensures ParseChars(EscapeAll(s) + "\"" + rest) == Got(s, rest)
  {
    if s == "" {
      PrefixOf("\"", rest);
    } else {
      var tail := EscapeAll(s[1..]) + "\"" + rest;
      ParseEscape(s[0], tail);
      ParseEscaped(s[1..], rest);
      CharStep(s[0], s[1..], Escape(s[0]), tail, rest);
      EscapedText(s, rest);
      assert s == [s[0]] + s[1..];
    }
  }

  /** A quoted string reads back, whatever follows it. */
  lemma ParseQuoted(s: string, rest: string)
    ensures ParseString(Quoted(s) + rest) == Got(s, rest)
  {
    var text := Quoted(s) + rest;
    assert text[1..] == EscapeAll(s) + "\"" + rest;
    ParseEscaped(s, rest);
  }

  // ---- numbers

  predicate IsDigit(c: char) {
    '0' <= c <= '9'
  }

  function DigitRun(text: string): (k: nat)
    ensures k <= |text|
  {
    if text == "" || !IsDigit(text[0]) then 0 else 1 + DigitRun(text[1..])
  }

  function DigitsRead(text: string): seq<int> {
    seq(|text|, i requires 0 <= i < |text| => text[i] as int - 48)
  }

  function ParseNatural(text: string): (r: Parsed<int>)
    ensures r.Got? ==> |r.rest| < |text|
  {
    var k := DigitRun(text);
    if k == 0 then Fail else Got(Value(DigitsRead(text[..k]), 10), text[k..])
  }

  function ParseNumber(text: string): (r: Parsed<int>)
    ensures r.Got? ==> |r.rest| < |text|
  {
    if text != "" && text[0] == '-' then
      match ParseNatural(text[1..])
      case Fail => Fail
      case Got(n, rest) => Got(-n, rest)
    else ParseNatural(text)
  }

  predicate NoDigitNext(rest: string) {
    rest == "" || !IsDigit(rest[0])
  }

  lemma {:induction false} DigitRunOf(ds: seq<int>, rest: string)
    requires AreDigits(ds, 10) && NoDigitNext(rest)
    ensures DigitRun(DigitChars(ds) + rest) == |ds|
  {
    if ds == [] {
      assert DigitChars(ds) + rest == rest;
    } else {
      assert (DigitChars(ds) + rest)[1..] == DigitChars(ds[1..]) + rest;
      DigitRunOf(ds[1..], rest);
    }
  }

  lemma ParseDigits(ds: seq<int>, rest: string)
    requires AreDigits(ds, 10) && NoDigitNext(rest) && ds != []
    ensures ParseNatural(DigitChars(ds) + rest) == Got(Value(ds, 10), rest)
    ensures IsDigit(DigitChars(ds)[0])
  {
    DigitRunOf(ds, rest);
    PrefixOf(DigitChars(ds), rest);
    assert DigitsRead(DigitChars(ds)) == ds;
  }

  lemma ParseNaturalText(n: nat, rest: string)
    requires NoDigitNext(rest)
    ensures Natural(n) != "" && IsDigit(Natural(n)[0])
    ensures ParseNatural(Natural(n) + rest) == Got(n, rest)
  {
    if n == 0 {
      assert DigitChars([0]) == "0";
      ParseDigits([0], rest);
      assert [0][..0] == [] && Value([0], 10) == 0;
    } else {
      NumeralDigits(n, 10);
      NumeralLead(n, 10);
      ValueOfNumeral(n, 10);
      ParseDigits(Numeral(n, 10), rest);
    }
  }

  lemma ParseMinus(digits: string, n: int, rest: string)
    requires ParseNatural(digits) == Got(n, rest)
    ensures ParseNumber("-" + digits) == Got(-n, rest)
  {
    PrefixOf("-", digits);
  }

  lemma ParseNegative(n: int, rest: string)
    requires n < 0 && NoDigitNext(rest)
    ensures ParseNumber(Decimal(n) + rest) == Got(n, rest)
  {
    ParseNaturalText(-n, rest);
    ParseMinus(Natural(-n) + rest, -n, rest);
    ConcatAssociates("-", Natural(-n), rest);
  }

  lemma ParsePositive(n: nat, rest: string)
    requires NoDigitNext(rest)
    ensures ParseNumber(Decimal(n) + rest) == Got(n, rest)
    ensures Decimal(n) != "" && IsDigit(Decimal(n)[0])
  {
    var text := Natural(n) + rest;
    ParseNaturalText(n, rest);
    assert text[0] == Natural(n)[0];
  }

  /** A decimal reads back when no digit follows it. */
  lemma ParseDecimal(n: int, rest: string)
    requires NoDigitNext(rest)
    ensures ParseNumber(Decimal(n) + rest) == Got(n, rest)
  {
    if n < 0 {
      ParseNegative(n, rest);
    } else {
      ParsePositive(n, rest);
    }
  }

  lemma DecimalStarts(n: int)
    ensures Decimal(n) != "" && (Decimal(n)[0] == '-' || IsDigit(Decimal(n)[0]))
  {
    if n >= 0 {
      ParsePositive(n, "");
    }
  }

  // ---- documents

  predicate StartsWith(text: string, prefix: string) {
    |prefix| <= |text| && text[..|prefix|] == prefix
  }

  function ParseWord(text: string): (r: Parsed<Json>)
    ensures r.Got? ==> |r.rest| < |text|
  {
    if StartsWith(text, "null") then Got(Null, text[4..])
    else if StartsWith(text, "true") then Got(Bool(true), text[4..])
    else if StartsWith(text, "false") then Got(Bool(false), text[5..])
    else Fail
  }

  function ParseScalar(text: string): (r: Parsed<Json>)
    ensures r.Got? ==> |r.rest| < |text|
  {
    if text != "" && text[0] == '\"' then
      match ParseString(text)
      case Fail => Fail
      case Got(s, rest) => Got(Str(s), rest)
    else if text != "" && (text[0] == '-' || IsDigit(text[0])) then
      match ParseNumber(text)
      case Fail => Fail
      case Got(n, rest) => Got(Num(Int(n)), rest)
    else ParseWord(text)
  }

  function Parse(text: string): (r: Parsed<Json>)
    ensures r.Got? ==> |r.rest| < |text|
    decreases |text|, 0
  {
    if text != "" && text[0] == '[' then
      if StartsWith(text, "[]") then Got(Arr([]), text[2..])
      else
        match ParseItems(text[1..])
        case Fail => Fail
        case Got(items, rest) => Got(Arr(items), rest)
    else if text != "" && text[0] == '{' then
      if StartsWith(text, "{}") then Got(Obj([]), text[2..])
      else
        match ParseMembers(text[1..])
        case Fail => Fail
        case Got(members, rest) => Got(Obj(members), rest)
    else ParseScalar(text)
  }

  function ParseItems(text: string): (r: Parsed<seq<Json>>)
    ensures r.Got? ==> |r.rest| < |text|
    decreases |text|, 1
  {
    match Parse(text)
    case Fail => Fail
    case Got(v, rest) =>
      if rest == "" then Fail
      else if rest[0] == ']' then Got([v], rest[1..])
      else if rest[0] != ',' then Fail
      else
        match ParseItems(rest[1..])
        case Fail => Fail
        case Got(items, end) => Got([v] + items, end)
  }

  function ParseMember(text: string): (r: Parsed<Member>)
    ensures r.Got? ==> |r.rest| < |text|
    decreases |text|, 1
  {
    match ParseString(text)
    case Fail => Fail
    case Got(name, rest) =>
      if rest == "" || rest[0] != ':' then Fail
      else
        match Parse(rest[1..])
        case Fail => Fail
        case Got(v, end) => Got(Member(name, v), end)
  }

  function ParseMembers(text: string): (r: Parsed<seq<Member>>)
    ensures r.Got? ==> |r.rest| < |text|
    decreases |text|, 2
  {
    match ParseMember(text)
    case Fail => Fail
    case Got(m, rest) =>
      if rest == "" then Fail
      else if rest[0] == '}' then Got([m], rest[1..])
      else if rest[0] != ',' then Fail
      else
        match ParseMembers(rest[1..])
        case Fail => Fail
        case Got(members, end) => Got([m] + members, end)
  }

  /** Every number is an integer already. */
  predicate IntegersOnly(v: Json) {
    match v
    case Num(n) => n.Int?
    case Arr(items) => forall x :: x in items ==> IntegersOnly(x)
    case Obj(members) => forall m :: m in members ==> IntegersOnly(m.value)
    case _ => true
  }

  /** Only a number needs care about what follows it. */
  predicate MayFollow(v: Json, rest: string) {
    v.Num? ==> NoDigitNext(rest)
  }

  lemma ParseScalarText(v: Json, rest: string)
    requires !v.Arr? && !v.Obj? && IntegersOnly(v) && MayFollow(v, rest)
    ensures Parse(Write(v) + rest) == Got(v, rest)
    ensures Write(v) != "" && Write(v)[0] != ']' && Write(v)[0] != '}'
  {
    PrefixOf(Write(v), rest);
    match v
    case Null =>
    case Bool(b) =>
      WordsDiffer(rest);
    case Str(s) => ParseQuoted(s, rest);
    case Num(n) =>
      ParseDecimal(n.n, rest);
      DecimalStarts(n.n);
      assert (Decimal(n.n) + rest)[0] == Decimal(n.n)[0];
  }

  lemma WordsDiffer(rest: string)
    ensures ParseWord("true" + rest) == Got(Bool(true), rest)
    ensures ParseWord("false" + rest) == Got(Bool(false), rest)
  {
    PrefixOf("true", rest);
    PrefixOf("false", rest);
    assert ("true" + rest)[..4][0] == 't' && ("false" + rest)[..4][0] == 'f';
  }

  lemma WriteStarts(v: Json)
    requires IntegersOnly(v)
    ensures Write(v) != "" && Write(v)[0] != ']' && Write(v)[0] != '}'
  {
    if !v.Arr? && !v.Obj? {
      ParseScalarText(v, "");
    }
  }

  lemma ItemsStart(items: seq<Json>)
    requires items != [] && forall x :: x in items ==> IntegersOnly(x)
    ensures WriteItems(items) != "" && WriteItems(items)[0] != ']'
  {
    WriteStarts(items[0]);
  }

  /** Removing the brackets around a non-empty array. */
  lemma ParseArr(items: seq<Json>, inner: string, rest: string)
    requires inner != "" && inner[0] != ']'
    requires ParseItems(inner + "]" + rest) == Got(items, rest)
    ensures Parse("[" + inner + "]" + rest) == Got(Arr(items), rest)
  {
    var tail := inner + "]" + rest;
    assert "[" + inner + "]" + rest == "[" + tail;
    var text := "[" + tail;
    assert text[1..] == tail && text[0] == '[' && text[1] == inner[0];
    assert |text| >= 2 ==> text[..2][1] == text[1];
  }

  lemma ParseObj(members: seq<Member>, inner: string, rest: string)
    requires inner != "" && inner[0] != '}'
    requires ParseMembers(inner + "}" + rest) == Got(members, rest)
    ensures Parse("{" + inner + "}" + rest) == Got(Obj(members), rest)
  {
    var tail := inner + "}" + rest;
    assert "{" + inner + "}" + rest == "{" + tail;
    var text := "{" + tail;
    assert text[1..] == tail && text[0] == '{' && text[1] == inner[0];
    assert |text| >= 2 ==> text[..2][1] == text[1];
  }

  lemma ParseEmpty(rest: string)
    ensures Parse("[]" + rest) == Got(Arr([]), rest)
    ensures Parse("{}" + rest) == Got(Obj([]), rest)
  {
    PrefixOf("[]", rest);
    PrefixOf("{}", rest);
  }

  lemma EmptyTexts()
    ensures Write(Arr([])) == "[]" && Write(Obj([])) == "{}"
  {
  }

  lemma MembersStart(members: seq<Member>)
    requires members != []
    ensures WriteMembers(members) != "" && WriteMembers(members)[0] == '\"'
  {
    assert WriteMember(members[0])[0] == '\"';
  }

  /** Every document reads back from its text, whatever follows it; after a number, no digit may. */
  lemma {:induction false} ParseWrite(v: Json, rest: string)
    requires IntegersOnly(v) && MayFollow(v, rest)
    ensures Parse(Write(v) + rest) == Got(v, rest)
    decreases v
  {
    match v
    case Arr(items) =>
      if items == [] {
        EmptyTexts();
        ParseEmpty(rest);
      } else {
        ItemsStart(items);
        ParseWriteItems(items, rest);
        ParseArr(items, WriteItems(items), rest);
      }
    case Obj(members) =>
      if members == [] {
        EmptyTexts();
        ParseEmpty(rest);
      } else {
        MembersStart(members);
        ParseWriteMembers(members, rest);
        ParseObj(members, WriteMembers(members), rest);
      }
    case _ => ParseScalarText(v, rest);
  }

  lemma ItemStep(v: Json, items: seq<Json>, head: string, tail: string, rest: string)
    requires Parse(head + ("," + tail)) == Got(v, "," + tail)
    requires ParseItems(tail) == Got(items, rest)
    ensures ParseItems(head + ("," + tail)) == Got([v] + items, rest)
  {
    PrefixOf(",", tail);
  }

  lemma LastItem(v: Json, head: string, rest: string)
    requires Parse(head + ("]" + rest)) == Got(v, "]" + rest)
    ensures ParseItems(head + ("]" + rest)) == Got([v], rest)
  {
    PrefixOf("]", rest);
  }

  lemma {:induction false} ParseWriteItems(items: seq<Json>, rest: string)
    requires items != [] && forall x :: x in items ==> IntegersOnly(x)
    ensures ParseItems(WriteItems(items) + "]" + rest) == Got(items, rest)
    decreases items
  {
    var head := Write(items[0]);
    if |items| == 1 {
      assert WriteItems(items) + "]" + rest == head + ("]" + rest);
      ParseWrite(items[0], "]" + rest);
      LastItem(items[0], head, rest);
      assert items == [items[0]];
    } else {
      var tail := WriteItems(items[1..]) + "]" + rest;
      assert WriteItems(items) + "]" + rest == head + ("," + tail);
      ParseWrite(items[0], "," + tail);
      ParseWriteItems(items[1..], rest);
      ItemStep(items[0], items[1..], head, tail, rest);
      assert [items[0]] + items[1..] == items;
    }
  }

  lemma {:induction false} ParseWriteMember(m: Member, rest: string)
    requires IntegersOnly(m.value) && NoDigitNext(rest)
    ensures ParseMember(WriteMember(m) + rest) == Got(m, rest)
    decreases m
  {
    ParseQuoted(m.name, ":" + (Write(m.value) + rest));
    ParseWrite(m.value, rest);
    MemberText(m, Quoted(m.name), Write(m.value), rest);
  }

  lemma MemberText(m: Member, name: string, text: string, rest: string)
    requires ParseString(name + (":" + (text + rest))) == Got(m.name, ":" + (text + rest))
    requires Parse(text + rest) == Got(m.value, rest)
    ensures ParseMember(name + ":" + text + rest) == Got(m, rest)
  {
    assert name + ":" + text + rest == name + (":" + (text + rest));
    PrefixOf(":", text + rest);
  }

  lemma MemberStep(m: Member, members: seq<Member>, head: string, tail: string, rest: string)
    requires ParseMember(head + ("," + tail)) == Got(m, "," + tail)
    requires ParseMembers(tail) == Got(members, rest)
    ensures ParseMembers(head + ("," + tail)) == Got([m] + members, rest)
  {
    PrefixOf(",", tail);
  }

  lemma LastMember(m: Member, head: string, rest: string)
    requires ParseMember(head + ("}" + rest)) == Got(m, "}" + rest)
    ensures ParseMembers(head + ("}" + rest)) == Got([m], rest)
  {
    PrefixOf("}", rest);
  }

  lemma Regroup(head: string, tail: string, rest: string)
    ensures head + "," + tail + "}" + rest == head + ("," + (tail + "}" + rest))
    ensures head + "}" + rest == head + ("}" + rest)
  {
  }

  lemma MembersText(members: seq<Member>, rest: string)
    requires members != []
    ensures WriteMembers(members) + "}" + rest
            == WriteMember(members[0])
               + if |members| == 1 then "}" + rest else "," + (WriteMembers(members[1..]) + "}" + rest)
  {
    Regroup(WriteMember(members[0]), WriteMembers(members[1..]), rest);
  }

  lemma JoinMembers(members: seq<Member>, head: string, tail: string, rest: string)
    requires |members| > 1 && WriteMembers(members) + "}" + rest == head + ("," + tail)
    requires ParseMember(head + ("," + tail)) == Got(members[0], "," + tail)
    requires ParseMembers(tail) == Got(members[1..], rest)
    ensures ParseMembers(WriteMembers(members) + "}" + rest) == Got(members, rest)
  {
    MemberStep(members[0], members[1..], head, tail, rest);
    assert [members[0]] + members[1..] == members;
  }

  lemma {:induction false} ParseWriteMembers(members: seq<Member>, rest: string)
    requires members != [] && forall m :: m in members ==> IntegersOnly(m.value)
    ensures ParseMembers(WriteMembers(members) + "}" + rest) == Got(members, rest)
    decreases members
  {
    var head := WriteMember(members[0]);
    MembersText(members, rest);
    if |members| == 1 {
      ParseWriteMember(members[0], "}" + rest);
      LastMember(members[0], head, rest);
      assert members == [members[0]];
    } else {
      var tail := WriteMembers(members[1..]) + "}" + rest;
      ParseWriteMember(members[0], "," + tail);
      ParseWriteMembers(members[1..], rest);
      JoinMembers(members, head, tail, rest);
    }
  }
}
