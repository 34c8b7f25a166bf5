/** Canonical JSON identifies documents that say the same, and only those. */
module JcsTheorems {
  import opened Prelude
  import opened Ordering
  import opened Digits
  import opened Utf16
  import opened Jcs
  import opened JcsParser

  /** Integers for numbers, members in canonical order. */
  function Normalize(v: Json): Json
    decreases v
  {
    match v
    case Num(n) => if Integer(n).Some? then Num(Int(Integer(n).value)) else v
    case Arr(items) => Arr(NormalizeItems(items))
    case Obj(members) => Obj(Sort(NameLe, NormalizeMembers(members)))
    case _ => v
  }

  function NormalizeItems(items: seq<Json>): seq<Json>
    decreases items
  {
    if items == [] then [] else [Normalize(items[0])] + NormalizeItems(items[1..])
  }

  function NormalizeMember(m: Member): Member
    decreases m
  {
    Member(m.name, Normalize(m.value))
  }

  function NormalizeMembers(members: seq<Member>): seq<Member>
    decreases members
  {
    if members == [] then [] else [NormalizeMember(members[0])] + NormalizeMembers(members[1..])
  }

  lemma {:induction false} NormalizedItemAt(items: seq<Json>, i: nat)
    requires i < |items|
    ensures |NormalizeItems(items)| == |items| && NormalizeItems(items)[i] == Normalize(items[i])
  {
    if i > 0 {
      NormalizedItemAt(items[1..], i - 1);
    } else if |items| > 1 {
      NormalizedItemAt(items[1..], 0);
    }
  }

  lemma {:induction false} NormalizedCount(items: seq<Json>, members: seq<Member>)
    ensures |NormalizeItems(items)| == |items| && |NormalizeMembers(members)| == |members|
  {
    if items != [] {
      NormalizedCount(items[1..], members);
    } else if members != [] {
      NormalizedCount(items, members[1..]);
    }
  }

  lemma {:induction false} NormalizedMemberAt(members: seq<Member>, i: nat)
    requires i < |members|
    ensures |NormalizeMembers(members)| == |members| && NormalizeMembers(members)[i] == NormalizeMember(members[i])
  {
    NormalizedCount([], members);
    if i > 0 {
      NormalizedMemberAt(members[1..], i - 1);
    }
  }

  lemma {:induction false} InsertCommutes(m: Member, members: seq<Member>)
    ensures NormalizeMembers(Insert(NameLe, m, members))
        == Insert(NameLe, NormalizeMember(m), NormalizeMembers(members))
  {
    if members == [] || NameLe(m, members[0]) {
      assert ([m] + members)[1..] == members;
    } else {
      InsertCommutes(m, members[1..]);
      var rest := Insert(NameLe, m, members[1..]);
      assert ([members[0]] + rest)[1..] == rest;
      var normal := NormalizeMembers(members);
      assert normal[0] == NormalizeMember(members[0]) && normal[1..] == NormalizeMembers(members[1..]);
    }
  }

  /** Sorting looks at names alone. */
  lemma {:induction false} SortCommutes(members: seq<Member>)
    ensures NormalizeMembers(Sort(NameLe, members)) == Sort(NameLe, NormalizeMembers(members))
  {
    if members != [] {
      SortCommutes(members[1..]);
      InsertCommutes(members[0], Sort(NameLe, members[1..]));
      var normal := NormalizeMembers(members);
      assert normal[0] == NormalizeMember(members[0]) && normal[1..] == NormalizeMembers(members[1..]);
    }
  }

  // ---- the canonical text is the plain text of the normal form

  lemma {:induction false} CanonicalizeIsWrite(v: Json)
    ensures Canonicalize(v) == if Representable(v) then Some(Write(Normalize(v))) else None
    decreases Depth(v), 1, 0
  {
    match v
    case Arr(items) =>
      ItemsAreShallow(items);
      ItemsAreWritten(items, Depth(v));
    case Obj(members) =>
      SortedMembersAreShallow(members);
      MembersAreWritten(Sort(NameLe, members), Depth(v));
      SortCommutes(members);
      NamePreorder();
      SortProperties(NameLe, members);
    case _ =>
  }

  lemma {:induction false} ItemsAreWritten(items: seq<Json>, bound: nat)
    requires forall v :: v in items ==> Depth(v) < bound
    ensures ItemTexts(items, bound).Some? <==> forall v :: v in items ==> Representable(v)
    ensures ItemTexts(items, bound).Some? ==>
              |ItemTexts(items, bound).value| == |items|
              && Joined(ItemTexts(items, bound).value) == WriteItems(NormalizeItems(items))
    decreases bound, 0, |items|
  {
    if items != [] {
      CanonicalizeIsWrite(items[0]);
      ItemsAreWritten(items[1..], bound);
      assert items == [items[0]] + items[1..];
      NormalizedCount(items[1..], []);
      var normal := NormalizeItems(items);
      assert normal[0] == Normalize(items[0]) && normal[1..] == NormalizeItems(items[1..]);
      var texts := ItemTexts(items, bound);
      if texts.Some? {
        assert texts.value[1..] == ItemTexts(items[1..], bound).value;
      }
    }
  }

  lemma {:induction false} MembersAreWritten(members: seq<Member>, bound: nat)
    requires forall m :: m in members ==> Depth(m.value) < bound
    ensures MemberTexts(members, bound).Some? <==> forall m :: m in members ==> Representable(m.value)
    ensures MemberTexts(members, bound).Some? ==>
              |MemberTexts(members, bound).value| == |members|
              && Joined(MemberTexts(members, bound).value) == WriteMembers(NormalizeMembers(members))
    decreases bound, 0, |members|
  {
    if members != [] {
      CanonicalizeIsWrite(members[0].value);
      MembersAreWritten(members[1..], bound);
      assert members == [members[0]] + members[1..];
      NormalizedCount([], members[1..]);
      var normal := NormalizeMembers(members);
      assert normal[0] == NormalizeMember(members[0]) && normal[1..] == NormalizeMembers(members[1..]);
      var texts := MemberTexts(members, bound);
      if texts.Some? {
        assert texts.value[1..] == MemberTexts(members[1..], bound).value;
      }
    }
  }

  lemma {:induction false} NormalFormHasIntegers(v: Json)
    requires Representable(v)
    ensures IntegersOnly(Normalize(v)) && Normalize(v).Num? == v.Num?
    decreases v
  {
    match v
    case Arr(items) =>
      NormalizedCount(items, []);
      forall x | x in NormalizeItems(items) ensures IntegersOnly(x) {
        var i :| 0 <= i < |items| && NormalizeItems(items)[i] == x;
        NormalizedItemAt(items, i);
        NormalFormHasIntegers(items[i]);
      }
    case Obj(members) =>
      NormalizedCount([], members);
      NamePreorder();
      SortProperties(NameLe, NormalizeMembers(members));
      forall m | m in NormalizeMembers(members) ensures IntegersOnly(m.value) {
        var i :| 0 <= i < |members| && NormalizeMembers(members)[i] == m;
        NormalizedMemberAt(members, i);
        NormalFormHasIntegers(members[i].value);
      }
    case _ =>
  }

  /** The canonical text reads back to the document's normal form; exactly the documents with a
      number that is no integer have none. */
  lemma CanonicalTextReadsBack(v: Json, rest: string)
    ensures Canonicalize(v).Some? <==> Representable(v)
    ensures Representable(v) && MayFollow(v, rest) ==> Parse(Canonicalize(v).value + rest) == Got(Normalize(v), rest)
  {
    CanonicalizeIsWrite(v);
    if Representable(v) && MayFollow(v, rest) {
      NormalFormHasIntegers(v);
      ParseWrite(Normalize(v), rest);
    }
  }

  // ---- normal forms agree exactly when documents say the same

  lemma NamesSeparate(members: seq<Member>)
    requires forall i, j :: 0 <= i < j < |members| ==> members[i].name != members[j].name
    ensures Separates(NameLe, members) && NoCopies(members)
  {
    forall x, y | x in members && y in members && NameLe(x, y) && NameLe(y, x) ensures x == y {
      LexLeTotal(SortKey(x.name), SortKey(y.name));
      SortKeyInjective(x.name, y.name);
    }
  }

  lemma NormalNames(members: seq<Member>)
    requires forall i, j :: 0 <= i < j < |members| ==> members[i].name != members[j].name
    ensures Separates(NameLe, NormalizeMembers(members)) && NoCopies(NormalizeMembers(members))
  {
    var normal := NormalizeMembers(members);
    NormalizedCount([], members);
    forall i, j | 0 <= i < j < |normal| ensures normal[i].name != normal[j].name {
      NormalizedMemberAt(members, i);
      NormalizedMemberAt(members, j);
    }
    NamesSeparate(normal);
  }

  lemma {:induction false} SameIsNormalForm(a: Json, b: Json)
    requires Representable(a) && Representable(b) && UniqueNames(a) && UniqueNames(b)
    ensures Same(a, b) <==> Normalize(a) == Normalize(b)
    decreases a
  {
    if a.Arr? && b.Arr? {
      SameItems(a.items, b.items);
    } else if a.Obj? && b.Obj? {
      if Same(a, b) {
        SameMembersGiveNormalForm(a.members, b.members);
      }
      if Normalize(a) == Normalize(b) {
        NormalFormGivesSameMembers(a.members, b.members);
      }
    }
  }

  lemma {:induction false} SameItems(a: seq<Json>, b: seq<Json>)
    requires forall x :: x in a || x in b ==> Representable(x) && UniqueNames(x)
    ensures (|a| == |b| && forall i :: 0 <= i < |a| ==> Same(a[i], b[i])) <==> NormalizeItems(a) == NormalizeItems(b)
    decreases a, 0
  {
    NormalizedCount(a, []);
    NormalizedCount(b, []);
    if |a| == |b| {
      forall i | 0 <= i < |a| ensures Same(a[i], b[i]) <==> NormalizeItems(a)[i] == NormalizeItems(b)[i] {
        NormalizedItemAt(a, i);
        NormalizedItemAt(b, i);
        SameIsNormalForm(a[i], b[i]);
      }
    }
  }

  lemma {:induction false} SameMembersGiveNormalForm(a: seq<Member>, b: seq<Member>)
    requires Representable(Obj(a)) && Representable(Obj(b)) && UniqueNames(Obj(a)) && UniqueNames(Obj(b))
    requires |a| == |b| && forall i :: 0 <= i < |a| ==> HasTwin(a[i], b)
    ensures Sort(NameLe, NormalizeMembers(a)) == Sort(NameLe, NormalizeMembers(b))
    decreases a, 0
  {
    var x, y := NormalizeMembers(a), NormalizeMembers(b);
    NormalizedCount([], a);
    NormalizedCount([], b);
    forall m | m in x ensures m in y {
      var i :| 0 <= i < |x| && x[i] == m;
      assert HasTwin(a[i], b);
      var j :| 0 <= j < |b| && a[i].name == b[j].name && Same(a[i].value, b[j].value);
      SameIsNormalForm(a[i].value, b[j].value);
      NormalizedMemberAt(a, i);
      NormalizedMemberAt(b, j);
      assert y[j] == m;
    }
    NormalNames(a);
    SameSizeSubset(x, y);
    NamePreorder();
    SortForgetsOrder(NameLe, x, y);
  }

  lemma {:induction false} NormalFormGivesSameMembers(a: seq<Member>, b: seq<Member>)
    requires Representable(Obj(a)) && Representable(Obj(b)) && UniqueNames(Obj(a)) && UniqueNames(Obj(b))
    requires Sort(NameLe, NormalizeMembers(a)) == Sort(NameLe, NormalizeMembers(b))
    ensures |a| == |b| && forall i :: 0 <= i < |a| ==> HasTwin(a[i], b)
    decreases a, 0
  {
    var x, y := NormalizeMembers(a), NormalizeMembers(b);
    NormalizedCount([], a);
    NormalizedCount([], b);
    NamePreorder();
    SortProperties(NameLe, x);
    SortProperties(NameLe, y);
    forall i | 0 <= i < |a| ensures HasTwin(a[i], b) {
      NormalizedMemberAt(a, i);
      assert x[i] in y;
      var j :| 0 <= j < |y| && y[j] == x[i];
      NormalizedMemberAt(b, j);
      SameIsNormalForm(a[i].value, b[j].value);
    }
  }

  /** Two signed documents have the same canonical text exactly when they say the same: object
      members in any order, integers written as integers or as floats. */
  lemma CanonicalTextsAgreeIffSame(a: Json, b: Json)
    requires Representable(a) && Representable(b) && UniqueNames(a) && UniqueNames(b)
    ensures Canonicalize(a) == Canonicalize(b) <==> Same(a, b)
  {
    CanonicalizeIsWrite(a);
    CanonicalizeIsWrite(b);
    CanonicalTextReadsBack(a, "");
    CanonicalTextReadsBack(b, "");
    SameIsNormalForm(a, b);
    if Canonicalize(a) == Canonicalize(b) {
      assert Canonicalize(a).value + "" == Canonicalize(b).value + "";
    }
  }

  /** The order the members of an object are listed in does not matter. */
  lemma MemberOrderDoesNotMatter(a: seq<Member>, b: seq<Member>)
    requires multiset(a) == multiset(b) && UniqueNames(Obj(a))
    ensures Canonicalize(Obj(a)) == Canonicalize(Obj(b))
  {
    NamesSeparate(a);
    NamePreorder();
    SortForgetsOrder(NameLe, a, b);
    SortProperties(NameLe, a);
    SortedMembersAreShallow(a);
    SortedMembersAreShallow(b);
    MembersAreWritten(Sort(NameLe, a), Depth(Obj(a)));
    MembersAreWritten(Sort(NameLe, a), Depth(Obj(b)));
    CanonicalizeIsWrite(Obj(a));
    CanonicalizeIsWrite(Obj(b));
    SortCommutes(a);
    SortCommutes(b);
    SameMembers(a, b);
  }

  /** Members come out in strictly ascending order of their names' UTF-16 code units. */
  lemma MembersAscend(v: Json, i: nat, j: nat)
    requires v.Obj? && UniqueNames(v)
    requires i < j < |v.members|
    ensures Normalize(v).Obj? && |Normalize(v).members| == |v.members|
    ensures var m := Normalize(v).members;
            LexLe(Units(m[i].name), Units(m[j].name)) && m[i].name != m[j].name
  {
    var x := NormalizeMembers(v.members);
    NormalizedCount([], v.members);
    NamePreorder();
    SortProperties(NameLe, x);
    var m := Sort(NameLe, x);
    KeyOrderIsUnitOrder(m[i].name, m[j].name);
    assert NameLe(m[i], m[j]);
    NormalNames(v.members);
    if m[i].name == m[j].name {
      assert m[i] in x && m[j] in x && NameLe(m[j], m[i]);
      assert m[i] == m[j];
      SortedCopies(m, x, i, j);
    }
  }

  lemma SortedCopies<T>(m: seq<T>, x: seq<T>, i: nat, j: nat)
    requires multiset(m) == multiset(x) && i < j < |m| && m[i] == m[j]
    ensures !NoCopies(x)
  {
    assert m == m[..i] + [m[i]] + m[i + 1..j] + [m[j]] + m[j + 1..];
    assert multiset(m)[m[i]] >= 2;
    if NoCopies(x) {
      NoCopiesMultiset(x, m[i]);
    }
  }

  // ---- the shape of strings and numbers

  /** The characters with a two-character escape: quote, backslash, and five controls. */
  predicate HasShortEscape(c: char) {
    c as int in {0x22, 0x5C, 0x08, 0x0C, 0x0A, 0x0D, 0x09}
  }

  /** Escapes are the shortest: two characters where one exists, six for the other controls, and any
      other character stands for itself. */
  lemma EscapesAreShortest(c: char)
    ensures HasShortEscape(c) ==> |Escape(c)| == 2 && Escape(c)[0] == '\\'
    ensures !HasShortEscape(c) && c as int < 0x20 ==> |Escape(c)| == 6 && Escape(c)[..4] == "\\u00"
    ensures !HasShortEscape(c) && c as int >= 0x20 ==> Escape(c) == [c]
  {
    if !HasShortEscape(c) && c as int < 0x20 {
      assert HexDigit(0) == '0';
      assert Escape(c) == "\\u" + Hex4(c as int);
      assert Escape(c)[..4] == "\\u" + Hex4(c as int)[..2];
    }
  }

  /** A number is written when it is an integer, or a float of an integer's value. */
  lemma IntegerMeans(n: Number, k: int)
    ensures Integer(n) == Some(k) <==> n == Int(k) || n == Float(k as real)
  {
    if n.Float? && n == Float(k as real) {
      assert n.r.Floor == k;
    }
  }

  predicate AllDigits(text: string) {
    forall i :: 0 <= i < |text| ==> '0' <= text[i] <= '9'
  }

  /** An integer's text has a minus sign exactly when it is negative, and no leading zero. */
  lemma DecimalShape(n: int)
    ensures n == 0 ==> Decimal(n) == "0"
    ensures n > 0 ==> Decimal(n) != "" && AllDigits(Decimal(n)) && Decimal(n)[0] != '0'
    ensures n < 0 ==> Decimal(n) == "-" + Decimal(-n)
  {
    if n > 0 {
      NumeralDigits(n, 10);
      NumeralLead(n, 10);
    }
  }
}
