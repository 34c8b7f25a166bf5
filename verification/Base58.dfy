/** The base58btc decoding of multikeys. */
module Base58 {
  import opened Prelude
  import opened Arithmetic
  import opened Digits

  const ALPHABET := "123456789" + "ABCDEFGH" + "JKLMN" + "PQRSTUVWXYZ" + "abcdefghijk" + "mnopqrstuvwxyz"

  function FindIn(text: string, c: char): int {
    if text == [] then -1
    else if text[0] == c then 0
    else
      var rest := FindIn(text[1..], c);
      if rest < 0 then -1 else 1 + rest
  }

  /** The digit of a character, negative when it has none. */
  function Index(c: char): int {
    FindIn(ALPHABET, c)
  }

  /** The place of a character is its only place in a text without repetition. */
  lemma {:induction false} FindInFinds(text: string, c: char)
    ensures var k := FindIn(text, c); -1 <= k < |text| && (k >= 0 ==> text[k] == c)
    ensures FindIn(text, c) < 0 <==> c !in text
  {
    if text != [] && text[0] != c {
      FindInFinds(text[1..], c);
      assert text == [text[0]] + text[1..];
    }
  }

  predicate Ascends(s: string) {
    forall i, j :: 0 <= i < j < |s| ==> s[i] < s[j]
  }

  predicate Spans(s: string, n: nat, first: char, last: char) {
    |s| == n > 0 && Ascends(s) && s[0] == first && s[n - 1] == last
  }

  lemma SpansConcat(a: string, n: nat, first: char, mid: char, b: string, k: nat, next: char, last: char)
    requires Spans(a, n, first, mid) && Spans(b, k, next, last) && mid < next
    ensures Spans(a + b, n + k, first, last)
  {
  }

  lemma AlphabetAscends()
    ensures Spans(ALPHABET, 58, '1', 'z')
  {
    var a, b, c := "123456789", "ABCDEFGH", "JKLMN";
    SpansConcat(a, 9, '1', '9', b, 8, 'A', 'H');
    SpansConcat(a + b, 17, '1', 'H', c, 5, 'J', 'N');
    LettersAscend(a + b + c);
  }

  lemma LettersAscend(front: string)
    requires Spans(front, 22, '1', 'N')
    ensures Spans(front + "PQRSTUVWXYZ" + "abcdefghijk" + "mnopqrstuvwxyz", 58, '1', 'z')
  {
    var d, e, f := "PQRSTUVWXYZ", "abcdefghijk", "mnopqrstuvwxyz";
    SpansConcat(front, 22, '1', 'N', d, 11, 'P', 'Z');
    SpansConcat(front + d, 33, '1', 'Z', e, 11, 'a', 'k');
    SpansConcat(front + d + e, 44, '1', 'k', f, 14, 'm', 'z');
  }

  /** A run of characters in code-point order. */
  predicate Run(s: string, first: char) {
    forall i :: 0 <= i < |s| ==> s[i] as int == first as int + i
  }

  lemma RunMembers(s: string, first: char, c: char)
    requires Run(s, first)
    ensures c in s <==> first as int <= c as int < first as int + |s|
  {
    if first as int <= c as int < first as int + |s| {
      assert s[c as int - first as int] == c;
    }
  }

  /** The alphabet is the digits and the ASCII letters without `0`, `O`, `I` and `l`. */
  lemma AlphabetMeans(c: char)
    ensures c in ALPHABET <==>
              && ('0' <= c <= '9' || 'A' <= c <= 'Z' || 'a' <= c <= 'z')
              && c != '0' && c != 'O' && c != 'I' && c != 'l'
  {
    RunMembers("123456789", '1', c);
    RunMembers("ABCDEFGH", 'A', c);
    RunMembers("JKLMN", 'J', c);
    RunMembers("PQRSTUVWXYZ", 'P', c);
    RunMembers("abcdefghijk", 'a', c);
    RunMembers("mnopqrstuvwxyz", 'm', c);
  }

  /** Digits and alphabet characters correspond one to one. */
  lemma DigitsAreCharacters(c: char, d: int)
    ensures |ALPHABET| == 58 && -1 <= Index(c) < 58
    ensures 0 <= d < 58 ==> (Index(c) == d <==> c == ALPHABET[d])
    ensures Index(c) < 0 <==> c !in ALPHABET
  {
    FindInFinds(ALPHABET, c);
    AlphabetAscends();
  }

  // ---- decoding

  function BitLength(n: nat): nat {
    if n == 0 then 0 else 1 + BitLength(n / 2)
  }

  /** The big-endian bytes of a number in a given length; the rest of the number is dropped. */
  function ToBytes(n: nat, length: nat): seq<int> {
    if length == 0 then [] else ToBytes(n / 256, length - 1) + [n % 256]
  }

  /** The number the loop accumulates, or none at the first foreign character. */
  function NumberOf(text: string): Option<nat> {
    if text == [] then Some(0)
    else
      var k := |text| - 1;
      match NumberOf(text[..k])
      case None => None
      case Some(n) =>
        var index := Index(text[k]);
        if index < 0 then None else Some(n * 58 + index)
  }

  function LeadingOnes(text: string): nat {
    if text == [] || text[0] != ALPHABET[0] then 0 else 1 + LeadingOnes(text[1..])
  }

  function Decode(text: string): Option<seq<int>> {
    match NumberOf(text)
    case None => None
    case Some(n) => Some(Zeros(LeadingOnes(text)) + ToBytes(n, (BitLength(n) + 7) / 8))
  }

  lemma {:induction false} ForeignStays(text: string, k: nat)
    requires k <= |text| && NumberOf(text[..k]).None?
    ensures NumberOf(text).None?
    decreases |text| - k
  {
    if k < |text| {
      assert text[..k + 1][..k] == text[..k];
      ForeignStays(text, k + 1);
    } else {
      assert text[..k] == text;
    }
  }

  method B58Decode(text: string) returns (decoded: Option<seq<int>>)
    ensures decoded == Decode(text)
  {
    var number: nat := 0;
    for i := 0 to |text|
      invariant NumberOf(text[..i]) == Some(number)
    {
      assert text[..i + 1][..i] == text[..i];
      var index := Index(text[i]);
      if index < 0 {
        ForeignStays(text, i + 1);
        return None;
      }
      number := number * 58 + index;
    }
    assert text[..|text|] == text;
    var body := if number != 0 then ToBytes(number, (BitLength(number) + 7) / 8) else [];
    return Some(Zeros(LeadingOnes(text)) + body);
  }

  // ---- the reference encoder

  function Spell(ds: seq<int>): string
    requires AreDigits(ds, 58)
  {
    seq(|ds|, i requires 0 <= i < |ds| => DigitsAreCharacters('1', ds[i]); ALPHABET[ds[i]])
  }

  /** One `1` for each leading zero byte, then the base-58 numeral of the bytes' value. */
  function Encode(bytes: seq<int>): string
    requires AreDigits(bytes, 256)
  {
    NumeralOfValue(bytes, 256);
    NumeralDigits(Value(bytes, 256), 58);
    Spell(Zeros(ZeroCount(bytes)) + Numeral(Value(bytes, 256), 58))
  }

  predicate InAlphabet(text: string) {
    forall c :: c in text ==> c in ALPHABET
  }

  /** The digits of a text. */
  function Read(text: string): seq<int> {
    seq(|text|, i requires 0 <= i < |text| => Index(text[i]))
  }

  lemma ReadDigits(text: string)
    requires InAlphabet(text)
    ensures AreDigits(Read(text), 58) && Spell(Read(text)) == text
  {
    forall i | 0 <= i < |text| ensures 0 <= Read(text)[i] < 58 && ALPHABET[Read(text)[i]] == text[i] {
      DigitsAreCharacters(text[i], Index(text[i]));
    }
  }

  lemma SpellRead(ds: seq<int>)
    requires AreDigits(ds, 58)
    ensures InAlphabet(Spell(ds)) && Read(Spell(ds)) == ds
  {
    forall i | 0 <= i < |ds| ensures Spell(ds)[i] in ALPHABET && Index(Spell(ds)[i]) == ds[i] {
      DigitsAreCharacters(Spell(ds)[i], ds[i]);
    }
  }

  /** The accumulated number is the value of the text's digits. */
  lemma ReadOneMore(text: string)
    requires text != []
    ensures var k := |text| - 1;
            Value(Read(text), 58) == Value(Read(text[..k]), 58) * 58 + Index(text[k])
  {
    var k := |text| - 1;
    assert Read(text)[..k] == Read(text[..k]);
  }

  lemma InAlphabetOneMore(text: string)
    requires text != []
    ensures var k := |text| - 1;
            InAlphabet(text) <==> InAlphabet(text[..k]) && Index(text[k]) >= 0
  {
    var k := |text| - 1;
    DigitsAreCharacters(text[k], 0);
    assert text == text[..k] + [text[k]];
  }

  lemma {:induction false} NumberIsValue(text: string)
    ensures InAlphabet(text) ==> NumberOf(text).Some? && NumberOf(text).value == Value(Read(text), 58)
    ensures !InAlphabet(text) ==> NumberOf(text).None?
  {
    if text != [] {
      NumberIsValue(text[..|text| - 1]);
      ReadOneMore(text);
      InAlphabetOneMore(text);
    }
  }

  lemma {:induction false} OnesAreZeros(text: string)
    ensures LeadingOnes(text) == ZeroCount(Read(text))
  {
    if text != [] {
      DigitsAreCharacters(text[0], 0);
      assert Read(text)[1..] == Read(text[1..]);
      OnesAreZeros(text[1..]);
    }
  }

  lemma ByteLength(n: nat)
    requires n > 0
    ensures (BitLength(n) + 7) / 8 == (BitLength(n / 256) + 7) / 8 + 1
  {
    if n < 256 {
      SmallBits(n);
    } else {
      var n2, n4, n8 := n / 2, n / 4, n / 8;
      var n16, n32, n64, n128 := n / 16, n / 32, n / 64, n / 128;
      assert n2 / 2 == n4 && n4 / 2 == n8 && n8 / 2 == n16 && n16 / 2 == n32;
      assert n32 / 2 == n64 && n64 / 2 == n128 && n128 / 2 == n / 256;
      assert BitLength(n) == 2 + BitLength(n4);
      assert BitLength(n4) == 2 + BitLength(n16);
      assert BitLength(n16) == 2 + BitLength(n64);
      assert BitLength(n64) == 2 + BitLength(n / 256);
    }
  }

  lemma SmallBits(n: nat)
    requires 0 < n < 256
    ensures 1 <= BitLength(n) <= 8
  {
    BitLengthBelow(n, 8);
  }

  lemma {:induction false} BitLengthBelow(n: nat, bits: nat)
    requires n < Pow(2, bits)
    ensures BitLength(n) <= bits
  {
    if n > 0 && bits > 0 {
      BitLengthBelow(n / 2, bits - 1);
    }
  }

  /** The bit length gives just enough bytes: the body is the shortest base-256 numeral. */
  lemma {:induction false} BytesAreNumeral(n: nat)
    ensures ToBytes(n, (BitLength(n) + 7) / 8) == Numeral(n, 256)
  {
    if n > 0 {
      ByteLength(n);
      BytesAreNumeral(n / 256);
    }
  }

  /** What decoding is: change of base behind the leading zeros, for alphabet strings only. */
  lemma DecodeMeaning(text: string)
    ensures Decode(text).Some? <==> InAlphabet(text)
    ensures InAlphabet(text) ==> AreDigits(Read(text), 58) && Value(Read(text), 58) >= 0
                                 && Decode(text)
                                     == Some(Zeros(ZeroCount(Read(text))) + Numeral(Value(Read(text), 58), 256))
  {
    NumberIsValue(text);
    if InAlphabet(text) {
      ReadDigits(text);
      NumeralOfValue(Read(text), 58);
      OnesAreZeros(text);
      BytesAreNumeral(Value(Read(text), 58));
    }
  }

  /** Every byte string comes back from its encoding. */
  lemma DecodeEncode(bytes: seq<int>)
    requires AreDigits(bytes, 256)
    ensures Decode(Encode(bytes)) == Some(bytes)
  {
    var v, z := Value(bytes, 256), ZeroCount(bytes);
    SplitZeros(bytes, 256);
    var ds := Zeros(z) + Numeral(v, 58);
    NumeralDigits(v, 58);
    SpellRead(ds);
    DecodeMeaning(Spell(ds));
    LeadingZeros(z, Numeral(v, 58), 58);
    ValueOfNumeral(v, 58);
    ZeroCountOf(z, v, 58);
  }

  /** Every text that decodes is the encoding of what it decodes to. */
  lemma EncodeDecode(text: string)
    requires Decode(text).Some?
    ensures AreDigits(Decode(text).value, 256) && Encode(Decode(text).value) == text
  {
    DecodeMeaning(text);
    ReadDigits(text);
    var ds := Read(text);
    var v, z := Value(ds, 58), ZeroCount(ds);
    SplitZeros(ds, 58);
    NumeralDigits(v, 256);
    LeadingZeros(z, Numeral(v, 256), 256);
    ValueOfNumeral(v, 256);
    ZeroCountOf(z, v, 256);
  }

  /** Decoding is injective. */
  lemma DecodeInjective(a: string, b: string)
    requires Decode(a).Some? && Decode(a) == Decode(b)
    ensures a == b
  {
    EncodeDecode(a);
    EncodeDecode(b);
  }

  // ---- multikeys

  method DecodeMultikey(multibase: string) returns (key: Option<seq<int>>)
    ensures key == Multikey(multibase)
  {
    if |multibase| == 0 || multibase[0] != 'z' {
      return None;
    }
    var decoded := B58Decode(multibase[1..]);
    if decoded.None? {
      return None;
    }
    var bytes := decoded.value;
    if |bytes| < 2 || bytes[..2] != [0xed, 0x01] {
      return None;
    }
    if |bytes| != 34 {
      return None;
    }
    return Some(bytes[2..]);
  }

  function Multikey(multibase: string): Option<seq<int>> {
    if |multibase| == 0 || multibase[0] != 'z' then None
    else
      match Decode(multibase[1..])
      case Some(bytes) => if |bytes| == 34 && bytes[..2] == [0xed, 0x01] then Some(bytes[2..]) else None
      case None => None
  }

  /** A multikey is accepted exactly when it spells the Ed25519 prefix and 32 key bytes; each key
      has exactly one such text. */
  lemma MultikeyAcceptsExactly(multibase: string, key: seq<int>)
    ensures Multikey(multibase) == Some(key) <==>
              |key| == 32 && AreDigits([0xed, 0x01] + key, 256) && multibase == "z" + Encode([0xed, 0x01] + key)
  {
    if Multikey(multibase) == Some(key) {
      var text := multibase[1..];
      EncodeDecode(text);
      var bytes := Decode(text).value;
      assert bytes == bytes[..2] + bytes[2..];
      assert multibase == "z" + text;
    }
    if |key| == 32 && AreDigits([0xed, 0x01] + key, 256) && multibase == "z" + Encode([0xed, 0x01] + key) {
      DecodeEncode([0xed, 0x01] + key);
      assert multibase[1..] == Encode([0xed, 0x01] + key);
    }
  }
}
