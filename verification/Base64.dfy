/** base64.c: encoding bit by bit and decoding into a buffer of any size. */
module Base64 {
  import opened Options
  import opened Arith
  import Bits

  type Byte = x: nat | x < 256 witness 0
  type Sextet = x: nat | x < 64 witness 0

  //////////////////////////////////////////////////////////////////////////////
  // The alphabet
  //////////////////////////////////////////////////////////////////////////////

  /** The table of characters. */
  function Digit(v: Sextet): char {
    if v < 26 then 'A' + (v as char)
    else if v < 52 then 'a' + ((v - 26) as char)
    else if v < 62 then '0' + ((v - 52) as char)
    else if v == 62 then '+' else '/'
  }

  /** The place of a character in the table. */
  function Value(c: char): Option<Sextet> {
    if 'A' <= c <= 'Z' then Some((c as int) - ('A' as int))
    else if 'a' <= c <= 'z' then Some((c as int) - ('a' as int) + 26)
    else if '0' <= c <= '9' then Some((c as int) - ('0' as int) + 52)
    else if c == '+' then Some(62)
    else if c == '/' then Some(63)
    else None
  }

  predicate IsSpace(c: char) {
    c == ' ' || '\t' <= c <= '\r'
  }

  const UPPER := "ABCDEFGHIJKLMNOPQRSTUVWXYZ"
  const LOWER := "abcdefghijklmnopqrstuvwxyz"
  const OTHERS := "0123456789+/"

  /** Table 1 of RFC 4648. */
  lemma DigitsOfTable(v: Sextet)
    ensures Digit(v) == (UPPER + LOWER + OTHERS)[v]
  {
    if v < 26 {
      UpperLetter(v);
    } else if v < 52 {
      LowerLetter(v - 26);
    } else {
      OtherDigit(v - 52);
    }
  }

  lemma UpperLetter(v: nat)
    requires v < 26
    ensures Digit(v) == UPPER[v]
  {
  }

  lemma LowerLetter(v: nat)
    requires v < 26
    ensures Digit(v + 26) == LOWER[v]
  {
  }

  lemma OtherDigit(v: nat)
    requires v < 12
    ensures Digit(v + 52) == OTHERS[v]
  {
  }

  /** Tab, line feed, vertical tab, form feed, carriage return and space. */
  lemma Spaces(c: char)
    ensures IsSpace(c) <==> (c as int) in {9, 10, 11, 12, 13, 32}
  {
  }

  lemma DigitValue(v: Sextet)
    ensures Value(Digit(v)) == Some(v) && Digit(v) != '=' && !IsSpace(Digit(v))
  {
  }

  lemma ValueDigit(c: char, v: Sextet)
    ensures Value(c) == Some(v) <==> Digit(v) == c
  {
  }

  //////////////////////////////////////////////////////////////////////////////
  // Section 4 of RFC 4648
  //////////////////////////////////////////////////////////////////////////////

  /** The four sextets of three bytes. */
  function First(a: Byte): Sextet { a / 4 }
  function Second(a: Byte, b: Byte): Sextet { a % 4 * 16 + b / 16 }
  function Third(b: Byte, c: Byte): Sextet { b % 16 * 4 + c / 64 }
  function Fourth(c: Byte): Sextet { c % 64 }

  /** Three bytes make four sextets; what is left over at the end is padded with zero bits. */
  function Sextets(raw: seq<Byte>): (r: seq<Sextet>)
    decreases |raw|
  {
    if |raw| == 0 then []
    else if |raw| == 1 then [First(raw[0]), Second(raw[0], 0)]
    else if |raw| == 2 then [First(raw[0]), Second(raw[0], raw[1]), Third(raw[1], 0)]
    else
      [First(raw[0]), Second(raw[0], raw[1]), Third(raw[1], raw[2]), Fourth(raw[2])] + Sextets(raw[3..])
  }

  function Digits(sx: seq<Sextet>): (s: string)
    ensures |s| == |sx| && forall i :: 0 <= i < |sx| ==> s[i] == Digit(sx[i])
  {
    seq(|sx|, i requires 0 <= i < |sx| => Digit(sx[i]))
  }

  function Padding(n: nat): string {
    if n % 3 == 1 then "==" else if n % 3 == 2 then "=" else ""
  }

  function PadCount(n: nat): nat {
    if n % 3 == 1 then 2 else if n % 3 == 2 then 1 else 0
  }

  function Encode(raw: seq<Byte>): string {
    Digits(Sextets(raw)) + Padding(|raw|)
  }

  /** The sextets hold the bytes and two bits for every padding character. */
  lemma {:induction false} SextetBits(raw: seq<Byte>)
    ensures 6 * |Sextets(raw)| == 8 * |raw| + 2 * PadCount(|raw|)
    decreases |raw|
  {
    if |raw| >= 3 {
      SextetBits(raw[3..]);
      var first := FirstFour(raw);
      hide Sextets;
      SamePadding(|raw|);
    }
  }

  lemma SamePadding(n: nat)
    requires n >= 3
    ensures PadCount(n) == PadCount(n - 3)
  {
  }

  //////////////////////////////////////////////////////////////////////////////
  // Bytes from sextets
  //////////////////////////////////////////////////////////////////////////////

  function At(sx: seq<Sextet>, k: nat): Sextet {
    if k < |sx| then sx[k] else 0
  }

  /** Byte j of the bits of the sextets, with zero bits behind them. */
  function ByteAt(sx: seq<Sextet>, j: nat): Byte {
    var k := j / 3 * 4;
    if j % 3 == 0 then High(At(sx, k), At(sx, k + 1))
    else if j % 3 == 1 then Middle(At(sx, k + 1), At(sx, k + 2))
    else Low(At(sx, k + 2), At(sx, k + 3))
  }

  /** The three bytes of four sextets. */
  function High(s: Sextet, t: Sextet): Byte { s * 4 + t / 16 }
  function Middle(s: Sextet, t: Sextet): Byte { s % 16 * 16 + t / 4 }
  function Low(s: Sextet, t: Sextet): Byte { s % 4 * 64 + t }

  /** The bytes come back. */
  lemma {:induction false} ByteAtSextets(raw: seq<Byte>, j: nat)
    requires j < |raw|
    ensures ByteAt(Sextets(raw), j) == raw[j]
    decreases |raw|
  {
    if j >= 3 {
      var rest := Sextets(raw[3..]);
      var first := FirstFour(raw);
      ByteAtSextets(raw[3..], j - 3);
      hide Sextets, At, High, Middle, Low, First, Second, Third, Fourth;
      NextGroup(j);
      LaterSextet(first, rest, (j - 3) / 3 * 4);
    } else {
      FirstBytes(raw, j);
    }
  }

  lemma FirstFour(raw: seq<Byte>) returns (first: seq<Sextet>)
    requires |raw| >= 3
    ensures |first| == 4 && Sextets(raw) == first + Sextets(raw[3..])
  {
    first := [First(raw[0]), Second(raw[0], raw[1]), Third(raw[1], raw[2]), Fourth(raw[2])];
  }

  lemma NextGroup(j: nat)
    requires j >= 3
    ensures j / 3 * 4 == (j - 3) / 3 * 4 + 4 && j % 3 == (j - 3) % 3
  {
  }

  lemma FirstBytes(raw: seq<Byte>, j: nat)
    requires j < |raw| && j < 3
    ensures ByteAt(Sextets(raw), j) == raw[j]
  {
    var sx := Sextets(raw);
    var a, b, c := raw[0], if |raw| > 1 then raw[1] else 0, if |raw| > 2 then raw[2] else 0;
    FourSextets(raw, a, b, c);
    ByteAtStart(sx);
    hide Sextets, At, ByteAt, First, Second, Third, Fourth, High, Middle, Low;
    if j == 0 {
      Join0(a, b);
    } else if j == 1 {
      Join1(a, b, c);
    } else {
      Join2(b, c);
    }
  }

  lemma ByteAtStart(sx: seq<Sextet>)
    ensures ByteAt(sx, 0) == High(At(sx, 0), At(sx, 1))
    ensures ByteAt(sx, 1) == Middle(At(sx, 1), At(sx, 2))
    ensures ByteAt(sx, 2) == Low(At(sx, 2), At(sx, 3))
  {
    hide At, High, Middle, Low;
  }

  lemma FourSextets(raw: seq<Byte>, a: Byte, b: Byte, c: Byte)
    requires |raw| > 0 && a == raw[0]
    requires b == if |raw| > 1 then raw[1] else 0
    requires c == if |raw| > 2 then raw[2] else 0
    ensures At(Sextets(raw), 0) == First(a) && At(Sextets(raw), 1) == Second(a, b)
    ensures At(Sextets(raw), 2) == Third(b, c) && At(Sextets(raw), 3) == Fourth(c)
  {
    NoBits();
    hide First, Second, Third, Fourth;
  }

  lemma NoBits()
    ensures Third(0, 0) == 0 && Fourth(0) == 0
  {
  }

  lemma Join0(a: Byte, b: Byte)
    ensures High(First(a), Second(a, b)) == a
  {
  }

  lemma Join1(a: Byte, b: Byte, c: Byte)
    ensures Middle(Second(a, b), Third(b, c)) == b
  {
    SecondLow(a, b);
    ThirdHigh(b, c);
    hide Second, Third;
  }

  lemma SecondLow(a: Byte, b: Byte)
    ensures Second(a, b) % 16 == b / 16
  {
  }

  lemma ThirdHigh(b: Byte, c: Byte)
    ensures Third(b, c) / 4 == b % 16
  {
  }

  lemma Join2(b: Byte, c: Byte)
    ensures Low(Third(b, c), Fourth(c)) == c
  {
  }

  lemma LaterSextet(first: seq<Sextet>, rest: seq<Sextet>, k: nat)
    requires |first| == 4
    ensures At(first + rest, k + 4) == At(rest, k) && At(first + rest, k + 5) == At(rest, k + 1)
    ensures At(first + rest, k + 6) == At(rest, k + 2) && At(first + rest, k + 7) == At(rest, k + 3)
  {
  }

  //////////////////////////////////////////////////////////////////////////////
  // Decoding
  //////////////////////////////////////////////////////////////////////////////

  /** What is known after reading some of the text: the sextets, and how much padding has been seen. */
  datatype Reading = Bad | Reading(sx: seq<Sextet>, pad: nat)

  function ReadChar(r: Reading, c: char): Reading {
    if r.Bad? || IsSpace(c) then r
    else if c == '=' then if r.pad >= 2 then Bad else Reading(r.sx, r.pad + 1)
    else if r.pad > 0 || Value(c).None? then Bad
    else Reading(r.sx + [Value(c).value], 0)
  }

  function ReadText(r: Reading, s: string): Reading
    decreases |s|
  {
    if s == [] then r else ReadText(ReadChar(r, s[0]), s[1..])
  }

  /** The number of bits read, less two for every padding character. */
  function BitCount(r: Reading): int
    requires r.Reading?
  {
    6 * |r.sx| - 2 * r.pad
  }

  /** The length of the decoded data, if the text is well-formed. */
  function Decoded(s: string): Option<int> {
    var r := ReadText(Reading([], 0), s);
    if r.Bad? || BitCount(r) % 8 != 0 then None else Some(BitCount(r) / 8)
  }

  lemma {:induction false} ReadAppend(r: Reading, a: string, b: string)
    ensures ReadText(r, a + b) == ReadText(ReadText(r, a), b)
    decreases |a|
  {
    if a == [] {
      assert a + b == b;
    } else {
      assert (a + b)[1..] == a[1..] + b;
      ReadAppend(ReadChar(r, a[0]), a[1..], b);
    }
  }

  lemma {:induction false} ReadDigits(sx: seq<Sextet>, ys: seq<Sextet>)
    ensures ReadText(Reading(sx, 0), Digits(ys)) == Reading(sx + ys, 0)
    decreases |ys|
  {
    if ys == [] {
      assert sx + ys == sx;
    } else {
      DigitValue(ys[0]);
      hide Digit, Value, IsSpace;
      assert Digits(ys)[1..] == Digits(ys[1..]);
      ReadDigits(sx + [ys[0]], ys[1..]);
      assert sx + [ys[0]] + ys[1..] == sx + ys;
    }
  }

  lemma ReadPadding(sx: seq<Sextet>, n: nat)
    ensures ReadText(Reading(sx, 0), Padding(n)) == Reading(sx, PadCount(n))
  {
    assert "=="[1..] == "=" && "="[1..] == "";
    assert !IsSpace('=');
    var r := ReadChar(Reading(sx, 0), '=');
    assert r == Reading(sx, 1) && ReadChar(r, '=') == Reading(sx, 2);
    assert ReadText(Reading(sx, 2), "") == Reading(sx, 2);
    assert ReadText(r, "=") == Reading(sx, 2);
  }

  /** Decoding an encoding gives the length and, by ByteAtSextets, every byte of the original. */
  lemma DecodeEncode(raw: seq<Byte>)
    ensures Decoded(Encode(raw)) == Some(|raw|)
    ensures ReadText(Reading([], 0), Encode(raw)).Reading?
    ensures ReadText(Reading([], 0), Encode(raw)).sx == Sextets(raw)
  {
    EncodedReads(raw);
    EncodedBits(raw);
    hide ReadText, Encode, Sextets, BitCount;
    WholeBytes(|raw|);
  }

  lemma EncodedReads(raw: seq<Byte>)
    ensures ReadText(Reading([], 0), Encode(raw)) == Reading(Sextets(raw), PadCount(|raw|))
  {
    hide ReadText, Digits, Sextets, Padding, PadCount;
    var sx := Sextets(raw);
    ReadAppend(Reading([], 0), Digits(sx), Padding(|raw|));
    ReadDigits([], sx);
    assert [] + sx == sx;
    ReadPadding(sx, |raw|);
  }

  lemma EncodedBits(raw: seq<Byte>)
    ensures BitCount(Reading(Sextets(raw), PadCount(|raw|))) == 8 * |raw|
  {
    SextetBits(raw);
    hide Sextets, PadCount;
  }

  lemma WholeBytes(n: nat)
    ensures 8 * n % 8 == 0 && 8 * n / 8 == n
  {
  }

  /** Text without its white space. */
  function Compact(s: string): string {
    if s == [] then [] else (if IsSpace(s[0]) then [] else [s[0]]) + Compact(s[1..])
  }

  /** White space in the text makes no difference. */
  lemma {:induction false} SpacesIgnored(r: Reading, s: string)
    ensures ReadText(r, Compact(s)) == ReadText(r, s)
    decreases |s|
  {
    hide IsSpace, Value;
    if s != [] {
      SpacesIgnored(ReadChar(r, s[0]), s[1..]);
      if IsSpace(s[0]) {
        assert Compact(s) == Compact(s[1..]);
      } else {
        assert Compact(s)[1..] == Compact(s[1..]);
      }
    }
  }

  ghost function Pads(n: nat): string {
    if n == 0 then "" else "=" + Pads(n - 1)
  }

  /** Reading the text, without white space, leads from r to t: it is digits and then padding. */
  ghost predicate Spells(r: Reading, t: Reading, text: string) {
    && r.Reading? && t.Reading? && r.pad <= t.pad <= 2
    && |r.sx| <= |t.sx| && t.sx[..|r.sx|] == r.sx && (r.pad > 0 ==> t.sx == r.sx)
    && text == Digits(t.sx[|r.sx|..]) + Pads(t.pad - r.pad)
  }

  /** What has been read is digits and then padding. */
  lemma {:induction false} ReadShape(r: Reading, s: string)
    requires r.Reading? && r.pad <= 2 && ReadText(r, s).Reading?
    ensures Spells(r, ReadText(r, s), Compact(s))
    decreases |s|
  {
    hide IsSpace, Value, Digit, Spells;
    if s == [] {
      SpellsNothing(r);
    } else {
      var u, t := ReadChar(r, s[0]), ReadText(r, s);
      StaysBad(s[1..]);
      ReadShape(u, s[1..]);
      ValueIsDigit(s[0]);
      if IsSpace(s[0]) {
        assert Compact(s) == Compact(s[1..]);
      } else {
        assert Compact(s) == [s[0]] + Compact(s[1..]);
        if s[0] == '=' {
          SpellsPad(r, t, Compact(s[1..]));
        } else {
          SpellsDigit(r, Value(s[0]).value, t, Compact(s[1..]));
        }
      }
    }
  }

  lemma SpellsNothing(r: Reading)
    requires r.Reading? && r.pad <= 2
    ensures Spells(r, r, "")
  {
    assert r.sx[|r.sx|..] == [];
  }

  lemma SpellsPad(r: Reading, t: Reading, text: string)
    requires r.Reading? && Spells(Reading(r.sx, r.pad + 1), t, text)
    ensures Spells(r, t, ['='] + text)
  {
    hide Digit;
    assert t.sx[|r.sx|..] == [];
    assert Pads(t.pad - r.pad) == ['='] + Pads(t.pad - r.pad - 1);
  }

  lemma SpellsDigit(r: Reading, v: Sextet, t: Reading, text: string)
    requires r.Reading? && r.pad == 0 && Spells(Reading(r.sx + [v], 0), t, text)
    ensures Spells(r, t, [Digit(v)] + text)
  {
    hide Digit, Digits, Pads;
    var k := |r.sx|;
    assert t.sx[k] == t.sx[..k + 1][k] == v;
    DigitsFrom(t.sx, k);
    assert t.sx[..k] == t.sx[..k + 1][..k];
  }

  lemma DigitsFrom(sx: seq<Sextet>, k: nat)
    requires k < |sx|
    ensures Digits(sx[k..]) == [Digit(sx[k])] + Digits(sx[k + 1..])
  {
    hide Digit;
    var ys := sx[k..];
    assert ys[1..] == sx[k + 1..];
    assert Digits(ys) == [Digit(ys[0])] + Digits(ys[1..]);
  }

  lemma ValueIsDigit(c: char)
    ensures Value(c).Some? ==> Digit(Value(c).value) == c
  {
  }

  lemma {:induction false} StaysBad(s: string)
    ensures ReadText(Bad, s) == Bad
    decreases |s|
  {
    if s != [] {
      StaysBad(s[1..]);
    }
  }

  /** Digits in groups of four, the last of which may be filled up with one or two padding characters. */
  ghost predicate Grouped(s: string, sx: seq<Sextet>, pad: nat) {
    Compact(s) == Digits(sx) + Pads(pad) && pad <= 2 && (|sx| + pad) % 4 == 0
  }

  /** The texts that decode are those of section 4 of RFC 4648, with white space anywhere. */
  lemma DecodedExactly(s: string)
    ensures Decoded(s).Some? <==> exists sx, pad :: Grouped(s, sx, pad)
  {
    var r := ReadText(Reading([], 0), s);
    if r.Reading? {
      ReadShape(Reading([], 0), s);
      assert r.sx[0..] == r.sx;
      GroupsOfBits(|r.sx|, r.pad);
      if Decoded(s).Some? {
        assert Grouped(s, r.sx, r.pad);
      }
    }
    forall sx, pad | Grouped(s, sx, pad)
      ensures Decoded(s).Some?
    {
      SpacesIgnored(Reading([], 0), s);
      ReadAppend(Reading([], 0), Digits(sx), Pads(pad));
      ReadDigits([], sx);
      assert [] + sx == sx;
      ReadPads(sx, pad);
      GroupsOfBits(|sx|, pad);
    }
  }

  lemma ReadPads(sx: seq<Sextet>, pad: nat)
    requires pad <= 2
    ensures ReadText(Reading(sx, 0), Pads(pad)) == Reading(sx, pad)
  {
    ReadPadding(sx, 1);
    ReadPadding(sx, 2);
    ReadPadding(sx, 3);
    assert Pads(1) == "=" && Pads(2) == "==" && Pads(0) == "";
  }

  lemma GroupsOfBits(n: nat, pad: nat)
    requires pad <= 2
    ensures (6 * n - 2 * pad) % 8 == 0 <==> (n + pad) % 4 == 0
  {
  }

  //////////////////////////////////////////////////////////////////////////////
  // Shifts
  //////////////////////////////////////////////////////////////////////////////

  /** Shifts by the even distances that occur. */
  function ShiftLeft(x: nat, n: nat): nat {
    if n == 0 then x else if n == 2 then 4 * x else if n == 4 then 16 * x else if n == 6 then 64 * x else 256 * x
  }

  function ShiftRight(x: nat, n: nat): nat {
    if n == 0 then x else if n == 2 then x / 4 else if n == 4 then x / 16 else if n == 6 then x / 64 else x / 256
  }

  /** The sextet that starts at the given bit, as base64_encode computes it. */
  function SextetOf(a: Byte, b: Byte, more: bool, shift: nat): Sextet
    requires shift < 8
  {
    var tmp := ShiftLeft(a, shift);
    var all := if more then Bits.Or(tmp, ShiftRight(b, 8 - shift)) else tmp;
    all / 4 % 64
  }

  lemma ShiftedPair(x: nat, y: nat, k: nat, p: nat)
    requires p == Pow2(k) && y < p
    ensures Bits.Or(p * x, y) == p * x + y
  {
    DivModUnique(p * x, p, x, 0);
    Bits.OrDisjoint(p * x, y, k);
  }

  lemma SmallPowers()
    ensures Pow2(2) == 4 && Pow2(4) == 16 && Pow2(6) == 64
  {
    assert Pow2(1) == 2;
    assert Pow2(3) == 8;
    assert Pow2(5) == 32;
  }

  lemma SextetOfIs(a: Byte, b: Byte, more: bool)
    requires !more ==> b == 0
    ensures SextetOf(a, b, more, 0) == First(a)
    ensures SextetOf(a, b, more, 6) == Second(a, b)
    ensures SextetOf(a, b, more, 4) == Third(a, b)
    ensures SextetOf(a, b, more, 2) == Fourth(a)
  {
    SmallPowers();
    ShiftedPair(a, b / 4, 6, 64);
    ShiftedPair(a, b / 16, 4, 16);
    ShiftedPair(a, b / 64, 2, 4);
    assert Bits.Or(a, 0) == a;
    hide Bits.Or, Pow2;
    Quarter(a, b);
  }

  lemma Quarter(a: Byte, b: Byte)
    ensures (64 * a + b / 4) / 4 % 64 == Second(a, b)
    ensures (16 * a + b / 16) / 4 % 64 == Third(a, b)
    ensures (4 * a + b / 64) / 4 % 64 == Fourth(a)
    ensures a / 4 % 64 == First(a)
  {
    QuarterSecond(a, b);
    QuarterThird(a, b);
    QuarterFourth(a, b);
    hide Second, Third, Fourth;
    SmallModulo(a / 4, 64);
  }

  lemma QuarterSecond(a: Byte, b: Byte)
    ensures (64 * a + b / 4) / 4 % 64 == Second(a, b)
  {
    DivModUnique(64 * a + b / 4, 4, 16 * a + b / 4 / 4, b / 4 % 4);
    assert b / 4 / 4 == b / 16;
    DivModUnique(16 * a + b / 16, 64, a / 4, Second(a, b));
  }

  lemma QuarterThird(a: Byte, b: Byte)
    ensures (16 * a + b / 16) / 4 % 64 == Third(a, b)
  {
    DivModUnique(16 * a + b / 16, 4, 4 * a + b / 16 / 4, b / 16 % 4);
    assert b / 16 / 4 == b / 64;
    DivModUnique(4 * a + b / 64, 64, a / 16, Third(a, b));
  }

  lemma QuarterFourth(a: Byte, b: Byte)
    ensures (4 * a + b / 64) / 4 % 64 == Fourth(a)
  {
    DivModUnique(4 * a + b / 64, 4, a, b / 64);
  }

  //////////////////////////////////////////////////////////////////////////////
  // The encoder
  //////////////////////////////////////////////////////////////////////////////

  /** The byte and the shift at which sextet k starts. */
  lemma Alignment(k: nat)
    ensures 6 * k / 8 == k / 4 * 3 + (if k % 4 == 0 then 0 else k % 4 - 1)
    ensures 6 * k % 8 == if k % 4 == 0 then 0 else if k % 4 == 1 then 6 else if k % 4 == 2 then 4 else 2
  {
    var g, r := k / 4, k % 4;
    assert 6 * k == 8 * (3 * g) + 6 * r;
    DivModUnique(6 * k, 8, 3 * g + (if r == 0 then 0 else r - 1), if r == 0 then 0 else if r == 1 then 6 else if r == 2 then 4 else 2);
  }

  function Following(raw: seq<Byte>, byte: nat): Byte {
    if byte + 1 < |raw| then raw[byte + 1] else 0
  }

  /** The loop of base64_encode computes the sextets of the standard. */
  lemma {:induction false} EncodedSextet(raw: seq<Byte>, k: nat)
    requires k < |Sextets(raw)|
    ensures 6 * k / 8 < |raw|
    ensures SextetOf(raw[6 * k / 8], Following(raw, 6 * k / 8), 6 * k / 8 + 1 < |raw|, 6 * k % 8) == Sextets(raw)[k]
    decreases |raw|
  {
    hide SextetOf;
    if k >= 4 {
      GroupBefore(raw, k);
      hide Sextets;
      EncodedSextet(raw[3..], k - 4);
      EarlierGroup(k);
      ThreeOn(raw, 6 * (k - 4) / 8);
    } else {
      EncodedFirst(raw, k);
    }
  }

  lemma GroupBefore(raw: seq<Byte>, k: nat)
    requires 4 <= k < |Sextets(raw)|
    ensures |raw| > 3 && k - 4 < |Sextets(raw[3..])| && Sextets(raw)[k] == Sextets(raw[3..])[k - 4]
  {
    var first := FirstFour(raw);
  }

  lemma ThreeOn(raw: seq<Byte>, byte: nat)
    requires |raw| > 3 && byte < |raw[3..]|
    ensures raw[3..][byte] == raw[byte + 3] && Following(raw[3..], byte) == Following(raw, byte + 3)
    ensures byte + 1 < |raw[3..]| <==> byte + 3 + 1 < |raw|
  {
  }

  lemma EarlierGroup(k: nat)
    requires k >= 4
    ensures 6 * k / 8 == 6 * (k - 4) / 8 + 3 && 6 * k % 8 == 6 * (k - 4) % 8
  {
    var x := 6 * (k - 4);
    DivModUnique(6 * k, 8, x / 8 + 3, x % 8);
  }

  lemma EncodedFirst(raw: seq<Byte>, k: nat)
    requires k < |Sextets(raw)| && k < 4
    ensures 6 * k / 8 < |raw|
    ensures SextetOf(raw[6 * k / 8], Following(raw, 6 * k / 8), 6 * k / 8 + 1 < |raw|, 6 * k % 8) == Sextets(raw)[k]
  {
    var byte := if k == 0 then 0 else k - 1;
    assert 6 * k / 8 == byte && byte < |raw|;
    SextetOfIs(raw[byte], Following(raw, byte), byte + 1 < |raw|);
    hide SextetOf, First, Second, Third, Fourth;
  }

  /** The buffer holds as much of the text as fits. */
  ghost predicate Holds(data: seq<char>, text: string, used: nat) {
    used <= |text| && forall i :: 0 <= i < used && i < |data| ==> data[i] == text[i]
  }

  lemma HoldsOne(data: seq<char>, text: string, used: nat, data': seq<char>)
    requires Holds(data, text, used) && used < |text| && |data'| == |data|
    requires data' == if used < |data| then data[used := text[used]] else data
    ensures Holds(data', text, used + 1)
  {
  }

  const UINT := 0x1_0000_0000

  /** The loop's bit counter, an unsigned int. */
  function BitAfter(n: nat): nat {
    if n == 0 then 0 else (BitAfter(n - 1) + 6) % UINT
  }

  lemma {:induction false} BitAfterIs(n: nat)
    ensures BitAfter(n) == 6 * n % UINT
  {
    if n > 0 {
      BitAfterIs(n - 1);
      WrapSum(6 * (n - 1), 6);
    }
  }

  lemma WrapSum(x: int, y: int)
    ensures (x % UINT + y) % UINT == (x + y) % UINT
  {
    ModShift(x % UINT + y, x / UINT, UINT);
  }

  /** The counter modulo 2^32, in bytes. */
  lemma WrappedBytes(x: int)
    ensures x % UINT % 8 == x % 8
    ensures x % 8 == 0 ==> x % UINT / 8 == x / 8 % 0x2000_0000
  {
    ModOfMultiple(x, 8, 0x2000_0000);
    if x % 8 == 0 {
      var q, r := x / UINT, x % UINT;
      assert x / 8 == q * 0x2000_0000 + r / 8;
      DivModUnique(x / 8, 0x2000_0000, q, r / 8);
    }
  }

  /** The first loop ends exactly for inputs of less than 2^29 bytes, whose bits the counter can count. */
  lemma EncodingEnds(m: nat)
    ensures (exists n :: BitAfter(n) >= 8 * m) <==> m < 0x2000_0000
  {
    if m < 0x2000_0000 {
      var n := (8 * m + 5) / 6;
      BitAfterIs(n);
      SmallModulo(6 * n, UINT);
      assert BitAfter(n) >= 8 * m;
    } else {
      forall n
        ensures BitAfter(n) < 8 * m
      {
        BitAfterIs(n);
      }
    }
  }

  /** base64_encode: the text, cut to the buffer and terminated; its full length is returned. */
  method EncodeInto(raw: seq<Byte>, data: array<char>) returns (used: nat)
    requires |raw| < 0x2000_0000
    modifies data
    ensures used == |Encode(raw)|
    ensures forall i :: 0 <= i < used && i < data.Length - 1 ==> data[i] == Encode(raw)[i]
    ensures data.Length > 0 ==> data[if used < data.Length then used else data.Length - 1] == '\0'
  {
    var text := Encode(raw);
    used := EncodeDigits(raw, data);
    used := EncodePadding(raw, data, used);
    if used < data.Length {
      data[used] := '\0';
    }
    if data.Length > 0 {
      data[data.Length - 1] := '\0';
    }
  }

  /** The first loop: six bits at a time. */
  method EncodeDigits(raw: seq<Byte>, data: array<char>) returns (used: nat)
    requires |raw| < 0x2000_0000
    modifies data
    ensures used == |Sextets(raw)| && Holds(data[..], Encode(raw), used)
  {
    ghost var sx := Sextets(raw);
    SextetBits(raw);
    PadBound(|raw|);
    hide Sextets, PadCount, SextetOf, Digit, Holds;
    NothingHeld(data[..], Encode(raw));
    used := 0;
    var bit := 0;
    while bit < 8 * |raw|
      invariant bit == 6 * used && used <= |sx|
      invariant Holds(data[..], Encode(raw), used)
    {
      EncodedSextet(raw, used);
      var byte, shift := bit / 8, bit % 8;
      var v := SextetOf(raw[byte], Following(raw, byte), byte + 1 < |raw|, shift);
      assert Encode(raw)[used] == Digit(v);
      ghost var was := data[..];
      if used < data.Length {
        data[used] := Digit(v);
      }
      assert data[..] == if used < |was| then was[used := Digit(v)] else was;
      HoldsOne(was, Encode(raw), used, data[..]);
      SmallModulo(bit + 6, UINT);
      bit := (bit + 6) % UINT;
      used := used + 1;
    }
  }

  lemma PadBound(n: nat)
    ensures PadCount(n) <= 2 && |Padding(n)| == PadCount(n) && forall i :: 0 <= i < PadCount(n) ==> Padding(n)[i] == '='
  {
  }

  lemma NothingHeld(data: seq<char>, text: string)
    ensures Holds(data, text, 0)
  {
  }

  /** The second loop: padding up to a whole number of bytes. */
  method EncodePadding(raw: seq<Byte>, data: array<char>, start: nat) returns (used: nat)
    requires |raw| < 0x2000_0000
    requires start == |Sextets(raw)| && Holds(data[..], Encode(raw), start)
    modifies data
    ensures used == |Encode(raw)| && Holds(data[..], Encode(raw), used)
  {
    SextetBits(raw);
    PadBound(|raw|);
    hide Sextets, PadCount, Padding, Holds, Digits;
    used := start;
    var bit := 6 * start;
    SmallModulo(bit, UINT);
    ghost var k := 0;
    while bit % 8 != 0
      invariant 0 <= k <= PadCount(|raw|) && used == start + k && bit == (8 * |raw| + 2 * PadCount(|raw|) + 6 * k) % UINT
      invariant Holds(data[..], Encode(raw), used)
      decreases PadCount(|raw|) - k
    {
      PadStep(|raw|, PadCount(|raw|), k);
      assert Encode(raw)[used] == '=';
      ghost var was := data[..];
      if used < data.Length {
        data[used] := '=';
      }
      assert data[..] == if used < |was| then was[used := '='] else was;
      HoldsOne(was, Encode(raw), used, data[..]);
      WrapSum(8 * |raw| + 2 * PadCount(|raw|) + 6 * k, 6);
      bit := (bit + 6) % UINT;
      used := used + 1;
      k := k + 1;
    }
    PadStep(|raw|, PadCount(|raw|), k);
  }

  lemma PadStep(n: nat, pad: nat, k: nat)
    requires k <= pad <= 2
    ensures (8 * n + 2 * pad + 6 * k) % UINT % 8 == 0 <==> k == pad
  {
    ModOfMultiple(8 * n + 2 * pad + 6 * k, 8, 0x2000_0000);
    assert 8 * n + 2 * pad + 6 * k == 8 * (n + k) + 2 * (pad - k);
  }

  //////////////////////////////////////////////////////////////////////////////
  // The decoder
  //////////////////////////////////////////////////////////////////////////////

  /** strchr in the table. */
  method Lookup(c: char) returns (v: Option<Sextet>)
    ensures v == Value(c)
  {
    hide Digit, Value;
    for i := 0 to 64
      invariant forall k: Sextet :: k < i ==> Value(c) != Some(k)
    {
      ValueDigit(c, i);
      if Digit(i) == c {
        return Some(i);
      }
    }
    return None;
  }

  /** The two bytes that sextet number n touches, and what it contributes to them. */
  function Offset(n: nat): nat { 6 * n / 8 }
  function Upper(n: nat, s: Sextet): nat { ShiftRight(4 * s, 6 * n % 8) }
  function Lower(n: nat, s: Sextet): nat { ShiftLeft(4 * s, 8 - 6 * n % 8) % 256 }

  lemma AtAppend(sx: seq<Sextet>, s: Sextet, k: nat)
    ensures At(sx + [s], k) == if k == |sx| then s else At(sx, k)
    ensures k >= |sx| ==> At(sx, k) == 0
  {
  }

  /** The bytes of group g. */
  lemma ByteAtGroup(sx: seq<Sextet>, g: nat)
    ensures ByteAt(sx, 3 * g) == High(At(sx, 4 * g), At(sx, 4 * g + 1))
    ensures ByteAt(sx, 3 * g + 1) == Middle(At(sx, 4 * g + 1), At(sx, 4 * g + 2))
    ensures ByteAt(sx, 3 * g + 2) == Low(At(sx, 4 * g + 2), At(sx, 4 * g + 3))
  {
    DivModUnique(3 * g, 3, g, 0);
    DivModUnique(3 * g + 1, 3, g, 1);
    DivModUnique(3 * g + 2, 3, g, 2);
    hide High, Middle, Low, At;
  }

  /** Where a sextet goes, and what it contributes there. */
  lemma Parts(n: nat, s: Sextet)
    ensures n % 4 == 0 ==> Offset(n) == n / 4 * 3 && Upper(n, s) == 4 * s && Lower(n, s) == 0
    ensures n % 4 == 1 ==> Offset(n) == n / 4 * 3 && Upper(n, s) == s / 16 && Lower(n, s) == s % 16 * 16
    ensures n % 4 == 2 ==> Offset(n) == n / 4 * 3 + 1 && Upper(n, s) == s / 4 && Lower(n, s) == s % 4 * 64
    ensures n % 4 == 3 ==> Offset(n) == n / 4 * 3 + 2 && Upper(n, s) == s && Lower(n, s) == 0
  {
    Alignment(n);
    DivModUnique(1024 * s, 256, 4 * s, 0);
    DivModUnique(16 * s, 256, s / 16, s % 16 * 16);
    DivModUnique(64 * s, 256, s / 4, s % 4 * 64);
    DivModUnique(256 * s, 256, s, 0);
    QuarterParts(s);
  }

  lemma QuarterParts(s: Sextet)
    ensures 4 * s / 64 == s / 16 && 4 * s / 16 == s / 4 && 4 * s / 4 == s
  {
    DivModUnique(4 * s, 64, s / 16, s % 16 * 4);
    DivModUnique(4 * s, 16, s / 4, s % 4 * 4);
  }

  lemma OrHigh(t: Sextet, s: Sextet)
    ensures Bits.Or(High(t, 0), s / 16) == High(t, s)
  {
    SmallPowers();
    ShiftedPair(t, s / 16, 2, 4);
    hide Bits.Or, Pow2;
  }

  lemma OrMiddle(t: Sextet, s: Sextet)
    ensures Bits.Or(Middle(t, 0), s / 4) == Middle(t, s)
  {
    SmallPowers();
    ShiftedPair(t % 16, s / 4, 4, 16);
    hide Bits.Or, Pow2;
  }

  lemma OrLow(t: Sextet, s: Sextet)
    ensures Bits.Or(Low(t, 0), s) == Low(t, s)
  {
    SmallPowers();
    ShiftedPair(t % 4, s, 6, 64);
    hide Bits.Or, Pow2;
  }

  lemma OrZero(x: nat)
    ensures Bits.Or(x, 0) == x && Bits.Or(0, x) == x
  {
  }

  lemma NoHigh()
    ensures High(0, 0) == 0
  {
  }

  lemma NoMiddle()
    ensures Middle(0, 0) == 0
  {
  }

  lemma NoLow()
    ensures Low(0, 0) == 0
  {
  }

  lemma HighAlone(s: Sextet)
    ensures High(s, 0) == 4 * s
  {
  }

  lemma MiddleAlone(s: Sextet)
    ensures Middle(s, 0) == s % 16 * 16
  {
  }

  lemma LowAlone(s: Sextet)
    ensures Low(s, 0) == s % 4 * 64
  {
  }

  /** A sextet does not reach the bytes of another group. */
  lemma OtherGroup(sx: seq<Sextet>, s: Sextet, g: nat)
    requires g != |sx| / 4
    ensures ByteAt(sx + [s], 3 * g) == ByteAt(sx, 3 * g)
    ensures ByteAt(sx + [s], 3 * g + 1) == ByteAt(sx, 3 * g + 1)
    ensures ByteAt(sx + [s], 3 * g + 2) == ByteAt(sx, 3 * g + 2)
  {
    hide ByteAt, At, High, Middle, Low;
    ByteAtGroup(sx, g);
    ByteAtGroup(sx + [s], g);
    AtAppend(sx, s, 4 * g);
    AtAppend(sx, s, 4 * g + 1);
    AtAppend(sx, s, 4 * g + 2);
    AtAppend(sx, s, 4 * g + 3);
  }

  /** In its own group a sextet fills in the bits that are still zero. */
  lemma HighByte(sx: seq<Sextet>, s: Sextet, g: nat)
    requires g == |sx| / 4
    ensures var x, r := ByteAt(sx, 3 * g), |sx| % 4;
      ByteAt(sx + [s], 3 * g) == if r == 0 then Bits.Or(x, 4 * s) else if r == 1 then Bits.Or(x, s / 16) else x
  {
    hide ByteAt, At, High, Middle, Low, Bits.Or;
    ByteAtGroup(sx, g);
    ByteAtGroup(sx + [s], g);
    AtAppend(sx, s, 4 * g);
    AtAppend(sx, s, 4 * g + 1);
    NoHigh();
    HighAlone(s);
    OrZero(4 * s);
    OrHigh(At(sx, 4 * g), s);
    GroupSplit(|sx|);
  }

  lemma MiddleByte(sx: seq<Sextet>, s: Sextet, g: nat)
    requires g == |sx| / 4
    ensures var x, r := ByteAt(sx, 3 * g + 1), |sx| % 4;
      ByteAt(sx + [s], 3 * g + 1) == if r == 1 then Bits.Or(x, s % 16 * 16) else if r == 2 then Bits.Or(x, s / 4) else x
  {
    hide ByteAt, At, High, Middle, Low, Bits.Or;
    ByteAtGroup(sx, g);
    ByteAtGroup(sx + [s], g);
    AtAppend(sx, s, 4 * g + 1);
    AtAppend(sx, s, 4 * g + 2);
    NoMiddle();
    MiddleAlone(s);
    OrZero(s % 16 * 16);
    OrMiddle(At(sx, 4 * g + 1), s);
    GroupSplit(|sx|);
  }

  lemma LowByte(sx: seq<Sextet>, s: Sextet, g: nat)
    requires g == |sx| / 4
    ensures var x, r := ByteAt(sx, 3 * g + 2), |sx| % 4;
      ByteAt(sx + [s], 3 * g + 2) == if r == 2 then Bits.Or(x, s % 4 * 64) else if r == 3 then Bits.Or(x, s) else x
  {
    hide ByteAt, At, High, Middle, Low, Bits.Or;
    ByteAtGroup(sx, g);
    ByteAtGroup(sx + [s], g);
    AtAppend(sx, s, 4 * g + 2);
    AtAppend(sx, s, 4 * g + 3);
    NoLow();
    LowAlone(s);
    OrZero(s % 4 * 64);
    OrLow(At(sx, 4 * g + 2), s);
    GroupSplit(|sx|);
  }

  lemma GroupSplit(n: nat)
    ensures n == n / 4 * 4 + n % 4 && n % 4 < 4
  {
  }

  /** One more sextet changes the bytes it overlaps, by or-ing bits in, and no others. */
  lemma ByteAtAppend(sx: seq<Sextet>, s: Sextet, j: nat)
    ensures var n := |sx|;
      ByteAt(sx + [s], j)
      == if j == Offset(n) then Bits.Or(ByteAt(sx, j), Upper(n, s))
         else if j == Offset(n) + 1 then Bits.Or(ByteAt(sx, j), Lower(n, s))
         else ByteAt(sx, j)
  {
    hide Bits.Or, ByteAt, Offset, Upper, Lower;
    var n := |sx|;
    var g := j / 3;
    Parts(n, s);
    OrZero(ByteAt(sx, j));
    assert j == 3 * g || j == 3 * g + 1 || j == 3 * g + 2;
    if g == n / 4 {
      HighByte(sx, s, g);
      MiddleByte(sx, s, g);
      LowByte(sx, s, g);
    } else {
      OtherGroup(sx, s, g);
    }
  }

  /** The buffer holds as many bytes of the sextets as fit. */
  ghost predicate Filled(out: seq<nat>, sx: seq<Sextet>) {
    forall j :: 0 <= j < |out| ==> out[j] == ByteAt(sx, j)
  }

  lemma EmptyFilled(out: seq<nat>)
    requires forall j :: 0 <= j < |out| ==> out[j] == 0
    ensures Filled(out, [])
  {
    forall j | 0 <= j < |out|
      ensures ByteAt([], j) == 0
    {
      hide ByteAt, High, Middle, Low;
      NoHigh();
      NoMiddle();
      NoLow();
      EmptyByte(j);
    }
  }

  lemma EmptyByte(j: nat)
    ensures ByteAt([], j) == High(0, 0) || ByteAt([], j) == Middle(0, 0) || ByteAt([], j) == Low(0, 0)
  {
    hide High, Middle, Low;
  }

  lemma FilledOne(out: seq<nat>, sx: seq<Sextet>, s: Sextet, out': seq<nat>)
    requires Filled(out, sx) && |out'| == |out|
    requires forall j :: 0 <= j < |out| ==>
               out'[j] == if j == Offset(|sx|) then Bits.Or(out[j], Upper(|sx|, s))
                          else if j == Offset(|sx|) + 1 then Bits.Or(out[j], Lower(|sx|, s))
                          else out[j]
    ensures Filled(out', sx + [s])
  {
    hide ByteAt, Bits.Or, Offset, Upper, Lower;
    forall j | 0 <= j < |out|
      ensures out'[j] == ByteAt(sx + [s], j)
    {
      ByteAtAppend(sx, s, j);
    }
  }

  /** Add one sextet to the raw data. */
  method AddSextet(out: array<nat>, ghost sx: seq<Sextet>, bit: nat, s: Sextet)
    modifies out
    ensures bit == 6 * |sx| && Filled(old(out[..]), sx) ==> Filled(out[..], sx + [s])
  {
    ghost var was := out[..];
    hide Bits.Or, ShiftLeft, ShiftRight, Filled;
    var inBits := 4 * s;
    var offset := bit / 8;
    if offset < out.Length {
      out[offset] := Bits.Or(out[offset], ShiftRight(inBits, bit % 8));
    }
    offset := offset + 1;
    if offset < out.Length {
      out[offset] := Bits.Or(out[offset], ShiftLeft(inBits, 8 - bit % 8) % 256);
    }
    if bit == 6 * |sx| && Filled(was, sx) {
      FilledOne(was, sx, s, out[..]);
    }
  }

  /** base64_decode: no result stands for -EINVAL. The length returned does not depend on the buffer, which
      receives as much of the data as fits. The bit counter wraps on texts of more than 2^32 bits. */
  method DecodeInto(encoded: string, out: array<nat>) returns (ret: Option<int>)
    modifies out
    ensures ret == match Decoded(encoded) case None => None case Some(n) => Some(n % 0x2000_0000)
    ensures ret.Some? ==>
              var r := ReadText(Reading([], 0), encoded);
              r.Reading? && (6 * |r.sx| <= UINT ==> Filled(out[..], r.sx))
  {
    hide Filled, Value, IsSpace;
    Zero(out);
    EmptyFilled(out[..]);
    ghost var whole := ReadText(Reading([], 0), encoded);
    ghost var sx: seq<Sextet> := [];
    var bit: int, pad := 0, 0;
    assert encoded[0..] == encoded;
    for i := 0 to |encoded|
      invariant ReadText(Reading(sx, pad), encoded[i..]) == whole
      invariant bit == (6 * |sx| - 2 * pad) % UINT && 0 <= pad <= 2
      invariant 6 * |sx| <= UINT ==> Filled(out[..], sx)
    {
      var c := encoded[i];
      assert encoded[i..][0] == c && encoded[i..][1..] == encoded[i + 1..];
      ReadStep(Reading(sx, pad), encoded[i..]);
      if IsSpace(c) {
        continue;
      }
      if c == '=' {
        if pad >= 2 {
          BadForever(encoded[i + 1..]);
          return None;
        }
        WrapSum(6 * |sx| - 2 * pad, -2);
        pad := pad + 1;
        bit := (bit - 2) % UINT;
        continue;
      }
      if pad > 0 {
        BadForever(encoded[i + 1..]);
        return None;
      }
      var v := Lookup(c);
      if v.None? {
        BadForever(encoded[i + 1..]);
        return None;
      }
      if 6 * |sx| < UINT {
        SmallModulo(6 * |sx|, UINT);
      }
      AddSextet(out, sx, bit, v.value);
      WrapSum(6 * |sx|, 6);
      sx := sx + [v.value];
      bit := (bit + 6) % UINT;
    }
    assert encoded[|encoded|..] == [];
    WrappedBytes(6 * |sx| - 2 * pad);
    if bit % 8 != 0 {
      return None;
    }
    return Some(bit / 8);
  }

  method Zero(out: array<nat>)
    modifies out
    ensures forall j :: 0 <= j < out.Length ==> out[j] == 0
  {
    for k := 0 to out.Length
      invariant forall j :: 0 <= j < k ==> out[j] == 0
    {
      out[k] := 0;
    }
  }

  lemma ReadStep(r: Reading, s: string)
    requires s != []
    ensures ReadText(r, s) == ReadText(ReadChar(r, s[0]), s[1..])
  {
  }

  lemma {:induction false} BadForever(s: string)
    ensures ReadText(Bad, s) == Bad
    decreases |s|
  {
    if s != [] {
      BadForever(s[1..]);
    }
  }

  /** Encoding and decoding into a buffer that is large enough gives the original back. */
  lemma RoundTrip(raw: seq<Byte>, out: seq<nat>)
    requires |out| >= |raw|
    requires ReadText(Reading([], 0), Encode(raw)).Reading?
    requires Filled(out, ReadText(Reading([], 0), Encode(raw)).sx)
    ensures Decoded(Encode(raw)) == Some(|raw|) && forall j :: 0 <= j < |raw| ==> out[j] == raw[j]
  {
    DecodeEncode(raw);
    hide ReadText, Encode, Sextets, ByteAt;
    forall j | 0 <= j < |raw|
      ensures out[j] == raw[j]
    {
      ByteAtSextets(raw, j);
    }
  }
}
