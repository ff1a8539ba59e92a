/** base16.c: hexadecimal text with any separator between the bytes, or none. */
module Base16 {
  import opened Options

  type Byte = x: nat | x < 256 witness 0

  const NUL := '\0'

  //////////////////////////////////////////////////////////////////////////////
  // Section 8 of RFC 4648
  //////////////////////////////////////////////////////////////////////////////

  function HexDigit(v: nat): char
    requires v < 16
  {
    if v < 10 then '0' + (v as char) else 'a' + ((v - 10) as char)
  }

  /** digit_value: anything that is not a digit of either case is at least sixteen. */
  function DigitValue(c: char): nat {
    if c >= 'a' then (c as int) - ('a' as int) + 10
    else if c >= 'A' then (c as int) - ('A' as int) + 10
    else if c <= '9' then (if c >= '0' then (c as int) - ('0' as int) else (c as int) - ('0' as int) + 0x1_0000_0000)
    else c as int
  }

  lemma DigitRoundTrip(v: nat)
    requires v < 16
    ensures DigitValue(HexDigit(v)) == v
  {
  }

  const LOWER := "0123456789abcdef"
  const UPPER := "0123456789ABCDEF"

  /** Digits are written in lower case, and read in either. */
  lemma DigitsExactly(c: char, v: nat)
    requires v < 16
    ensures HexDigit(v) == LOWER[v]
    ensures DigitValue(c) == v <==> c == LOWER[v] || c == UPPER[v]
  {
  }

  /** The separator in front of a byte: none in front of the first, and none if it is NUL. */
  function Separator(separator: char, first: bool): string {
    if first || separator == NUL then "" else [separator]
  }

  function Pair(b: Byte): string {
    [HexDigit(b / 16), HexDigit(b % 16)]
  }

  function Hex(separator: char, raw: seq<Byte>, first: bool): string {
    if raw == [] then "" else Separator(separator, first) + Pair(raw[0]) + Hex(separator, raw[1..], false)
  }

  /** What hex_decode reads: the separator if one is expected, then two digits, until the text ends. */
  function Unhex(separator: char, text: string, first: bool): Option<seq<Byte>>
    decreases |text|
  {
    if text == "" then Some([])
    else
      var skip := if first || separator == NUL then 0 else 1;
      if skip == 1 && text[0] != separator then None
      else if |text| < skip + 2 || DigitValue(text[skip]) >= 16 || DigitValue(text[skip + 1]) >= 16 then None
      else
        var rest := Unhex(separator, text[skip + 2..], false);
        if rest.None? then None
        else Some([DigitValue(text[skip]) * 16 + DigitValue(text[skip + 1])] + rest.value)
  }

  /** Decoding what was encoded with the same separator gives it back. */
  lemma {:induction false} UnhexHex(separator: char, raw: seq<Byte>, first: bool)
    ensures Unhex(separator, Hex(separator, raw, first), first) == Some(raw)
    decreases |raw|
  {
    if raw != [] {
      var b := raw[0];
      DigitRoundTrip(b / 16);
      DigitRoundTrip(b % 16);
      UnhexHex(separator, raw[1..], false);
      hide HexDigit, DigitValue;
      var sep := Separator(separator, first);
      var text := Hex(separator, raw, first);
      assert text == sep + Pair(b) + Hex(separator, raw[1..], false);
      assert text[|sep| + 2..] == Hex(separator, raw[1..], false);
      assert text[|sep|] == HexDigit(b / 16) && text[|sep| + 1] == HexDigit(b % 16);
      assert [b] + raw[1..] == raw;
    }
  }

  /** The same character, or the same digit. */
  ghost predicate SameDigit(c: char, d: char) {
    c == d || DigitValue(c) == DigitValue(d) < 16
  }

  ghost predicate SameText(s: string, t: string) {
    |s| == |t| && forall i :: 0 <= i < |s| ==> SameDigit(s[i], t[i])
  }

  /** Whatever decodes is, but for the case of its digits, the encoding of what it decodes to. */
  lemma {:induction false} HexUnhex(separator: char, text: string, first: bool)
    requires Unhex(separator, text, first).Some?
    ensures SameText(text, Hex(separator, Unhex(separator, text, first).value, first))
    decreases |text|
  {
    if text != "" {
      var skip := if first || separator == NUL then 0 else 1;
      var high, low, rest := DigitValue(text[skip]), DigitValue(text[skip + 1]), text[skip + 2..];
      DigitRoundTrip(high);
      DigitRoundTrip(low);
      HexUnhex(separator, rest, false);
      hide DigitValue, HexDigit;
      var bytes := Unhex(separator, text, first).value;
      var more := Hex(separator, bytes[1..], false);
      assert bytes[1..] == Unhex(separator, rest, false).value;
      assert bytes[0] / 16 == high && bytes[0] % 16 == low;
      var whole := Separator(separator, first) + Pair(bytes[0]) + more;
      assert Hex(separator, bytes, first) == whole;
      forall i | 0 <= i < |text|
        ensures SameDigit(text[i], whole[i])
      {
        if i >= skip + 2 {
          assert text[i] == rest[i - skip - 2] && whole[i] == more[i - skip - 2];
        }
      }
    }
  }

  //////////////////////////////////////////////////////////////////////////////
  // Into a buffer
  //////////////////////////////////////////////////////////////////////////////

  /** As much of the text as fits, with a terminating NUL. */
  ghost predicate Holds(data: seq<char>, text: string) {
    && (forall i :: 0 <= i < |text| && i < |data| - 1 ==> data[i] == text[i])
    && (|data| > 0 ==> data[if |text| < |data| then |text| else |data| - 1] == NUL)
  }

  /** ssnprintf of a text at the given offset, which may lie behind the buffer. */
  method Print(data: array<char>, ghost text: string, at: nat, more: string)
    requires at == |text| && Holds(data[..], text)
    modifies data
    ensures Holds(data[..], text + more)
  {
    if at >= data.Length {
      return;
    }
    for i := 0 to |more|
      invariant forall k :: 0 <= k < at && k < data.Length - 1 ==> data[k] == text[k]
      invariant forall k :: 0 <= k < i && at + k < data.Length ==> data[at + k] == more[k]
    {
      if at + i < data.Length {
        data[at + i] := more[i];
      }
    }
    var end := if at + |more| < data.Length then at + |more| else data.Length - 1;
    data[end] := NUL;
    ghost var all := text + more;
    forall i | 0 <= i < |all| && i < data.Length - 1
      ensures data[i] == all[i]
    {
      if i >= at {
        assert data[at + (i - at)] == more[i - at];
      }
    }
  }

  /** The loop counter of hex_encode, an unsigned int. */
  function CountAfter(n: nat): nat {
    n % 0x1_0000_0000
  }

  /** The loop ends exactly for inputs of less than 2^32 bytes. */
  lemma EncodingEnds(m: nat)
    ensures (exists n: nat :: CountAfter(n) >= m) <==> m < 0x1_0000_0000
  {
    if m < 0x1_0000_0000 {
      assert CountAfter(m) == m;
    }
  }

  /** hex_encode. */
  method HexEncode(separator: char, raw: seq<Byte>, data: array<char>) returns (used: nat)
    requires |raw| < 0x1_0000_0000
    modifies data
    ensures used == |Hex(separator, raw, true)| && Holds(data[..], Hex(separator, raw, true))
  {
    if data.Length > 0 {
      data[0] := NUL;
    }
    used := 0;
    ghost var text := "";
    hide Pair, Holds, Hex, Separator;
    EmptyHolds(data[..]);
    assert raw[0..] == raw;
    assert "" + Hex(separator, raw, true) == Hex(separator, raw, true);
    for i := 0 to |raw|
      invariant used == |text| && Holds(data[..], text) && (used == 0 <==> i == 0)
      invariant text + Hex(separator, raw[i..], i == 0) == Hex(separator, raw, true)
    {
      HexStep(separator, raw, i, text, used == 0);
      var more := Separator(separator, used == 0) + Pair(raw[i]);
      PairLength(raw[i]);
      Print(data, text, used, more);
      text := text + more;
      used := used + |more|;
    }
    assert raw[|raw|..] == [];
    HexEnd(separator, text, |raw| == 0);
  }

  lemma HexStep(separator: char, raw: seq<Byte>, i: nat, text: string, first: bool)
    requires i < |raw|
    ensures var more := Separator(separator, first) + Pair(raw[i]);
      text + Hex(separator, raw[i..], first) == (text + more) + Hex(separator, raw[i + 1..], false)
  {
    hide Pair, Separator;
    assert raw[i..][0] == raw[i] && raw[i..][1..] == raw[i + 1..];
    var more, rest := Separator(separator, first) + Pair(raw[i]), Hex(separator, raw[i + 1..], false);
    assert Hex(separator, raw[i..], first) == more + rest;
    assert text + (more + rest) == (text + more) + rest;
  }

  lemma HexEnd(separator: char, text: string, first: bool)
    ensures text + Hex(separator, [], first) == text
  {
  }

  lemma EmptyHolds(data: seq<char>)
    requires |data| > 0 ==> data[0] == NUL
    ensures Holds(data, "")
  {
  }

  lemma PairLength(b: Byte)
    ensures |Pair(b)| == 2
  {
  }

  /** The buffer holds as many bytes as fit. */
  ghost predicate Stored(out: seq<nat>, bytes: seq<Byte>) {
    forall i :: 0 <= i < |bytes| && i < |out| ==> out[i] == bytes[i]
  }

  /** hex_decode: no result stands for -EINVAL. The count returned does not depend on the buffer. */
  method HexDecode(separator: char, encoded: string, out: array<nat>) returns (count: Option<nat>)
    modifies out
    ensures var u := Unhex(separator, encoded, true);
      count == if u.None? then None else Some(|u.value|)
    ensures Unhex(separator, encoded, true).Some? ==> Stored(out[..], Unhex(separator, encoded, true).value)
  {
    hide DigitValue;
    var i, n := 0, 0;
    ghost var done: seq<Byte> := [];
    ghost var u := Unhex(separator, encoded, true);
    assert encoded[0..] == encoded;
    NothingBefore(u);
    while i < |encoded|
      invariant 0 <= i <= |encoded| && n == |done| && Stored(out[..], done)
      invariant u == Prefixed(done, Unhex(separator, encoded[i..], n == 0))
    {
      ghost var text := encoded[i..];
      var skip := 0;
      if n != 0 && separator != NUL {
        if encoded[i] != separator {
          return None;
        }
        skip := 1;
      }
      if |encoded| < i + skip + 2 {
        return None;
      }
      var sixteens, units := DigitValue(encoded[i + skip]), DigitValue(encoded[i + skip + 1]);
      if sixteens >= 16 || units >= 16 {
        return None;
      }
      assert text[skip] == encoded[i + skip] && text[skip + 1] == encoded[i + skip + 1];
      assert text[skip + 2..] == encoded[i + skip + 2..];
      var b := sixteens * 16 + units;
      if n < out.Length {
        out[n] := b;
      }
      PrefixedStep(done, b, Unhex(separator, encoded[i + skip + 2..], false));
      done := done + [b];
      n := n + 1;
      i := i + skip + 2;
    }
    assert encoded[i..] == "";
    assert done + [] == done;
    return Some(n);
  }

  function Prefixed(done: seq<Byte>, rest: Option<seq<Byte>>): Option<seq<Byte>> {
    if rest.None? then None else Some(done + rest.value)
  }

  lemma NothingBefore(u: Option<seq<Byte>>)
    ensures Prefixed([], u) == u
  {
    if u.Some? {
      assert [] + u.value == u.value;
    }
  }

  lemma PrefixedStep(done: seq<Byte>, b: Byte, rest: Option<seq<Byte>>)
    ensures Prefixed(done, if rest.None? then None else Some([b] + rest.value)) == Prefixed(done + [b], rest)
  {
    if rest.Some? {
      assert done + ([b] + rest.value) == done + [b] + rest.value;
    }
  }
}
