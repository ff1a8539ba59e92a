/** dhe.c: the Diffie-Hellman key calculation on big-endian byte strings. */
module Dhe {
  import opened Arith
  import opened BigNum
  import opened BigInt

  type Byte = x: nat | x < 256 witness 0

  function BytePow(n: nat): (p: nat)
    ensures p > 0
  {
    if n == 0 then 1 else 256 * BytePow(n - 1)
  }

  /** The number a big-endian byte string denotes. */
  function ByteValue(d: seq<Byte>): nat {
    if |d| == 0 then 0 else BytePow(|d| - 1) * d[0] + ByteValue(d[1..])
  }

  /** The kth byte from the end, and zero before the start. */
  function FromEnd(d: seq<Byte>, k: nat): Byte {
    if k < |d| then d[|d| - 1 - k] else 0
  }

  /** The number that the last k bytes denote. */
  function LowBytes(d: seq<Byte>, k: nat): nat {
    if k == 0 then 0 else LowBytes(d, k - 1) + BytePow(k - 1) * FromEnd(d, k - 1)
  }

  lemma {:induction false} LowBytesTail(d: seq<Byte>, k: nat)
    requires |d| > 0 && k < |d|
    ensures LowBytes(d[1..], k) == LowBytes(d, k)
  {
    if k > 0 {
      LowBytesTail(d, k - 1);
    }
  }

  lemma {:induction false} LowBytesAll(d: seq<Byte>, k: nat)
    requires k >= |d|
    ensures LowBytes(d, k) == ByteValue(d)
    decreases |d|, k
  {
    if k > |d| {
      LowBytesAll(d, k - 1);
      assert BytePow(k - 1) * 0 == 0;
    } else if k > 0 {
      LowBytesAll(d[1..], k - 1);
      LowBytesTail(d, k - 1);
    }
  }

  lemma {:induction false} BytePowBase(n: nat)
    ensures BytePow(4 * n) == BasePow(n)
  {
    if n > 0 {
      BytePowBase(n - 1);
      FourBytes(4 * (n - 1));
    }
  }

  lemma FourBytes(k: nat)
    ensures BytePow(k + 1) == 256 * BytePow(k)
    ensures BytePow(k + 2) == 65536 * BytePow(k)
    ensures BytePow(k + 3) == 16777216 * BytePow(k)
    ensures BytePow(k + 4) == BASE * BytePow(k)
  {
    assert BytePow(k + 2) == 256 * BytePow(k + 1);
    assert BytePow(k + 3) == 256 * BytePow(k + 2);
    assert BytePow(k + 4) == 256 * BytePow(k + 3);
  }

  /** Element i of the array that bigint_init fills: four bytes, the last of the string first. */
  function Element(d: seq<Byte>, i: nat): Limb {
    FromEnd(d, 4 * i) + 256 * FromEnd(d, 4 * i + 1) + 65536 * FromEnd(d, 4 * i + 2) + 16777216 * FromEnd(d, 4 * i + 3)
  }

  lemma ElementScaled(p: nat, a: nat, b: nat, c: nat, e: nat)
    ensures p * (a + 256 * b + 65536 * c + 16777216 * e)
         == p * a + (256 * p) * b + (65536 * p) * c + (16777216 * p) * e
  {
  }

  lemma {:induction false} ElementsValue(d: seq<Byte>, s: seq<Limb>, i: nat)
    requires i <= |s|
    requires forall j :: 0 <= j < i ==> s[j] == Element(d, j)
    ensures Low(s, i) == LowBytes(d, 4 * i)
  {
    if i > 0 {
      ElementsValue(d, s, i - 1);
      ElementStep(d, 4 * (i - 1));
      BytePowBase(i - 1);
      var k := 4 * (i - 1);
      ElementScaled(BytePow(k), FromEnd(d, k), FromEnd(d, k + 1), FromEnd(d, k + 2), FromEnd(d, k + 3));
      FourBytes(k);
    }
  }

  lemma ElementStep(d: seq<Byte>, k: nat)
    ensures LowBytes(d, k + 4) == LowBytes(d, k) + BytePow(k) * FromEnd(d, k) + BytePow(k + 1) * FromEnd(d, k + 1)
                                + BytePow(k + 2) * FromEnd(d, k + 2) + BytePow(k + 3) * FromEnd(d, k + 3)
  {
    assert LowBytes(d, k + 2) == LowBytes(d, k + 1) + BytePow(k + 1) * FromEnd(d, k + 1);
    assert LowBytes(d, k + 3) == LowBytes(d, k + 2) + BytePow(k + 2) * FromEnd(d, k + 2);
  }

  /** bigint_init: reversed into the array, padded with zeros. */
  method Init(value: array<Limb>, data: seq<Byte>)
    requires |data| <= 4 * value.Length
    modifies value
    ensures Value(value[..]) == ByteValue(data)
  {
    for i := 0 to value.Length
      invariant forall j :: 0 <= j < i ==> value[j] == Element(data, j)
    {
      value[i] := Element(data, i);
    }
    ElementsValue(data, value[..], value.Length);
    LowBytesAll(data, 4 * value.Length);
  }

  //////////////////////////////////////////////////////////////////////////////
  // Back to bytes
  //////////////////////////////////////////////////////////////////////////////

  /** Byte k of the array in memory. */
  function MemoryByte(s: seq<Limb>, k: nat): Byte
    requires k < 4 * |s|
  {
    var x, j := s[k / 4], k % 4;
    (if j == 0 then x else if j == 1 then x / 256 else if j == 2 then x / 65536 else x / 16777216) % 256
  }

  /** All bytes of the array, the highest first. */
  ghost function MemoryBytes(s: seq<Limb>): (d: seq<Byte>)
    ensures |d| == 4 * |s| && forall k :: 0 <= k < |d| ==> FromEnd(d, k) == MemoryByte(s, k)
  {
    var n := 4 * |s|;
    var d := seq(n, t requires 0 <= t < n => MemoryByte(s, n - 1 - t));
    d
  }

  lemma ElementBytes(x: Limb)
    ensures x == x % 256 + 256 * (x / 256 % 256) + 65536 * (x / 65536 % 256) + 16777216 * (x / 16777216 % 256)
  {
  }

  lemma ElementOfMemory(s: seq<Limb>, i: nat)
    requires i < |s|
    ensures Element(MemoryBytes(s), i) == s[i]
  {
    hide MemoryByte, FromEnd;
    ElementBytes(s[i]);
    MemoryByteAt(s, i, 0);
    MemoryByteAt(s, i, 1);
    MemoryByteAt(s, i, 2);
    MemoryByteAt(s, i, 3);
  }

  lemma MemoryByteAt(s: seq<Limb>, i: nat, j: nat)
    requires i < |s| && j < 4
    ensures MemoryByte(s, 4 * i + j)
         == (if j == 0 then s[i] else if j == 1 then s[i] / 256 else if j == 2 then s[i] / 65536 else s[i] / 16777216) % 256
  {
    DivModUnique(4 * i + j, 4, i, j);
  }

  lemma MemoryValue(s: seq<Limb>)
    ensures ByteValue(MemoryBytes(s)) == Value(s)
  {
    hide Element, MemoryBytes;
    var d := MemoryBytes(s);
    forall j | 0 <= j < |s|
      ensures s[j] == Element(d, j)
    {
      ElementOfMemory(s, j);
    }
    ElementsValue(d, s, |s|);
    LowBytesAll(d, 4 * |s|);
  }

  lemma {:induction false} LowBytesBound(d: seq<Byte>, k: nat)
    ensures LowBytes(d, k) < BytePow(k)
  {
    if k > 0 {
      LowBytesBound(d, k - 1);
      TopByte(BytePow(k - 1), FromEnd(d, k - 1));
    }
  }

  lemma TopByte(p: nat, b: Byte)
    ensures p * b <= 255 * p
  {
  }

  lemma {:induction false} BytePowAdd(a: nat, b: nat)
    ensures BytePow(a + b) == BytePow(a) * BytePow(b)
  {
    if a > 0 {
      BytePowAdd(a - 1, b);
      assert 256 * (BytePow(a - 1) * BytePow(b)) == (256 * BytePow(a - 1)) * BytePow(b);
    }
  }

  lemma {:induction false} HighBytes(d: seq<Byte>, i: nat, n: nat) returns (h: nat)
    requires i <= n
    ensures LowBytes(d, n) == LowBytes(d, i) + BytePow(i) * h
    decreases n - i
  {
    if n == i {
      h := 0;
    } else {
      var g := HighBytes(d, i, n - 1);
      h := g + BytePow(n - 1 - i) * FromEnd(d, n - 1);
      BytePowAdd(i, n - 1 - i);
      Scaled(BytePow(i), BytePow(n - 1 - i), FromEnd(d, n - 1), g);
    }
  }

  lemma LowBytesRemainder(d: seq<Byte>, k: nat)
    requires k <= |d|
    ensures LowBytes(d, k) == ByteValue(d) % BytePow(k)
  {
    var h := HighBytes(d, k, |d|);
    LowBytesAll(d, |d|);
    LowBytesBound(d, k);
    assert BytePow(k) * h == h * BytePow(k);
    DivModUnique(ByteValue(d), BytePow(k), h, LowBytes(d, k));
  }

  lemma {:induction false} LowBytesAgree(d: seq<Byte>, e: seq<Byte>, k: nat)
    requires forall j :: 0 <= j < k ==> FromEnd(d, j) == FromEnd(e, j)
    ensures LowBytes(d, k) == LowBytes(e, k)
  {
    hide FromEnd;
    if k > 0 {
      LowBytesAgree(d, e, k - 1);
    }
  }

  /** bigint_done: the lowest bytes of the array, reversed into the output. */
  method Done(value: array<Limb>, len: nat) returns (out: seq<Byte>)
    requires len <= 4 * value.Length
    ensures |out| == len && ByteValue(out) == Value(value[..]) % BytePow(len)
  {
    ghost var s := value[..];
    hide MemoryByte, ByteValue, Value, BytePow;
    out := [];
    var c := len;
    while c > 0
      invariant 0 <= c <= len && |out| == len - c
      invariant forall t :: 0 <= t < |out| ==> out[t] == MemoryByte(s, len - 1 - t)
    {
      out := out + [MemoryByte(value[..], c - 1)];
      c := c - 1;
    }
    DoneValue(s, out);
  }

  lemma DoneValue(s: seq<Limb>, out: seq<Byte>)
    requires |out| <= 4 * |s|
    requires forall t :: 0 <= t < |out| ==> out[t] == MemoryByte(s, |out| - 1 - t)
    ensures ByteValue(out) == Value(s) % BytePow(|out|)
  {
    hide MemoryByte, ByteValue, Value, BytePow;
    var d := MemoryBytes(s);
    LowBytesAgree(out, d, |out|);
    LowBytesAll(out, |out|);
    LowBytesRemainder(d, |out|);
    MemoryValue(s);
  }

  /** Strings of the same length denote different numbers unless they are equal. */
  lemma {:induction false} ByteValueInjective(d: seq<Byte>, e: seq<Byte>)
    requires |d| == |e| && ByteValue(d) == ByteValue(e)
    ensures d == e
  {
    if |d| > 0 {
      var p := BytePow(|d| - 1);
      ByteValueBound(d[1..]);
      ByteValueBound(e[1..]);
      DivModUnique(ByteValue(d), p, d[0], ByteValue(d[1..]));
      DivModUnique(ByteValue(d), p, e[0], ByteValue(e[1..]));
      ByteValueInjective(d[1..], e[1..]);
      assert d == [d[0]] + d[1..];
      assert e == [e[0]] + e[1..];
    }
  }

  lemma ByteValueBound(d: seq<Byte>)
    ensures ByteValue(d) < BytePow(|d|)
  {
    LowBytesAll(d, |d|);
    LowBytesBound(d, |d|);
  }

  //////////////////////////////////////////////////////////////////////////////
  // The key calculation
  //////////////////////////////////////////////////////////////////////////////

  datatype Outcome = Invalid | NoMemory | Keys(public: seq<Byte>, shared: seq<Byte>)

  /** The modulus in effect for strings of this length. */
  function DheModulus(modulus: seq<Byte>): (m: nat)
    ensures m > 0
  {
    if ByteValue(modulus) == 0 then BytePow(|modulus|) else ByteValue(modulus)
  }

  /** bigint_required_size. */
  function RequiredSize(len: nat): (n: nat)
    ensures len <= 4 * n < len + 4
  {
    (len + 3) / 4
  }

  lemma TruncatedPower(x: nat, e: nat, m: nat, len: nat, n: nat)
    requires len <= 4 * n && len > 0 && m < BytePow(len)
    ensures ModPower(x, e, Effective(m, n)) % BytePow(len) == ModPower(x, e, if m == 0 then BytePow(len) else m)
  {
    var b := BytePow(len);
    assert b == 256 * BytePow(len - 1);
    if e == 0 {
      SmallModulo(1, b);
    } else if m > 0 {
      SmallModulo(Pow(x, e) % m, b);
    } else {
      BytePowBase(n);
      BytePowAdd(len, 4 * n - len);
      ModOfMultiple(Pow(x, e), b, BytePow(4 * n - len));
    }
  }

  /** One exponentiation of dhe_key, from and to byte strings. */
  method Power(modulus: array<Limb>, base: array<Limb>, exponent: array<Limb>, result: array<Limb>, p: seq<Byte>)
    returns (out: seq<Byte>)
    requires base.Length == modulus.Length == result.Length == RequiredSize(|p|) > 0 && exponent.Length > 0
    requires result != base && result != modulus && result != exponent
    requires Value(modulus[..]) == ByteValue(p)
    modifies result
    ensures |out| == |p|
    ensures ByteValue(out) == ModPower(old(Value(base[..])), old(Value(exponent[..])), DheModulus(p))
  {
    hide Value, ByteValue, BytePow, BasePow, ModPower;
    ByteValueBound(p);
    TruncatedPower(Value(base[..]), Value(exponent[..]), ByteValue(p), |p|, modulus.Length);
    ModExp(base, modulus, exponent, result);
    out := Done(result, |p|);
  }

  predicate Acceptable(modulus: seq<Byte>, generator: seq<Byte>, partner: seq<Byte>, private: seq<Byte>) {
    |generator| <= |modulus| && |partner| <= |modulus| && |private| <= |modulus|
  }

  /** dhe_key. Whether malloc succeeds is the parameter memory; the copy loops of the big integers need at
      least one byte. */
  method DheKey(modulus: seq<Byte>, generator: seq<Byte>, partner: seq<Byte>, private: seq<Byte>, memory: bool)
    returns (r: Outcome)
    requires Acceptable(modulus, generator, partner, private) ==> |generator| > 0 && |partner| > 0 && |private| > 0
    ensures r == Invalid <==> !Acceptable(modulus, generator, partner, private)
    ensures r == NoMemory <==> Acceptable(modulus, generator, partner, private) && !memory
    ensures r.Keys? ==>
              && |r.public| == |r.shared| == |modulus|
              && ByteValue(r.public) == ModPower(ByteValue(generator), ByteValue(private), DheModulus(modulus))
              && ByteValue(r.shared) == ModPower(ByteValue(partner), ByteValue(private), DheModulus(modulus))
  {
    if |generator| > |modulus| || |partner| > |modulus| || |private| > |modulus| {
      return Invalid;
    }
    if !memory {
      return NoMemory;
    }
    hide Value, ByteValue, ModPower, DheModulus;
    var size := RequiredSize(|modulus|);
    var mod := new Limb[size];
    var gen := new Limb[size];
    var part := new Limb[size];
    var priv := new Limb[RequiredSize(|private|)];
    var result := new Limb[size];
    Init(mod, modulus);
    Init(gen, generator);
    Init(part, partner);
    Init(priv, private);
    var public := Power(mod, gen, priv, result, modulus);
    var shared := Power(mod, part, priv, result, modulus);
    r := Keys(public, shared);
  }

  //////////////////////////////////////////////////////////////////////////////
  // Agreement
  //////////////////////////////////////////////////////////////////////////////

  lemma SharedPower(g: nat, a: nat, b: nat, m: nat)
    requires m > 0 && a > 0 && b > 0
    ensures ModPower(ModPower(g, b, m), a, m) == Pow(g, b * a) % m
  {
    PowMod(Pow(g, b), a, m);
    PowPow(g, b, a);
  }

  lemma {:induction false} PowOne(k: nat)
    ensures Pow(1, k) == 1
  {
    if k > 0 {
      PowOne(k - 1);
    }
  }

  /** Each side raises the other's public value to its own exponent. Both obtain the same number unless the
      modulus is one and exactly one of the exponents is zero. */
  lemma Agreement(g: nat, a: nat, b: nat, m: nat)
    requires m > 0
    ensures ModPower(ModPower(g, b, m), a, m) == ModPower(ModPower(g, a, m), b, m)
       <==> !(m == 1 && (a == 0) != (b == 0))
  {
    if a > 0 && b > 0 {
      SharedPower(g, a, b, m);
      SharedPower(g, b, a, m);
      assert a * b == b * a;
    } else {
      PowOne(a);
      PowOne(b);
      if m > 1 {
        SmallModulo(1, m);
      }
    }
  }

  /** Two calls of dhe_key with the same modulus and generator, each given the other's public key. */
  method Exchange(modulus: seq<Byte>, generator: seq<Byte>, alice: seq<Byte>, bob: seq<Byte>, partner: seq<Byte>)
    returns (a: Outcome, b: Outcome)
    requires Acceptable(modulus, generator, partner, alice) && Acceptable(modulus, generator, partner, bob)
    requires |generator| > 0 && |partner| > 0 && |alice| > 0 && |bob| > 0
    ensures a.Keys? && b.Keys?
    ensures a.shared == b.shared <==> !(ByteValue(modulus) == 1 && (ByteValue(alice) == 0) != (ByteValue(bob) == 0))
  {
    hide ModPower, ByteValue;
    var publicA := DheKey(modulus, generator, partner, alice, true);
    var publicB := DheKey(modulus, generator, partner, bob, true);
    a := DheKey(modulus, generator, publicB.public, alice, true);
    b := DheKey(modulus, generator, publicA.public, bob, true);
    ModulusOne(modulus);
    Agreement(ByteValue(generator), ByteValue(alice), ByteValue(bob), DheModulus(modulus));
    if ByteValue(a.shared) == ByteValue(b.shared) {
      ByteValueInjective(a.shared, b.shared);
    }
  }

  lemma ModulusOne(modulus: seq<Byte>)
    requires |modulus| > 0
    ensures DheModulus(modulus) == 1 <==> ByteValue(modulus) == 1
  {
    assert BytePow(|modulus|) == 256 * BytePow(|modulus| - 1);
  }
}
