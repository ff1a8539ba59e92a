/** The AES cipher as FIPS-197 states it, the table-driven form aes.c uses, and why the two agree and
    decryption undoes encryption. */
module AesCipher {
  import opened Arith
  import opened Gf256
  import opened AesTables

  type State = s: seq<bv8> | |s| == 16 witness [0, 0, 0, 0, 0, 0, 0, 0, 0, 0, 0, 0, 0, 0, 0, 0]

  //////////////////////////////////////////////////////////////////////////////
  // The transformations of FIPS-197
  //////////////////////////////////////////////////////////////////////////////

  function Xor4(a: bv8, b: bv8, c: bv8, d: bv8): bv8 {
    Xor(Xor(a, b), Xor(c, d))
  }

  /** One byte of a column of MixColumns, from the column's bytes starting at that row. */
  function Mixed(a: bv8, b: bv8, c: bv8, d: bv8): bv8 {
    Xor4(Double(a), Triple(b), c, d)
  }

  function InvMixed(a: bv8, b: bv8, c: bv8, d: bv8): bv8 {
    Xor4(Times14(a), Times11(b), Times13(c), Times9(d))
  }

  /** The byte k rows further down the same column, cyclically. */
  function Below(i: nat, k: nat): (j: nat)
    requires i < 16 && k < 4
    ensures j < 16
  {
    if i % 4 + k < 4 then i + k else i + k - 4
  }

  function MixColumns(s: State): (r: State)
    ensures forall i :: 0 <= i < 16 ==> r[i] == Mixed(s[i], s[Below(i, 1)], s[Below(i, 2)], s[Below(i, 3)])
  {
    seq(16, i requires 0 <= i < 16 => Mixed(s[i], s[Below(i, 1)], s[Below(i, 2)], s[Below(i, 3)]))
  }

  function InvMixColumns(s: State): (r: State)
    ensures forall i :: 0 <= i < 16 ==> r[i] == InvMixed(s[i], s[Below(i, 1)], s[Below(i, 2)], s[Below(i, 3)])
  {
    seq(16, i requires 0 <= i < 16 => InvMixed(s[i], s[Below(i, 1)], s[Below(i, 2)], s[Below(i, 3)]))
  }

  /** Row r of the state moves r columns to the left. */
  function ShiftSource(i: nat): (j: nat)
    requires i < 16
    ensures j < 16
  {
    var j := i + 4 * (i % 4);
    if j < 16 then j else j - 16
  }

  function InvShiftSource(i: nat): (j: nat)
    requires i < 16
    ensures j < 16
  {
    var j := i - 4 * (i % 4);
    if j < 0 then j + 16 else j
  }

  function ShiftRows(s: State): (r: State)
    ensures forall i :: 0 <= i < 16 ==> r[i] == s[ShiftSource(i)]
  {
    seq(16, i requires 0 <= i < 16 => s[ShiftSource(i)])
  }

  function InvShiftRows(s: State): (r: State)
    ensures forall i :: 0 <= i < 16 ==> r[i] == s[InvShiftSource(i)]
  {
    seq(16, i requires 0 <= i < 16 => s[InvShiftSource(i)])
  }

  ghost function SubBytes(s: State): (r: State)
    ensures forall i :: 0 <= i < 16 ==> r[i] == SBox(s[i])
  {
    seq(16, i requires 0 <= i < 16 => SBox(s[i]))
  }

  ghost function InvSubBytes(s: State): (r: State)
    ensures forall i :: 0 <= i < 16 ==> r[i] == InvSBox(s[i])
  {
    seq(16, i requires 0 <= i < 16 => InvSBox(s[i]))
  }

  function AddRoundKey(s: State, k: State): (r: State)
    ensures forall i :: 0 <= i < 16 ==> r[i] == Xor(s[i], k[i])
  {
    seq(16, i requires 0 <= i < 16 => Xor(s[i], k[i]))
  }

  //////////////////////////////////////////////////////////////////////////////
  // MixColumns is invertible and linear
  //////////////////////////////////////////////////////////////////////////////

  lemma CoefficientsA(a: bv8)
    ensures Xor4(Times14(Double(a)), Times11(a), Times13(a), Times9(Triple(a))) == a
  {
  }

  lemma CoefficientsB(b: bv8)
    ensures Xor4(Times14(Triple(b)), Times11(Double(b)), Times13(b), Times9(b)) == 0
  {
  }

  lemma CoefficientsC(c: bv8)
    ensures Xor4(Times14(c), Times11(Triple(c)), Times13(Double(c)), Times9(c)) == 0
  {
  }

  lemma CoefficientsD(d: bv8)
    ensures Xor4(Times14(d), Times11(d), Times13(Triple(d)), Times9(Double(d))) == 0
  {
  }

  lemma Xor4Linear(a: bv8, b: bv8, c: bv8, d: bv8, a': bv8, b': bv8, c': bv8, d': bv8)
    ensures Xor4(Xor(a, a'), Xor(b, b'), Xor(c, c'), Xor(d, d')) == Xor(Xor4(a, b, c, d), Xor4(a', b', c', d'))
  {
    hide Xor;
    XorSwap(a, a', b, b');
    XorSwap(c, c', d, d');
    XorSwap(Xor(a, b), Xor(a', b'), Xor(c, d), Xor(c', d'));
  }

  lemma Xor4Swap(a: bv8, b: bv8, c: bv8, d: bv8, a': bv8, b': bv8, c': bv8, d': bv8)
    ensures Xor(Xor4(a, b, c, d), Xor4(a', b', c', d')) == Xor4(Xor(a, a'), Xor(b, b'), Xor(c, c'), Xor(d, d'))
  {
    hide Xor, Xor4;
    Xor4Linear(a, b, c, d, a', b', c', d');
  }

  /** A sum of four sums of four, by rows or by columns. */
  lemma Xor4Transpose(a: bv8, b: bv8, c: bv8, d: bv8, e: bv8, f: bv8, g: bv8, h: bv8,
                      i: bv8, j: bv8, k: bv8, l: bv8, m: bv8, n: bv8, o: bv8, p: bv8)
    ensures Xor4(Xor4(a, b, c, d), Xor4(e, f, g, h), Xor4(i, j, k, l), Xor4(m, n, o, p))
         == Xor4(Xor4(a, e, i, m), Xor4(b, f, j, n), Xor4(c, g, k, o), Xor4(d, h, l, p))
  {
    assert Xor4(Xor4(a, b, c, d), Xor4(e, f, g, h), Xor4(i, j, k, l), Xor4(m, n, o, p))
        == Xor(Xor(Xor4(a, b, c, d), Xor4(e, f, g, h)), Xor(Xor4(i, j, k, l), Xor4(m, n, o, p)));
    hide Xor;
    Xor4Swap(a, b, c, d, e, f, g, h);
    Xor4Swap(i, j, k, l, m, n, o, p);
    Xor4Swap(Xor(a, e), Xor(b, f), Xor(c, g), Xor(d, h), Xor(i, m), Xor(j, n), Xor(k, o), Xor(l, p));
  }

  lemma TimesLinear(x: bv8, y: bv8)
    ensures Times9(Xor(x, y)) == Xor(Times9(x), Times9(y))
    ensures Times11(Xor(x, y)) == Xor(Times11(x), Times11(y))
    ensures Times13(Xor(x, y)) == Xor(Times13(x), Times13(y))
    ensures Times14(Xor(x, y)) == Xor(Times14(x), Times14(y))
  {
    hide Xor, Double;
    DoubleLinear(x, y);
    DoubleLinear(Double(x), Double(y));
    DoubleLinear(Times4(x), Times4(y));
    XorSwap(Times8(x), Times8(y), x, y);
    XorSwap(Times9(x), Times9(y), Double(x), Double(y));
    XorSwap(Times8(x), Times8(y), Times4(x), Times4(y));
    XorSwap(Times12(x), Times12(y), x, y);
    XorSwap(Times12(x), Times12(y), Double(x), Double(y));
  }

  lemma TimesXor4(a: bv8, b: bv8, c: bv8, d: bv8)
    ensures Times9(Xor4(a, b, c, d)) == Xor4(Times9(a), Times9(b), Times9(c), Times9(d))
    ensures Times11(Xor4(a, b, c, d)) == Xor4(Times11(a), Times11(b), Times11(c), Times11(d))
    ensures Times13(Xor4(a, b, c, d)) == Xor4(Times13(a), Times13(b), Times13(c), Times13(d))
    ensures Times14(Xor4(a, b, c, d)) == Xor4(Times14(a), Times14(b), Times14(c), Times14(d))
  {
    hide Xor, Times9, Times11, Times13, Times14;
    TimesLinear(Xor(a, b), Xor(c, d));
    TimesLinear(a, b);
    TimesLinear(c, d);
  }

  /** InvMixColumns undoes MixColumns, one byte of one column. */
  lemma InvMixedMixed(a: bv8, b: bv8, c: bv8, d: bv8)
    ensures InvMixed(Mixed(a, b, c, d), Mixed(b, c, d, a), Mixed(c, d, a, b), Mixed(d, a, b, c)) == a
  {
    CoefficientsA(a);
    CoefficientsB(b);
    CoefficientsC(c);
    CoefficientsD(d);
    XorZero(a);
    XorZero(0);
    hide Xor, Times9, Times11, Times13, Times14, Double, Triple;
    assert Xor4(a, 0, 0, 0) == a;
    hide Xor4;
    TimesXor4(Double(a), Triple(b), c, d);
    TimesXor4(a, Double(b), Triple(c), d);
    TimesXor4(a, b, Double(c), Triple(d));
    TimesXor4(Triple(a), b, c, Double(d));
    Rotations(Double(b), Triple(c), d, a);
    Rotations(Double(c), Triple(d), a, b);
    Rotations(Double(d), Triple(a), b, c);
    Xor4Transpose(Times14(Double(a)), Times14(Triple(b)), Times14(c), Times14(d),
                  Times11(a), Times11(Double(b)), Times11(Triple(c)), Times11(d),
                  Times13(a), Times13(b), Times13(Double(c)), Times13(Triple(d)),
                  Times9(Triple(a)), Times9(b), Times9(c), Times9(Double(d)));
  }

  lemma Rotations(a: bv8, b: bv8, c: bv8, d: bv8)
    ensures Xor4(a, b, c, d) == Xor4(b, c, d, a) == Xor4(c, d, a, b) == Xor4(d, a, b, c)
  {
    hide Xor;
    XorComm(Xor(a, b), Xor(c, d));
    XorComm(Xor(b, c), Xor(d, a));
    XorComm(a, b);
    XorComm(d, c);
    XorSwap(b, a, c, d);
    XorComm(a, d);
  }

  lemma InvMixedLinear(a: bv8, b: bv8, c: bv8, d: bv8, a': bv8, b': bv8, c': bv8, d': bv8)
    ensures InvMixed(Xor(a, a'), Xor(b, b'), Xor(c, c'), Xor(d, d')) == Xor(InvMixed(a, b, c, d), InvMixed(a', b', c', d'))
  {
    hide Xor, Xor4, Times9, Times11, Times13, Times14;
    TimesLinear(a, a');
    TimesLinear(b, b');
    TimesLinear(c, c');
    TimesLinear(d, d');
    Xor4Linear(Times14(a), Times11(b), Times13(c), Times9(d), Times14(a'), Times11(b'), Times13(c'), Times9(d'));
  }

  lemma BelowBelow(i: nat, j: nat, k: nat)
    requires i < 16 && j < 4 && k < 4
    ensures Below(Below(i, j), k) == Below(i, if j + k < 4 then j + k else j + k - 4)
    ensures Below(i, 0) == i
  {
  }

  lemma InvMixMix(s: State)
    ensures InvMixColumns(MixColumns(s)) == s
  {
    hide InvMixed, Mixed, Below;
    var m := MixColumns(s);
    forall i | 0 <= i < 16
      ensures InvMixColumns(m)[i] == s[i]
    {
      BelowBelow(i, 1, 1); BelowBelow(i, 1, 2); BelowBelow(i, 1, 3);
      BelowBelow(i, 2, 1); BelowBelow(i, 2, 2); BelowBelow(i, 2, 3);
      BelowBelow(i, 3, 1); BelowBelow(i, 3, 2); BelowBelow(i, 3, 3);
      InvMixedMixed(s[i], s[Below(i, 1)], s[Below(i, 2)], s[Below(i, 3)]);
    }
    assert InvMixColumns(m) == s;
  }

  lemma InvMixLinear(s: State, k: State)
    ensures InvMixColumns(AddRoundKey(s, k)) == AddRoundKey(InvMixColumns(s), InvMixColumns(k))
  {
    hide InvMixed, Below, Xor;
    var t := AddRoundKey(s, k);
    forall i | 0 <= i < 16
      ensures InvMixColumns(t)[i] == AddRoundKey(InvMixColumns(s), InvMixColumns(k))[i]
    {
      InvMixedLinear(s[i], s[Below(i, 1)], s[Below(i, 2)], s[Below(i, 3)],
                     k[i], k[Below(i, 1)], k[Below(i, 2)], k[Below(i, 3)]);
    }
    assert InvMixColumns(t) == AddRoundKey(InvMixColumns(s), InvMixColumns(k));
  }

  //////////////////////////////////////////////////////////////////////////////
  // The other inverses
  //////////////////////////////////////////////////////////////////////////////

  lemma ShiftSources(i: nat)
    requires i < 16
    ensures ShiftSource(InvShiftSource(i)) == i && InvShiftSource(ShiftSource(i)) == i
  {
    assert ShiftSource(i) % 4 == i % 4;
    assert InvShiftSource(i) % 4 == i % 4;
  }

  /** The strides with which aes.c walks the state are the row shifts. */
  lemma Strides(i: nat)
    requires i < 16
    ensures ShiftSource(i) == 5 * i % 16
    ensures InvShiftSource(i) == -3 * i % 16
  {
    var q, r := i / 4, i % 4;
    var j, k := i + 4 * r, i - 4 * r;
    assert 5 * i == 16 * q + j;
    assert -3 * i == 16 * -q + k;
    DivModUnique(5 * i, 16, if j < 16 then q else q + 1, ShiftSource(i));
    DivModUnique(-3 * i, 16, if k < 0 then -q - 1 else -q, InvShiftSource(i));
  }

  /** Undoing the byte substitution and the row shift needs no particular order. */
  lemma InvSubShift(s: State)
    ensures InvShiftRows(InvSubBytes(ShiftRows(SubBytes(s)))) == s
    ensures InvSubBytes(InvShiftRows(ShiftRows(SubBytes(s)))) == s
  {
    hide SBox, InvSBox, ShiftSource, InvShiftSource;
    var t := ShiftRows(SubBytes(s));
    forall i | 0 <= i < 16
      ensures InvShiftRows(InvSubBytes(t))[i] == s[i]
      ensures InvSubBytes(InvShiftRows(t))[i] == s[i]
    {
      ShiftSources(i);
      SBoxPermutation(s[i]);
    }
    assert InvShiftRows(InvSubBytes(t)) == s;
    assert InvSubBytes(InvShiftRows(t)) == s;
  }

  lemma AddRoundKeyTwice(s: State, k: State)
    ensures AddRoundKey(AddRoundKey(s, k), k) == s
  {
    hide Xor;
    forall i | 0 <= i < 16
      ensures AddRoundKey(AddRoundKey(s, k), k)[i] == s[i]
    {
      XorCancel(s[i], k[i]);
    }
    assert AddRoundKey(AddRoundKey(s, k), k) == s;
  }

  //////////////////////////////////////////////////////////////////////////////
  // The cipher
  //////////////////////////////////////////////////////////////////////////////

  ghost function Round(s: State, k: State): State {
    AddRoundKey(MixColumns(ShiftRows(SubBytes(s))), k)
  }

  ghost function FinalRound(s: State, k: State): State {
    AddRoundKey(ShiftRows(SubBytes(s)), k)
  }

  /** The round of the equivalent inverse cipher, which keeps the order of the encryption round. */
  ghost function InvRound(s: State, k: State): State {
    AddRoundKey(InvMixColumns(InvShiftRows(InvSubBytes(s))), k)
  }

  ghost function InvFinalRound(s: State, k: State): State {
    AddRoundKey(InvShiftRows(InvSubBytes(s)), k)
  }

  ghost function Rounds(s: State, keys: seq<State>, n: nat): State
    requires n <= |keys|
  {
    if n == 0 then s else Round(Rounds(s, keys, n - 1), keys[n - 1])
  }

  ghost function InvRounds(s: State, keys: seq<State>, n: nat): State
    requires n <= |keys|
  {
    if n == 0 then s else InvRound(InvRounds(s, keys, n - 1), keys[n - 1])
  }

  /** Section 5.1 of FIPS-197. */
  ghost function Cipher(x: State, keys: seq<State>): State
    requires |keys| >= 2
  {
    var n := |keys| - 2;
    FinalRound(Rounds(AddRoundKey(x, keys[0]), keys[1..], n), keys[n + 1])
  }

  /** The shape of aes_decrypt, over keys prepared for it. */
  ghost function EquivalentInvCipher(y: State, keys: seq<State>): State
    requires |keys| >= 2
  {
    var n := |keys| - 2;
    InvFinalRound(InvRounds(AddRoundKey(y, keys[0]), keys[1..], n), keys[n + 1])
  }

  /** The round keys aes_setkey leaves for decryption: reversed, the inner ones through InvMixColumns. */
  function InvKeys(keys: seq<State>): (r: seq<State>)
    requires |keys| >= 2
    ensures |r| == |keys|
    ensures forall j :: 0 <= j < |keys| ==> r[j] == InvKey(keys, j)
  {
    seq(|keys|, j requires 0 <= j < |keys| => InvKey(keys, j))
  }

  function InvKey(keys: seq<State>, j: nat): State
    requires j < |keys|
  {
    var k := keys[|keys| - 1 - j];
    if j == 0 || j == |keys| - 1 then k else InvMixColumns(k)
  }

  /** One decryption round steps back over one encryption round. */
  lemma StepBack(s: State, k: State)
    ensures InvRound(ShiftRows(SubBytes(Round(s, k))), InvMixColumns(k)) == ShiftRows(SubBytes(s))
  {
    hide ShiftRows, SubBytes, MixColumns, InvMixColumns, InvShiftRows, InvSubBytes, AddRoundKey;
    var t := ShiftRows(SubBytes(s));
    var m := MixColumns(t);
    InvSubShift(Round(s, k));
    InvMixLinear(m, k);
    InvMixMix(t);
    AddRoundKeyTwice(t, InvMixColumns(k));
  }

  lemma {:induction false} StepsBack(s: State, keys: seq<State>, n: nat, i: nat)
    requires n == |keys| - 2 && i <= n
    ensures InvRounds(ShiftRows(SubBytes(Rounds(s, keys[1..], n))), InvKeys(keys)[1..], i)
         == ShiftRows(SubBytes(Rounds(s, keys[1..], n - i)))
    decreases i
  {
    hide ShiftRows, SubBytes, Round, InvRound, InvKeys, Rounds, InvRounds;
    var t := ShiftRows(SubBytes(Rounds(s, keys[1..], n)));
    if i == 0 {
      NoRounds(t, InvKeys(keys)[1..]);
    } else {
      StepsBack(s, keys, n, i - 1);
      var k := keys[n + 1 - i];
      InnerKey(keys, i);
      InvRoundsStep(t, InvKeys(keys)[1..], i);
      RoundsStep(s, keys[1..], n + 1 - i);
      StepBack(Rounds(s, keys[1..], n - i), k);
    }
  }

  lemma RoundsStep(s: State, keys: seq<State>, n: nat)
    requires 0 < n <= |keys|
    ensures Rounds(s, keys, n) == Round(Rounds(s, keys, n - 1), keys[n - 1])
  {
  }

  lemma InvRoundsStep(s: State, keys: seq<State>, n: nat)
    requires 0 < n <= |keys|
    ensures InvRounds(s, keys, n) == InvRound(InvRounds(s, keys, n - 1), keys[n - 1])
  {
  }

  lemma InnerKey(keys: seq<State>, i: nat)
    requires 0 < i <= |keys| - 2
    ensures InvKeys(keys)[1..][i - 1] == InvMixColumns(keys[|keys| - 1 - i])
  {
    hide InvMixColumns;
    assert InvKeys(keys)[1..][i - 1] == InvKey(keys, i);
  }

  /** Decryption with the inverted keys undoes encryption, whatever the round keys. */
  lemma DecryptEncrypt(x: State, keys: seq<State>)
    requires |keys| >= 2
    ensures EquivalentInvCipher(Cipher(x, keys), InvKeys(keys)) == x
  {
    hide ShiftRows, SubBytes, InvShiftRows, InvSubBytes, AddRoundKey, Rounds, InvRounds;
    var n := |keys| - 2;
    var s := AddRoundKey(x, keys[0]);
    var t := Rounds(s, keys[1..], n);
    assert Rounds(s, keys[1..], 0) == s by { NoRounds(s, keys[1..]); }
    AddRoundKeyTwice(ShiftRows(SubBytes(t)), keys[n + 1]);
    StepsBack(s, keys, n, n);
    InvSubShift(s);
    AddRoundKeyTwice(x, keys[0]);
    assert InvKeys(keys)[0] == keys[n + 1];
    assert InvKeys(keys)[n + 1] == keys[0];
  }

  lemma NoRounds(s: State, keys: seq<State>)
    ensures Rounds(s, keys, 0) == s == InvRounds(s, keys, 0)
  {
  }

  //////////////////////////////////////////////////////////////////////////////
  // The inverse cipher of FIPS-197
  //////////////////////////////////////////////////////////////////////////////

  ghost function PlainInvRound(s: State, k: State): State {
    InvMixColumns(AddRoundKey(InvSubBytes(InvShiftRows(s)), k))
  }

  /** n rounds, taking the keys from the end. */
  ghost function PlainInvRounds(s: State, keys: seq<State>, n: nat): State
    requires n < |keys|
  {
    if n == 0 then s else PlainInvRound(PlainInvRounds(s, keys, n - 1), keys[|keys| - 1 - n])
  }

  /** Section 5.3 of FIPS-197. */
  ghost function InvCipher(y: State, keys: seq<State>): State
    requires |keys| >= 2
  {
    var n := |keys| - 2;
    AddRoundKey(InvSubBytes(InvShiftRows(PlainInvRounds(AddRoundKey(y, keys[n + 1]), keys, n))), keys[0])
  }

  lemma SubShiftCommute(s: State)
    ensures InvSubBytes(InvShiftRows(s)) == InvShiftRows(InvSubBytes(s))
  {
    hide InvSBox, InvShiftSource;
    assert InvSubBytes(InvShiftRows(s)) == InvShiftRows(InvSubBytes(s));
  }

  lemma {:induction false} SameRounds(s: State, keys: seq<State>, n: nat)
    requires |keys| >= 2 && n <= |keys| - 2
    ensures InvRounds(s, InvKeys(keys)[1..], n) == PlainInvRounds(s, keys, n)
  {
    hide InvShiftRows, InvSubBytes, AddRoundKey, InvMixColumns, InvKeys, InvRounds;
    if n == 0 {
      NoRounds(s, InvKeys(keys)[1..]);
    } else {
      SameRounds(s, keys, n - 1);
      InvRoundsStep(s, InvKeys(keys)[1..], n);
      InnerKey(keys, n);
      SameRound(PlainInvRounds(s, keys, n - 1), keys[|keys| - 1 - n]);
    }
  }

  lemma SameRound(s: State, k: State)
    ensures InvRound(s, InvMixColumns(k)) == PlainInvRound(s, k)
  {
    hide InvShiftRows, InvSubBytes, AddRoundKey, InvMixColumns;
    SubShiftCommute(s);
    InvMixLinear(InvSubBytes(InvShiftRows(s)), k);
  }

  /** The equivalent inverse cipher computes the inverse cipher. */
  lemma EquivalentIsInverse(y: State, keys: seq<State>)
    requires |keys| >= 2
    ensures EquivalentInvCipher(y, InvKeys(keys)) == InvCipher(y, keys)
  {
    hide InvShiftRows, InvSubBytes, AddRoundKey, InvMixColumns;
    var n := |keys| - 2;
    var s := AddRoundKey(y, keys[n + 1]);
    SameRounds(s, keys, n);
    SubShiftCommute(PlainInvRounds(s, keys, n));
    assert InvKeys(keys)[0] == keys[n + 1];
    assert InvKeys(keys)[n + 1] == keys[0];
  }

  //////////////////////////////////////////////////////////////////////////////
  // The table-driven rounds
  //////////////////////////////////////////////////////////////////////////////

  type Word = w: seq<bv8> | |w| == 4 witness [0, 0, 0, 0]

  function XorWord(a: Word, b: Word): (r: Word)
    ensures r[0] == Xor(a[0], b[0]) && r[1] == Xor(a[1], b[1]) && r[2] == Xor(a[2], b[2]) && r[3] == Xor(a[3], b[3])
  {
    [Xor(a[0], b[0]), Xor(a[1], b[1]), Xor(a[2], b[2]), Xor(a[3], b[3])]
  }

  /** aes_entry_column: four bytes of the entry, one matrix column times its scalar. */
  function EntryColumn(e: Entry, column: nat): (w: Word)
    requires column < 4
  {
    [e[4 - column], e[5 - column], e[6 - column], e[7 - column]]
  }

  /** aes_column. */
  function TableColumn(t: seq<Entry>, stride: int, s: State, offset: nat): Word
    requires |t| == 256
  {
    EntryColumn(t[Index(s[stride * offset % 16])], offset % 4)
  }

  /** aes_output. */
  function TableOutput(t: seq<Entry>, stride: int, s: State, k: State, column: nat): Word
    requires |t| == 256 && column < 4
  {
    var offset := 4 * column;
    XorWord(XorWord(XorWord(XorWord(TableColumn(t, stride, s, offset),
                                    TableColumn(t, stride, s, offset + 1)),
                            TableColumn(t, stride, s, offset + 2)),
                    TableColumn(t, stride, s, offset + 3)),
            k[offset..offset + 4])
  }

  /** A column as the entries of its four scalars contribute to it, and then the key. */
  function Gathered(e0: Entry, e1: Entry, e2: Entry, e3: Entry, k: Word): Word {
    XorWord(XorWord(XorWord(XorWord(EntryColumn(e0, 0), EntryColumn(e1, 1)), EntryColumn(e2, 2)), EntryColumn(e3, 3)), k)
  }

  lemma Regroup(a: bv8, b: bv8, c: bv8, d: bv8)
    ensures Xor(Xor(Xor(a, b), c), d) == Xor4(a, b, c, d)
    ensures Xor(Xor(Xor(a, b), c), d) == Xor4(b, c, d, a)
    ensures Xor(Xor(Xor(a, b), c), d) == Xor4(c, d, a, b)
    ensures Xor(Xor(Xor(a, b), c), d) == Xor4(d, a, b, c)
  {
    XorAssoc(Xor(a, b), c, d);
    Rotations(a, b, c, d);
    hide Xor;
  }

  lemma GatheredMix(a: bv8, b: bv8, c: bv8, d: bv8, k: Word)
    ensures Gathered(MixEntry(a), MixEntry(b), MixEntry(c), MixEntry(d), k)
         == [Xor(Mixed(a, b, c, d), k[0]), Xor(Mixed(b, c, d, a), k[1]),
             Xor(Mixed(c, d, a, b), k[2]), Xor(Mixed(d, a, b, c), k[3])]
  {
    hide Xor, Double, Triple, Xor4;
    Regroup(Double(a), Triple(b), c, d);
    Regroup(a, Double(b), Triple(c), d);
    Regroup(a, b, Double(c), Triple(d));
    Regroup(Triple(a), b, c, Double(d));
  }

  lemma GatheredInvMix(a: bv8, b: bv8, c: bv8, d: bv8, k: Word)
    ensures Gathered(InvMixEntry(a), InvMixEntry(b), InvMixEntry(c), InvMixEntry(d), k)
         == [Xor(InvMixed(a, b, c, d), k[0]), Xor(InvMixed(b, c, d, a), k[1]),
             Xor(InvMixed(c, d, a, b), k[2]), Xor(InvMixed(d, a, b, c), k[3])]
  {
    hide Xor, Xor4, Times9, Times11, Times13, Times14;
    Regroup(Times14(a), Times11(b), Times13(c), Times9(d));
    Regroup(Times9(a), Times14(b), Times11(c), Times13(d));
    Regroup(Times13(a), Times9(b), Times14(c), Times11(d));
    Regroup(Times11(a), Times13(b), Times9(c), Times14(d));
  }

  lemma OffsetModulo(c: nat, j: nat)
    requires c < 4 && j < 4
    ensures (4 * c + j) % 4 == j
  {
  }

  lemma BelowOffsets(o: nat)
    requires o < 16 && o % 4 == 0
    ensures Below(o, 1) == o + 1 && Below(o, 2) == o + 2 && Below(o, 3) == o + 3
    ensures Below(o + 1, 1) == o + 2 && Below(o + 1, 2) == o + 3 && Below(o + 1, 3) == o
    ensures Below(o + 2, 1) == o + 3 && Below(o + 2, 2) == o && Below(o + 2, 3) == o + 1
    ensures Below(o + 3, 1) == o && Below(o + 3, 2) == o + 1 && Below(o + 3, 3) == o + 2
  {
  }

  lemma Slice(s: State, o: nat, a: bv8, b: bv8, c: bv8, d: bv8)
    requires o <= 12 && s[o] == a && s[o + 1] == b && s[o + 2] == c && s[o + 3] == d
    ensures s[o..o + 4] == [a, b, c, d]
  {
  }

  lemma MixedColumn(u: State, k: State, o: nat)
    requires o < 16 && o % 4 == 0
    ensures var a, b, c, d, w := u[o], u[o + 1], u[o + 2], u[o + 3], k[o..o + 4];
      AddRoundKey(MixColumns(u), k)[o..o + 4]
      == [Xor(Mixed(a, b, c, d), w[0]), Xor(Mixed(b, c, d, a), w[1]),
          Xor(Mixed(c, d, a, b), w[2]), Xor(Mixed(d, a, b, c), w[3])]
  {
    hide Xor, Mixed, Below;
    BelowOffsets(o);
    var a, b, c, d := u[o], u[o + 1], u[o + 2], u[o + 3];
    Slice(AddRoundKey(MixColumns(u), k), o, Xor(Mixed(a, b, c, d), k[o]), Xor(Mixed(b, c, d, a), k[o + 1]),
          Xor(Mixed(c, d, a, b), k[o + 2]), Xor(Mixed(d, a, b, c), k[o + 3]));
  }

  lemma InvMixedColumn(u: State, k: State, o: nat)
    requires o < 16 && o % 4 == 0
    ensures var a, b, c, d, w := u[o], u[o + 1], u[o + 2], u[o + 3], k[o..o + 4];
      AddRoundKey(InvMixColumns(u), k)[o..o + 4]
      == [Xor(InvMixed(a, b, c, d), w[0]), Xor(InvMixed(b, c, d, a), w[1]),
          Xor(InvMixed(c, d, a, b), w[2]), Xor(InvMixed(d, a, b, c), w[3])]
  {
    hide Xor, InvMixed, Below;
    BelowOffsets(o);
    var a, b, c, d := u[o], u[o + 1], u[o + 2], u[o + 3];
    Slice(AddRoundKey(InvMixColumns(u), k), o, Xor(InvMixed(a, b, c, d), k[o]), Xor(InvMixed(b, c, d, a), k[o + 1]),
          Xor(InvMixed(c, d, a, b), k[o + 2]), Xor(InvMixed(d, a, b, c), k[o + 3]));
  }

  ghost predicate RoundTable(t: seq<Entry>, stride: int) {
    (stride == 5 && MixTable(t)) || (stride == -3 && InvMixTable(t))
  }

  /** The bytes that reach the columns, and the entry each of them selects. */
  ghost function Substituted(stride: int, s: State): State {
    if stride == 5 then ShiftRows(SubBytes(s)) else InvShiftRows(InvSubBytes(s))
  }

  ghost function EntryFor(stride: int, b: bv8): Entry {
    if stride == 5 then MixEntry(b) else InvMixEntry(b)
  }

  lemma TableColumnIs(t: seq<Entry>, stride: int, s: State, c: nat, j: nat)
    requires RoundTable(t, stride) && c < 4 && j < 4
    ensures TableColumn(t, stride, s, 4 * c + j) == EntryColumn(EntryFor(stride, Substituted(stride, s)[4 * c + j]), j)
  {
    hide MixEntry, InvMixEntry, SBox, InvSBox, ShiftSource, InvShiftSource, EntryColumn, Index;
    var o := 4 * c + j;
    Strides(o);
    OffsetModulo(c, j);
  }

  lemma TableOutputIs(t: seq<Entry>, stride: int, s: State, k: State, c: nat, o: nat)
    requires RoundTable(t, stride) && c < 4 && o == 4 * c
    ensures var u := Substituted(stride, s);
      TableOutput(t, stride, s, k, c)
      == Gathered(EntryFor(stride, u[o]), EntryFor(stride, u[o + 1]), EntryFor(stride, u[o + 2]),
                  EntryFor(stride, u[o + 3]), k[o..o + 4])
  {
    hide EntryFor, Substituted, EntryColumn, TableColumn, XorWord, RoundTable;
    TableColumnIs(t, stride, s, c, 0);
    TableColumnIs(t, stride, s, c, 1);
    TableColumnIs(t, stride, s, c, 2);
    TableColumnIs(t, stride, s, c, 3);
  }

  ghost function RoundFor(stride: int, s: State, k: State): State {
    if stride == 5 then Round(s, k) else InvRound(s, k)
  }

  /** One table-driven output column is one column of the round it stands for. */
  lemma TableRound(t: seq<Entry>, stride: int, s: State, k: State, c: nat)
    requires RoundTable(t, stride) && c < 4
    ensures TableOutput(t, stride, s, k, c) == RoundFor(stride, s, k)[4 * c..4 * c + 4]
  {
    hide Mixed, InvMixed, Gathered, TableOutput, RoundTable, Substituted, EntryFor, RoundFor;
    var o := 4 * c;
    TableOutputIs(t, stride, s, k, c, o);
    OffsetModulo(c, 0);
    GatheredColumn(t, stride, s, k, o);
  }

  lemma GatheredColumn(t: seq<Entry>, stride: int, s: State, k: State, o: nat)
    requires RoundTable(t, stride) && o < 16 && o % 4 == 0
    ensures var u := Substituted(stride, s);
      Gathered(EntryFor(stride, u[o]), EntryFor(stride, u[o + 1]), EntryFor(stride, u[o + 2]),
               EntryFor(stride, u[o + 3]), k[o..o + 4])
      == RoundFor(stride, s, k)[o..o + 4]
  {
    hide Xor, Mixed, InvMixed, MixEntry, InvMixEntry, Gathered, MixTable, InvMixTable,
      AddRoundKey, MixColumns, InvMixColumns, ShiftRows, SubBytes, InvShiftRows, InvSubBytes;
    var u := Substituted(stride, s);
    if stride == 5 {
      MixedColumn(u, k, o);
      GatheredMix(u[o], u[o + 1], u[o + 2], u[o + 3], k[o..o + 4]);
    } else {
      InvMixedColumn(u, k, o);
      GatheredInvMix(u[o], u[o + 1], u[o + 2], u[o + 3], k[o..o + 4]);
    }
  }
}
