/** aes_wrap.c: the key wrap of RFC 3394 over any block permutation, in place in the destination buffer. */
module KeyWrap {
  import opened Arith
  import opened Bits

  /** Half a cipher block: seven bytes that only the cipher looks into, and the last one. */
  datatype Half = Half(high: nat, last: nat)

  /** A cipher block: the integrity half and a data half. */
  datatype Block = Block(a: Half, r: Half)

  const IV: Half := Half(0xa6_a6a6_a6a6_a6a6, 0xa6)

  /** The step counter goes into the last byte, as far as it fits. */
  function Tweak(a: Half, t: nat): Half {
    Half(a.high, BitXor(a.last % 256, t % 256) + (a.last - a.last % 256))
  }

  lemma ByteXor(x: nat, y: nat)
    requires x < 256 && y < 256
    ensures BitXor(x, y) < 256 && BitXor(BitXor(x, y), y) == x
  {
    hide BitXor;
    Pow2Eight();
    BitXorSplit(x, y, 8);
    SmallModulo(x, 256);
    SmallModulo(y, 256);
    BitXorTwice(x, y);
  }

  lemma TweakTwice(a: Half, t: nat)
    ensures Tweak(Tweak(a, t), t) == a
  {
    hide BitXor;
    ByteXor(a.last % 256, t % 256);
    assert Tweak(a, t).last % 256 == BitXor(a.last % 256, t % 256);
  }

  /** A keyed block cipher. */
  datatype Cipher = Cipher(enc: Block -> Block, dec: Block -> Block)

  /** The decryption undoes the encryption, and the other way round. */
  ghost predicate Inverse(c: Cipher) {
    forall b: Block {:trigger Undone(c, b)} :: Undone(c, b)
  }

  ghost predicate Undone(c: Cipher, b: Block) {
    c.dec(c.enc(b)) == b && c.enc(c.dec(b)) == b
  }

  //////////////////////////////////////////////////////////////////////////////
  // Steps
  //////////////////////////////////////////////////////////////////////////////

  datatype State = State(a: Half, r: seq<Half>)

  /** Step t of the wrapping, counted from one, on data half i. */
  function Step(c: Cipher, s: State, i: nat, t: nat): State
    requires i < |s.r|
  {
    var b := c.enc(Block(s.a, s.r[i]));
    State(Tweak(b.a, t), s.r[i := b.r])
  }

  function InvStep(c: Cipher, s: State, i: nat, t: nat): State
    requires i < |s.r|
  {
    var b := c.dec(Block(Tweak(s.a, t), s.r[i]));
    State(b.a, s.r[i := b.r])
  }

  lemma StepBack(c: Cipher, s: State, i: nat, t: nat)
    requires Inverse(c) && i < |s.r|
    ensures InvStep(c, Step(c, s, i, t), i, t) == s
    ensures Step(c, InvStep(c, s, i, t), i, t) == s
  {
    hide Tweak;
    var b := c.enc(Block(s.a, s.r[i]));
    TweakTwice(b.a, t);
    assert Undone(c, Block(s.a, s.r[i]));
    assert s.r[i := b.r][i := s.r[i]] == s.r;
    var d := Block(Tweak(s.a, t), s.r[i]);
    TweakTwice(s.a, t);
    assert Undone(c, d);
    assert s.r[i := c.dec(d).r][i := s.r[i]] == s.r;
  }

  /** The data half that step t works on. */
  function Position(n: nat, t: nat): (i: nat)
    requires n > 0 && t > 0
    ensures i < n
  {
    (t - 1) % n
  }

  /** The first t steps of the wrapping. */
  function Wrapped(c: Cipher, s: State, t: nat): (r: State)
    ensures |r.r| == |s.r|
  {
    if t == 0 || |s.r| == 0 then s else Step(c, Wrapped(c, s, t - 1), Position(|s.r|, t), t)
  }

  /** The last t steps undone, the latest first. */
  function Unwrapped(c: Cipher, s: State, t: nat): (r: State)
    ensures |r.r| == |s.r|
    decreases t
  {
    if t == 0 || |s.r| == 0 then s else Unwrapped(c, InvStep(c, s, Position(|s.r|, t), t), t - 1)
  }

  /** Unwrapping undoes wrapping, for any number of data halves and any number of steps. */
  lemma {:induction false} UnwrapWrap(c: Cipher, s: State, t: nat)
    requires Inverse(c)
    ensures Unwrapped(c, Wrapped(c, s, t), t) == s
  {
    hide Step, InvStep, Inverse, Position;
    if t > 0 && |s.r| > 0 {
      StepBack(c, Wrapped(c, s, t - 1), Position(|s.r|, t), t);
      UnwrapWrap(c, s, t - 1);
    }
  }

  lemma {:induction false} WrapUnwrap(c: Cipher, s: State, t: nat)
    requires Inverse(c)
    ensures Wrapped(c, Unwrapped(c, s, t), t) == s
    decreases t
  {
    hide Step, InvStep, Inverse, Position;
    if t > 0 && |s.r| > 0 {
      var i := Position(|s.r|, t);
      var u := InvStep(c, s, i, t);
      InvStepSize(c, s, i, t);
      WrapUnwrap(c, u, t - 1);
      StepBack(c, s, i, t);
    }
  }

  lemma InvStepSize(c: Cipher, s: State, i: nat, t: nat)
    requires i < |s.r|
    ensures |InvStep(c, s, i, t).r| == |s.r|
  {
  }

  //////////////////////////////////////////////////////////////////////////////
  // Wrapping and unwrapping
  //////////////////////////////////////////////////////////////////////////////

  /** The wrapped key: the integrity half, then the data halves. */
  function WrapKey(c: Cipher, key: seq<Half>): (r: seq<Half>)
    ensures |r| == |key| + 1
  {
    var s := Wrapped(c, State(IV, key), 6 * |key|);
    [s.a] + s.r
  }

  /** What aes_unwrap leaves in its buffer, and whether the integrity half is what it should be. */
  function UnwrapKey(c: Cipher, w: seq<Half>): (r: (bool, seq<Half>))
    requires |w| > 0
    ensures |r.1| == |w| - 1
  {
    var s := Unwrapped(c, State(w[0], w[1..]), 6 * (|w| - 1));
    (s.a == IV, s.r)
  }

  /** Unwrapping a wrapped key succeeds and gives it back. */
  lemma UnwrapOfWrap(c: Cipher, key: seq<Half>)
    requires Inverse(c)
    ensures UnwrapKey(c, WrapKey(c, key)) == (true, key)
  {
    hide Inverse;
    var s := Wrapped(c, State(IV, key), 6 * |key|);
    assert ([s.a] + s.r)[1..] == s.r;
    UnwrapWrap(c, State(IV, key), 6 * |key|);
  }

  /** Whatever unwraps successfully is the wrapping of what it unwraps to. */
  lemma WrapOfUnwrap(c: Cipher, w: seq<Half>)
    requires Inverse(c) && |w| > 0 && UnwrapKey(c, w).0
    ensures WrapKey(c, UnwrapKey(c, w).1) == w
  {
    hide Inverse;
    WrapUnwrap(c, State(w[0], w[1..]), 6 * (|w| - 1));
    assert [w[0]] + w[1..] == w;
  }

  /** Different keys wrap differently. */
  lemma WrapInjective(c: Cipher, x: seq<Half>, y: seq<Half>)
    requires Inverse(c)
    ensures WrapKey(c, x) == WrapKey(c, y) <==> x == y
  {
    UnwrapOfWrap(c, x);
    UnwrapOfWrap(c, y);
  }

  //////////////////////////////////////////////////////////////////////////////
  // Section 2.2.1 of RFC 3394
  //////////////////////////////////////////////////////////////////////////////

  /** The 64-bit number that a half holds. */
  function Number(a: Half): nat {
    a.high * 256 + a.last
  }

  function HalfOf(n: nat): Half {
    Half(n / 256, n % 256)
  }

  /** The standard combines the whole integrity half with a 64-bit counter. */
  function RfcTweak(a: Half, t: nat): Half {
    HalfOf(BitXor(Number(a), t))
  }

  /** The first i steps of round j, as the standard's inner loop takes them. */
  function RfcRound(c: Cipher, s: State, j: nat, i: nat): (r: State)
    requires i <= |s.r|
    ensures |r.r| == |s.r|
  {
    if i == 0 then s else
      var u := RfcRound(c, s, j, i - 1);
      var b := c.enc(Block(u.a, u.r[i - 1]));
      State(RfcTweak(b.a, |s.r| * j + i), u.r[i - 1 := b.r])
  }

  /** The first j rounds. */
  function RfcRounds(c: Cipher, s: State, j: nat): (r: State)
    ensures |r.r| == |s.r|
  {
    if j == 0 then s else RfcRound(c, RfcRounds(c, s, j - 1), j - 1, |s.r|)
  }

  function RfcWrapKey(c: Cipher, key: seq<Half>): (r: seq<Half>)
    ensures |r| == |key| + 1
  {
    var s := RfcRounds(c, State(HalfOf(0xa6a6_a6a6_a6a6_a6a6), key), 6);
    [s.a] + s.r
  }

  /** The cipher's output consists of bytes. */
  ghost predicate Bytewise(c: Cipher) {
    forall b: Block {:trigger ByteOut(c, b)} :: ByteOut(c, b)
  }

  ghost predicate ByteOut(c: Cipher, b: Block) {
    c.enc(b).a.last < 256
  }

  /** The code's byte-wide counter does the same exactly up to step 255. */
  lemma TweakExactly(a: Half, t: nat)
    requires a.last < 256
    ensures Tweak(a, t) == RfcTweak(a, t) <==> t < 256
  {
    hide BitXor;
    var n := Number(a);
    Pow2Eight();
    BitXorSplit(n, t, 8);
    DivModUnique(n, 256, a.high, a.last);
    SmallModulo(a.last, 256);
    BitXorSame(a.high, t / 256);
  }

  /** Steps counted through are rounds of steps. */
  lemma {:induction false} RoundAgrees(c: Cipher, s: State, base: nat, j: nat, i: nat)
    requires Bytewise(c) && AtRound(base, |s.r|, j) && i <= |s.r| && base + i < 256
    ensures RfcRound(c, Wrapped(c, s, base), j, i) == Wrapped(c, s, base + i)
    decreases i
  {
    hide Tweak, RfcTweak, Position, Wrapped, Bytewise, AtRound, RfcRound, Step;
    var v := Wrapped(c, s, base);
    if i == 0 {
      NoRfcSteps(c, v, j);
    } else {
      RoundAgrees(c, s, base, j, i - 1);
      PositionOf(|s.r|, base, j, i);
      NextStep(c, s, base + i);
      var u := Wrapped(c, s, base + i - 1);
      RfcStepIs(c, v, j, i, base + i);
      StepIs(c, u, i - 1, base + i);
      ByteAt(c, Block(u.a, u.r[i - 1]));
      TweakExactly(c.enc(Block(u.a, u.r[i - 1])).a, base + i);
    }
  }

  lemma NoRfcSteps(c: Cipher, s: State, j: nat)
    ensures RfcRound(c, s, j, 0) == s
  {
  }

  lemma RfcStepIs(c: Cipher, s: State, j: nat, i: nat, t: nat)
    requires 0 < i <= |s.r| && i <= t && AtRound(t - i, |s.r|, j)
    ensures var u := RfcRound(c, s, j, i - 1); var b := c.enc(Block(u.a, u.r[i - 1]));
      RfcRound(c, s, j, i) == State(RfcTweak(b.a, t), u.r[i - 1 := b.r])
  {
    hide RfcTweak;
  }

  lemma ByteAt(c: Cipher, b: Block)
    requires Bytewise(c)
    ensures c.enc(b).a.last < 256
  {
    assert ByteOut(c, b);
  }

  lemma {:induction false} RoundsAgree(c: Cipher, s: State, base: nat, j: nat)
    requires Bytewise(c) && AtRound(base, |s.r|, j) && base < 256
    ensures RfcRounds(c, s, j) == Wrapped(c, s, base)
    decreases j
  {
    hide RfcRound, Wrapped, AtRound, Bytewise;
    if j > 0 {
      PreviousRound(base, |s.r|, j);
      RoundsAgree(c, s, base - |s.r|, j - 1);
      RoundAgrees(c, s, base - |s.r|, j - 1, |s.r|);
    } else {
      LastUndone(base, |s.r|);
      NoSteps(c, s);
    }
  }

  /** Keys of up to 42 halves are wrapped as the standard says. */
  lemma WrapsAsStandard(c: Cipher, key: seq<Half>)
    requires Bytewise(c) && 6 * |key| <= 255
    ensures WrapKey(c, key) == RfcWrapKey(c, key)
  {
    hide RfcRounds, Wrapped, Bytewise;
    LastRound(6 * |key|, |key|);
    RoundsAgree(c, State(IV, key), 6 * |key|, 6);
  }

  /** The counter nblk * j + i belongs to data half i. */
  lemma PositionOf(n: nat, base: nat, j: nat, i: nat)
    requires AtRound(base, n, j) && 1 <= i <= n
    ensures base + i > 0 && Position(n, base + i) == i - 1
  {
    assert n * j + i - 1 == (i - 1) + j * n;
    ModShift(i - 1, j, n);
    SmallModulo(i - 1, n);
  }

  /** The counter at the start of round j. */
  ghost predicate AtRound(base: nat, n: nat, j: nat) {
    base == n * j
  }

  lemma FirstRound(n: nat)
    ensures AtRound(0, n, 0)
  {
  }

  lemma NextRound(base: nat, n: nat, j: nat)
    requires AtRound(base, n, j)
    ensures AtRound(base + n, n, j + 1)
  {
  }

  lemma PreviousRound(base: nat, n: nat, j: nat)
    requires AtRound(base, n, j) && j > 0
    ensures base >= n && AtRound(base - n, n, j - 1)
  {
  }

  lemma LastUndone(base: nat, n: nat)
    ensures AtRound(base, n, 0) <==> base == 0
  {
  }

  lemma LastRound(base: nat, n: nat)
    ensures AtRound(base, n, 6) <==> base == 6 * n
  {
  }

  /** aes_wrap: false when there is no memory. When source and destination are the same buffer, the integrity
      half overwrites the first half of the key before the key is moved. */
  method AesWrap(c: Cipher, src: array<Half>, dest: array<Half>, nblk: nat, memory: bool) returns (ok: bool)
    requires nblk <= src.Length && nblk < dest.Length
    modifies dest
    ensures ok == memory
    ensures !ok ==> dest[..] == old(dest[..])
    ensures ok ==> dest[..nblk + 1] == WrapKey(c, Source(old(src[..nblk]), src == dest))
    ensures ok ==> dest[nblk + 1..] == old(dest[nblk + 1..])
    ensures ok && src != dest && 6 * nblk <= 255 && Bytewise(c) ==> dest[..nblk + 1] == RfcWrapKey(c, old(src[..nblk]))
  {
    if !memory {
      return false;
    }
    if 6 * nblk <= 255 && Bytewise(c) {
      WrapsAsStandard(c, src[..nblk]);
    }
    KeyItself(src[..nblk]);
    hide Wrapped, RfcRounds, Source, Bytewise;
    SetUp(src, dest, nblk);
    WrapRounds(c, dest, nblk);
    assert dest[..nblk + 1] == [dest[0]] + dest[1..nblk + 1];
    ok := true;
  }

  /** memset and memmove. */
  method SetUp(src: array<Half>, dest: array<Half>, nblk: nat)
    requires nblk <= src.Length && nblk < dest.Length
    modifies dest
    ensures Halves(dest, nblk) == State(IV, Source(old(src[..nblk]), src == dest))
    ensures dest[nblk + 1..] == old(dest[nblk + 1..])
  {
    dest[0] := IV;
    ghost var key := src[..nblk];
    assert Source(old(src[..nblk]), src == dest) == key;
    Move(src, 0, dest, 1, nblk);
  }

  /** The wrapping loop. */
  method WrapRounds(c: Cipher, dest: array<Half>, nblk: nat)
    requires nblk < dest.Length
    modifies dest
    ensures |old(Halves(dest, nblk)).r| == nblk
    ensures Halves(dest, nblk) == Wrapped(c, old(Halves(dest, nblk)), 6 * nblk)
    ensures dest[nblk + 1..] == old(dest[nblk + 1..])
  {
    ghost var start := Halves(dest, nblk);
    FirstRound(nblk);
    hide Wrapped, Halves, AtRound;
    NoSteps(c, start);
    HalvesSize(dest, nblk);
    var base: nat := 0;
    for j := 0 to 6
      invariant AtRound(base, nblk, j)
      invariant dest[nblk + 1..] == old(dest[nblk + 1..])
      invariant Halves(dest, nblk) == Wrapped(c, start, base)
    {
      WrapRound(c, dest, nblk, base, j, start);
      NextRound(base, nblk, j);
      base := base + nblk;
    }
    LastRound(base, nblk);
  }

  /** The integrity half and the data halves in the buffer. */
  ghost function Halves(dest: array<Half>, nblk: nat): State
    requires nblk < dest.Length
    reads dest
  {
    State(dest[0], dest[1..nblk + 1])
  }

  lemma HalvesSize(dest: array<Half>, nblk: nat)
    requires nblk < dest.Length
    ensures |Halves(dest, nblk).r| == nblk
  {
  }

  /** One round of the wrapping loop. */
  method WrapRound(c: Cipher, dest: array<Half>, nblk: nat, base: nat, ghost j: nat, ghost start: State)
    requires nblk < dest.Length && AtRound(base, nblk, j) && |start.r| == nblk
    requires Halves(dest, nblk) == Wrapped(c, start, base)
    modifies dest
    ensures dest[nblk + 1..] == old(dest[nblk + 1..])
    ensures Halves(dest, nblk) == Wrapped(c, start, base + nblk)
  {
    hide Step, Position, Wrapped, Halves, AtRound;
    for i := 1 to nblk + 1
      invariant dest[nblk + 1..] == old(dest[nblk + 1..])
      invariant Halves(dest, nblk) == Wrapped(c, start, base + (i - 1))
    {
      PositionOf(nblk, base, j, i);
      NextStep(c, start, base + i);
      WrapStep(c, dest, nblk, i, base + i);
    }
  }

  method WrapStep(c: Cipher, dest: array<Half>, nblk: nat, i: nat, t: nat)
    requires 1 <= i <= nblk < dest.Length
    modifies dest
    ensures dest[nblk + 1..] == old(dest[nblk + 1..])
    ensures |old(Halves(dest, nblk)).r| == nblk
    ensures Halves(dest, nblk) == Step(c, old(Halves(dest, nblk)), i - 1, t)
  {
    ghost var s := Halves(dest, nblk);
    StepIs(c, s, i - 1, t);
    hide Step, Tweak;
    var b := c.enc(Block(dest[0], dest[i]));
    dest[0] := Tweak(b.a, t);
    dest[i] := b.r;
    assert dest[1..nblk + 1] == s.r[i - 1 := b.r];
  }

  /** What the loop works on: the key, less what the integrity half has overwritten. */
  function Source(key: seq<Half>, inPlace: bool): seq<Half> {
    if inPlace && key != [] then key[0 := IV] else key
  }

  lemma KeyItself(key: seq<Half>)
    ensures Source(key, false) == key
  {
  }

  /** Wrapping in place gives the wrapping of the key exactly when the key begins with the initial value. */
  lemma InPlaceIsWrong(c: Cipher, key: seq<Half>)
    requires Inverse(c)
    ensures WrapKey(c, Source(key, true)) == WrapKey(c, key) <==> key == [] || key[0] == IV
  {
    WrapInjective(c, Source(key, true), key);
  }

  /** A key of one zero half comes out as another key's wrapping. */
  lemma InPlaceExample(c: Cipher)
    requires Inverse(c)
    ensures WrapKey(c, Source([Half(0, 0)], true)) == WrapKey(c, [IV]) != WrapKey(c, [Half(0, 0)])
  {
    assert [Half(0, 0)][0 := IV] == [IV];
    assert [IV][0] != [Half(0, 0)][0];
    WrapInjective(c, [IV], [Half(0, 0)]);
  }

  lemma NoSteps(c: Cipher, s: State)
    ensures Wrapped(c, s, 0) == s
  {
  }

  lemma NextStep(c: Cipher, s: State, t: nat)
    requires t > 0 && |s.r| > 0
    ensures Wrapped(c, s, t) == Step(c, Wrapped(c, s, t - 1), Position(|s.r|, t), t)
  {
  }

  lemma StepIs(c: Cipher, s: State, i: nat, t: nat)
    requires i < |s.r|
    ensures var b := c.enc(Block(s.a, s.r[i])); Step(c, s, i, t) == State(Tweak(b.a, t), s.r[i := b.r])
  {
  }

  lemma InvStepIs(c: Cipher, s: State, i: nat, t: nat)
    requires i < |s.r|
    ensures var b := c.dec(Block(Tweak(s.a, t), s.r[i])); InvStep(c, s, i, t) == State(b.a, s.r[i := b.r])
  {
  }

  /** memmove. */
  method Move(src: array<Half>, from: nat, dest: array<Half>, to: nat, n: nat)
    requires from + n <= src.Length && to + n <= dest.Length
    modifies dest
    ensures dest[to..to + n] == old(src[from..from + n])
    ensures forall k :: 0 <= k < dest.Length && !(to <= k < to + n) ==> dest[k] == old(dest[k])
  {
    var data := src[from..from + n];
    for k := 0 to n
      invariant forall m :: 0 <= m < dest.Length ==> dest[m] == if to <= m < to + k then data[m - to] else old(dest[m])
    {
      dest[to + k] := data[k];
    }
  }

  /** aes_unwrap: the result is zero exactly when the integrity half is the initial value. Source and
      destination may be the same buffer. */
  method AesUnwrap(c: Cipher, src: array<Half>, dest: array<Half>, nblk: nat, memory: bool) returns (rc: int)
    requires nblk < src.Length && nblk <= dest.Length
    modifies dest
    ensures !memory ==> rc == -1 && dest[..] == old(dest[..])
    ensures memory ==>
              var u := UnwrapKey(c, old(src[..nblk + 1]));
              dest[..nblk] == u.1 && rc == if u.0 then 0 else -1
  {
    if !memory {
      return -1;
    }
    hide Unwrapped;
    ghost var w := src[..nblk + 1];
    var a := src[0];
    Move(src, 1, dest, 0, nblk);
    assert dest[..nblk] == w[1..];
    a := UnwrapRounds(c, a, dest, nblk);
    return if a == IV then 0 else -1;
  }

  /** The unwrapping loop. */
  method UnwrapRounds(c: Cipher, a0: Half, dest: array<Half>, nblk: nat) returns (a: Half)
    requires nblk <= dest.Length
    modifies dest
    ensures State(a, dest[..nblk]) == Unwrapped(c, State(a0, old(dest[..nblk])), 6 * nblk)
  {
    LastRound(6 * nblk, nblk);
    hide Unwrapped, AtRound;
    a := a0;
    var j, top: nat := 6, 6 * nblk;
    ghost var r := dest[..nblk];
    ghost var u := Unwrapped(c, State(a, r), top);
    while j > 0
      invariant 0 <= j <= 6 && AtRound(top, nblk, j)
      invariant r == dest[..nblk] && Unwrapped(c, State(a, r), top) == u
    {
      PreviousRound(top, nblk, j);
      j := j - 1;
      var base := top - nblk;
      a, r := UnwrapRound(c, a, dest, nblk, base, top, j, r, u);
      top := base;
    }
    LastUndone(top, nblk);
    NoneUndone(c, State(a, r));
  }

  /** One round of the unwrapping loop. */
  method UnwrapRound(c: Cipher, a0: Half, dest: array<Half>, nblk: nat, base: nat, ghost top: nat, ghost j: nat,
                     ghost r0: seq<Half>, ghost u: State)
    returns (a: Half, ghost r: seq<Half>)
    requires nblk <= dest.Length && AtRound(base, nblk, j) && r0 == dest[..nblk]
    requires top == base + nblk && Unwrapped(c, State(a0, r0), top) == u
    modifies dest
    ensures r == dest[..nblk] && Unwrapped(c, State(a, r), base) == u
  {
    hide InvStep, Position, Unwrapped, AtRound;
    a := a0;
    var i := nblk;
    r := r0;
    ghost var t := top;
    while i >= 1
      invariant 0 <= i <= nblk && t == base + i
      invariant r == dest[..nblk] && Unwrapped(c, State(a, r), t) == u
    {
      PositionOf(nblk, base, j, i);
      NextUndone(c, State(a, r), t);
      a, r := UnwrapStep(c, a, dest, nblk, i, base + i, r);
      i := i - 1;
      t := t - 1;
    }
  }

  method UnwrapStep(c: Cipher, a0: Half, dest: array<Half>, nblk: nat, i: nat, t: nat, ghost r0: seq<Half>)
    returns (a: Half, ghost r: seq<Half>)
    requires 1 <= i <= nblk <= dest.Length && r0 == dest[..nblk]
    modifies dest
    ensures r == dest[..nblk] && State(a, r) == InvStep(c, State(a0, r0), i - 1, t)
  {
    InvStepIs(c, State(a0, r0), i - 1, t);
    hide InvStep, Tweak;
    var b := c.dec(Block(Tweak(a0, t), dest[i - 1]));
    a := b.a;
    dest[i - 1] := b.r;
    r := r0[i - 1 := b.r];
    assert r == dest[..nblk];
  }

  lemma NextUndone(c: Cipher, s: State, t: nat)
    requires t > 0 && |s.r| > 0
    ensures Unwrapped(c, s, t) == Unwrapped(c, InvStep(c, s, Position(|s.r|, t), t), t - 1)
  {
  }

  lemma NoneUndone(c: Cipher, s: State)
    ensures Unwrapped(c, s, 0) == s
  {
  }
}
