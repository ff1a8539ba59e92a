/** isqrt.c: the integer square root, one bit at a time. */
module Isqrt {
  import opened Arith

  const ULONG := 0x1_0000_0000_0000_0000

  lemma SquareOfSum(r: nat, b: nat)
    ensures (r + b) * (r + b) == r * r + 2 * r * b + b * b
  {
  }

  /** A square below 2^64 has a root below 2^32. */
  lemma RootBound(r: nat)
    requires r * r < ULONG
    ensures r < 0x1_0000_0000
  {
    if r >= 0x1_0000_0000 {
      MulMonotone(0x1_0000_0000, r, 0x1_0000_0000);
      MulMonotone(0x1_0000_0000, r, r);
    }
  }

  /** One iteration: the root so far is r, its next candidate bit is b, and result is 2 r b. */
  lemma Trial(v: nat, r: nat, b: nat, result: nat, value: nat)
    requires result == 2 * (r * b) && value == v - r * r && v < (r + 2 * b) * (r + 2 * b)
    ensures value >= result + b * b <==> v >= (r + b) * (r + b)
    ensures value >= result + b * b ==>
              && value - (result + b * b) == v - (r + b) * (r + b)
              && r * b + b * b == (r + b) * b
              && v < (r + b + b) * (r + b + b)
  {
    SquareOfSum(r, b);
    assert 2 * (r * b) == 2 * r * b;
    assert (r + b) * b == r * b + b * b;
    assert r + b + b == r + 2 * b;
  }

  /** The trial bit: the square of a power of two, and zero when they are used up. */
  ghost function Bit(k: int): nat {
    if k < 0 then 0 else Pow2(k) * Pow2(k)
  }

  lemma Quartered(k: int)
    requires k >= 0
    ensures Bit(k) / 4 == Bit(k - 1) < Bit(k)
  {
    if k > 0 {
      var p := Pow2(k - 1);
      assert Pow2(k) == 2 * p;
      assert (2 * p) * (2 * p) == 4 * (p * p);
      MulMonotone(1, p, p);
    }
  }

  lemma HighestBit()
    ensures Pow2(31) == 0x8000_0000 && Bit(31) == 0x4000_0000_0000_0000
  {
    hide Pow2;
    Pow2Eight();
    Pow2Add(8, 8);
    Pow2Add(16, 8);
    Pow2Add(24, 8);
    Pow2Add(31, 1);
    Pow2One();
  }

  lemma Pow2One()
    ensures Pow2(1) == 2
  {
  }

  /** The state of the main loop: r is the root found so far, a multiple of the bits already tried. When
      they are used up, the result is the root. */
  ghost predicate Loop(v: nat, k: int, m: nat, r: nat, result: nat, value: nat) {
    && -1 <= k < 32 && r * r <= v < ULONG && value == v - r * r
    && if k < 0 then result == r && v < (r + 1) * (r + 1)
       else var b := Pow2(k); r == m * (2 * b) && result == 2 * (r * b) && v < (r + 2 * b) * (r + 2 * b)
  }

  lemma LoopStart(v: nat, k: int)
    requires -1 <= k < 32 && v < ULONG && (if k < 0 then v == 0 else v < 4 * Bit(k))
    ensures Loop(v, k, 0, 0, 0, v)
  {
    if k >= 0 {
      var b := Pow2(k);
      assert (2 * b) * (2 * b) == 4 * (b * b);
    }
  }

  /** The trial sum fits in an unsigned long. */
  lemma NoOverflow(v: nat, k: int, m: nat, r: nat, result: nat, value: nat)
    requires Loop(v, k, m, r, result, value) && k >= 0
    ensures result + Bit(k) < ULONG
  {
    Divides(k);
    SumBound(m, Pow2(k), r, Pow2(31 - k));
  }

  lemma Divides(k: int)
    requires 0 <= k < 32
    ensures (2 * Pow2(k)) * Pow2(31 - k) == 0x1_0000_0000
  {
    HighestBit();
    Pow2Add(k, 31 - k);
    DoubleLeft(Pow2(k), Pow2(31 - k));
  }

  lemma DoubleLeft(a: nat, b: nat)
    ensures (2 * a) * b == 2 * (a * b)
  {
  }

  lemma SumBound(m: nat, b: nat, r: nat, n: nat)
    requires b > 0 && (2 * b) * n == 0x1_0000_0000 && r == m * (2 * b) && r * r < ULONG
    ensures 2 * (r * b) + b * b < ULONG
  {
    RootBound(r);
    RoomForBit(m, b, n);
    SquareBound(r + b);
    SquareOfSum(r, b);
    DoubleLeft(r, b);
  }

  lemma SquareBound(x: nat)
    requires x < 0x1_0000_0000
    ensures x * x < ULONG
  {
    MulMonotone(x, 0xffff_ffff, x);
    MulMonotone(x, 0xffff_ffff, 0xffff_ffff);
  }

  lemma RoomForBit(m: nat, b: nat, n: nat)
    requires b > 0 && (2 * b) * n == 0x1_0000_0000 && m * (2 * b) < 0x1_0000_0000
    ensures m * (2 * b) + b < 0x1_0000_0000
  {
    var c := 2 * b;
    assert n * c == c * n;
    if m >= n {
      MulMonotone(n, m, c);
      assert false;
    }
    MulMonotone(m + 1, n, c);
    assert (m + 1) * c == m * c + c;
  }

  /** The bit is added to the root. */
  lemma Taken(v: nat, k: int, m: nat, r: nat, result: nat, value: nat)
    requires Loop(v, k, m, r, result, value) && k >= 0 && value >= result + Bit(k)
    ensures Loop(v, k - 1, 2 * m + 1, r + Pow2(k), result / 2 + Bit(k), value - (result + Bit(k)))
  {
    var b := Pow2(k);
    Trial(v, r, b, result, value);
    OddMultiple(m, b);
    HalfBit(v, k, 2 * m + 1, r + b, result / 2 + b * b, value - (result + b * b));
  }

  /** The bit is left out. */
  lemma Passed(v: nat, k: int, m: nat, r: nat, result: nat, value: nat)
    requires Loop(v, k, m, r, result, value) && k >= 0 && value < result + Bit(k)
    ensures Loop(v, k - 1, 2 * m, r, result / 2, value)
  {
    var b := Pow2(k);
    Trial(v, r, b, result, value);
    OddMultiple(m, b);
    HalfBit(v, k, 2 * m, r, result / 2, value);
  }

  lemma OddMultiple(m: nat, b: nat)
    ensures m * (2 * b) == (2 * m) * b
    ensures m * (2 * b) + b == (2 * m + 1) * b
  {
  }

  /** The loop state one bit further on, from the same facts in terms of this bit. */
  lemma HalfBit(v: nat, k: int, m: nat, r: nat, result: nat, value: nat)
    requires 0 <= k < 32 && r * r <= v < ULONG && value == v - r * r
    requires r == m * Pow2(k) && result == r * Pow2(k) && v < (r + Pow2(k)) * (r + Pow2(k))
    ensures Loop(v, k - 1, m, r, result, value)
  {
    if k > 0 {
      var p := Pow2(k - 1);
      assert Pow2(k) == 2 * p;
      assert r * (2 * p) == 2 * (r * p);
    } else {
      assert Pow2(0) == 1;
    }
  }

  /** Before the main loop: the value is below four times the trial bit. */
  ghost predicate Start(v: nat, k: int, bit: nat) {
    -1 <= k < 32 && bit == Bit(k) && if k < 0 then v == 0 else v < 4 * bit
  }

  lemma Started(v: nat)
    requires v < ULONG
    ensures Start(v, 31, 0x4000_0000_0000_0000)
  {
    HighestBit();
  }

  lemma StartStep(v: nat, k: int, bit: nat)
    requires Start(v, k, bit) && bit > v
    ensures Start(v, k - 1, bit / 4) && bit / 4 < bit
  {
    BitSign(k);
    Quartered(k);
    BitSign(k - 1);
  }

  ghost predicate AtBit(v: nat, k: int, m: nat, r: nat, bit: nat, result: nat, value: nat) {
    bit == Bit(k) && Loop(v, k, m, r, result, value)
  }

  lemma AtStart(v: nat, k: int, bit: nat)
    requires Start(v, k, bit) && v < ULONG
    ensures AtBit(v, k, 0, 0, bit, 0, v)
  {
    LoopStart(v, k);
  }

  lemma LoopStep(v: nat, k: int, m: nat, r: nat, bit: nat, result: nat, value: nat) returns (n: nat, q: nat)
    requires AtBit(v, k, m, r, bit, result, value) && bit > 0
    ensures result + bit < ULONG && bit / 4 < bit
    ensures value >= result + bit ==> AtBit(v, k - 1, n, q, bit / 4, result / 2 + bit, value - (result + bit))
    ensures value < result + bit ==> AtBit(v, k - 1, n, q, bit / 4, result / 2, value)
  {
    BitSign(k);
    Quartered(k);
    NoOverflow(v, k, m, r, result, value);
    if value >= result + bit {
      Taken(v, k, m, r, result, value);
      n, q := 2 * m + 1, r + Pow2(k);
    } else {
      Passed(v, k, m, r, result, value);
      n, q := 2 * m, r;
    }
  }

  lemma LoopEnd(v: nat, k: int, m: nat, r: nat, bit: nat, result: nat, value: nat)
    requires AtBit(v, k, m, r, bit, result, value) && bit == 0
    ensures result * result <= v < (result + 1) * (result + 1)
  {
    BitSign(k);
  }

  /** isqrt, for every value of an unsigned long: the floor of the square root. */
  method SquareRoot(v: nat) returns (result: nat)
    requires v < ULONG
    ensures result * result <= v < (result + 1) * (result + 1)
  {
    hide Start, AtBit;
    var value: nat := v;
    result := 0;
    var bit: nat := 0x4000_0000_0000_0000;
    ghost var k: int := 31;
    Started(v);
    while bit > value
      invariant Start(v, k, bit)
    {
      StartStep(v, k, bit);
      k := k - 1;
      bit := bit / 4;
    }
    AtStart(v, k, bit);
    ghost var r: nat, m: nat := 0, 0;
    while bit > 0
      invariant AtBit(v, k, m, r, bit, result, value)
      decreases bit
    {
      m, r := LoopStep(v, k, m, r, bit, result, value);
      var trial := result + bit;
      assert trial < ULONG;
      if value >= trial {
        value := value - trial;
        result := result / 2 + bit;
      } else {
        result := result / 2;
      }
      k := k - 1;
      bit := bit / 4;
    }
    LoopEnd(v, k, m, r, bit, result, value);
  }

  lemma BitSign(k: int)
    ensures Bit(k) > 0 <==> k >= 0
  {
    if k >= 0 {
      MulMonotone(1, Pow2(k), Pow2(k));
    }
  }
}
