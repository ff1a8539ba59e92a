/** random.c: a linear congruential generator whose products never leave 32 bits. */
module Random {
  import opened Arith

  const MULTIPLIER := 40014
  const MODULUS := 2147483563
  /** MODULUS == MULTIPLIER * QUOTIENT + REMAINDER. */
  const QUOTIENT := 53668
  const REMAINDER := 12211

  predicate Int32(x: int) {
    -0x8000_0000 <= x < 0x8000_0000
  }

  /** An unsigned int stored in an int32_t. */
  function Stored(x: nat): (s: int)
    requires x < 0x1_0000_0000
    ensures Int32(s) && (s == x || s == x - 0x1_0000_0000)
  {
    if x < 0x8000_0000 then x else x - 0x1_0000_0000
  }

  /** The state srandom leaves: never zero. */
  function Seeded(x: nat): (s: int)
    requires x < 0x1_0000_0000
    ensures Int32(s) && s != 0
  {
    if Stored(x) == 0 then 4 else Stored(x)
  }

  /** C division: towards zero. */
  function Truncated(x: int, d: nat): (q: int)
    requires d > 0
    ensures x >= 0 ==> q >= 0 && q * d <= x < q * d + d
    ensures x < 0 ==> q <= 0 && q * d - d < x <= q * d
  {
    if x >= 0 then x / d else -(-x / d)
  }

  /** Before the correction the new state lies strictly between -MODULUS and MODULUS, and no product or
      difference on the way leaves an int32_t. */
  lemma NoOverflow(s: int, q: int)
    requires Int32(s) && q == Truncated(s, QUOTIENT)
    ensures Int32(QUOTIENT * q) && Int32(s - QUOTIENT * q)
    ensures Int32(MULTIPLIER * (s - QUOTIENT * q)) && Int32(REMAINDER * q)
    ensures -MODULUS < MULTIPLIER * (s - QUOTIENT * q) - REMAINDER * q < MODULUS
    ensures -MULTIPLIER <= q <= MULTIPLIER && -QUOTIENT < s - QUOTIENT * q < QUOTIENT
  {
  }

  /** The factored product is the product modulo MODULUS. */
  lemma Factored(s: int, q: int, t: int)
    requires t == MULTIPLIER * (s - QUOTIENT * q) - REMAINDER * q && -MODULUS < t < MODULUS
    ensures MULTIPLIER * s == t + q * MODULUS
    ensures (MULTIPLIER * s) % MODULUS == if t < 0 then t + MODULUS else t
  {
    if t < 0 {
      DivModUnique(MULTIPLIER * s, MODULUS, q - 1, t + MODULUS);
    } else {
      DivModUnique(MULTIPLIER * s, MODULUS, q, t);
    }
  }

  /** 40014 and 12211 have no common divisor, so the product vanishes for multiples of MODULUS only. */
  lemma ZeroOnly(s: int, q: int)
    requires -MULTIPLIER <= q <= MULTIPLIER && -QUOTIENT < s - QUOTIENT * q < QUOTIENT
    ensures MULTIPLIER * (s - QUOTIENT * q) == REMAINDER * q <==> s == 0 || s == MODULUS || s == -MODULUS
  {
    var r := s - QUOTIENT * q;
    if MULTIPLIER * r == REMAINDER * q {
      var k := 1219 * r - 372 * q;
      assert q == MULTIPLIER * k;
      assert k == -1 || k == 0 || k == 1;
    }
  }

  /** The state reached by the next call, for every state a 32-bit word can hold. */
  lemma StepIs(s: int, q: int, t: int)
    requires Int32(s) && q == Truncated(s, QUOTIENT) && t == MULTIPLIER * (s - QUOTIENT * q) - REMAINDER * q
    ensures (MULTIPLIER * s) % MODULUS == if t < 0 then t + MODULUS else t
    ensures (MULTIPLIER * s) % MODULUS == 0 <==> s == 0 || s == MODULUS || s == -MODULUS
  {
    NoOverflow(s, q);
    Factored(s, q, t);
    ZeroOnly(s, q);
  }

  predicate Proper(s: int) {
    1 <= s < MODULUS
  }

  /** No two proper states have the same successor: 2082061899 undoes the multiplication. */
  lemma StepInjective(s: int)
    requires Proper(s)
    ensures (2082061899 * ((MULTIPLIER * s) % MODULUS)) % MODULUS == s
  {
    var x := MULTIPLIER * s;
    ModMul(x, 2082061899, MODULUS);
    assert x * 2082061899 == (38795 * s) * MODULUS + s;
    DivModUnique(x * 2082061899, MODULUS, 38795 * s, s);
  }

  /** The states of a run. */
  ghost function States(s: int, n: nat): int {
    if n == 0 then s else (MULTIPLIER * States(s, n - 1)) % MODULUS
  }

  /** Over any run from a proper state the state stays proper, so the generator never reseeds itself, and
      it is the power of the multiplier that a linear congruential generator promises. */
  lemma {:induction false} RunIs(s: int, n: nat)
    requires Proper(s)
    ensures Proper(States(s, n)) && States(s, n) == (s * Pow(MULTIPLIER, n)) % MODULUS
  {
    if n == 0 {
      SmallModulo(s, MODULUS);
    } else {
      RunIs(s, n - 1);
      RunStep(States(s, n - 1), s, Pow(MULTIPLIER, n - 1));
    }
  }

  lemma RunStep(x: int, s: int, p: nat)
    requires Proper(x) && x == (s * p) % MODULUS
    ensures Proper((MULTIPLIER * x) % MODULUS)
    ensures (MULTIPLIER * x) % MODULUS == (s * (MULTIPLIER * p)) % MODULUS
  {
    var q := Truncated(x, QUOTIENT);
    StepIs(x, q, MULTIPLIER * (x - QUOTIENT * q) - REMAINDER * q);
    ModMul(s * p, MULTIPLIER, MODULUS);
    assert s * p * MULTIPLIER == s * (MULTIPLIER * p);
  }

  class Generator {
    /** rnd_seed. */
    var seed: int

    constructor ()
      ensures seed == 0
    {
      seed := 0;
    }

    method Srandom(x: nat)
      requires x < 0x1_0000_0000
      modifies this
      ensures seed == Seeded(x)
    {
      seed := Stored(x);
      if seed == 0 {
        seed := 4;
      }
    }

    /** random(), with the timer's value for the call that seeds. Zero comes out of two states only. */
    method Random(ticks: nat) returns (r: int)
      requires Int32(seed)
      modifies this
      ensures r == seed && Int32(seed)
      ensures var s := if old(seed) != 0 then old(seed) else Seeded(ticks % 0x1_0000_0000);
        r == (MULTIPLIER * s) % MODULUS && (r == 0 <==> s == MODULUS || s == -MODULUS)
    {
      if seed == 0 {
        Srandom(ticks % 0x1_0000_0000);
      }
      var q := Truncated(seed, QUOTIENT);
      assert Int32(q) && Int32(QUOTIENT * q) && Int32(REMAINDER * q) by { NoOverflow(seed, q); }
      StepIs(seed, q, MULTIPLIER * (seed - QUOTIENT * q) - REMAINDER * q);
      seed := MULTIPLIER * (seed - QUOTIENT * q) - REMAINDER * q;
      if seed < 0 {
        seed := seed + MODULUS;
      }
      r := seed;
    }
  }
}
