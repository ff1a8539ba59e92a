/** Bitwise operators on unsigned machine words, written on the natural numbers they denote. */
module Bits {
  import opened Arith

  const WORD := 0x1_0000_0000_0000_0000

  /** `WORD` is the 64-bit modulus. */
  lemma WordIsPow2()
    ensures Pow2(64) == WORD
  {
    hide Pow2;
    Pow2Eight();
    Pow2Add(8, 8);
    Pow2Add(16, 16);
    Pow2Add(32, 32);
  }

  function And(x: nat, y: nat): nat
    decreases x
  {
    if x == 0 || y == 0 then 0
    else (if x % 2 == 1 && y % 2 == 1 then 1 else 0) + 2 * And(x / 2, y / 2)
  }

  function Or(x: nat, y: nat): nat
    decreases x + y
  {
    if x == 0 then y
    else if y == 0 then x
    else (if x % 2 == 1 || y % 2 == 1 then 1 else 0) + 2 * Or(x / 2, y / 2)
  }

  function BitXor(x: nat, y: nat): nat
    decreases x + y
  {
    if x == 0 then y
    else if y == 0 then x
    else (x % 2 + y % 2) % 2 + 2 * BitXor(x / 2, y / 2)
  }

  /** Bit k of a number. */
  predicate Bit(x: nat, k: nat) {
    x / Pow2(k) % 2 == 1
  }

  /** What lies above and below a power of two. */
  function High(x: nat, p: nat): nat
    requires p > 0
  {
    x / p
  }

  function Low(x: nat, p: nat): nat
    requires p > 0
  {
    x % p
  }

  lemma HighDouble(x: nat, h: nat)
    requires h > 0
    ensures High(x, 2 * h) == High(x / 2, h)
  {
    var q, r := x / 2 / h, x / 2 % h;
    assert x / 2 == q * h + r;
    assert q * (2 * h) == 2 * (q * h);
    DivModUnique(x, 2 * h, q, 2 * r + x % 2);
  }

  lemma LowDouble(x: nat, h: nat)
    requires h > 0
    ensures Low(x, 2 * h) == 2 * Low(x / 2, h) + x % 2
    ensures Low(x, 2 * h) / 2 == Low(x / 2, h) && Low(x, 2 * h) % 2 == x % 2
  {
    ModDouble(x, h);
  }

  lemma NextBit(x: nat, k: nat)
    requires k > 0
    ensures Bit(x, k) <==> Bit(x / 2, k - 1)
  {
    HighDouble(x, Pow2(k - 1));
  }

  /** Exclusive or, bit by bit. */
  lemma {:induction false} BitXorBits(x: nat, y: nat, k: nat)
    ensures Bit(BitXor(x, y), k) <==> Bit(x, k) != Bit(y, k)
    decreases k
  {
    BitXorHalves(x, y);
    if k > 0 {
      hide Bit, BitXor;
      NextBit(BitXor(x, y), k);
      NextBit(x, k);
      NextBit(y, k);
      BitXorBits(x / 2, y / 2, k - 1);
    }
  }

  lemma BitXorHalves(x: nat, y: nat)
    ensures BitXor(x, y) / 2 == BitXor(x / 2, y / 2) && BitXor(x, y) % 2 == (x % 2 + y % 2) % 2
  {
  }

  lemma {:induction false} BitXorTwice(x: nat, y: nat)
    ensures BitXor(BitXor(x, y), y) == x
    decreases x + y
  {
    hide BitXor;
    if x + y == 0 {
      BitXorZero();
    } else {
      BitXorTwice(x / 2, y / 2);
      BitXorHalves(x, y);
      var z := BitXor(x, y);
      BitXorHalves(z, y);
    }
  }

  /** The low k bits and the others do not meet. */
  lemma {:induction false} BitXorSplit(x: nat, y: nat, k: nat)
    ensures High(BitXor(x, y), Pow2(k)) == BitXor(High(x, Pow2(k)), High(y, Pow2(k)))
    ensures Low(BitXor(x, y), Pow2(k)) == BitXor(Low(x, Pow2(k)), Low(y, Pow2(k)))
    decreases k
  {
    hide BitXor;
    if k > 0 {
      hide High, Low;
      BitXorSplit(x / 2, y / 2, k - 1);
      HighStep(x, y, Pow2(k - 1));
      LowStep(x, y, Pow2(k - 1));
    } else {
      BitXorZero();
    }
  }

  lemma BitXorZero()
    ensures BitXor(0, 0) == 0
  {
  }

  lemma HighStep(x: nat, y: nat, h: nat)
    requires h > 0 && High(BitXor(x / 2, y / 2), h) == BitXor(High(x / 2, h), High(y / 2, h))
    ensures High(BitXor(x, y), 2 * h) == BitXor(High(x, 2 * h), High(y, 2 * h))
  {
    hide BitXor, High;
    BitXorHalves(x, y);
    HighDouble(BitXor(x, y), h);
    HighDouble(x, h);
    HighDouble(y, h);
  }

  lemma LowStep(x: nat, y: nat, h: nat)
    requires h > 0 && Low(BitXor(x / 2, y / 2), h) == BitXor(Low(x / 2, h), Low(y / 2, h))
    ensures Low(BitXor(x, y), 2 * h) == BitXor(Low(x, 2 * h), Low(y, 2 * h))
  {
    hide BitXor, Low;
    BitXorHalves(x, y);
    LowDouble(BitXor(x, y), h);
    LowDouble(x, h);
    LowDouble(y, h);
    BitXorHalves(Low(x, 2 * h), Low(y, 2 * h));
  }

  /** Only zero leaves a number as it is. */
  lemma {:induction false} BitXorSame(x: nat, y: nat)
    ensures BitXor(x, y) == x <==> y == 0
    decreases x + y
  {
    if x != 0 && y != 0 {
      BitXorSame(x / 2, y / 2);
    }
  }

  /** Unsigned reduction to 64 bits: what C does to every `size_t` result. */
  function Wrap(x: int): (r: nat)
    ensures r < WORD
  {
    x % WORD
  }

  /** The low bits of x are its lowest bit and the low bits of x / 2. */
  lemma ModDouble(x: nat, h: nat)
    requires h > 0
    ensures x % (2 * h) == 2 * ((x / 2) % h) + x % 2
  {
    var q, r := x / 2 / h, (x / 2) % h;
    assert x / 2 == q * h + r;
    assert q * (2 * h) == 2 * (q * h);
    DivModUnique(x, 2 * h, q, 2 * r + x % 2);
  }

  /** Masking with 2^k - 1 is reduction modulo 2^k. */
  lemma {:induction false} AndMask(x: nat, k: nat)
    ensures And(x, Pow2(k) - 1) == x % Pow2(k)
    decreases k
  {
    if k > 0 {
      var h := Pow2(k - 1);
      AndMask(x / 2, k - 1);
      AndOdd(x, h - 1);
      ModDouble(x, h);
      assert 2 * (h - 1) + 1 == Pow2(k) - 1;
    }
  }

  lemma AndOdd(x: nat, y: nat)
    ensures And(x, 2 * y + 1) == 2 * And(x / 2, y) + x % 2
  {
    assert (2 * y + 1) / 2 == y && (2 * y + 1) % 2 == 1;
  }

  /** Masking with the complement of 2^k - 1 rounds down to a multiple of 2^k. */
  lemma {:induction false} AndNotMask(x: nat, k: nat, n: nat)
    requires k <= n && x < Pow2(n)
    ensures Pow2(k) <= Pow2(n)
    ensures And(x, Pow2(n) - Pow2(k)) == x - x % Pow2(k)
    decreases n
  {
    hide And;
    Pow2Monotone(k, n);
    if k == 0 {
      AndMask(x, n);
      SmallModulo(x, Pow2(n));
    } else if k == n {
      AndZero(x);
      SmallModulo(x, Pow2(k));
    } else {
      AndNotMask(x / 2, k - 1, n - 1);
      AndNotMaskStep(x, Pow2(n), Pow2(k), Pow2(n - 1), Pow2(k - 1));
    }
  }

  lemma AndZero(x: nat)
    ensures And(x, 0) == 0
  {
  }

  lemma AndNotMaskStep(x: nat, g: nat, h: nat, g': nat, h': nat)
    requires 0 < h' <= g' && g == 2 * g' && h == 2 * h' && And(x / 2, g' - h') == x / 2 - x / 2 % h'
    ensures And(x, g - h) == x - x % h
  {
    hide And;
    AndEven(x, g' - h');
    ModDouble(x, h');
  }

  lemma AndEven(x: nat, y: nat)
    ensures And(x, 2 * y) == 2 * And(x / 2, y)
  {
    assert 2 * y / 2 == y && 2 * y % 2 == 0;
  }

  /** Two low masks combine to the wider of the two. */
  lemma {:induction false} OrMask(a: nat, b: nat)
    ensures Or(Pow2(a) - 1, Pow2(b) - 1) == Pow2(if a < b then b else a) - 1
    decreases a + b
  {
    hide Or;
    if a == 0 || b == 0 {
      OrZero(Pow2(a) - 1);
      OrZero(Pow2(b) - 1);
    } else {
      OrMask(a - 1, b - 1);
      OrOdd(Pow2(a - 1) - 1, Pow2(b - 1) - 1);
    }
  }

  lemma OrZero(x: nat)
    ensures Or(x, 0) == Or(0, x) == x
  {
  }

  lemma OrOdd(x: nat, y: nat)
    ensures Or(2 * x + 1, 2 * y + 1) == 2 * Or(x, y) + 1
  {
    assert (2 * x + 1) / 2 == x && (2 * y + 1) / 2 == y;
  }

  /** The union of two words is the union of their lowest bits and the union of the rest. */
  lemma OrHalves(x: nat, y: nat)
    ensures Or(x, y) == (if x % 2 == 1 || y % 2 == 1 then 1 else 0) + 2 * Or(x / 2, y / 2)
  {
  }

  /** Words without a common bit: the union is the sum. */
  lemma {:induction false} OrDisjoint(x: nat, y: nat, k: nat)
    requires x % Pow2(k) == 0 && y < Pow2(k)
    ensures Or(x, y) == x + y
    decreases k
  {
    if k == 0 {
      assert y == 0;
    } else {
      EvenMultiple(x, k);
      OrDisjoint(x / 2, y / 2, k - 1);
      OrHalves(x, y);
    }
  }

  lemma EvenMultiple(x: nat, k: nat)
    requires k > 0 && x % Pow2(k) == 0
    ensures x % 2 == 0 && x / 2 % Pow2(k - 1) == 0
  {
    var p := Pow2(k - 1);
    var q := x / (2 * p);
    assert x == q * (2 * p) + 0;
    assert x == 2 * (q * p);
    DivModUnique(x / 2, p, q, 0);
  }
}
