/** The field GF(2^8) as aes.c uses it: doubling, the generator x + 1, and the powers that visit every
    nonzero element. */
module Gf256 {

  function Xor(x: bv8, y: bv8): bv8 { x ^ y }

  /** rol8 by each of the distances that occur. */
  function Rol1(x: bv8): bv8 { (x << 1) | (x >> 7) }
  function Rol2(x: bv8): bv8 { (x << 2) | (x >> 6) }
  function Rol3(x: bv8): bv8 { (x << 3) | (x >> 5) }
  function Rol4(x: bv8): bv8 { (x << 4) | (x >> 4) }

  /** aes_double: multiply by x, reducing by x^8 + x^4 + x^3 + x + 1. */
  function Double(poly: bv8): bv8 {
    var p := Rol1(poly);
    if p & 0x01 != 0 then (p ^ 0x01) ^ 0x1b else p
  }

  /** Multiply by the generator x + 1. */
  function Triple(x: bv8): bv8 {
    Xor(x, Double(x))
  }

  /** Divide by the generator, as the table generator does it. */
  function Third(x: bv8): bv8 {
    var a := x ^ (x << 1);
    var b := a ^ (a << 2);
    var c := b ^ (b << 4);
    if c & 0x80 != 0 then c ^ 0x09 else c
  }

  /** The affine map of the S-box, and its inverse. */
  function Affine(x: bv8): bv8 {
    0x63 ^ x ^ Rol1(x) ^ Rol2(x) ^ Rol3(x) ^ Rol4(x)
  }

  function InvAffine(y: bv8): bv8 {
    0x05 ^ Rol1(y) ^ Rol3(y) ^ Rol3(Rol3(y))
  }

  //////////////////////////////////////////////////////////////////////////////
  // Addition
  //////////////////////////////////////////////////////////////////////////////

  lemma XorComm(x: bv8, y: bv8)
    ensures Xor(x, y) == Xor(y, x)
  {
  }

  lemma XorAssoc(x: bv8, y: bv8, z: bv8)
    ensures Xor(Xor(x, y), z) == Xor(x, Xor(y, z))
  {
  }

  lemma XorZero(x: bv8)
    ensures Xor(x, 0) == x && Xor(0, x) == x
  {
  }

  lemma XorCancel(x: bv8, y: bv8)
    ensures Xor(Xor(x, y), y) == x
  {
  }

  lemma XorSwap(a: bv8, b: bv8, c: bv8, d: bv8)
    ensures Xor(Xor(a, b), Xor(c, d)) == Xor(Xor(a, c), Xor(b, d))
  {
    hide Xor;
    XorAssoc(a, b, Xor(c, d));
    XorAssoc(b, c, d);
    XorComm(b, c);
    XorAssoc(c, b, d);
    XorAssoc(a, c, Xor(b, d));
  }

  //////////////////////////////////////////////////////////////////////////////
  // Doubling is linear
  //////////////////////////////////////////////////////////////////////////////

  /** Doubling without a branch: the top bit, wherever the reduction puts it. */
  function DoubleXor(x: bv8): bv8 {
    (x << 1) ^ (x >> 7) ^ ((x >> 7) << 1) ^ ((x >> 7) << 3) ^ ((x >> 7) << 4)
  }

  lemma DoubleIsXor(x: bv8)
    ensures Double(x) == DoubleXor(x)
  {
  }

  lemma DoubleXorLinear(x: bv8, y: bv8)
    ensures DoubleXor(Xor(x, y)) == Xor(DoubleXor(x), DoubleXor(y))
  {
  }

  lemma DoubleLinear(x: bv8, y: bv8)
    ensures Double(Xor(x, y)) == Xor(Double(x), Double(y))
  {
    hide Double, DoubleXor, Xor;
    DoubleIsXor(Xor(x, y));
    DoubleIsXor(x);
    DoubleIsXor(y);
    DoubleXorLinear(x, y);
  }

  lemma TripleLinear(x: bv8, y: bv8)
    ensures Triple(Xor(x, y)) == Xor(Triple(x), Triple(y))
  {
    hide Double, Xor;
    DoubleLinear(x, y);
    XorSwap(x, y, Double(x), Double(y));
  }

  lemma DoubleTriple(x: bv8)
    ensures Double(Triple(x)) == Triple(Double(x))
  {
    hide Double, Xor;
    DoubleLinear(x, Double(x));
  }

  lemma ZeroMultiples()
    ensures Double(0) == 0 && Triple(0) == 0
  {
  }

  lemma TripleThird(x: bv8)
    ensures Third(Triple(x)) == x && Triple(Third(x)) == x
  {
  }

  lemma AffineInverse(x: bv8)
    ensures InvAffine(Affine(x)) == x
  {
  }

  //////////////////////////////////////////////////////////////////////////////
  // Multiplication
  //////////////////////////////////////////////////////////////////////////////

  function Select(a: bv8, b: bv8): bv8 {
    if b & 1 != 0 then a else 0
  }

  /** The product of a and the low k bits of b. */
  function TimesBits(a: bv8, b: bv8, k: nat): bv8
    decreases k
  {
    if k == 0 then 0 else Xor(Select(a, b), TimesBits(Double(a), b >> 1, k - 1))
  }

  function Times(a: bv8, b: bv8): bv8 {
    TimesBits(a, b, 8)
  }

  lemma SelectTriple(a: bv8, b: bv8)
    ensures Select(Triple(a), b) == Triple(Select(a, b))
  {
    ZeroMultiples();
    hide Triple;
  }

  lemma {:induction false} TimesBitsTriple(a: bv8, b: bv8, k: nat)
    ensures TimesBits(Triple(a), b, k) == Triple(TimesBits(a, b, k))
    decreases k
  {
    if k == 0 {
      ZeroMultiples();
    } else {
      hide Double, Triple, Xor, Select;
      DoubleTriple(a);
      TimesBitsTriple(Double(a), b >> 1, k - 1);
      SelectTriple(a, b);
      TripleLinear(Select(a, b), TimesBits(Double(a), b >> 1, k - 1));
    }
  }

  lemma {:induction false} TimesTriple(a: bv8, b: bv8)
    ensures Times(Triple(a), b) == Triple(Times(a, b))
  {
    TimesBitsTriple(a, b, 8);
  }

  lemma TimesBitsStep(a: bv8, b: bv8, k: nat)
    requires k > 0
    ensures TimesBits(a, b, k) == Xor(Select(a, b), TimesBits(Double(a), b >> 1, k - 1))
  {
  }

  /** The bits of b, put back where they were. */
  lemma Reassemble(b: bv8)
    ensures Xor(Select(0x01, b), Xor(Select(0x02, b >> 1), Xor(Select(0x04, b >> 2), Xor(Select(0x08, b >> 3),
            Xor(Select(0x10, b >> 4), Xor(Select(0x20, b >> 5), Xor(Select(0x40, b >> 6), Select(0x80, b >> 7)))))))) == b
  {
  }

  lemma {:induction false} Unrolled(a: bv8, b: bv8)
    ensures Times(a, b) ==
            var a1 := Double(a); var a2 := Double(a1); var a3 := Double(a2); var a4 := Double(a3);
            var a5 := Double(a4); var a6 := Double(a5); var a7 := Double(a6);
            Xor(Select(a, b), Xor(Select(a1, b >> 1), Xor(Select(a2, b >> 2), Xor(Select(a3, b >> 3),
            Xor(Select(a4, b >> 4), Xor(Select(a5, b >> 5), Xor(Select(a6, b >> 6), Select(a7, b >> 7))))))))
  {
    Shifts(b);
    hide Xor, Select, Double;
    var a1 := Double(a); var a2 := Double(a1); var a3 := Double(a2); var a4 := Double(a3);
    var a5 := Double(a4); var a6 := Double(a5); var a7 := Double(a6);
    TimesBitsStep(a, b, 8);
    TimesBitsStep(a1, b >> 1, 7);
    TimesBitsStep(a2, b >> 2, 6);
    TimesBitsStep(a3, b >> 3, 5);
    TimesBitsStep(a4, b >> 4, 4);
    TimesBitsStep(a5, b >> 5, 3);
    TimesBitsStep(a6, b >> 6, 2);
    TimesBitsStep(a7, b >> 7, 1);
    XorZero(Select(a7, b >> 7));
  }

  lemma Shifts(b: bv8)
    ensures (b >> 1) >> 1 == b >> 2 && (b >> 2) >> 1 == b >> 3 && (b >> 3) >> 1 == b >> 4
    ensures (b >> 4) >> 1 == b >> 5 && (b >> 5) >> 1 == b >> 6 && (b >> 6) >> 1 == b >> 7
  {
  }

  lemma PowersOfTwo()
    ensures Double(0x01) == 0x02 && Double(0x02) == 0x04 && Double(0x04) == 0x08 && Double(0x08) == 0x10
    ensures Double(0x10) == 0x20 && Double(0x20) == 0x40 && Double(0x40) == 0x80
  {
  }

  lemma {:induction false} TimesOne(b: bv8)
    ensures Times(1, b) == b
  {
    PowersOfTwo();
    Reassemble(b);
    hide Xor, Select, Double;
    Unrolled(1, b);
  }

  //////////////////////////////////////////////////////////////////////////////
  // Powers of the generator
  //////////////////////////////////////////////////////////////////////////////

  function Power(k: nat): bv8 {
    if k == 0 then 1 else Triple(Power(k - 1))
  }

  function InvPower(k: nat): bv8 {
    if k == 0 then 1 else Third(InvPower(k - 1))
  }

  lemma {:induction false} PowerAdd(j: nat, k: nat)
    ensures Power(j + k) == Times(Power(j), Power(k))
  {
    hide Triple, Times;
    if j == 0 {
      TimesOne(Power(k));
    } else {
      PowerAdd(j - 1, k);
      TimesTriple(Power(j - 1), Power(k));
    }
  }

  function TripleTimes(k: nat, x: bv8): bv8 {
    if k == 0 then x else Triple(TripleTimes(k - 1, x))
  }

  lemma {:induction false} TimesPower(k: nat, x: bv8)
    ensures Times(Power(k), x) == TripleTimes(k, x)
  {
    hide Triple, Times;
    if k == 0 {
      TimesOne(x);
    } else {
      TimesPower(k - 1, x);
      TimesTriple(Power(k - 1), x);
    }
  }

  /** Multiplying k times by the generator undoes dividing k times by it. */
  lemma {:induction false} Undivide(k: nat, j: nat)
    ensures TripleTimes(k, InvPower(k + j)) == InvPower(j)
  {
    hide Triple, Third;
    if k > 0 {
      TripleThird(InvPower(k + j - 1));
      TripleTimesInner(k, InvPower(k + j));
      Undivide(k - 1, j);
    }
  }

  lemma {:induction false} TripleTimesInner(k: nat, x: bv8)
    requires k > 0
    ensures TripleTimes(k, x) == TripleTimes(k - 1, Triple(x))
  {
    hide Triple;
    if k > 1 {
      TripleTimesInner(k - 1, x);
    }
  }

  /** The second loop variable of the table generator is always the inverse of the first. */
  lemma {:induction false} InvPowerIsInverse(k: nat)
    ensures Times(Power(k), InvPower(k)) == 1
  {
    hide Triple, Third, Times;
    TimesPower(k, InvPower(k));
    Undivide(k, 0);
  }

  //////////////////////////////////////////////////////////////////////////////
  // The generator has order 255
  //////////////////////////////////////////////////////////////////////////////

  lemma Hop(k: nat)
    ensures Power(k + 3) == Triple(Triple(Triple(Power(k))))
  {
    hide Triple;
    assert Power(k + 1) == Triple(Power(k));
    assert Power(k + 2) == Triple(Power(k + 1));
  }

  lemma {:induction false} SmallPowers()
    ensures Power(3) == 0x0f && Power(6) == 0x55 && Power(9) == 0x2e
    ensures Power(12) == 0xa1 && Power(15) == 0x35 && Power(17) == 0xe1
  {
    Hop(0);
    Hop(3);
    Hop(6);
    Hop(9);
    Hop(12);
    assert Power(16) == Triple(Power(15));
    assert Power(17) == Triple(Power(16));
  }

  lemma {:induction false} Product(a: bv8, b: bv8, c: bv8)
    requires c == Xor(Select(a, b), Xor(Select(Double(a), b >> 1), Xor(Select(Double(Double(a)), b >> 2),
                  Xor(Select(Double(Double(Double(a))), b >> 3),
                  Xor(Select(Double(Double(Double(Double(a)))), b >> 4),
                  Xor(Select(Double(Double(Double(Double(Double(a))))), b >> 5),
                  Xor(Select(Double(Double(Double(Double(Double(Double(a)))))), b >> 6),
                  Select(Double(Double(Double(Double(Double(Double(Double(a))))))), b >> 7))))))))
    ensures Times(a, b) == c
  {
    hide Xor, Select, Double;
    Unrolled(a, b);
  }

  lemma {:induction false} LargePowers()
    ensures Power(51) == 0x0c && Power(85) == 0xbd && Power(255) == 1
  {
    SmallPowers();
    PowerAdd(17, 17);
    Product(0xe1, 0xe1, 0x5c);
    PowerAdd(34, 17);
    Product(0x5c, 0xe1, 0x0c);
    PowerAdd(51, 34);
    Product(0x0c, 0x5c, 0xbd);
    PowerAdd(85, 85);
    Product(0xbd, 0xbd, 0xbc);
    PowerAdd(170, 85);
    Product(0xbc, 0xbd, 0x01);
  }

  /** A period of the powers may be repeated. */
  lemma {:induction false} Period(d: nat, q: nat, n: nat)
    requires Power(d) == 1
    ensures Power(q * d + n) == Power(n)
  {
    if q > 0 {
      hide Times;
      Period(d, q - 1, n);
      assert q * d + n == d + ((q - 1) * d + n);
      PowerAdd(d, (q - 1) * d + n);
      TimesOne(Power((q - 1) * d + n));
    }
  }

  lemma {:induction false} PeriodMultiple(d: nat, q: nat)
    requires Power(d) == 1
    ensures Power(q * d) == 1
  {
    Period(d, q, 0);
  }

  /** A proper divisor of 255 divides 15, 51 or 85. */
  lemma Divisors(d: nat, q: nat) returns (m: nat, e: nat)
    requires q * d == 255 && d < 255
    ensures (m == 15 || m == 51 || m == 85) && e * d == m
  {
    if d <= 15 {
      assert d == 1 || d == 3 || d == 5 || d == 15 by { SmallDivisor(d, q); }
      m := 15;
      e := if d == 1 then 15 else if d == 3 then 5 else if d == 5 then 3 else 1;
    } else {
      assert q <= 15;
      assert q == 1 || q == 3 || q == 5 || q == 15 by { SmallDivisor(q, d); }
      assert d == 85 || d == 51 || d == 17;
      m := if d == 85 then 85 else 51;
      e := if d == 17 then 3 else 1;
    }
  }

  lemma SmallDivisor(d: nat, q: nat)
    requires q * d == 255 && d <= 15
    ensures d == 1 || d == 3 || d == 5 || d == 15
  {
    if d == 2 || d == 4 || d == 6 || d == 7 || d == 8 || d == 9 || d == 10 || d == 11 || d == 12 || d == 13 || d == 14 {
      assert false;
    }
  }

  lemma Quotient(d: nat) returns (q: nat, r: nat)
    requires d > 0
    ensures q * d + r == 255 && r < d
  {
    q, r := 255 / d, 255 % d;
  }

  /** No earlier power of the generator is 1. */
  lemma {:induction false} Order(d: nat)
    requires 0 < d < 255
    ensures Power(d) != 1
    decreases d
  {
    LargePowers();
    SmallPowers();
    if Power(d) == 1 {
      hide Power;
      var q, r := Quotient(d);
      Period(d, q, r);
      if r > 0 {
        Order(r);
      } else {
        var m, e := Divisors(d, q);
        PeriodMultiple(d, e);
      }
    }
  }

  lemma {:induction false} TripleTimesInjective(k: nat, x: bv8, y: bv8)
    requires TripleTimes(k, x) == TripleTimes(k, y)
    ensures x == y
  {
    hide Triple, Third;
    if k > 0 {
      TripleThird(TripleTimes(k - 1, x));
      TripleThird(TripleTimes(k - 1, y));
      TripleTimesInjective(k - 1, x, y);
    }
  }

  lemma {:induction false} PowersDistinct(j: nat, k: nat)
    requires j < k < 255
    ensures Power(j) != Power(k)
  {
    hide Triple, Times;
    PowerAdd(j, k - j);
    TimesPower(j, Power(k - j));
    PowerAdd(j, 0);
    TimesPower(j, 1);
    if Power(j) == Power(k) {
      TripleTimesInjective(j, 1, Power(k - j));
      Order(k - j);
    }
  }

  /** Dividing k times is multiplying 255 - k times. */
  lemma {:induction false} InvPowerIsPower(k: nat)
    requires k <= 255
    ensures InvPower(k) == Power(255 - k)
  {
    hide Triple, Times, Third;
    InvPowerIsInverse(k);
    TimesPower(k, InvPower(k));
    LargePowers();
    PowerAdd(k, 255 - k);
    TimesPower(k, Power(255 - k));
    TripleTimesInjective(k, InvPower(k), Power(255 - k));
  }

  lemma {:induction false} PowerNonzero(k: nat)
    ensures Power(k) != 0
  {
    if k > 0 {
      TripleThird(Power(k - 1));
      PowerNonzero(k - 1);
      ZeroMultiples();
      assert Third(0) == 0;
      hide Triple, Third;
    }
  }

  //////////////////////////////////////////////////////////////////////////////
  // The powers visit every nonzero byte
  //////////////////////////////////////////////////////////////////////////////

  ghost function Visited(n: nat): set<nat> {
    if n == 0 then {} else Visited(n - 1) + {Power(n - 1) as int}
  }

  lemma {:induction false} VisitedAt(n: nat, x: nat) returns (k: nat)
    requires x in Visited(n)
    ensures k < n && Power(k) as int == x
  {
    hide Power;
    k := n - 1;
    if Power(k) as int != x {
      k := VisitedAt(n - 1, x);
    }
  }

  lemma {:induction false} VisitedSize(n: nat)
    requires n <= 255
    ensures |Visited(n)| == n
  {
    hide Power;
    if n > 0 {
      VisitedSize(n - 1);
      var x := Power(n - 1) as int;
      if x in Visited(n - 1) {
        var j := VisitedAt(n - 1, x);
        PowersDistinct(j, n - 1);
      }
    }
  }

  lemma {:induction false} IntervalSize(s: set<nat>, n: nat)
    requires forall x :: x in s ==> 1 <= x <= n
    ensures |s| <= n
    ensures |s| == n ==> forall x :: 1 <= x <= n ==> x in s
  {
    if n == 0 {
      assert s == {};
    } else {
      var t := s - {n};
      IntervalSize(t, n - 1);
      assert s == if n in s then t + {n} else t;
    }
  }

  lemma {:induction false} VisitedNonzero(n: nat, x: nat)
    requires x in Visited(n)
    ensures 1 <= x <= 255
  {
    hide Power, Visited;
    var k := VisitedAt(n, x);
    PowerNonzero(k);
  }

  lemma {:induction false} Coverage(a: bv8)
    requires a != 0
    ensures exists k: nat :: k < 255 && Power(k) == a
  {
    hide Power, Visited;
    VisitedSize(255);
    forall x | x in Visited(255)
      ensures 1 <= x <= 255
    {
      VisitedNonzero(255, x);
    }
    IntervalSize(Visited(255), 255);
    var k := VisitedAt(255, a as int);
  }

  ghost function Log(a: bv8): (k: nat)
    requires a != 0
    ensures k < 255 && Power(k) == a
  {
    Coverage(a);
    var k: nat :| k < 255 && Power(k) == a;
    k
  }

  /** The multiplicative inverse. */
  ghost function Inverse(a: bv8): (b: bv8)
    requires a != 0
    ensures Times(a, b) == 1
  {
    InvPowerIsInverse(Log(a));
    InvPower(Log(a))
  }

  lemma {:induction false} InverseUnique(a: bv8, b: bv8)
    requires a != 0 && Times(a, b) == 1
    ensures b == Inverse(a)
  {
    hide Times, Triple;
    var k := Log(a);
    TimesPower(k, b);
    TimesPower(k, Inverse(a));
    TripleTimesInjective(k, b, Inverse(a));
  }

  lemma {:induction false} InverseOfPower(k: nat)
    ensures Power(k) != 0 && Inverse(Power(k)) == InvPower(k)
  {
    PowerNonzero(k);
    InvPowerIsInverse(k);
    InverseUnique(Power(k), InvPower(k));
  }

  lemma {:induction false} InverseInvolution(a: bv8)
    requires a != 0
    ensures Inverse(a) != 0 && Inverse(Inverse(a)) == a
  {
    hide Times, Triple, Third, Power, InvPower;
    var k := Log(a);
    InverseOfPower(k);
    InvPowerIsPower(k);
    InverseOfPower(255 - k);
    InvPowerIsPower(255 - k);
  }

  //////////////////////////////////////////////////////////////////////////////
  // The S-box
  //////////////////////////////////////////////////////////////////////////////

  ghost function SBox(a: bv8): bv8 {
    Affine(if a == 0 then 0 else Inverse(a))
  }

  ghost function InvSBox(b: bv8): bv8 {
    var x := InvAffine(b);
    if x == 0 then 0 else Inverse(x)
  }

  lemma AffineOnto(y: bv8)
    ensures Affine(InvAffine(y)) == y
  {
  }

  /** The S-box is a permutation of the bytes, and InvSBox is its inverse. */
  lemma {:induction false} SBoxPermutation(a: bv8)
    ensures InvSBox(SBox(a)) == a && SBox(InvSBox(a)) == a
  {
    AffineInverse(if a == 0 then 0 else Inverse(a));
    AffineOnto(a);
    hide Affine, InvAffine, Inverse;
    if a != 0 {
      InverseInvolution(a);
    }
    if InvAffine(a) != 0 {
      InverseInvolution(InvAffine(a));
    }
  }
}
