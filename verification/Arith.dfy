/** Powers of two, and the few facts about division that the other modules share. */
module Arith {

  function Pow2(n: nat): (r: nat)
    ensures r > 0
  {
    if n == 0 then 1 else 2 * Pow2(n - 1)
  }

  lemma {:induction false} Pow2Add(a: nat, b: nat)
    ensures Pow2(a + b) == Pow2(a) * Pow2(b)
  {
    if a == 0 {
    } else {
      Pow2Add(a - 1, b);
      assert Pow2(a + b) == 2 * (Pow2(a - 1) * Pow2(b)) == (2 * Pow2(a - 1)) * Pow2(b);
    }
  }

  lemma Pow2Eight()
    ensures Pow2(8) == 256
  {
    assert Pow2(4) == 16;
    Pow2Add(4, 4);
  }

  lemma {:induction false} Pow2Monotone(a: nat, b: nat)
    requires a <= b
    ensures Pow2(a) <= Pow2(b)
    ensures a < b ==> 2 * Pow2(a) <= Pow2(b)
  {
    if a < b {
      Pow2Monotone(a, b - 1);
    }
  }

  /** Position of the highest set bit, counted from one; zero for zero. */
  function Fls(x: nat): nat {
    if x == 0 then 0 else 1 + Fls(x / 2)
  }

  lemma {:induction false} FlsBounds(x: nat)
    ensures x < Pow2(Fls(x))
    ensures x > 0 ==> Fls(x) > 0 && Pow2(Fls(x) - 1) <= x
  {
    if x > 0 {
      FlsBounds(x / 2);
    }
  }

  /** The quotient and remainder are determined by their defining equation. */
  lemma DivModUnique(x: int, d: int, q: int, r: int)
    requires d > 0 && 0 <= r < d && x == q * d + r
    ensures x / d == q && x % d == r
  {
    var q', r' := x / d, x % d;
    assert x == q' * d + r';
    if q' < q {
      assert (q - q') * d == r' - r;
      assert (q - q') * d >= 1 * d by { MulMonotone(1, q - q', d); }
    } else if q < q' {
      assert (q' - q) * d == r - r';
      assert (q' - q) * d >= 1 * d by { MulMonotone(1, q' - q, d); }
    }
  }

  lemma MulMonotone(a: int, b: int, c: int)
    requires a <= b && c >= 0
    ensures a * c <= b * c
  {
  }

  /** Adding a multiple of the modulus changes nothing. */
  lemma ModShift(x: int, k: int, d: int)
    requires d > 0
    ensures (x + k * d) % d == x % d
  {
    var q, r := x / d, x % d;
    assert x + k * d == (q + k) * d + r;
    DivModUnique(x + k * d, d, q + k, r);
  }

  /** Reducing first by a multiple of the modulus changes nothing. */
  lemma ModOfMultiple(x: int, a: int, b: int)
    requires a > 0 && b > 0
    ensures a * b > 0 && (x % (a * b)) % a == x % a
  {
    assert a * b > 0 by { MulMonotone(1, a, b); }
    var q, r := x / (a * b), x % (a * b);
    assert r == x + (-q * b) * a;
    ModShift(x, -q * b, a);
  }

  lemma ModMul(x: int, y: int, d: int)
    requires d > 0
    ensures ((x % d) * y) % d == (x * y) % d
  {
    var q, r := x / d, x % d;
    assert r * y == x * y + (-q * y) * d by {
      assert x == q * d + r;
      assert x * y == (q * d) * y + r * y;
      assert (q * d) * y == (q * y) * d;
    }
    ModShift(x * y, -q * y, d);
  }

  lemma ModMulBoth(x: int, y: int, d: int)
    requires d > 0
    ensures ((x % d) * (y % d)) % d == (x * y) % d
  {
    ModMul(x, y % d, d);
    ModMul(y, x, d);
    assert x * (y % d) == (y % d) * x && x * y == y * x;
  }

  function Pow(x: nat, k: nat): nat {
    if k == 0 then 1 else x * Pow(x, k - 1)
  }

  lemma {:induction false} PowAdd(x: nat, j: nat, k: nat)
    ensures Pow(x, j + k) == Pow(x, j) * Pow(x, k)
  {
    if j > 0 {
      PowAdd(x, j - 1, k);
      assert x * (Pow(x, j - 1) * Pow(x, k)) == (x * Pow(x, j - 1)) * Pow(x, k);
    }
  }

  lemma {:induction false} PowSquare(x: nat, k: nat)
    ensures Pow(x * x, k) == Pow(x, k + k)
  {
    if k > 0 {
      PowSquare(x, k - 1);
      var p := Pow(x, k - 1 + (k - 1));
      assert Pow(x, k + k) == x * Pow(x, k + k - 1) == x * (x * p);
      assert x * x * p == x * (x * p);
    }
  }

  lemma {:induction false} PowPow(x: nat, j: nat, k: nat)
    ensures Pow(Pow(x, j), k) == Pow(x, j * k)
  {
    if k == 0 {
      assert j * k == 0;
    } else {
      PowPow(x, j, k - 1);
      assert j * k == j + j * (k - 1);
      PowAdd(x, j, j * (k - 1));
    }
  }

  lemma {:induction false} PowMod(x: nat, k: nat, d: nat)
    requires d > 0
    ensures Pow(x % d, k) % d == Pow(x, k) % d
  {
    if k > 0 {
      PowMod(x, k - 1, d);
      ModMulBoth(x, Pow(x, k - 1), d);
      ModMulBoth(x % d, Pow(x % d, k - 1), d);
      SmallModulo(x % d, d);
    }
  }

  lemma SmallModulo(x: nat, d: nat)
    requires x < d
    ensures x % d == x
  {
    DivModUnique(x, d, 0, x);
  }
}
