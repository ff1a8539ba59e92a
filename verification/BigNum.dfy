/** The numbers that arrays of 32-bit elements denote. */
module BigNum {
  import opened Arith

  const BASE := 0x1_0000_0000

  type Limb = x: nat | x < BASE witness 0

  function BasePow(n: nat): (p: nat)
    ensures p > 0
  {
    if n == 0 then 1 else BASE * BasePow(n - 1)
  }

  /** The value of the lowest i elements. */
  function Low(s: seq<Limb>, i: nat): nat
    requires i <= |s|
  {
    if i == 0 then 0 else Low(s, i - 1) + BasePow(i - 1) * s[i - 1]
  }

  function Value(s: seq<Limb>): nat {
    Low(s, |s|)
  }

  lemma {:induction false} LowBound(s: seq<Limb>, i: nat)
    requires i <= |s|
    ensures Low(s, i) < BasePow(i)
  {
    if i > 0 {
      LowBound(s, i - 1);
      var p := BasePow(i - 1);
      assert p * s[i - 1] <= p * (BASE - 1) by { MulMonotone(s[i - 1], BASE - 1, p); }
      assert p * (BASE - 1) == BASE * p - p;
    }
  }

  lemma {:induction false} LowAgrees(s: seq<Limb>, t: seq<Limb>, i: nat)
    requires i <= |s| && i <= |t|
    requires forall j :: 0 <= j < i ==> s[j] == t[j]
    ensures Low(s, i) == Low(t, i)
  {
    if i > 0 {
      LowAgrees(s, t, i - 1);
    }
  }

  /** What replacing one element does to the value. */
  lemma {:induction false} LowUpdate(s: seq<Limb>, k: nat, x: Limb, i: nat)
    requires k < i <= |s|
    ensures Low(s[k := x], i) == Low(s, i) + BasePow(k) * x - BasePow(k) * s[k]
  {
    var t := s[k := x];
    if k == i - 1 {
      LowAgrees(s, t, k);
    } else {
      LowUpdate(s, k, x, i - 1);
    }
  }

  lemma ValueUpdate(s: seq<Limb>, k: nat, x: Limb)
    requires k < |s|
    ensures Value(s[k := x]) == Value(s) + BasePow(k) * x - BasePow(k) * s[k]
  {
    LowUpdate(s, k, x, |s|);
  }

  lemma {:induction false} BasePowAdd(a: nat, b: nat)
    ensures BasePow(a + b) == BasePow(a) * BasePow(b)
  {
    if a > 0 {
      BasePowAdd(a - 1, b);
      assert BASE * (BasePow(a - 1) * BasePow(b)) == (BASE * BasePow(a - 1)) * BasePow(b);
    }
  }

  lemma BaseIsPow2()
    ensures Pow2(32) == BASE
  {
    Pow2Add(8, 8);
    Pow2Add(16, 16);
  }

  lemma {:induction false} BasePowIsPow2(n: nat)
    ensures BasePow(n) == Pow2(32 * n)
  {
    if n > 0 {
      BasePowIsPow2(n - 1);
      Pow2Add(32, 32 * (n - 1));
      BaseIsPow2();
    }
  }

  lemma Scaled(p: nat, q: nat, x: nat, g: nat)
    ensures (p * q) * x == p * (q * x)
    ensures p * (g + q * x) == p * g + p * (q * x)
  {
  }

  /** The elements above i contribute a multiple of the ith power. */
  lemma {:induction false} HighMultiple(s: seq<Limb>, i: nat, n: nat) returns (h: nat)
    requires i <= n <= |s|
    ensures Low(s, n) == Low(s, i) + BasePow(i) * h
    decreases n - i
  {
    if n == i {
      h := 0;
    } else {
      var g := HighMultiple(s, i, n - 1);
      var p := BasePow(i);
      var e := BasePow(n - 1 - i) * s[n - 1];
      h := g + e;
      BasePowAdd(i, n - 1 - i);
      Scaled(p, BasePow(n - 1 - i), s[n - 1], g);
    }
  }

  /** Keeping the lowest n elements reduces modulo the nth power. */
  lemma LowIsRemainder(s: seq<Limb>, n: nat)
    requires n <= |s|
    ensures Low(s, n) == Value(s) % BasePow(n)
  {
    var h := HighMultiple(s, n, |s|);
    LowBound(s, n);
    assert BasePow(n) * h == h * BasePow(n);
    DivModUnique(Value(s), BasePow(n), h, Low(s, n));
  }

  lemma {:induction false} ZerosAbove(s: seq<Limb>, i: nat)
    requires i <= |s|
    requires forall j :: i <= j < |s| ==> s[j] == 0
    ensures Value(s) == Low(s, i)
  {
    ZeroTail(s, i, |s|);
  }

  lemma {:induction false} ZeroTail(s: seq<Limb>, i: nat, n: nat)
    requires i <= n <= |s|
    requires forall j :: i <= j < n ==> s[j] == 0
    ensures Low(s, n) == Low(s, i)
    decreases n
  {
    if n > i {
      ZeroTail(s, i, n - 1);
      assert BasePow(n - 1) * s[n - 1] == 0;
    }
  }

  /** The value is even exactly when its lowest element is. */
  lemma Parity(s: seq<Limb>)
    requires |s| > 0
    ensures Value(s) % 2 == s[0] % 2
  {
    var h := HighMultiple(s, 1, |s|);
    assert Low(s, 1) == s[0] && BasePow(1) == BASE;
  }

  lemma {:induction false} ValueZero(s: seq<Limb>, i: nat)
    requires i <= |s|
    ensures Low(s, i) == 0 <==> forall j :: 0 <= j < i ==> s[j] == 0
  {
    if i > 0 {
      ValueZero(s, i - 1);
      if s[i - 1] > 0 {
        MulMonotone(1, s[i - 1], BasePow(i - 1));
      }
    }
  }
}
