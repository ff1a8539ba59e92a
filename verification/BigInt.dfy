/** bigint.c and its x86 primitives: every loop over 32-bit elements, and the modular multiplication and
    exponentiation built from them. */
module BigInt {
  import opened Arith
  import opened BigNum

  //////////////////////////////////////////////////////////////////////////////
  // Doubling and halving
  //////////////////////////////////////////////////////////////////////////////

  lemma DoubleBalance(p: nat, x: nat, c: nat, x': nat, c': nat)
    requires x' + BASE * c' == 2 * x + c
    ensures p * x' + c' * (BASE * p) == 2 * (p * x) + c * p
  {
    assert p * (x' + BASE * c') == p * x' + c' * (BASE * p);
    assert p * (2 * x + c) == 2 * (p * x) + c * p;
  }

  lemma RolStep(was: seq<Limb>, cur: seq<Limb>, i: nat, c: nat, x: Limb, c': nat)
    requires i < |was| == |cur| && cur[i] == was[i]
    requires Value(cur) + c * BasePow(i) == Value(was) + Low(was, i)
    requires x + BASE * c' == 2 * was[i] + c
    ensures Value(cur[i := x]) + c' * BasePow(i + 1) == Value(was) + Low(was, i + 1)
  {
    hide Value;
    ValueUpdate(cur, i, x);
    DoubleBalance(BasePow(i), was[i], c, x, c');
  }

  /** bigint_rol: doubles, dropping the bit that does not fit. */
  method Rol(value: array<Limb>)
    modifies value
    ensures Value(value[..]) == 2 * old(Value(value[..])) % BasePow(value.Length)
  {
    ghost var was := value[..];
    var carry := 0;
    for i := 0 to value.Length
      invariant 0 <= carry <= 1
      invariant forall j :: i <= j < value.Length ==> value[j] == was[j]
      invariant Value(value[..]) + carry * BasePow(i) == Value(was) + Low(was, i)
    {
      hide Value, Low, BasePow;
      ghost var cur := value[..];
      var x := (2 * value[i] + carry) % BASE;
      var next := (2 * value[i] + carry) / BASE;
      value[i] := x;
      assert value[..] == cur[i := x];
      RolStep(was, cur, i, carry, x, next);
      carry := next;
    }
    LowBound(value[..], value.Length);
    DivModUnique(2 * Value(was), BasePow(value.Length), carry, Value(value[..]));
  }

  lemma HalfBalance(p: nat, x: nat, c: nat, x': nat, c': nat)
    requires 2 * x' + c' == x + c * BASE
    ensures 2 * (p * x') + c' * p == p * x + c * (BASE * p)
  {
    assert p * (2 * x' + c') == 2 * (p * x') + c' * p;
    assert p * (x + c * BASE) == p * x + c * (BASE * p);
  }

  lemma RorStep(was: seq<Limb>, cur: seq<Limb>, i: nat, c: nat, x: Limb, c': nat)
    requires i < |was| == |cur| && cur[i] == was[i]
    requires 2 * (Value(cur) - Low(was, i + 1)) + c * BasePow(i + 1) == Value(was) - Low(was, i + 1)
    requires 2 * x + c' == was[i] + c * BASE
    ensures 2 * (Value(cur[i := x]) - Low(was, i)) + c' * BasePow(i) == Value(was) - Low(was, i)
  {
    hide Value;
    ValueUpdate(cur, i, x);
    HalfBalance(BasePow(i), was[i], c, x, c');
  }

  /** bigint_ror: halves, rounding down. */
  method Ror(value: array<Limb>)
    modifies value
    ensures Value(value[..]) == old(Value(value[..])) / 2
  {
    ghost var was := value[..];
    var carry := 0;
    var i := value.Length;
    while i > 0
      invariant 0 <= i <= value.Length && 0 <= carry <= 1
      invariant forall j :: 0 <= j < i ==> value[j] == was[j]
      invariant 2 * (Value(value[..]) - Low(was, i)) + carry * BasePow(i) == Value(was) - Low(was, i)
    {
      hide Value, Low, BasePow;
      i := i - 1;
      ghost var cur := value[..];
      var x := value[i] / 2 + carry * 0x8000_0000;
      var next := value[i] % 2;
      value[i] := x;
      assert value[..] == cur[i := x];
      RorStep(was, cur, i, carry, x, next);
      carry := next;
    }
  }

  //////////////////////////////////////////////////////////////////////////////
  // Subtraction
  //////////////////////////////////////////////////////////////////////////////

  lemma SubtractBalance(p: nat, x: nat, s: nat, b: nat, x': nat, b': nat)
    requires x' + s + b == x + BASE * b'
    ensures p * x' + p * s + b * p == p * x + b' * (BASE * p)
  {
    assert p * (x' + s + b) == p * x' + p * s + b * p;
    assert p * (x + BASE * b') == p * x + b' * (BASE * p);
  }

  lemma SubtractStep(was: seq<Limb>, cur: seq<Limb>, sub: seq<Limb>, i: nat, b: nat, x: Limb, b': nat)
    requires i < |was| == |cur| == |sub| && cur[i] == was[i]
    requires Value(cur) + Low(sub, i) == Value(was) + b * BasePow(i)
    requires x + sub[i] + b == was[i] + BASE * b'
    ensures Value(cur[i := x]) + Low(sub, i + 1) == Value(was) + b' * BasePow(i + 1)
  {
    hide Value;
    ValueUpdate(cur, i, x);
    SubtractBalance(BasePow(i), was[i], sub[i], b, x, b');
  }

  /** bigint_subtract: the difference, which wraps when it would be negative. */
  method Subtract(subtrahend: array<Limb>, value: array<Limb>)
    requires subtrahend.Length == value.Length && subtrahend != value
    modifies value
    ensures Value(value[..]) == (old(Value(value[..])) - Value(subtrahend[..])) % BasePow(value.Length)
    ensures subtrahend[..] == old(subtrahend[..])
  {
    ghost var was := value[..];
    ghost var sub := subtrahend[..];
    var borrow := 0;
    for i := 0 to value.Length
      invariant 0 <= borrow <= 1
      invariant subtrahend[..] == sub
      invariant forall j :: i <= j < value.Length ==> value[j] == was[j]
      invariant Value(value[..]) + Low(sub, i) == Value(was) + borrow * BasePow(i)
    {
      hide Value, Low, BasePow;
      ghost var cur := value[..];
      var d := value[i] - subtrahend[i] - borrow;
      var x := d % BASE;
      var next := if d < 0 then 1 else 0;
      value[i] := x;
      assert value[..] == cur[i := x];
      SubtractStep(was, cur, sub, i, borrow, x, next);
      borrow := next;
    }
    LowBound(value[..], value.Length);
    DivModUnique(Value(was) - Value(sub), BasePow(value.Length), -borrow, Value(value[..]));
  }

  //////////////////////////////////////////////////////////////////////////////
  // Tests
  //////////////////////////////////////////////////////////////////////////////

  /** bigint_is_zero. */
  method IsZero(value: array<Limb>) returns (r: bool)
    ensures r <==> Value(value[..]) == 0
  {
    ValueZero(value[..], value.Length);
    for i := 0 to value.Length
      invariant forall j :: 0 <= j < i ==> value[j] == 0
    {
      if value[i] != 0 {
        assert value[..][i] != 0;
        return false;
      }
    }
    return true;
  }

  lemma LargerElement(a: seq<Limb>, b: seq<Limb>, i: nat)
    requires 0 < i <= |a| && i <= |b| && a[i - 1] > b[i - 1]
    ensures Low(a, i) > Low(b, i)
  {
    LowBound(b, i - 1);
    LargerProduct(BasePow(i - 1), a[i - 1], b[i - 1]);
  }

  lemma LargerProduct(p: nat, x: nat, y: nat)
    requires x > y
    ensures p * x >= p * y + p
  {
    MulMonotone(y + 1, x, p);
  }

  /** bigint_is_geq: the highest elements that differ decide. */
  method IsGeq(value: array<Limb>, reference: array<Limb>) returns (r: bool)
    requires value.Length == reference.Length
    ensures r <==> Value(value[..]) >= Value(reference[..])
  {
    var i := value.Length;
    while i > 0
      invariant 0 <= i <= value.Length
      invariant Value(value[..]) - Value(reference[..]) == Low(value[..], i) - Low(reference[..], i)
    {
      if value[i - 1] != reference[i - 1] {
        if value[i - 1] > reference[i - 1] {
          LargerElement(value[..], reference[..], i);
        } else {
          LargerElement(reference[..], value[..], i);
        }
        return value[i - 1] > reference[i - 1];
      }
      i := i - 1;
    }
    return true;
  }

  /** bigint_max_set_bit: the number of bits of the value. */
  method MaxSetBit(value: array<Limb>) returns (r: nat)
    ensures Bits(Value(value[..]), r)
    ensures r <= 32 * value.Length
  {
    var i := value.Length;
    while i > 0
      invariant 0 <= i <= value.Length
      invariant Value(value[..]) == Low(value[..], i)
    {
      if value[i - 1] != 0 {
        TopElement(value[..], i);
        return 32 * (i - 1) + Fls(value[i - 1]);
      }
      i := i - 1;
    }
    return 0;
  }

  /** r is one more than the position of the highest set bit of v, or zero. */
  ghost predicate Bits(v: nat, r: nat) {
    if v == 0 then r == 0 else r > 0 && Pow2(r - 1) <= v < Pow2(r)
  }

  lemma FlsLimb(x: Limb)
    ensures Fls(x) <= 32
  {
    FlsBounds(x);
    assert Pow2(32) == BASE by { BasePowIsPow2(1); assert BasePow(1) == BASE; }
    if Fls(x) > 32 {
      Pow2Monotone(32, Fls(x) - 1);
    }
  }

  lemma TopElement(s: seq<Limb>, i: nat)
    requires 0 < i <= |s| && s[i - 1] != 0
    ensures Bits(Low(s, i), 32 * (i - 1) + Fls(s[i - 1])) && Fls(s[i - 1]) <= 32
  {
    var x, p, f := s[i - 1], BasePow(i - 1), Fls(s[i - 1]);
    FlsLimb(x);
    FlsBounds(x);
    LowBound(s, i - 1);
    BasePowIsPow2(i - 1);
    Pow2Add(32 * (i - 1), f - 1);
    Pow2Add(32 * (i - 1), f);
    TopProducts(p, Low(s, i - 1), x, Pow2(f - 1), Pow2(f));
  }

  lemma TopProducts(p: nat, l: nat, x: nat, a: nat, b: nat)
    requires l < p && a <= x < b && a > 0
    ensures p * a <= l + p * x < p * b
  {
    MulMonotone(a, x, p);
    MulMonotone(x + 1, b, p);
    assert p * (x + 1) == p * x + p;
  }

  //////////////////////////////////////////////////////////////////////////////
  // Copies
  //////////////////////////////////////////////////////////////////////////////

  /** bigint_grow. */
  method Grow(source: array<Limb>, dest: array<Limb>)
    requires source.Length <= dest.Length && source != dest
    modifies dest
    ensures Value(dest[..]) == Value(source[..])
    ensures source[..] == old(source[..])
  {
    ghost var s := source[..];
    var n := source.Length;
    for i := 0 to n
      invariant source[..] == s
      invariant forall j :: 0 <= j < i ==> dest[j] == s[j]
    {
      dest[i] := source[i];
    }
    for i := n to dest.Length
      invariant source[..] == s
      invariant forall j :: 0 <= j < n ==> dest[j] == s[j]
      invariant forall j :: n <= j < i ==> dest[j] == 0
    {
      dest[i] := 0;
    }
    ZerosAbove(dest[..], n);
    LowAgrees(s, dest[..], n);
  }

  /** bigint_shrink: keeps the lowest elements. */
  method Shrink(source: array<Limb>, dest: array<Limb>)
    requires source.Length >= dest.Length && source != dest
    modifies dest
    ensures Value(dest[..]) == Value(source[..]) % BasePow(dest.Length)
  {
    ghost var s := source[..];
    for i := 0 to dest.Length
      invariant source[..] == s
      invariant forall j :: 0 <= j < i ==> dest[j] == s[j]
    {
      dest[i] := source[i];
    }
    LowIsRemainder(s, dest.Length);
    LowAgrees(s, dest[..], dest.Length);
  }

  //////////////////////////////////////////////////////////////////////////////
  // Multiplication
  //////////////////////////////////////////////////////////////////////////////

  lemma AddBalance(p: nat, x: nat, a: nat, c: nat, x': nat, c': nat)
    requires x' + BASE * c' == x + a + c
    ensures p * x' + c' * (BASE * p) == p * x + p * a + c * p
  {
    assert p * (x' + BASE * c') == p * x' + c' * (BASE * p);
    assert p * (x + a + c) == p * x + p * a + c * p;
  }

  /** What a pending carry is worth. */
  function Carry(c: nat, i: nat): nat {
    if c == 0 then 0 else BasePow(i)
  }

  /** Add to one element, with a carry in and a carry out. */
  method AddElement(value: array<Limb>, i: nat, a: Limb, carry: nat) returns (next: nat)
    requires i < value.Length && carry <= 1
    modifies value
    ensures next <= 1
    ensures Value(value[..]) + Carry(next, i + 1) == old(Value(value[..])) + BasePow(i) * a + Carry(carry, i)
  {
    ghost var was := value[..];
    var sum := value[i] + a + carry;
    var x := sum % BASE;
    next := sum / BASE;
    value[i] := x;
    assert value[..] == was[i := x];
    hide Value;
    ValueUpdate(was, i, x);
    AddBalance(BasePow(i), was[i], a, carry, x, next);
  }

  /** The carry loop. Its first addition is made whether there is a carry or not, and may be to the element
      behind the result; that one never changes when the sum fits. */
  method Propagate(value: array<Limb>, start: nat, carry0: nat, behind: Limb) returns (after: Limb)
    requires start <= value.Length && carry0 <= 1
    requires Value(value[..]) + Carry(carry0, start) < BasePow(value.Length)
    modifies value
    ensures Value(value[..]) == old(Value(value[..])) + Carry(carry0, start)
    ensures after == behind
  {
    hide Value;
    var i, carry: nat := start, carry0;
    after := behind;
    if i == value.Length {
      after, carry := (behind + carry) % BASE, (behind + carry) / BASE;
      return;
    }
    carry := AddElement(value, i, 0, carry);
    i := i + 1;
    while carry != 0
      invariant i <= value.Length && carry <= 1
      invariant Value(value[..]) + Carry(carry, i) == old(Value(value[..])) + Carry(carry0, start)
      decreases value.Length - i, carry
    {
      assert i < value.Length;
      carry := AddElement(value, i, 0, carry);
      i := i + 1;
    }
  }

  /** One step of bigint_multiply: add a double element at position k, carrying as far as necessary. */
  method AddDouble(value: array<Limb>, k: nat, lo: Limb, hi: Limb, behind: Limb) returns (after: Limb)
    requires k + 1 < value.Length
    requires Value(value[..]) + BasePow(k) * (lo + BASE * hi) < BasePow(value.Length)
    modifies value
    ensures Value(value[..]) == old(Value(value[..])) + BasePow(k) * (lo + BASE * hi)
    ensures after == behind
  {
    hide Value;
    DoubleElement(BasePow(k), lo, hi);
    var carry := AddElement(value, k, lo, 0);
    carry := AddElement(value, k + 1, hi, carry);
    after := Propagate(value, k + 2, carry, behind);
  }

  lemma DoubleElement(p: nat, lo: nat, hi: nat)
    ensures p * (lo + BASE * hi) == p * lo + (BASE * p) * hi
  {
  }

  lemma ProductElements(a: Limb, b: Limb)
    ensures a * b / BASE < BASE
    ensures a * b == a * b % BASE + BASE * (a * b / BASE)
  {
    MulMonotone(a, BASE - 1, b);
  }

  lemma RowStep(p: nat, q: nat, a: nat, b: nat, l: nat)
    ensures p * (a * (l + q * b)) == p * (a * l) + (p * q) * (a * b)
  {
    assert a * (l + q * b) == a * l + q * (a * b);
    assert p * (a * l + q * (a * b)) == p * (a * l) + p * (q * (a * b));
    assert p * (q * (a * b)) == (p * q) * (a * b);
  }

  lemma RowBound(p: nat, a: nat, l: nat, v: nat)
    requires l <= v
    ensures p * (a * l) <= p * (a * v)
  {
    MulMonotone(l, v, a);
    MulMonotone(a * l, a * v, p);
  }

  lemma {:induction false} LowMonotone(s: seq<Limb>, i: nat, n: nat)
    requires i <= n <= |s|
    ensures Low(s, i) <= Low(s, n)
    decreases n
  {
    if i < n {
      LowMonotone(s, i, n - 1);
      MulMonotone(0, s[n - 1], BasePow(n - 1));
    }
  }

  /** Multiply two elements and add the double element they make. */
  method MultiplyElement(a: Limb, b: Limb, result: array<Limb>, k: nat, behind: Limb) returns (after: Limb)
    requires k + 1 < result.Length && Value(result[..]) + BasePow(k) * (a * b) < BasePow(result.Length)
    modifies result
    ensures Value(result[..]) == old(Value(result[..])) + BasePow(k) * (a * b)
    ensures after == behind
  {
    hide Value, BasePow;
    ProductElements(a, b);
    after := AddDouble(result, k, a * b % BASE, a * b / BASE, behind);
  }

  /** The inner loop of bigint_multiply. */
  method MultiplyRow(a: Limb, multiplier: array<Limb>, result: array<Limb>, i: nat, behind: Limb) returns (after: Limb)
    requires multiplier != result && i < multiplier.Length && result.Length == 2 * multiplier.Length
    requires Value(result[..]) + BasePow(i) * (a * Value(multiplier[..])) < BasePow(result.Length)
    modifies result
    ensures Value(result[..]) == old(Value(result[..])) + BasePow(i) * (a * Value(multiplier[..]))
    ensures multiplier[..] == old(multiplier[..]) && after == behind
  {
    ghost var m := multiplier[..];
    ghost var v := Value(result[..]);
    RowEnds(m, i, a);
    hide Value, Low, BasePow;
    after := behind;
    for j := 0 to multiplier.Length
      invariant multiplier[..] == m && after == behind
      invariant Value(result[..]) == v + BasePow(i) * (a * Low(m, j))
    {
      RowStepAt(m, i, a, j, v, BasePow(result.Length));
      after := MultiplyElement(a, multiplier[j], result, i + j, after);
    }
  }

  lemma RowEnds(m: seq<Limb>, i: nat, a: Limb)
    ensures BasePow(i) * (a * Low(m, 0)) == 0
    ensures Low(m, |m|) == Value(m)
  {
  }

  lemma RowStepAt(m: seq<Limb>, i: nat, a: Limb, j: nat, v: nat, bound: nat)
    requires j < |m| && v + BasePow(i) * (a * Value(m)) < bound
    ensures BasePow(i) * (a * Low(m, j + 1)) == BasePow(i) * (a * Low(m, j)) + BasePow(i + j) * (a * m[j])
    ensures v + BasePow(i) * (a * Low(m, j + 1)) < bound
  {
    BasePowAdd(i, j);
    RowStep(BasePow(i), BasePow(j), a, m[j], Low(m, j));
    LowMonotone(m, j + 1, |m|);
    RowBound(BasePow(i), a, Low(m, j + 1), Value(m));
  }

  lemma ColumnStep(c: seq<Limb>, m: seq<Limb>, i: nat)
    requires i < |c| == |m|
    ensures Low(c, i + 1) * Value(m) == Low(c, i) * Value(m) + BasePow(i) * (c[i] * Value(m))
    ensures Low(c, i + 1) * Value(m) < BasePow(2 * |c|)
  {
    var l, p, x, v := Low(c, i), BasePow(i), c[i], Value(m);
    assert (l + p * x) * v == l * v + p * (x * v) by { Distribute(l, p, x, v); }
    LowBound(m, |m|);
    LowBound(c, |c|);
    LowMonotone(c, i + 1, |c|);
    BasePowAdd(|c|, |c|);
    ProductBound(Low(c, i + 1), v, BasePow(|c|));
  }

  lemma Distribute(l: nat, p: nat, x: nat, v: nat)
    ensures (l + p * x) * v == l * v + p * (x * v)
  {
  }

  lemma ProductBound(x: nat, y: nat, b: nat)
    requires x < b && y < b
    ensures x * y < b * b
  {
    MulMonotone(x, b, y);
    MulMonotone(y + 1, b, b);
  }

  /** bigint_multiply. The element behind the result is written as well, with what it held. */
  method Multiply(multiplicand: array<Limb>, multiplier: array<Limb>, result: array<Limb>, behind: Limb) returns (after: Limb)
    requires multiplicand.Length == multiplier.Length && result.Length == 2 * multiplier.Length
    requires multiplicand != result && multiplier != result
    modifies result
    ensures Value(result[..]) == Value(multiplicand[..]) * Value(multiplier[..])
    ensures multiplicand[..] == old(multiplicand[..]) && multiplier[..] == old(multiplier[..]) && after == behind
  {
    ghost var c, m := multiplicand[..], multiplier[..];
    for i := 0 to result.Length
      invariant multiplicand[..] == c && multiplier[..] == m
      invariant forall j :: 0 <= j < i ==> result[j] == 0
    {
      result[i] := 0;
    }
    ZerosAbove(result[..], 0);
    after := behind;
    for i := 0 to multiplicand.Length
      invariant multiplicand[..] == c && multiplier[..] == m && after == behind
      invariant Value(result[..]) == Low(c, i) * Value(m)
    {
      ColumnStep(c, m, i);
      hide Value, Low, BasePow;
      after := MultiplyRow(multiplicand[i], multiplier, result, i, after);
    }
  }

  //////////////////////////////////////////////////////////////////////////////
  // Modular multiplication
  //////////////////////////////////////////////////////////////////////////////

  /** The modulus in effect: a zero modulus leaves only the truncation to the size of the result. */
  function Effective(m: nat, size: nat): (r: nat)
    ensures r > 0
  {
    if m == 0 then BasePow(size) else m
  }

  /** The scaled modulus still fits while it has no more bits than the product. */
  lemma ScaleFits(m: nat, bits: nat, k: nat, top: nat, n: nat)
    requires Bits(m, bits) && bits + k <= top && top <= 32 * n
    ensures m * Pow2(k) < BasePow(n)
  {
    BasePowIsPow2(n);
    if m > 0 {
      MulMonotone(m + 1, Pow2(bits), Pow2(k));
      Pow2Add(bits, k);
      Pow2Monotone(bits + k, 32 * n);
      assert (m + 1) * Pow2(k) == m * Pow2(k) + Pow2(k);
    } else {
      assert m * Pow2(k) == 0;
    }
  }

  /** Scaled to as many bits as the product, twice the modulus exceeds it. */
  lemma ScaleEnough(r: nat, m: nat, bits: nat, k: nat)
    requires m > 0 && Bits(m, bits) && Bits(r, bits + k)
    ensures r < 2 * (m * Pow2(k))
  {
    MulMonotone(Pow2(bits - 1), m, Pow2(k));
    Pow2Add(bits - 1, k);
    assert Pow2(bits + k) == 2 * Pow2(bits - 1 + k);
  }

  /** A number with fewer bits is smaller. */
  lemma FewerBits(r: nat, a: nat, m: nat, b: nat)
    requires Bits(r, a) && Bits(m, b) && a < b
    ensures r < m
  {
    if r > 0 {
      Pow2Monotone(a, b - 1);
    }
  }

  lemma ScaleStep(m: nat, k: nat)
    ensures m * Pow2(k + 1) == 2 * (m * Pow2(k))
  {
  }

  /** Scale the modulus up to the size of the product. */
  method Rescale(modulus: array<Limb>, rotation: int, ghost m: nat, ghost bits: nat)
    requires Value(modulus[..]) == m && Bits(m, bits) && bits + rotation <= 32 * modulus.Length
    modifies modulus
    ensures Value(modulus[..]) == m * Pow2(if rotation < 0 then 0 else rotation)
  {
    var i := 0;
    while i < rotation
      invariant 0 <= i && (i <= rotation || i == 0)
      invariant Value(modulus[..]) == m * Pow2(i)
    {
      hide Value, Pow2, BasePow, Bits;
      Rol(modulus);
      ScaleStep(m, i);
      ScaleFits(m, bits, i + 1, bits + rotation, modulus.Length);
      SmallModulo(2 * (m * Pow2(i)), BasePow(modulus.Length));
      i := i + 1;
    }
  }

  /** One subtraction of the scaled modulus, if it fits. */
  lemma ReduceStep(product: nat, r: nat, m: nat, k: nat, q: nat)
    requires product == q * m + r
    ensures r >= m * Pow2(k) ==> product == (q + Pow2(k)) * m + (r - m * Pow2(k))
  {
    assert (q + Pow2(k)) * m == q * m + m * Pow2(k);
  }

  lemma DifferenceFits(r: nat, s: nat, n: nat)
    requires s <= r < BasePow(n)
    ensures (r - s) % BasePow(n) == r - s
  {
    SmallModulo(r - s, BasePow(n));
  }

  lemma HalfScale(m: nat, k: nat)
    requires k > 0
    ensures m * Pow2(k) / 2 == m * Pow2(k - 1)
  {
    ScaleStep(m, k - 1);
  }

  /** Subtract the modulus from the product at every scale, from the largest down to one. The last halving
      may lose a bit of the modulus; nothing depends on it any more. */
  method Reduce(result: array<Limb>, modulus: array<Limb>, rotation: int, ghost m: nat) returns (ghost q: nat)
    requires result != modulus && result.Length == modulus.Length
    requires rotation >= 0 ==> Value(modulus[..]) == m * Pow2(rotation)
    requires m > 0 ==> if rotation >= 0 then Value(result[..]) < 2 * (m * Pow2(rotation)) else Value(result[..]) < m
    modifies result, modulus
    ensures old(Value(result[..])) == q * m + Value(result[..])
    ensures m > 0 ==> Value(result[..]) < m
  {
    ghost var product := Value(result[..]);
    q := 0;
    var i := 0;
    ghost var k: nat := if rotation < 0 then 0 else rotation;
    while i <= rotation
      invariant 0 <= i && (i <= rotation + 1 || i == 0)
      invariant product == q * m + Value(result[..])
      invariant i <= rotation ==> k == rotation - i && Value(modulus[..]) == m * Pow2(k)
      invariant m > 0 ==> if i <= rotation then Value(result[..]) < 2 * (m * Pow2(k)) else Value(result[..]) < m
    {
      LowBound(result[..], result.Length);
      hide Low, BasePow, Pow2;
      ghost var r := Value(result[..]);
      ReduceStep(product, r, m, k, q);
      var geq := IsGeq(result, modulus);
      if geq {
        DifferenceFits(r, m * Pow2(k), result.Length);
        Subtract(modulus, result);
        q := q + Pow2(k);
      }
      Ror(modulus);
      if k > 0 {
        HalfScale(m, k);
        ScaleStep(m, k - 1);
        k := k - 1;
      } else {
        UnitScale(m);
      }
      i := i + 1;
    }
  }

  lemma UnitScale(m: nat)
    ensures m * Pow2(0) == m
  {
  }

  /** bigint_mod_multiply: the product modulo the modulus, for every modulus but zero; the result may be the
      array of a factor. */
  method ModMultiply(multiplicand: array<Limb>, multiplier: array<Limb>, modulus: array<Limb>, result: array<Limb>)
    requires multiplicand.Length == multiplier.Length == modulus.Length == result.Length
    modifies result
    ensures Value(result[..])
         == old(Value(multiplicand[..]) * Value(multiplier[..]) % Effective(Value(modulus[..]), modulus.Length))
  {
    var size := modulus.Length;
    ghost var product := Value(multiplicand[..]) * Value(multiplier[..]);
    ghost var m := Value(modulus[..]);
    LowBound(modulus[..], size);
    hide Value, BasePow, Low;
    var tempResult := new Limb[2 * size];
    var tempModulus := new Limb[2 * size];
    var behind := if size > 0 then tempModulus[0] else 0;
    behind := Multiply(multiplicand, multiplier, tempResult, behind);
    if size > 0 {
      tempModulus[0] := behind;
    }
    Grow(modulus, tempModulus);
    ghost var q := RescaleAndReduce(tempResult, tempModulus);
    Reduced(product, m, q, Value(tempResult[..]), BasePow(size));
    Shrink(tempResult, result);
  }

  /** Bring the modulus to the size of the product and subtract it at every scale. */
  method RescaleAndReduce(result: array<Limb>, modulus: array<Limb>) returns (ghost q: nat)
    requires result != modulus && result.Length == modulus.Length
    modifies result, modulus
    ensures old(Value(result[..])) == q * old(Value(modulus[..])) + Value(result[..])
    ensures old(Value(modulus[..])) > 0 ==> Value(result[..]) < old(Value(modulus[..]))
  {
    hide Value, BasePow, Low, Pow2, Bits;
    ghost var product, m := Value(result[..]), Value(modulus[..]);
    var resultBits: int := MaxSetBit(result);
    var modulusBits: int := MaxSetBit(modulus);
    var rotation := resultBits - modulusBits;
    Rescale(modulus, rotation, m, modulusBits);
    if m > 0 {
      if rotation >= 0 {
        ScaleEnough(product, m, modulusBits, rotation);
      } else {
        FewerBits(product, resultBits, m, modulusBits);
      }
    }
    q := Reduce(result, modulus, rotation, m);
  }

  lemma Reduced(product: nat, m: nat, q: nat, r: nat, b: nat)
    requires product == q * m + r && m < b
    requires m > 0 ==> r < m
    ensures r % b == product % if m == 0 then b else m
  {
    if m > 0 {
      DivModUnique(product, m, q, r);
      SmallModulo(r, b);
    }
  }

  //////////////////////////////////////////////////////////////////////////////
  // Modular exponentiation
  //////////////////////////////////////////////////////////////////////////////

  /** What the loop computes. The initial 1 is never reduced, which shows when the exponent is zero. */
  function ModPower(x: nat, e: nat, d: nat): nat
    requires d > 0
  {
    if e == 0 then 1 else Pow(x, e) % d
  }

  /** It is the power modulo the modulus, except for the zeroth power modulo one. */
  lemma ModPowerIsPower(x: nat, e: nat, d: nat)
    requires d > 0
    ensures ModPower(x, e, d) == Pow(x, e) % d <==> !(d == 1 && e == 0)
  {
    if e == 0 && d > 1 {
      SmallModulo(1, d);
    }
  }

  /** One round of square and multiply keeps result * base^e. */
  lemma SquareStep(r: nat, b: nat, e: nat, d: nat)
    requires d > 0
    ensures ((if e % 2 == 1 then r * b % d else r) * Pow(b * b % d, e / 2)) % d == r * Pow(b, e) % d
  {
    var h := e / 2;
    var p := Pow(b, h + h);
    PowMod(b * b, h, d);
    PowSquare(b, h);
    if e % 2 == 1 {
      assert e == 1 + (h + h);
      ModMulBoth(r * b, Pow(b * b % d, h), d);
      ModMulBoth(r * b, p, d);
      ModMul(r * b, Pow(b * b % d, h), d);
      assert r * b * p == r * (b * p);
    } else {
      ModMulBoth(r, Pow(b * b % d, h), d);
      ModMulBoth(r, p, d);
    }
  }

  method CopyLimbs(s: array<Limb>) returns (r: array<Limb>)
    ensures fresh(r) && r[..] == s[..]
  {
    r := new Limb[s.Length];
    for i := 0 to s.Length
      invariant forall j :: 0 <= j < i ==> r[j] == s[j]
    {
      r[i] := s[i];
    }
  }

  /** bigint_init with the single byte 1. */
  method InitOne(value: array<Limb>)
    requires value.Length > 0
    modifies value
    ensures Value(value[..]) == 1
  {
    value[0] := 1;
    for i := 1 to value.Length
      invariant value[0] == 1
      invariant forall j :: 1 <= j < i ==> value[j] == 0
    {
      value[i] := 0;
    }
    ZerosAbove(value[..], 1);
    assert Low(value[..], 1) == Low(value[..], 0) + BasePow(0) * value[0];
  }

  lemma ProductRemainder(x: nat, y: nat, d: nat)
    requires d > 0
    ensures x * y % d < d
  {
  }

  /** One iteration of the exponentiation loop: multiply if the lowest bit is set, then halve and square. */
  method SquareAndMultiply(base: array<Limb>, modulus: array<Limb>, exponent: array<Limb>, result: array<Limb>)
    requires base.Length == modulus.Length == result.Length > 0 && exponent.Length > 0
    requires base != modulus && base != result && base != exponent && exponent != modulus && exponent != result
    requires result != modulus
    modifies base, exponent, result
    ensures var d := Effective(old(Value(modulus[..])), modulus.Length);
      && Value(result[..]) * Pow(Value(base[..]), Value(exponent[..])) % d
         == old(Value(result[..]) * Pow(Value(base[..]), Value(exponent[..]))) % d
      && (old(Value(exponent[..])) % 2 == 1 ==> Value(result[..]) < d)
    ensures Value(exponent[..]) == old(Value(exponent[..])) / 2
    ensures modulus[..] == old(modulus[..])
  {
    hide Value, Pow, BasePow, Low, Effective;
    ghost var b, e, r := Value(base[..]), Value(exponent[..]), Value(result[..]);
    ghost var d := Effective(Value(modulus[..]), modulus.Length);
    Parity(exponent[..]);
    SquareStep(r, b, e, d);
    ProductRemainder(r, b, d);
    if exponent[0] % 2 != 0 {
      ModMultiply(result, base, modulus, result);
    }
    Ror(exponent);
    ModMultiply(base, base, modulus, base);
  }

  /** bigint_mod_exp. */
  method ModExp(base: array<Limb>, modulus: array<Limb>, exponent: array<Limb>, result: array<Limb>)
    requires base.Length == modulus.Length == result.Length > 0 && exponent.Length > 0
    requires result != base && result != modulus && result != exponent
    modifies result
    ensures Value(result[..]) == ModPower(Value(base[..]), Value(exponent[..]), Effective(Value(modulus[..]), modulus.Length))
  {
    hide Value, Pow, BasePow, Low, Effective;
    ghost var x, e, d := Value(base[..]), Value(exponent[..]), Effective(Value(modulus[..]), modulus.Length);
    var tempBase := CopyLimbs(base);
    var tempExponent := CopyLimbs(exponent);
    InitOne(result);
    assert Value(result[..]) * Pow(Value(tempBase[..]), Value(tempExponent[..])) % d == Pow(x, e) % d;
    while true
      invariant tempBase.Length == base.Length && tempExponent.Length == exponent.Length
      invariant fresh(tempBase) && fresh(tempExponent) && tempBase != tempExponent
      invariant modulus[..] == old(modulus[..])
      invariant Value(result[..]) * Pow(Value(tempBase[..]), Value(tempExponent[..])) % d == Pow(x, e) % d
      invariant e == 0 ==> Value(tempExponent[..]) == 0 && Value(result[..]) == 1
      invariant e > 0 && Value(tempExponent[..]) == 0 ==> Value(result[..]) < d
      decreases Value(tempExponent[..])
    {
      var done := IsZero(tempExponent);
      if done {
        break;
      }
      SquareAndMultiply(tempBase, modulus, tempExponent, result);
    }
    Powered(Value(result[..]), Value(tempBase[..]), x, e, d);
  }

  lemma Powered(r: nat, b: nat, x: nat, e: nat, d: nat)
    requires d > 0 && r * Pow(b, 0) % d == Pow(x, e) % d
    requires if e == 0 then r == 1 else r < d
    ensures r == ModPower(x, e, d)
  {
    if e > 0 {
      SmallModulo(r, d);
    }
  }
}
