/** The AES lookup tables: the multiples each table entry holds, and the generator that fills both
    tables by walking the powers of x + 1. */
module AesTables {
  import opened Gf256

  /** A byte as a table index. */
  function Index(b: bv8): (i: nat)
    ensures i < 256
  {
    b as int
  }

  lemma IndexInjective(b: bv8, c: bv8)
    ensures Index(b) == Index(c) <==> b == c
    ensures Index(0) == 0
  {
  }

  function Byte(i: nat): bv8
    requires i < 256
  {
    i as bv8
  }

  lemma IndexSuccessor(b: bv8)
    requires b != 0xff
    ensures Index(b + 1) == Index(b) + 1
  {
  }

  lemma IndexLast()
    ensures Index(0xff) == 255 && Byte(0) == 0 && Index(0) == 0
  {
  }

  lemma {:induction false} IndexByte(i: nat)
    requires i < 256
    ensures Index(Byte(i)) == i
  {
    hide Index, Byte;
    IndexLast();
    if i > 0 {
      IndexByte(i - 1);
      var b := Byte(i - 1);
      IndexSuccessor(b);
      ByteIndex(b + 1);
    }
  }

  lemma ByteIndex(b: bv8)
    ensures Byte(Index(b)) == b
  {
  }

  type Entry = e: seq<bv8> | |e| == 8 witness [0, 0, 0, 0, 0, 0, 0, 0]

  //////////////////////////////////////////////////////////////////////////////
  // The multiples used by InvMixColumns
  //////////////////////////////////////////////////////////////////////////////

  function Times4(x: bv8): bv8 { Double(Double(x)) }
  function Times8(x: bv8): bv8 { Double(Times4(x)) }
  function Times9(x: bv8): bv8 { Xor(Times8(x), x) }
  function Times11(x: bv8): bv8 { Xor(Times9(x), Double(x)) }
  function Times12(x: bv8): bv8 { Xor(Times8(x), Times4(x)) }
  function Times13(x: bv8): bv8 { Xor(Times12(x), x) }
  function Times14(x: bv8): bv8 { Xor(Times12(x), Double(x)) }

  /** The vector multiplier {1,1,1,3,2,1,1,3}. */
  function MixEntry(s: bv8): Entry {
    [s, s, s, Triple(s), Double(s), s, s, Triple(s)]
  }

  /** The vector multiplier {1,9,13,11,14,9,13,11}. */
  function InvMixEntry(s: bv8): Entry {
    [s, Times9(s), Times13(s), Times11(s), Times14(s), Times9(s), Times13(s), Times11(s)]
  }

  /** The MixColumns table holds multiples of the S-box output, the InvMixColumns table of its inverse. */
  ghost predicate MixTable(t: seq<Entry>) {
    && |t| == 256
    && forall b: bv8 :: t[Index(b)] == MixEntry(SBox(b))
  }

  ghost predicate InvMixTable(t: seq<Entry>) {
    && |t| == 256
    && forall b: bv8 :: t[Index(b)] == InvMixEntry(InvSBox(b))
  }

  //////////////////////////////////////////////////////////////////////////////
  // The S-box loop
  //////////////////////////////////////////////////////////////////////////////

  ghost predicate SBoxTable(t: seq<Entry>) {
    && |t| == 256
    && forall b: bv8 :: t[Index(b)][0] == SBox(b)
  }

  /** The powers up to the nth have been given their S-box value. */
  ghost predicate Filled(t: seq<Entry>, n: nat) {
    && |t| == 256
    && forall k :: 1 <= k <= n ==> t[Index(Power(k))][0] == Affine(InvPower(k))
  }

  lemma Unfilled(t: seq<Entry>)
    requires |t| == 256
    ensures Filled(t, 0)
  {
  }

  lemma LaterPower(k: nat, n: nat)
    requires 1 <= k < n <= 255
    ensures Index(Power(k)) != Index(Power(n))
  {
    IndexInjective(Power(k), Power(n));
    hide Power, Index;
    if n < 255 {
      PowersDistinct(k, n);
    } else {
      LargePowers();
      Order(k);
    }
  }

  lemma FilledStep(t: seq<Entry>, n: nat, u: seq<Entry>)
    requires n < 255 && Filled(t, n) && |u| == 256
    requires forall j :: 0 <= j < 256 && j != Index(Power(n + 1)) ==> u[j] == t[j]
    requires u[Index(Power(n + 1))][0] == Affine(InvPower(n + 1))
    ensures Filled(u, n + 1)
  {
    hide Power, InvPower, Affine, Index;
    forall k | 1 <= k <= n + 1
      ensures u[Index(Power(k))][0] == Affine(InvPower(k))
    {
      if k <= n {
        LaterPower(k, n + 1);
      }
    }
  }

  lemma FilledAll(t: seq<Entry>, u: seq<Entry>)
    requires Filled(t, 255) && |u| == 256
    requires forall j :: 1 <= j < 256 ==> u[j] == t[j]
    requires u[0][0] == 0x63
    ensures SBoxTable(u)
  {
    assert Affine(0) == 0x63;
    hide Power, InvPower, Affine, Inverse, Index;
    forall b: bv8
      ensures u[Index(b)][0] == SBox(b)
    {
      IndexInjective(b, 0);
      if b != 0 {
        FilledAt(t, b);
      }
    }
  }

  lemma FilledAt(t: seq<Entry>, b: bv8)
    requires Filled(t, 255) && b != 0
    ensures t[Index(b)][0] == SBox(b)
  {
    assert Power(0) == 1;
    hide Power, InvPower, Affine, Inverse, Index;
    var k := Log(b);
    InverseOfPower(k);
    if k == 0 {
      LargePowers();
      InverseOfPower(255);
      assert t[Index(Power(255))][0] == Affine(InvPower(255));
    }
  }

  //////////////////////////////////////////////////////////////////////////////
  // The loop that completes both tables
  //////////////////////////////////////////////////////////////////////////////

  /** The entries below i are complete, the others hold their S-box byte. */
  ghost predicate MixDone(t: seq<Entry>, i: nat) {
    && |t| == 256
    && (forall j :: 0 <= j < i && j < 256 ==> t[j] == MixEntry(SBox(Byte(j))))
    && (forall j :: i <= j < 256 ==> t[j][0] == SBox(Byte(j)))
  }

  /** The inverse entries of the bytes below i are complete. */
  ghost predicate InvDone(t: seq<Entry>, i: nat) {
    && |t| == 256
    && forall j :: 0 <= j < i && j < 256 ==> t[Index(SBox(Byte(j)))] == InvMixEntry(Byte(j))
  }

  lemma MixStart(t: seq<Entry>)
    requires SBoxTable(t)
    ensures MixDone(t, 0)
  {
    hide SBox, Index, Byte;
    forall j | 0 <= j < 256
      ensures t[j][0] == SBox(Byte(j))
    {
      IndexByte(j);
    }
  }

  lemma InvStart(t: seq<Entry>)
    requires |t| == 256
    ensures InvDone(t, 0)
  {
  }

  /** The byte that records that the tables exist is not zero once they do. */
  lemma FirstByte(t: seq<Entry>)
    requires MixTable(t)
    ensures t[0][0] == 0x63
  {
    assert Affine(0) == 0x63;
    hide Affine, Index;
    IndexInjective(0, 0);
    assert t[Index(0)] == MixEntry(SBox(0));
  }

  lemma MixStep(t: seq<Entry>, i: nat, u: seq<Entry>)
    requires i < 256 && MixDone(t, i) && |u| == 256
    requires u[i] == MixEntry(t[i][0])
    requires forall j :: 0 <= j < 256 && j != i ==> u[j] == t[j]
    ensures MixDone(u, i + 1)
  {
    hide SBox, Byte, MixEntry;
  }

  lemma MixComplete(t: seq<Entry>)
    requires MixDone(t, 256)
    ensures MixTable(t)
  {
    hide SBox, Byte, MixEntry, Index;
    forall b: bv8
      ensures t[Index(b)] == MixEntry(SBox(b))
    {
      ByteIndex(b);
    }
  }

  lemma InvStep(t: seq<Entry>, i: nat, u: seq<Entry>)
    requires i < 256 && InvDone(t, i) && |u| == 256
    requires u[Index(SBox(Byte(i)))] == InvMixEntry(Byte(i))
    requires forall j :: 0 <= j < 256 && j != Index(SBox(Byte(i))) ==> u[j] == t[j]
    ensures InvDone(u, i + 1)
  {
    hide SBox, Byte, InvMixEntry, Index;
    forall j | 0 <= j < i
      ensures u[Index(SBox(Byte(j)))] == InvMixEntry(Byte(j))
    {
      SBoxDistinct(j, i);
    }
  }

  lemma SBoxDistinct(j: nat, i: nat)
    requires j < i < 256
    ensures Index(SBox(Byte(j))) != Index(SBox(Byte(i)))
  {
    hide SBox, InvSBox, Byte, Index;
    IndexInjective(SBox(Byte(j)), SBox(Byte(i)));
    SBoxPermutation(Byte(j));
    SBoxPermutation(Byte(i));
    IndexByte(j);
    IndexByte(i);
  }

  lemma InvComplete(t: seq<Entry>)
    requires InvDone(t, 256)
    ensures InvMixTable(t)
  {
    hide SBox, InvSBox, Byte, InvMixEntry, Index;
    forall b: bv8
      ensures t[Index(b)] == InvMixEntry(InvSBox(b))
    {
      var j := Index(InvSBox(b));
      ByteIndex(InvSBox(b));
      SBoxPermutation(b);
    }
  }

  class Tables {
    const mix: array<Entry>
    const inv: array<Entry>

    constructor ()
      ensures Valid() && fresh(mix) && fresh(inv)
      ensures mix[0][0] == 0
    {
      mix := new Entry[256](_ => [0, 0, 0, 0, 0, 0, 0, 0]);
      inv := new Entry[256](_ => [0, 0, 0, 0, 0, 0, 0, 0]);
    }

    /** Either nothing has been generated yet, which the first byte tells, or both tables are complete. */
    ghost predicate Valid()
      reads this, mix, inv
    {
      && mix.Length == 256 && inv.Length == 256 && mix != inv
      && (mix[0][0] != 0 ==> Ready())
    }

    ghost predicate Ready()
      reads this, mix, inv
    {
      MixTable(mix[..]) && InvMixTable(inv[..])
    }

    /** aes_mixcolumns_entry: fill in an entry from its first byte. */
    static method MixColumnsEntry(table: array<Entry>, i: nat)
      requires i < table.Length
      modifies table
      ensures table[i] == MixEntry(old(table[i][0]))
      ensures forall j :: 0 <= j < table.Length && j != i ==> table[j] == old(table[j])
    {
      var e := table[i];
      var scalar := e[0];
      e := e[1 := scalar];
      e := e[2 := scalar];
      e := e[5 := scalar];
      e := e[6 := scalar];
      var scalarX := Double(scalar);
      e := e[4 := scalarX];
      var scalarX1 := Xor(scalar, scalarX);
      e := e[3 := scalarX1];
      e := e[7 := scalarX1];
      table[i] := e;
      hide Xor, Double;
      assert e == MixEntry(scalar);
    }

    /** aes_invmixcolumns_entry. */
    static method InvMixColumnsEntry(table: array<Entry>, i: nat)
      requires i < table.Length
      modifies table
      ensures table[i] == InvMixEntry(old(table[i][0]))
      ensures forall j :: 0 <= j < table.Length && j != i ==> table[j] == old(table[j])
    {
      hide Xor, Double;
      var e := table[i];
      var scalar := e[0];
      var scalarX := Double(scalar);
      var scalarX2 := Double(scalarX);
      var scalarX3 := Double(scalarX2);
      var scalarX31 := Xor(scalarX3, scalar);
      e := e[1 := scalarX31];
      e := e[5 := scalarX31];
      var scalarX3X1 := Xor(scalarX31, scalarX);
      e := e[3 := scalarX3X1];
      e := e[7 := scalarX3X1];
      var scalarX3X2 := Xor(scalarX3, scalarX2);
      var scalarX3X21 := Xor(scalarX3X2, scalar);
      e := e[2 := scalarX3X21];
      e := e[6 := scalarX3X21];
      var scalarX3X2X := Xor(scalarX3X2, scalarX);
      e := e[4 := scalarX3X2X];
      table[i] := e;
      assert e == InvMixEntry(scalar);
    }

    /** The S-box loop of aes_generate: it visits every nonzero byte once and then stops. */
    static method FillSBox(table: array<Entry>)
      requires table.Length == 256
      modifies table
      ensures SBoxTable(table[..])
    {
      var poly: bv8 := 1;
      var invpoly: bv8 := 1;
      ghost var n := 0;
      hide Xor, Double, Third, Affine, Filled, SBoxTable, Index;
      LargePowers();
      assert Filled(table[..], 0) by { Unfilled(table[..]); }
      while true
        invariant 0 <= n < 255
        invariant poly == Power(n) && invpoly == InvPower(n)
        invariant Filled(table[..], n)
        decreases 255 - n
      {
        ghost var t := table[..];
        poly := Xor(poly, Double(poly));
        invpoly := Third(invpoly);
        var transformed := Affine(invpoly);
        table[Index(poly)] := table[Index(poly)][0 := transformed];
        assert poly == Power(n + 1) && invpoly == InvPower(n + 1);
        FilledStep(t, n, table[..]);
        n := n + 1;
        if poly == 1 {
          break;
        }
      }
      ghost var t := table[..];
      table[0] := table[0][0 := 0x63];
      assert n == 255 by {
        if n < 255 {
          Order(n);
        }
      }
      FilledAll(t, table[..]);
    }

    /** aes_generate. */
    method Generate()
      requires mix.Length == 256 && inv.Length == 256 && mix != inv
      modifies mix, inv
      ensures Ready() && mix[0][0] == 0x63
    {
      hide SBoxTable, MixTable, InvMixTable, SBox, InvSBox, MixEntry, InvMixEntry, Index, Byte, MixDone, InvDone;
      FillSBox(mix);
      MixStart(mix[..]);
      InvStart(inv[..]);
      for i := 0 to 256
        invariant MixDone(mix[..], i)
        invariant InvDone(inv[..], i)
      {
        FillEntry(i);
      }
      MixComplete(mix[..]);
      InvComplete(inv[..]);
      FirstByte(mix[..]);
    }

    /** One iteration of the completing loop. */
    method FillEntry(i: nat)
      requires mix.Length == 256 && inv.Length == 256 && mix != inv
      requires i < 256 && MixDone(mix[..], i) && InvDone(inv[..], i)
      modifies mix, inv
      ensures MixDone(mix[..], i + 1) && InvDone(inv[..], i + 1)
    {
      hide SBox, InvSBox, InvMixEntry, Index, Byte;
      ghost var m, n := mix[..], inv[..];
      MixColumnsEntry(mix, i);
      MixStep(m, i, mix[..]);
      var s := mix[i][0];
      assert s == SBox(Byte(i));
      hide MixDone, InvDone, MixEntry;
      inv[Index(s)] := inv[Index(s)][0 := Byte(i)];
      InvMixColumnsEntry(inv, Index(s));
      InvStep(n, i, inv[..]);
    }

    /** The lazy generation at the head of aes_setkey. */
    method Prepare()
      requires Valid()
      modifies mix, inv
      ensures Valid() && Ready() && mix[0][0] != 0
    {
      if mix[0][0] == 0 {
        Generate();
      }
    }
  }
}
