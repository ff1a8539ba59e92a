/** aes.c as it runs: the round loops over two buffers, the key expansion, encryption and decryption. */
module Aes {
  import opened Arith
  import opened Gf256
  import opened AesTables
  import opened AesCipher
  import Bits

  //////////////////////////////////////////////////////////////////////////////
  // The key expansion of section 5.2 of FIPS-197
  //////////////////////////////////////////////////////////////////////////////

  ghost function SubWord(w: Word): Word {
    [SBox(w[0]), SBox(w[1]), SBox(w[2]), SBox(w[3])]
  }

  function RotWord(w: Word): Word {
    [w[1], w[2], w[3], w[0]]
  }

  function Rcon(n: nat): bv8 {
    if n == 0 then 0x01 else Double(Rcon(n - 1))
  }

  /** Column i of the expanded key, for a key of nk columns. */
  ghost function Expanded(key: seq<bv8>, nk: nat, i: nat): Word
    requires nk > 0 && |key| == 4 * nk
  {
    if i < nk then
      key[4 * i..4 * i + 4]
    else
      XorWord(Schedule(Expanded(key, nk, i - 1), nk, i), Expanded(key, nk, i - nk))
  }

  ghost function Schedule(w: Word, nk: nat, i: nat): Word
    requires nk > 0 && i >= nk
  {
    if i % nk == 0 then XorWord(SubWord(RotWord(w)), [Rcon(i / nk - 1), 0, 0, 0])
    else if nk > 6 && i % nk == 4 then SubWord(w)
    else w
  }

  ghost function RoundKey(key: seq<bv8>, nk: nat, j: nat): State
    requires nk > 0 && |key| == 4 * nk
  {
    Expanded(key, nk, 4 * j) + Expanded(key, nk, 4 * j + 1) + Expanded(key, nk, 4 * j + 2) + Expanded(key, nk, 4 * j + 3)
  }

  /** The number of round keys, one more than the number of rounds in FIPS-197. */
  function RoundsFor(keylen: nat): nat {
    if keylen == 16 then 11 else if keylen == 24 then 13 else 15
  }

  predicate KeyLength(keylen: nat) {
    keylen == 16 || keylen == 24 || keylen == 32
  }

  ghost function RoundKeys(key: seq<bv8>): (r: seq<State>)
    requires KeyLength(|key|)
    ensures |r| == RoundsFor(|key|)
    ensures forall j :: 0 <= j < |r| ==> r[j] == RoundKey(key, |key| / 4, j)
  {
    seq(RoundsFor(|key|), j requires 0 <= j => RoundKey(key, |key| / 4, j))
  }

  /** The ten round constants that the longest expansion uses. */
  lemma RoundConstants()
    ensures Rcon(0) == 0x01 && Rcon(1) == 0x02 && Rcon(2) == 0x04 && Rcon(3) == 0x08 && Rcon(4) == 0x10
    ensures Rcon(5) == 0x20 && Rcon(6) == 0x40 && Rcon(7) == 0x80 && Rcon(8) == 0x1b && Rcon(9) == 0x36
  {
    PowersOfTwo();
    assert Double(0x80) == 0x1b && Double(0x1b) == 0x36;
    hide Double;
    assert Rcon(2) == Double(Rcon(1)) && Rcon(4) == Double(Rcon(3)) && Rcon(6) == Double(Rcon(5));
    assert Rcon(8) == Double(Rcon(7));
  }

  /** Byte j of column i as section 5.2 of FIPS-197 makes it from the two columns it depends on. */
  ghost function NextByte(before: Word, last: Word, nk: nat, i: nat, j: nat): bv8
    requires 0 < nk <= i && i / nk >= 1 && j < 4
  {
    if i % nk == 0 then
      Xor(Xor(before[j], SBox(last[(j + 1) % 4])), if j == 0 then Rcon(i / nk - 1) else 0)
    else if nk == 8 && i % nk == 4 then
      Xor(before[j], SBox(last[j]))
    else
      Xor(before[j], last[j])
  }

  lemma FirstByteOf(before: Word, last: Word, nk: nat, i: nat, j: nat)
    requires 0 < nk <= i && i / nk >= 1 && j < 4 && i % nk == 0
    ensures XorWord(Schedule(last, nk, i), before)[j] == NextByte(before, last, nk, i, j)
  {
    hide Xor, SBox, Rcon, XorWord;
    var c := if j == 0 then Rcon(i / nk - 1) else 0;
    var x := SBox(last[(j + 1) % 4]);
    assert Schedule(last, nk, i)[j] == Xor(x, c);
    XorComm(Xor(x, c), before[j]);
    XorAssoc(before[j], x, c);
  }

  lemma LaterByteOf(before: Word, last: Word, nk: nat, i: nat, j: nat)
    requires 0 < nk <= i && i / nk >= 1 && j < 4 && i % nk != 0 && (nk > 6 ==> nk == 8)
    ensures XorWord(Schedule(last, nk, i), before)[j] == NextByte(before, last, nk, i, j)
  {
    hide Xor, SBox, Rcon, XorWord;
    var w := Schedule(last, nk, i);
    assert w[j] == if nk == 8 && i % nk == 4 then SBox(last[j]) else last[j];
    assert XorWord(w, before)[j] == Xor(w[j], before[j]);
    XorComm(w[j], before[j]);
  }

  /** The expanded key byte by byte: the key itself, and then a recurrence over bytes. */
  lemma ExpandedBytes(key: seq<bv8>, nk: nat, i: nat, j: nat)
    requires (nk == 4 || nk == 6 || nk == 8) && |key| == 4 * nk && j < 4
    ensures i < nk ==> Expanded(key, nk, i)[j] == key[4 * i + j]
    ensures i >= nk ==>
              && i / nk >= 1
              && Expanded(key, nk, i)[j] == NextByte(Expanded(key, nk, i - nk), Expanded(key, nk, i - 1), nk, i, j)
  {
    hide XorWord, Schedule, NextByte;
    if i >= nk {
      PositiveQuotient(i, nk);
      if i % nk == 0 {
        FirstByteOf(Expanded(key, nk, i - nk), Expanded(key, nk, i - 1), nk, i, j);
      } else {
        LaterByteOf(Expanded(key, nk, i - nk), Expanded(key, nk, i - 1), nk, i, j);
      }
    }
  }

  //////////////////////////////////////////////////////////////////////////////
  // Steps of the key expansion
  //////////////////////////////////////////////////////////////////////////////

  /** The test for the middle column of an AES-256 key block. */
  lemma MiddleColumn(offset: nat, keylen: nat)
    requires KeyLength(keylen) && offset < keylen && offset % 4 == 0
    ensures Bits.Or(offset, keylen) == 48 <==> keylen == 32 && offset == 16
  {
    SmallOrs();
    hide Bits.Or;
    var a, b := offset / 4, keylen / 4;
    assert offset / 2 / 2 == a && keylen / 2 / 2 == b;
    Bits.OrHalves(offset, keylen);
    Bits.OrHalves(offset / 2, keylen / 2);
    Bits.OrHalves(a, b);
    Bits.OrHalves(a / 2, b / 2);
  }

  lemma SmallOrs()
    ensures Bits.Or(0, 1) == 1 && Bits.Or(0, 2) == 2 && Bits.Or(1, 2) == 3
  {
  }

  lemma NextIndex(i: nat, nk: nat)
    requires nk > 0
    ensures (i + 1) % nk == if i % nk + 1 == nk then 0 else i % nk + 1
    ensures (i + 1) / nk == if i % nk + 1 == nk then i / nk + 1 else i / nk
  {
    var q, r := i / nk, i % nk;
    assert i == q * nk + r;
    if r + 1 == nk {
      assert i + 1 == (q + 1) * nk + 0;
      DivModUnique(i + 1, nk, q + 1, 0);
    } else {
      DivModUnique(i + 1, nk, q, r + 1);
    }
  }

  /** The state of the expansion loop before column i. */
  ghost predicate Expanding(cols: seq<Word>, key: seq<bv8>, nk: nat, i: nat, offset: nat, rcon: bv8) {
    && nk > 0 && |key| == 4 * nk && nk <= i <= |cols|
    && (forall j :: 0 <= j < i ==> cols[j] == Expanded(key, nk, j))
    && offset == 4 * (i % nk)
    && rcon == Rcon(if i % nk == 0 then i / nk - 1 else i / nk)
  }

  lemma FirstIndex(nk: nat)
    requires nk > 0
    ensures nk % nk == 0 && nk / nk == 1
  {
    DivModUnique(nk, nk, 1, 0);
  }

  lemma PositiveQuotient(i: nat, nk: nat)
    requires 0 < nk <= i
    ensures i / nk >= 1
  {
    var q, r := i / nk, i % nk;
    assert i == q * nk + r;
  }

  lemma ExpandStep(cols: seq<Word>, key: seq<bv8>, nk: nat, i: nat, offset: nat, rcon: bv8, us: seq<Word>,
                   offset': nat, rcon': bv8)
    requires Expanding(cols, key, nk, i, offset, rcon) && i < |cols|
    requires us == cols[i := XorWord(Schedule(cols[i - 1], nk, i), cols[i - nk])]
    requires offset' == if offset + 4 == 4 * nk then 0 else offset + 4
    requires rcon' == if offset == 0 then Double(rcon) else rcon
    ensures Expanding(us, key, nk, i + 1, offset', rcon')
  {
    hide XorWord, Schedule, Double;
    NextIndex(i, nk);
    PositiveQuotient(i, nk);
    assert us[i] == Expanded(key, nk, i);
  }

  lemma ScheduleFirst(w: Word, nk: nat, i: nat, x: Word, rcon: bv8)
    requires nk > 0 && i >= nk && i % nk == 0 && i / nk >= 1
    requires x == RotWord(SubWord(w)) && rcon == Rcon(i / nk - 1)
    ensures [Xor(x[0], rcon), x[1], x[2], x[3]] == Schedule(w, nk, i)
  {
    hide Xor, SBox, Rcon;
    XorZero(x[1]);
    XorZero(x[2]);
    XorZero(x[3]);
    assert x == SubWord(RotWord(w));
  }

  /** aes_key_sbox: one byte at a time, rotating the column until every byte has been through. */
  method KeySBox(table: seq<Entry>, column: Word) returns (r: Word)
    requires MixTable(table)
    ensures r == SubWord(column)
  {
    hide SBox;
    r := column;
    for i := 0 to 4
      invariant i == 0 ==> r == column
      invariant i == 1 ==> r == [column[3], SBox(column[0]), column[1], column[2]]
      invariant i == 2 ==> r == [column[2], SBox(column[3]), SBox(column[0]), column[1]]
      invariant i == 3 ==> r == [column[1], SBox(column[2]), SBox(column[3]), SBox(column[0])]
      invariant i == 4 ==> r == SubWord(column)
    {
      var byte := table[Index(r[0])][0];
      assert byte == SBox(r[0]) by {
        assert table[Index(r[0])] == MixEntry(SBox(r[0]));
      }
      r := [r[3], byte, r[1], r[2]];
    }
  }

  /** One column of the expansion loop. */
  method NextColumn(table: seq<Entry>, w: Word, prev: Word, offset: nat, keylen: nat, rcon: bv8, ghost i: nat)
    returns (column: Word, next: bv8)
    requires MixTable(table) && KeyLength(keylen) && i >= keylen / 4
    requires offset == 4 * (i % (keylen / 4))
    requires offset == 0 ==> i / (keylen / 4) >= 1 && rcon == Rcon(i / (keylen / 4) - 1)
    ensures column == XorWord(Schedule(w, keylen / 4, i), prev)
    ensures next == if offset == 0 then Double(rcon) else rcon
  {
    hide MixTable, Xor, SubWord, Double, XorWord, Rcon;
    MiddleColumn(offset, keylen);
    ghost var nk := keylen / 4;
    var tmp := w;
    next := rcon;
    if offset == 0 || Bits.Or(offset, keylen) == 48 {
      tmp := KeySBox(table, tmp);
    }
    if offset == 0 {
      ghost var x := RotWord(tmp);
      tmp := RotWord(tmp);
      tmp := [Xor(tmp[0], rcon), tmp[1], tmp[2], tmp[3]];
      next := Double(rcon);
      ScheduleFirst(w, nk, i, x, rcon);
    }
    column := XorWord(tmp, prev);
  }

  method CopyKey(cols: array<Word>, key: seq<bv8>)
    requires KeyLength(|key|) && cols.Length == 60
    modifies cols
    ensures forall m :: 0 <= m < |key| / 4 ==> cols[m] == Expanded(key, |key| / 4, m)
  {
    var nk := |key| / 4;
    assert |key| == 4 * nk;
    for j := 0 to nk
      invariant forall m :: 0 <= m < j ==> cols[m] == Expanded(key, nk, m)
    {
      cols[j] := key[4 * j..4 * j + 4];
    }
  }

  /** The expansion loop of aes_setkey: every column becomes what FIPS-197 prescribes. */
  method ExpandKey(table: seq<Entry>, cols: array<Word>, key: seq<bv8>, rounds: nat)
    requires MixTable(table) && KeyLength(|key|) && cols.Length == 60 && rounds == RoundsFor(|key|)
    modifies cols
    ensures forall j :: 0 <= j < 4 * rounds ==> cols[j] == Expanded(key, |key| / 4, j)
    ensures ByteRecurrence(cols[..], key, 4 * rounds)
  {
    hide MixTable, Schedule, XorWord, Expanded, Rcon, ByteRecurrence;
    CopyKey(cols, key);
    var nk := |key| / 4;
    var rcon: bv8 := 0x01;
    var offset := 0;
    var tmp := cols[nk - 1];
    var i := nk;
    ExpandStart(cols[..], key, nk);
    while i < 4 * rounds
      invariant nk <= i <= 4 * rounds
      invariant Expanding(cols[..], key, nk, i, offset, rcon)
      invariant tmp == cols[i - 1]
    {
      hide Expanding;
      tmp, offset, rcon := ExpandColumn(table, cols, key, i, tmp, offset, rcon);
      i := i + 1;
    }
    ExpandedRecurrence(cols[..], key, 4 * rounds);
  }

  /** The first n columns are the key followed by what the byte recurrence makes of it. */
  ghost predicate ByteRecurrence(cols: seq<Word>, key: seq<bv8>, n: nat)
    requires KeyLength(|key|) && n <= |cols|
  {
    var nk := |key| / 4;
    && (forall i, j :: 0 <= i < nk && i < n && 0 <= j < 4 ==> cols[i][j] == key[4 * i + j])
    && (forall i, j :: nk <= i < n && 0 <= j < 4 ==>
          i / nk >= 1 && cols[i][j] == NextByte(cols[i - nk], cols[i - 1], nk, i, j))
  }

  lemma ExpandedRecurrence(cols: seq<Word>, key: seq<bv8>, n: nat)
    requires KeyLength(|key|) && n <= |cols|
    requires forall j :: 0 <= j < n ==> cols[j] == Expanded(key, |key| / 4, j)
    ensures ByteRecurrence(cols, key, n)
  {
    hide Expanded, NextByte;
    var nk := |key| / 4;
    forall i, j | 0 <= i < n && 0 <= j < 4
      ensures i < nk ==> cols[i][j] == key[4 * i + j]
      ensures i >= nk ==> i / nk >= 1 && cols[i][j] == NextByte(cols[i - nk], cols[i - 1], nk, i, j)
    {
      ExpandedBytes(key, nk, i, j);
    }
  }

  /** One iteration of the expansion loop. */
  method ExpandColumn(table: seq<Entry>, cols: array<Word>, key: seq<bv8>, i: nat, last: Word, offset: nat, rcon: bv8)
    returns (tmp: Word, offset': nat, rcon': bv8)
    requires MixTable(table) && KeyLength(|key|)
    requires i < cols.Length && Expanding(cols[..], key, |key| / 4, i, offset, rcon)
    requires last == cols[i - 1]
    modifies cols
    ensures Expanding(cols[..], key, |key| / 4, i + 1, offset', rcon')
    ensures tmp == cols[i]
  {
    var nk := |key| / 4;
    ghost var was := cols[..];
    ExpandingParts(was, key, nk, i, offset, rcon);
    hide MixTable, Schedule, XorWord, Expanding;
    tmp, rcon' := NextColumn(table, last, cols[i - nk], offset, |key|, rcon, i);
    cols[i] := tmp;
    offset' := offset + 4;
    if offset' == |key| {
      offset' := 0;
    }
    assert cols[..] == was[i := tmp];
    ExpandStep(was, key, nk, i, offset, rcon, cols[..], offset', rcon');
  }

  lemma ExpandStart(cols: seq<Word>, key: seq<bv8>, nk: nat)
    requires nk > 0 && |key| == 4 * nk && nk <= |cols|
    requires forall j :: 0 <= j < nk ==> cols[j] == Expanded(key, nk, j)
    ensures Expanding(cols, key, nk, nk, 0, 0x01)
  {
    hide Expanded;
    FirstIndex(nk);
  }

  lemma ExpandingParts(cols: seq<Word>, key: seq<bv8>, nk: nat, i: nat, offset: nat, rcon: bv8)
    requires Expanding(cols, key, nk, i, offset, rcon)
    ensures offset == 4 * (i % nk) && i / nk >= 1 && nk <= i
    ensures offset == 0 ==> rcon == Rcon(i / nk - 1)
  {
    hide Expanded, Rcon;
    PositiveQuotient(i, nk);
  }

  //////////////////////////////////////////////////////////////////////////////
  // The rounds
  //////////////////////////////////////////////////////////////////////////////

  method StoreColumn(out: array<bv8>, column: nat, w: Word)
    requires out.Length == 16 && column < 4
    modifies out
    ensures forall j :: 0 <= j < 16 ==> out[j] == if 4 * column <= j < 4 * column + 4 then w[j - 4 * column] else old(out[j])
  {
    out[4 * column] := w[0];
    out[4 * column + 1] := w[1];
    out[4 * column + 2] := w[2];
    out[4 * column + 3] := w[3];
  }

  /** aes_round: the four output columns, each from table lookups. */
  method OneRound(table: seq<Entry>, stride: int, in_: array<bv8>, out: array<bv8>, key: State)
    requires RoundTable(table, stride) && in_.Length == 16 && out.Length == 16 && in_ != out
    modifies out
    ensures out[..] == RoundFor(stride, in_[..], key)
  {
    hide RoundTable, RoundFor;
    var w0, w1, w2, w3 := OutputColumns(table, stride, in_[..], key);
    StoreColumns(out, w0, w1, w2, w3, RoundFor(stride, in_[..], key));
  }

  /** The four calls of aes_output. */
  method OutputColumns(t: seq<Entry>, stride: int, s: State, key: State)
    returns (w0: Word, w1: Word, w2: Word, w3: Word)
    requires RoundTable(t, stride)
    ensures w0 + w1 + w2 + w3 == RoundFor(stride, s, key)
  {
    hide RoundTable, TableOutput, RoundFor;
    WholeRound(t, stride, s, key);
    w0 := TableOutput(t, stride, s, key, 0);
    w1 := TableOutput(t, stride, s, key, 1);
    w2 := TableOutput(t, stride, s, key, 2);
    w3 := TableOutput(t, stride, s, key, 3);
  }

  lemma FourColumns(r: State, w0: Word, w1: Word, w2: Word, w3: Word)
    requires w0 == r[0..4] && w1 == r[4..8] && w2 == r[8..12] && w3 == r[12..16]
    ensures w0 + w1 + w2 + w3 == r
  {
  }

  lemma WholeRound(t: seq<Entry>, stride: int, s: State, k: State)
    requires RoundTable(t, stride)
    ensures |t| == 256
    ensures TableOutput(t, stride, s, k, 0) + TableOutput(t, stride, s, k, 1)
          + TableOutput(t, stride, s, k, 2) + TableOutput(t, stride, s, k, 3)
         == RoundFor(stride, s, k)
  {
    TableSize(t, stride);
    hide RoundTable, TableOutput, RoundFor;
    TableRound(t, stride, s, k, 0);
    TableRound(t, stride, s, k, 1);
    TableRound(t, stride, s, k, 2);
    TableRound(t, stride, s, k, 3);
    FourColumns(RoundFor(stride, s, k), TableOutput(t, stride, s, k, 0), TableOutput(t, stride, s, k, 1),
                TableOutput(t, stride, s, k, 2), TableOutput(t, stride, s, k, 3));
  }

  lemma KeyColumn(s: State, k: State, o: nat)
    requires o <= 12
    ensures XorWord(s[o..o + 4], k[o..o + 4]) == AddRoundKey(s, k)[o..o + 4]
  {
    hide Xor;
  }

  lemma WholeKey(s: State, k: State)
    ensures XorWord(s[0..4], k[0..4]) + XorWord(s[4..8], k[4..8]) + XorWord(s[8..12], k[8..12])
          + XorWord(s[12..16], k[12..16])
         == AddRoundKey(s, k)
  {
    hide Xor, XorWord, AddRoundKey;
    KeyColumn(s, k, 0);
    KeyColumn(s, k, 4);
    KeyColumn(s, k, 8);
    KeyColumn(s, k, 12);
    FourColumns(AddRoundKey(s, k), XorWord(s[0..4], k[0..4]), XorWord(s[4..8], k[4..8]),
                XorWord(s[8..12], k[8..12]), XorWord(s[12..16], k[12..16]));
  }

  method StoreColumns(out: array<bv8>, w0: Word, w1: Word, w2: Word, w3: Word, ghost r: State)
    requires out.Length == 16 && w0 + w1 + w2 + w3 == r
    modifies out
    ensures out[..] == r
  {
    StoreColumn(out, 0, w0);
    StoreColumn(out, 1, w1);
    StoreColumn(out, 2, w2);
    StoreColumn(out, 3, w3);
    assert out[..] == w0 + w1 + w2 + w3;
  }

  ghost function RoundsWith(stride: int, s: State, keys: seq<State>, n: nat): State
    requires n <= |keys|
  {
    if stride == 5 then Rounds(s, keys, n) else InvRounds(s, keys, n)
  }

  lemma RoundsWithStep(stride: int, s: State, keys: seq<State>, n: nat)
    requires n < |keys|
    ensures RoundsWith(stride, s, keys, 0) == s
    ensures RoundsWith(stride, s, keys, n + 1) == RoundFor(stride, RoundsWith(stride, s, keys, n), keys[n])
  {
    hide Rounds, InvRounds, Round, InvRound;
    NoRounds(s, keys);
    RoundsStep(s, keys, n + 1);
    InvRoundsStep(s, keys, n + 1);
  }

  /** aes_encrypt_rounds and aes_decrypt_rounds: the two buffers take turns, and an odd number of rounds
      leaves the result in the second. */
  method IntermediateRounds(table: seq<Entry>, stride: int, in0: array<bv8>, out0: array<bv8>, keys: seq<State>,
                            rounds: nat)
    requires RoundTable(table, stride) && in0.Length == 16 && out0.Length == 16 && in0 != out0
    requires rounds % 2 == 1 && rounds <= |keys|
    modifies in0, out0
    ensures out0[..] == RoundsWith(stride, old(in0[..]), keys, rounds)
  {
    hide RoundTable, RoundsWith, RoundFor;
    var in_, out := in0, out0;
    var left := rounds;
    var n := 0;
    RoundsWithStep(stride, in0[..], keys, 0);
    while true
      invariant left > 0 && n + left == rounds
      invariant n % 2 == 0 ==> in_ == in0 && out == out0
      invariant n % 2 == 1 ==> in_ == out0 && out == in0
      invariant in_[..] == RoundsWith(stride, old(in0[..]), keys, n)
      decreases left
    {
      OneRound(table, stride, in_, out, keys[n]);
      RoundsWithStep(stride, old(in0[..]), keys, n);
      in_, out := out, in_;
      n := n + 1;
      left := left - 1;
      if left == 0 {
        break;
      }
    }
  }

  /** aes_addroundkey. */
  method AddKey(state: array<bv8>, key: State)
    requires state.Length == 16
    modifies state
    ensures state[..] == AddRoundKey(old(state[..]), key)
  {
    hide Xor, XorWord, AddRoundKey;
    var s := state[..];
    WholeKey(s, key);
    StoreColumns(state, XorWord(s[0..4], key[0..4]), XorWord(s[4..8], key[4..8]),
                 XorWord(s[8..12], key[8..12]), XorWord(s[12..16], key[12..16]), AddRoundKey(s, key));
  }

  lemma NextOffset(stride: int, i: nat)
    ensures (stride * i % 16 + stride) % 16 == stride * (i + 1) % 16
  {
    var q, r := stride * i / 16, stride * i % 16;
    assert stride * i == 16 * q + r;
    assert stride * (i + 1) == (r + stride) + 16 * q;
    ModShift(r + stride, q, 16);
  }

  lemma FirstBytes(t: seq<Entry>, stride: int, s: State, j: nat)
    requires RoundTable(t, stride) && j < 16
    ensures t[Index(s[stride * j % 16])][0] == Substituted(stride, s)[j]
  {
    hide SBox, InvSBox, ShiftSource, InvShiftSource, Index;
    Strides(j);
    var b := s[stride * j % 16];
    if stride == 5 {
      assert t[Index(b)] == MixEntry(SBox(b));
    } else {
      assert t[Index(b)] == InvMixEntry(InvSBox(b));
    }
  }

  /** aes_final: row shift and substitution byte by byte, then the key. */
  method FinalRoundWith(table: seq<Entry>, stride: int, in_: array<bv8>, out: array<bv8>, key: State)
    requires RoundTable(table, stride) && in_.Length == 16 && out.Length == 16 && in_ != out
    modifies out
    ensures out[..] == AddRoundKey(Substituted(stride, in_[..]), key)
  {
    hide RoundTable, Substituted, AddRoundKey;
    assert |table| == 256 by { TableSize(table, stride); }
    ghost var s: State := in_[..];
    var inOffset := 0;
    for outOffset := 0 to 16
      invariant inOffset == stride * outOffset % 16
      invariant forall j :: 0 <= j < outOffset ==> out[j] == Substituted(stride, s)[j]
      invariant in_[..] == s
    {
      var byte := in_[inOffset];
      FirstBytes(table, stride, s, outOffset);
      out[outOffset] := table[Index(byte)][0];
      NextOffset(stride, outOffset);
      inOffset := (inOffset + stride) % 16;
    }
    assert out[..] == Substituted(stride, s);
    AddKey(out, key);
  }

  lemma TableSize(t: seq<Entry>, stride: int)
    requires RoundTable(t, stride)
    ensures |t| == 256
  {
  }

  //////////////////////////////////////////////////////////////////////////////
  // The decryption keys
  //////////////////////////////////////////////////////////////////////////////

  const ZERO: State := [0, 0, 0, 0, 0, 0, 0, 0, 0, 0, 0, 0, 0, 0, 0, 0]

  lemma AddZero(s: State)
    ensures AddRoundKey(s, ZERO) == s
  {
    hide Xor;
    forall i | 0 <= i < 16
      ensures AddRoundKey(s, ZERO)[i] == s[i]
    {
      XorZero(s[i]);
    }
    assert AddRoundKey(s, ZERO) == s;
  }

  /** A final encryption round and one decryption round, both with a zero key, leave InvMixColumns. */
  lemma InvertedKey(k: State)
    ensures RoundsWith(-3, AddRoundKey(Substituted(5, k), ZERO), [ZERO], 1) == InvMixColumns(k)
  {
    hide AddRoundKey, ShiftRows, SubBytes, InvShiftRows, InvSubBytes, InvMixColumns, Rounds;
    var t := ShiftRows(SubBytes(k));
    AddZero(t);
    RoundsWithStep(-3, t, [ZERO], 0);
    InvSubShift(k);
    AddZero(InvMixColumns(k));
  }

  method InvertKey(mix: seq<Entry>, inv: seq<Entry>, k: State) returns (r: State)
    requires MixTable(mix) && InvMixTable(inv)
    ensures r == InvMixColumns(k)
  {
    hide MixTable, InvMixTable, RoundsWith, Substituted, AddRoundKey, InvMixColumns;
    var enc := Copied(k);
    var temp := new bv8[16];
    var dec := new bv8[16];
    FinalRoundWith(mix, 5, enc, temp, ZERO);
    IntermediateRounds(inv, -3, temp, dec, [ZERO], 1);
    InvertedKey(k);
    r := dec[..];
  }

  method Copied(s: State) returns (a: array<bv8>)
    ensures fresh(a) && a.Length == 16 && a[..] == s
  {
    a := new bv8[16](i requires 0 <= i < 16 => s[i]);
    assert a[..] == s;
  }

  /** The loop that fills in the decryption keys from the last to the first. */
  method InvertKeys(mix: seq<Entry>, inv: seq<Entry>, enc: seq<State>, dec: array<State>)
    requires MixTable(mix) && InvMixTable(inv) && 2 <= |enc| <= dec.Length
    modifies dec
    ensures dec[..|enc|] == InvKeys(enc)
  {
    hide MixTable, InvMixTable, InvMixColumns, InvKey, InvKeys;
    var rounds := |enc|;
    OuterKeys(enc);
    dec[rounds - 1] := enc[0];
    var i, j := 1, rounds - 2;
    while j > 0
      invariant i + j == rounds - 1 && 1 <= i && 0 <= j
      invariant forall m :: j < m < rounds ==> dec[m] == InvKey(enc, m)
    {
      InnerKeyAt(enc, i, j);
      dec[j] := InvertKey(mix, inv, enc[i]);
      i := i + 1;
      j := j - 1;
    }
    dec[0] := enc[i];
    AllKeys(enc, dec[..rounds]);
  }

  lemma OuterKeys(enc: seq<State>)
    requires |enc| >= 2
    ensures InvKey(enc, 0) == enc[|enc| - 1] && InvKey(enc, |enc| - 1) == enc[0]
  {
  }

  lemma InnerKeyAt(enc: seq<State>, i: nat, j: nat)
    requires i > 0 && j > 0 && i + j == |enc| - 1
    ensures InvKey(enc, j) == InvMixColumns(enc[i])
  {
  }

  lemma AllKeys(enc: seq<State>, dec: seq<State>)
    requires |enc| == |dec| >= 2
    requires forall m :: 0 <= m < |enc| ==> dec[m] == InvKey(enc, m)
    ensures dec == InvKeys(enc)
  {
    hide InvKey;
    assert dec == InvKeys(enc);
  }

  //////////////////////////////////////////////////////////////////////////////
  // The context
  //////////////////////////////////////////////////////////////////////////////

  /** Round key j, read from the expanded columns. */
  function KeyMatrix(cols: seq<Word>, j: nat): State
    requires 4 * j + 4 <= |cols|
  {
    cols[4 * j][..] + cols[4 * j + 1][..] + cols[4 * j + 2][..] + cols[4 * j + 3][..]
  }

  function KeyMatrices(cols: seq<Word>, n: nat): (r: seq<State>)
    requires 4 * n <= |cols|
    ensures |r| == n && forall j :: 0 <= j < n ==> r[j] == KeyMatrix(cols, j)
  {
    seq(n, j requires 0 <= j < n => KeyMatrix(cols, j))
  }

  method EncryptBlock(mix: seq<Entry>, keys: seq<State>, src: array<bv8>, dst: array<bv8>)
    requires MixTable(mix) && |keys| >= 3 && |keys| % 2 == 1 && src.Length == 16 && dst.Length == 16
    modifies dst
    ensures dst[..] == Cipher(old(src[..]), keys)
  {
    hide MixTable, AddRoundKey, Rounds, InvRounds, ShiftRows, SubBytes;
    var in_ := Copied(src[..]);
    var out := new bv8[16];
    var rounds := |keys|;
    AddKey(in_, keys[0]);
    IntermediateRounds(mix, 5, in_, out, keys[1..], rounds - 2);
    FinalRoundWith(mix, 5, out, dst, keys[rounds - 1]);
  }

  method DecryptBlock(inv: seq<Entry>, keys: seq<State>, src: array<bv8>, dst: array<bv8>)
    requires InvMixTable(inv) && |keys| >= 3 && |keys| % 2 == 1 && src.Length == 16 && dst.Length == 16
    modifies dst
    ensures dst[..] == EquivalentInvCipher(old(src[..]), keys)
  {
    hide InvMixTable, AddRoundKey, Rounds, InvRounds, InvShiftRows, InvSubBytes;
    var in_ := Copied(src[..]);
    var out := new bv8[16];
    var rounds := |keys|;
    AddKey(in_, keys[0]);
    IntermediateRounds(inv, -3, in_, out, keys[1..], rounds - 2);
    FinalRoundWith(inv, -3, out, dst, keys[rounds - 1]);
  }

  class Context {
    const tables: Tables
    const encrypt: array<Word>
    const decrypt: array<State>
    var rounds: nat

    constructor (tables: Tables)
      requires tables.Valid()
      ensures this.tables == tables && Valid() && fresh(encrypt) && fresh(decrypt)
    {
      this.tables := tables;
      encrypt := new Word[60](_ => [0, 0, 0, 0]);
      decrypt := new State[15](_ => ZERO);
      rounds := 0;
    }

    ghost predicate Valid()
      reads this, tables, tables.mix, tables.inv
    {
      && tables.Valid() && encrypt.Length == 60 && decrypt.Length == 15
      && {encrypt as object} !! {decrypt as object} !! {tables.mix as object} !! {tables.inv as object}
    }

    /** The context holds the schedule of this key. */
    ghost predicate Keyed(key: seq<bv8>)
      reads this, encrypt, decrypt, tables, tables.mix, tables.inv
    {
      && Valid() && tables.Ready() && KeyLength(|key|)
      && rounds == RoundsFor(|key|)
      && KeyMatrices(encrypt[..], rounds) == RoundKeys(key)
      && decrypt[..rounds] == InvKeys(RoundKeys(key))
    }

    /** aes_setkey: false stands for -EINVAL. */
    method SetKey(key: seq<bv8>) returns (ok: bool)
      requires Valid()
      modifies this, encrypt, decrypt, tables.mix, tables.inv
      ensures Valid() && tables.Ready()
      ensures ok == KeyLength(|key|)
      ensures ok ==> Keyed(key) && ByteRecurrence(encrypt[..], key, 4 * rounds)
      ensures !ok ==> rounds == old(rounds) && encrypt[..] == old(encrypt[..]) && decrypt[..] == old(decrypt[..])
    {
      hide MixTable, InvMixTable, Expanded, RoundKey, InvKeys, ByteRecurrence;
      tables.Prepare();
      if |key| != 16 && |key| != 24 && |key| != 32 {
        return false;
      }
      rounds := if |key| == 16 then 11 else if |key| == 24 then 13 else 15;
      var mix, inv := tables.mix[..], tables.inv[..];
      ExpandKey(mix, encrypt, key, rounds);
      var enc := KeyMatrices(encrypt[..], rounds);
      ExpandedKeys(encrypt[..], key, rounds);
      InvertKeys(mix, inv, enc, decrypt);
      ok := true;
    }

    /** aes_encrypt. */
    method Encrypt(src: array<bv8>, dst: array<bv8>, ghost key: seq<bv8>)
      requires Keyed(key) && src.Length == 16 && dst.Length == 16
      modifies dst
      ensures dst[..] == Cipher(old(src[..]), RoundKeys(key))
    {
      hide MixTable, InvMixTable, RoundKeys, InvKeys, Cipher;
      EncryptBlock(tables.mix[..], KeyMatrices(encrypt[..], rounds), src, dst);
    }

    /** aes_decrypt. */
    method Decrypt(src: array<bv8>, dst: array<bv8>, ghost key: seq<bv8>)
      requires Keyed(key) && src.Length == 16 && dst.Length == 16
      modifies dst
      ensures dst[..] == InvCipher(old(src[..]), RoundKeys(key))
    {
      hide MixTable, InvMixTable, RoundKeys, InvKeys, InvCipher, EquivalentInvCipher;
      EquivalentIsInverse(src[..], RoundKeys(key));
      DecryptBlock(tables.inv[..], decrypt[..rounds], src, dst);
    }
  }

  lemma ExpandedKeys(cols: seq<Word>, key: seq<bv8>, rounds: nat)
    requires KeyLength(|key|) && rounds == RoundsFor(|key|) && 4 * rounds <= |cols|
    requires forall j :: 0 <= j < 4 * rounds ==> cols[j] == Expanded(key, |key| / 4, j)
    ensures KeyMatrices(cols, rounds) == RoundKeys(key)
  {
    hide Expanded;
    var enc := KeyMatrices(cols, rounds);
    forall j | 0 <= j < rounds
      ensures enc[j] == RoundKeys(key)[j]
    {
      assert enc[j] == KeyMatrix(cols, j);
    }
    assert enc == RoundKeys(key);
  }

  /** For every key of 128, 192 or 256 bits, decryption recovers every block. */
  lemma RoundTrip(key: seq<bv8>, x: State)
    requires KeyLength(|key|)
    ensures InvCipher(Cipher(x, RoundKeys(key)), RoundKeys(key)) == x
  {
    hide Cipher, InvCipher, EquivalentInvCipher, RoundKeys;
    var keys := RoundKeys(key);
    DecryptEncrypt(x, keys);
    EquivalentIsInverse(Cipher(x, keys), keys);
  }
}
