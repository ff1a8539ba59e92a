/** iobuf.c: I/O buffers whose descriptor lies either directly behind the buffer or in a block of its own. */
module IoBuffer {
  import opened Arith
  import opened Bits
  import opened HeapModel
  import opened HeapTilings
  import opened HeapRuns
  import opened Malloc

  /** sizeof and __alignof__ of `struct io_buffer` with 64-bit pointers. */
  const IOB_SIZE := 72
  const IOB_ALIGN := 8
  const PADDING := IOB_SIZE + IOB_ALIGN - 1
  const IOB_ZLEN := 128

  /** A descriptor, with the address it is stored at. */
  datatype Iobuf = Null | Iobuf(self: int, head: int, data: int, tail: int, end: int)

  /** The alignment actually used: the least power of two that covers the request and the padding. */
  function Rounded(align: nat): (a: nat)
    ensures a >= align && a >= PADDING
  {
    var a := if align < PADDING then PADDING else align;
    FlsBounds(a - 1);
    Pow2(Fls(a - 1))
  }

  /** A length padded so that a descriptor behind it is aligned. */
  ghost function Padded(len: nat, offset: nat): nat {
    len + (0 - len - offset) % IOB_ALIGN
  }

  /** There was no room for a buffer with its descriptor behind it. */
  ghost predicate InlineRefused(h: Heap, len: nat, a: nat, offset: nat) {
    NoRoom(h, Padded(len, offset) + IOB_SIZE, a, offset)
  }

  /** There was no room for the buffer or, with the buffer in place, none for the descriptor. */
  ghost predicate DetachedRefused(was: Heap, h: Heap, len: nat, a: nat, offset: nat) {
    || len > WORD - MIN_BLOCK
    || NoRoom(h, len, a, offset)
    || var (g, block) := Allocated(was, len, a, offset);
       block != 0 && Obtained(g, IOB_SIZE).1 == 0 && Refused(Obtained(g, IOB_SIZE).0, IOB_SIZE)
  }

  class IoBuffers {
    const mem: MallocHeap

    constructor (mem: MallocHeap)
      ensures this.mem == mem
    {
      this.mem := mem;
    }

    /** What a descriptor stands for: one block that ends in the descriptor, or two blocks. */
    ghost predicate Owned(iob: Iobuf, inline: bool)
      reads mem, mem.heap
    {
      && iob.Iobuf? && iob.head <= iob.end
      && iob.head + HEADER !in mem.data
      && if inline then
           && iob.self == iob.end && iob.end - iob.head + IOB_SIZE < WORD
           && Tile(iob.head, RoundUp(iob.end - iob.head + IOB_SIZE), Used) in UserBlocks(mem.heap.tiles)
         else
           && 0 < iob.end - iob.head < WORD
           && Tile(iob.head, RoundUp(iob.end - iob.head), Used) in UserBlocks(mem.heap.tiles)
           && iob.self in mem.data && |mem.data[iob.self]| == IOB_SIZE
    }

    /** The blocks of a buffer. */
    ghost function BlocksOf(iob: Iobuf, inline: bool): set<Tile>
      reads mem
      requires iob.Iobuf? && iob.head <= iob.end
    {
      var n := iob.end - iob.head;
      if inline then {Tile(iob.head, RoundUp(n + IOB_SIZE), Used)}
      else {Tile(iob.head, RoundUp(n), Used)} + mem.BlockOf(iob.self)
    }

    /** A new buffer takes its own blocks and nobody else's. */
    twostate predicate Taken(iob: Iobuf, inline: bool)
      reads mem, mem.heap
    {
      && iob.Iobuf? && iob.head <= iob.end
      && UserBlocks(mem.heap.tiles) == old(UserBlocks(mem.heap.tiles)) + BlocksOf(iob, inline)
      && old(UserBlocks(mem.heap.tiles)) !! BlocksOf(iob, inline)
      && mem.data - (if inline then {} else {iob.self}) == old(mem.data)
    }

    /** The test in free_iob, end == iobuf, tells the two kinds apart: a detached descriptor can never
        happen to lie where the buffer ends. */
    lemma BranchIsDetermined(iob: Iobuf, inline: bool)
      requires mem.Valid() && Owned(iob, inline)
      ensures iob.end == iob.self <==> inline
    {
      if !inline && iob.end == iob.self {
        var n := iob.end - iob.head;
        RoundUpMeaning(n);
        assert mem.Live(iob.self);
        var x := Tile(iob.head, RoundUp(n), Used);
        var y := Tile(iob.self - HEADER, RoundUp(mem.header[iob.self - HEADER]), Used);
        if x != y { TilesDisjoint(mem.heap.tiles, x, y); }
      }
    }

    /** Give such a block back. */
    method GivePhys(block: int, size: nat)
      requires mem.Valid() && size < WORD && block + HEADER !in mem.data
      requires Tile(block, RoundUp(size), Used) in UserBlocks(mem.heap.tiles)
      modifies mem.heap
      ensures mem.Valid()
      ensures UserBlocks(mem.heap.tiles) == old(UserBlocks(mem.heap.tiles)) - {Tile(block, RoundUp(size), Used)}
      ensures mem.heap.State() == FreeMemblock(old(mem.heap.State()), block, size)
    {
      hide FreeMemblock, Inv;
      mem.heap.FreePhys(block, size);
      assert forall p <- mem.data :: old(mem.Live(p)) ==> mem.Live(p);
    }

    /** Pad a length so that a descriptor placed behind it is aligned. */
    static method PadLength(len: nat, offset: nat) returns (n: nat)
      requires len < WORD && offset < WORD
      ensures len <= n < len + IOB_ALIGN && (n + offset) % IOB_ALIGN == 0 && n == Padded(len, offset)
    {
      hide And, Wrap;
      PaddingIs(0 - len - offset);
      PaddingAligns(len, offset);
      n := len + And(Wrap(0 - len - offset), IOB_ALIGN - 1);
    }

    static lemma PaddingIs(x: int)
      ensures And(Wrap(x), IOB_ALIGN - 1) == x % IOB_ALIGN
    {
      hide And, Wrap;
      assert Pow2(3) == IOB_ALIGN;
      AndMask(Wrap(x), 3);
      WrapModulo(x, 3);
    }

    static lemma PaddingAligns(len: nat, offset: nat)
      ensures (len + (0 - len - offset) % IOB_ALIGN + offset) % IOB_ALIGN == 0
    {
    }

    lemma DescriptorAligned(block: int, n: nat, offset: nat, a: nat)
      requires ValidAlign(a) && a >= PADDING && (n + offset) % IOB_ALIGN == 0
      requires (block + mem.heap.physOffset) % a == offset % a
      ensures (block + mem.heap.physOffset + n) % IOB_ALIGN == 0
    {
      SameResidue(block + mem.heap.physOffset, offset, a);
      SumAligned(block + mem.heap.physOffset, n, offset);
    }

    static lemma SumAligned(x: int, n: int, offset: int)
      requires x % IOB_ALIGN == offset % IOB_ALIGN && (n + offset) % IOB_ALIGN == 0
      ensures (x + n) % IOB_ALIGN == 0
    {
    }

    static lemma SameResidue(x: int, y: int, a: nat)
      requires ValidAlign(a) && a >= PADDING && x % a == y % a
      ensures x % IOB_ALIGN == y % IOB_ALIGN
    {
      MaskIsGranule(0, a);
      Eighths(x, a);
      Eighths(y, a);
    }

    static lemma Eighths(x: int, a: nat)
      requires a % MIN_BLOCK == 0 && a > 0
      ensures (x % a) % IOB_ALIGN == x % IOB_ALIGN
    {
      var m := a / IOB_ALIGN;
      assert a == IOB_ALIGN * m;
      ModOfMultiple(x, IOB_ALIGN, m);
    }

    method AllocIobRaw(len: nat, align: nat, offset: nat, junk: nat -> bv8) returns (iob: Iobuf, ghost inline: bool)
      requires mem.Valid() && len < WORD && align < WORD && offset < WORD
      modifies mem, mem.heap
      ensures mem.Valid()
      ensures iob.Null? ==> UserBlocks(mem.heap.tiles) == old(UserBlocks(mem.heap.tiles)) && mem.data == old(mem.data)
      ensures iob.Iobuf? ==>
        && Owned(iob, inline) && Taken(iob, inline)
        && iob.head == iob.data == iob.tail && iob.end - iob.head >= len
        && (iob.head + mem.heap.physOffset) % Rounded(align) == offset % Rounded(align)
        && (inline ==> iob.end - iob.head + IOB_SIZE <= Rounded(align) && (iob.self + mem.heap.physOffset) % IOB_ALIGN == 0)
        && (inline <==> len <= Rounded(align) - PADDING)
      ensures iob.Null? ==>
        || Rounded(align) >= WORD
        || if len <= Rounded(align) - PADDING then InlineRefused(mem.heap.State(), len, Rounded(align), offset)
           else DetachedRefused(old(mem.heap.State()), mem.heap.State(), len, Rounded(align), offset)
    {
      hide Owned, Taken, MallocHeap.Valid, UserBlocks, Pow2, ValidAlign, Wrap, InlineRefused, DetachedRefused;
      var wanted := if align < PADDING then PADDING else align;
      var log2 := Fls(wanted - 1);
      if log2 >= 64 {
        WordIsPow2();
        Pow2Monotone(64, log2);
        return Null, false;
      }
      var a := Pow2(log2);
      RoundedAlign(log2);
      assert a == Rounded(align);
      if len <= a - PADDING {
        iob := AllocInline(len, a, offset);
        inline := true;
      } else {
        iob := AllocDetached(len, a, offset, junk);
        inline := false;
      }
    }

    static lemma RoundedAlign(k: nat)
      requires k < 64
      ensures Pow2(k) < WORD && ValidAlign(Pow2(k))
    {
      hide Pow2;
      WordIsPow2();
      Pow2Monotone(k, 64);
    }

    static lemma HalfTheWord(a: nat)
      requires ValidAlign(a) && a < WORD
      ensures a <= WORD - MIN_BLOCK
    {
      hide Pow2;
      if a > 0 {
        var k: nat :| k < 64 && a == Pow2(k);
        WordIsPow2();
        Pow2Monotone(k, 64);
      }
    }

    method AllocInline(len: nat, a: nat, offset: nat) returns (iob: Iobuf)
      requires mem.Valid() && len < WORD && offset < WORD
      requires PADDING <= a < WORD && ValidAlign(a) && len <= a - PADDING
      modifies mem.heap
      ensures mem.Valid()
      ensures iob.Null? ==> UserBlocks(mem.heap.tiles) == old(UserBlocks(mem.heap.tiles))
      ensures iob.Iobuf? ==>
        && Owned(iob, true) && Taken(iob, true)
        && iob.head == iob.data == iob.tail && len <= iob.end - iob.head && iob.end - iob.head + IOB_SIZE <= a
        && (iob.head + mem.heap.physOffset) % a == offset % a && (iob.self + mem.heap.physOffset) % IOB_ALIGN == 0
      ensures iob.Null? ==> InlineRefused(mem.heap.State(), len, a, offset)
    {
      hide Padded, Allocated, NoRoom;
      HalfTheWord(a);
      var n := PadLength(len, offset);
      var block := mem.TakePhys(n + IOB_SIZE, a, offset);
      if block == 0 {
        return Null;
      }
      DescriptorAligned(block, n, offset, a);
      iob := Iobuf(block + n, block, block, block, block + n);
    }

    method AllocDetached(len: nat, a: nat, offset: nat, junk: nat -> bv8) returns (iob: Iobuf)
      requires mem.Valid() && 0 < len < WORD && offset < WORD
      requires PADDING <= a && ValidAlign(a)
      modifies mem, mem.heap
      ensures mem.Valid()
      ensures iob.Null? ==> UserBlocks(mem.heap.tiles) == old(UserBlocks(mem.heap.tiles)) && mem.data == old(mem.data)
      ensures iob.Iobuf? ==>
        && Owned(iob, false) && Taken(iob, false)
        && iob.head == iob.data == iob.tail && iob.end - iob.head == len
        && (iob.head + mem.heap.physOffset) % a == offset % a
      ensures iob.Null? ==> DetachedRefused(old(mem.heap.State()), mem.heap.State(), len, a, offset)
    {
      hide Allocated, NoRoom, Refused, Obtained, FreeMemblock, Inv, ValidAlign, RoundUp;
      var block := mem.TakePhys(len, a, offset);
      if block == 0 {
        return Null;
      }
      ghost var x := Tile(block, RoundUp(len), Used);
      var self := mem.Malloc(IOB_SIZE, junk);
      if self == 0 {
        GivePhys(block, len);
        return Null;
      }
      DescriptorApart(block, len, self);
      iob := Iobuf(self, block, block, block, block + len);
    }

    /** The descriptor is a block of its own. */
    lemma DescriptorApart(block: int, len: nat, self: int)
      requires mem.Valid() && self in mem.data && Tile(block, RoundUp(len), Used) in UserBlocks(mem.heap.tiles)
      requires Tile(block, RoundUp(len), Used) !in mem.BlockOf(self)
      ensures self != block + HEADER
    {
      if self == block + HEADER {
        assert mem.Live(self);
        mem.SameStart(mem.heap.tiles, Tile(block, RoundUp(len), Used),
                      Tile(self - HEADER, RoundUp(mem.header[self - HEADER]), Used));
      }
    }

    /** The I/O buffer is aligned on its own size, rounded up to a power of two. */
    method AllocIob(len: nat, junk: nat -> bv8) returns (iob: Iobuf, ghost inline: bool)
      requires mem.Valid() && len < WORD
      modifies mem, mem.heap
      ensures mem.Valid()
      ensures iob.Null? ==> UserBlocks(mem.heap.tiles) == old(UserBlocks(mem.heap.tiles)) && mem.data == old(mem.data)
      ensures iob.Iobuf? ==>
        && Owned(iob, inline) && Taken(iob, inline) && iob.end - iob.head >= len && iob.end - iob.head >= IOB_ZLEN
        && (iob.head + mem.heap.physOffset) % Rounded(if len < IOB_ZLEN then IOB_ZLEN else len) == 0
      ensures iob.Null? ==>
        var n := if len < IOB_ZLEN then IOB_ZLEN else len;
        || Rounded(n) >= WORD
        || if n <= Rounded(n) - PADDING then InlineRefused(mem.heap.State(), n, Rounded(n), 0)
           else DetachedRefused(old(mem.heap.State()), mem.heap.State(), n, Rounded(n), 0)
    {
      hide Owned, Taken, MallocHeap.Valid, UserBlocks, InlineRefused, DetachedRefused;
      var n := if len < IOB_ZLEN then IOB_ZLEN else len;
      iob, inline := AllocIobRaw(n, n, 0, junk);
    }

    /** Free whatever was allocated: both blocks of a detached buffer, the one block of an inline one. */
    method FreeIob(iob: Iobuf, ghost inline: bool)
      requires mem.Valid() && (iob.Iobuf? ==> Owned(iob, inline))
      modifies mem, mem.heap
      ensures mem.Valid()
      ensures iob.Null? ==> UserBlocks(mem.heap.tiles) == old(UserBlocks(mem.heap.tiles))
      ensures iob.Iobuf? ==>
        UserBlocks(mem.heap.tiles) == old(UserBlocks(mem.heap.tiles)) - old(BlocksOf(iob, inline))
      ensures mem.data == old(mem.data) - if iob.Iobuf? && !inline then {iob.self} else {}
      ensures mem.heap.State() == if iob.Null? then old(mem.heap.State())
                                  else if inline then FreeMemblock(old(mem.heap.State()), iob.head, iob.end - iob.head + IOB_SIZE)
                                  else Disposed(FreeMemblock(old(mem.heap.State()), iob.head, iob.end - iob.head),
                                                old(mem.header), iob.self)
    {
      hide FreeMemblock, Inv;
      if iob.Null? {
        return;
      }
      BranchIsDetermined(iob, inline);
      var len := iob.end - iob.head;
      if iob.end == iob.self {
        GivePhys(iob.head, len + IOB_SIZE);
      } else {
        GivePhys(iob.head, len);
        mem.Free(iob.self);
      }
    }
  }
}
