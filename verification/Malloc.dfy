/** malloc.c: the allocator itself, changing its free list and counters in place. */
module Malloc {
  import opened Arith
  import opened Bits
  import opened HeapModel
  import opened HeapTilings
  import opened HeapSafety
  import opened HeapRuns
  import HeapTheorems

  /** Returned for requests of no bytes; never the address of a block. */
  const NOWHERE := WORD - 1

  /** sizeof ( size_t ), the header malloc() puts before the memory it returns. */
  const HEADER := 8

  class Allocator {
    var free: seq<Block>
    var freemem: nat
    var usedmem: nat
    var maxusedmem: nat
    var cache: seq<Block>
    ghost var tiles: seq<Tile>
    const physOffset: int

    ghost function State(): Heap
      reads this
    {
      Heap(free, freemem, usedmem, maxusedmem, cache, tiles, physOffset)
    }

    ghost predicate Valid()
      reads this
    {
      Inv(State())
    }

    constructor (physOffset: int)
      ensures State() == Initial(physOffset) && Valid()
    {
      this.physOffset := physOffset;
      free, freemem, usedmem, maxusedmem, cache := [], 0, 0, 0, [];
      tiles := [Tile(0, LIMIT, Outside)];
      new;
      assert State() == Initial(physOffset);
    }

    /** The integrity check looks at neighbours only, and yet decides the order of all pairs. */
    method CheckBlocks() returns (ok: bool)
      ensures ok <==> WellFormed(free)
    {
      var i := 0;
      while i < |free|
        invariant 0 <= i <= |free|
        invariant WellFormed(free[..i])
      {
        if free[i].size < MIN_BLOCK || (i > 0 && free[i].addr <= free[i - 1].End()) {
          return false;
        }
        assert forall j :: 0 <= j < i - 1 ==> free[..i][j].End() < free[..i][i - 1].addr;
        i := i + 1;
      }
      assert free[..i] == free;
      ok := true;
    }

    /** In every valid state the integrity check passes. */
    lemma AlwaysWellFormed()
      requires Valid()
      ensures WellFormed(free)
    {
      FreeListWellFormed(tiles, 0, LIMIT);
    }

    /** Free a held block. The shape of the heap is all it needs: mpopulate calls it on memory that the
        counters do not know yet. */
    method FreeMemblock(ptr: int, size: nat)
      requires Shape(State()) && size < WORD
      requires ptr != 0 ==> CanFree(State(), ptr, size) && forall c <- cache :: c.addr != ptr
      modifies this
      ensures State() == HeapModel.FreeMemblock(old(State()), ptr, size)
      ensures Shape(State()) && (old(Valid()) ==> Valid())
    {
      if ptr == 0 {
        return;
      }
      FreeKeepsShape(State(), ptr, size);
      if Valid() { FreeKeeps(State(), ptr, size); }
      FreedBlocks(State(), ptr, size);
      Unallocate(ptr, size);
    }

    /** What the list walk needs to know about the blocks involved. */
    lemma FreedBlocks(h: Heap, ptr: int, size: nat)
      requires Shape(h) && CanFree(h, ptr, size)
      ensures RoundUp(size) > 0 && forall x <- h.free :: x.size > 0
    {
      FreeListInside(h.tiles, 0, LIMIT);
      HeldBounds(h.tiles, TileAt(h.tiles, ptr));
    }

    method Unallocate(ptr: int, size: nat)
      requires ptr != 0 && size < WORD && RoundUp(size) > 0 && forall x <- free :: x.size > 0
      modifies this
      ensures State() == HeapModel.FreeMemblock(old(State()), ptr, size)
    {
      hide InsertMerge, RoundUp, Release;
      var actualSize := RoundedSize(size);
      free := InsertAndMerge(free, Block(ptr, actualSize));
      freemem := Wrap(freemem + actualSize);
      usedmem := Wrap(usedmem - actualSize);
      ghost var t := TileAt(tiles, ptr);
      tiles := if t < |tiles| then Release(tiles, t) else tiles;
    }

    /** The size actually taken, computed with masks. */
    static method RoundedSize(size: nat) returns (actualSize: nat)
      requires size < WORD
      ensures actualSize == RoundUp(size)
    {
      MaskDown(Wrap(size + MIN_BLOCK - 1));
      actualSize := And(Wrap(size + MIN_BLOCK - 1), WORD - MIN_BLOCK);
    }

    /** The walk along the list: skip blocks before, absorb one that ends here, insert, absorb one
        that starts where the result ends. */
    static method InsertAndMerge(blocks: seq<Block>, b: Block) returns (list: seq<Block>)
      requires b.size > 0 && forall x <- blocks :: x.size > 0
      ensures list == InsertMerge(blocks, b)
    {
      list := blocks;
      var freeing := b;
      var i, gapAfter := 0, -1;
      while i < |list|
        invariant 0 <= i <= |list| && freeing.size > 0 && gapAfter < 0
        invariant forall x <- list :: x.size > 0
        invariant InsertMerge(blocks, b) == list[..i] + InsertMerge(list[i..], freeing)
        decreases |list| - i
      {
        var block := list[i];
        var gapBefore := freeing.addr - block.End();
        gapAfter := block.addr - freeing.End();
        if gapBefore == 0 {
          MergeStep(list, i, freeing);
          freeing := Block(block.addr, block.size + freeing.size);
          list := list[..i] + list[i + 1..];
        } else if gapAfter < 0 {
          SkipStep(list, i, freeing);
          i := i + 1;
        }
        if gapAfter >= 0 {
          break;
        }
      }
      StopStep(list, i, freeing, gapAfter);
      if gapAfter == 0 {
        list := list[..i] + [Block(freeing.addr, freeing.size + list[i].size)] + list[i + 1..];
      } else {
        list := list[..i] + [freeing] + list[i..];
      }
    }

    static lemma MergeStep(list: seq<Block>, i: nat, b: Block)
      requires i < |list| && list[i].End() == b.addr
      ensures var rest := list[..i] + list[i + 1..];
        && rest[..i] == list[..i]
        && InsertMerge(list[i..], b) == InsertMerge(rest[i..], Block(list[i].addr, list[i].size + b.size))
    {
      var rest := list[..i] + list[i + 1..];
      assert rest[i..] == list[i..][1..];
    }

    static lemma SkipStep(list: seq<Block>, i: nat, b: Block)
      requires i < |list| && list[i].End() != b.addr && list[i].addr < b.End()
      ensures list[..i] + InsertMerge(list[i..], b) == list[..i + 1] + InsertMerge(list[i + 1..], b)
    {
      hide InsertMerge;
      SkipHead(list[i..], b);
      assert list[i..][1..] == list[i + 1..];
      assert list[..i + 1] == list[..i] + [list[i]];
    }

    static lemma SkipHead(rest: seq<Block>, b: Block)
      requires rest != [] && rest[0].End() != b.addr && rest[0].addr < b.End()
      ensures InsertMerge(rest, b) == [rest[0]] + InsertMerge(rest[1..], b)
    {
    }

    static lemma StopStep(list: seq<Block>, i: nat, b: Block, gapAfter: int)
      requires i <= |list| && b.size > 0
      requires gapAfter < 0 ==> i == |list|
      requires gapAfter >= 0 ==> i < |list| && list[i].size > 0 && gapAfter == list[i].addr - b.End()
      ensures InsertMerge(list[i..], b)
           == if gapAfter == 0 then [Block(b.addr, b.size + list[i].size)] + list[i + 1..] else [b] + list[i..]
    {
      if i < |list| { assert list[i..][1..] == list[i + 1..]; }
    }

    /** Discard one cached item, if there is one. */
    method DiscardCache() returns (discarded: nat)
      requires Valid()
      modifies this
      ensures Valid() && |cache| <= |old(cache)|
      ensures discarded != 0 ==> |cache| < |old(cache)|
      ensures discarded == 0 <==> old(cache) == []
      ensures discarded == 0 ==> State() == old(State())
      ensures discarded != 0 ==> old(cache)[0].size >= 0 && State() == Discard(old(State()))
    {
      if cache == [] {
        return 0;
      }
      var item := cache[0];
      CanDiscard(State());
      CacheTail(State());
      cache := cache[1..];
      HeldBounds(tiles, TileAt(tiles, item.addr));
      FreeMemblock(item.addr, item.size);
      return 1;
    }

    method DiscardAllCache()
      requires Valid()
      modifies this
      ensures Valid() && cache == [] && UserBlocks(tiles) == old(UserBlocks(tiles))
    {
      var discarded := 1;
      while discarded != 0
        invariant Valid() && UserBlocks(tiles) == old(UserBlocks(tiles))
        invariant discarded == 0 ==> cache == []
        decreases |cache|, discarded
      {
        if cache != [] { DiscardKeeps(State()); }
        discarded := DiscardCache();
      }
    }

    method AllocMemblock(size: nat, align: nat, offset: nat) returns (ptr: int)
      requires Valid() && size < WORD && ValidAlign(align) && offset < WORD
      requires forall c <- cache :: c.size >= 0
      modifies this
      ensures Valid() && (State(), ptr) == HeapModel.AllocMemblock(old(State()), size, align, offset)
    {
      RoundUpMeaning(size);
      var actualSize := RoundedSize(size);
      if actualSize == 0 {
        return 0;
      }
      ptr := Search(actualSize, align, offset);
    }

    /** Search, and discard cached items for as long as nothing fits. */
    method Search(actualSize: nat, align: nat, offset: nat) returns (ptr: int)
      requires Valid() && actualSize > 0 && actualSize % MIN_BLOCK == 0 && ValidAlign(align) && offset < WORD
      requires forall c <- cache :: c.size >= 0
      modifies this
      ensures Valid() && (State(), ptr) == old(Allocate(State(), Request(actualSize, Granule(align), offset)))
    {
      ghost var q := Request(actualSize, Granule(align), offset);
      ghost var result := Allocate(State(), q);
      ptr := 0;
      var done := false;
      while !done
        invariant Valid() && forall c <- cache :: c.size >= 0
        invariant done ==> (State(), ptr) == result
        invariant !done ==> Allocate(State(), q) == result
        decreases !done, |cache|
      {
        ptr, done := TryAllocate(actualSize, align, offset);
      }
    }

    /** One search of the list; if nothing fits, one discard. */
    method TryAllocate(actualSize: nat, align: nat, offset: nat) returns (ptr: int, done: bool)
      requires Valid() && actualSize > 0 && actualSize % MIN_BLOCK == 0 && ValidAlign(align) && offset < WORD
      requires forall c <- cache :: c.size >= 0
      modifies this
      ensures Valid() && forall c <- cache :: c.size >= 0
      ensures var q := Request(actualSize, Granule(align), offset);
        if done then (State(), ptr) == old(Allocate(State(), q))
        else |cache| < old(|cache|) && Allocate(State(), q) == old(Allocate(State(), q))
    {
      ghost var q := Request(actualSize, Granule(align), offset);
      AllocateKeeps(State(), q);
      var i, preSize := FindBlock(actualSize, align, offset);
      if i < |free| {
        ptr, done := free[i].addr + preSize, true;
        Split(i, preSize, actualSize);
        CacheSizes(State());
      } else {
        done := DiscardOne(q);
        ptr := 0;
      }
    }

    /** Nothing fits: discard, and say whether there was nothing left to discard. */
    method DiscardOne(ghost q: Request) returns (exhausted: bool)
      requires Valid() && q.granule > 0 && (forall c <- cache :: c.size >= 0)
      requires FirstFit(free, physOffset, q) == |free|
      modifies this
      ensures Valid() && forall c <- cache :: c.size >= 0
      ensures exhausted ==> (State(), 0) == old(Allocate(State(), q))
      ensures !exhausted ==> |cache| < old(|cache|) && Allocate(State(), q) == old(Allocate(State(), q))
    {
      var discarded := DiscardCache();
      CacheSizes(State());
      exhausted := discarded == 0;
    }

    /** Bytes to skip in a block, and whether the rest is large enough. */
    method TryBlock(b: Block, actualSize: nat, align: nat, offset: nat) returns (preSize: nat, fits: bool)
      requires ValidAlign(align) && offset < WORD
      ensures var q := Request(actualSize, Granule(align), offset);
        preSize == Pre(physOffset, q, b) && (fits <==> Fits(physOffset, q, b))
    {
      MaskIsPre(b, Request(actualSize, Granule(align), offset), align);
      preSize := And(Wrap(offset - Wrap(b.addr + physOffset)), AlignMask(align));
      fits := b.size >= preSize && b.size - preSize >= actualSize;
    }

    /** The first block with enough space, and the bytes to skip in it. */
    method FindBlock(actualSize: nat, align: nat, offset: nat) returns (i: nat, preSize: nat)
      requires ValidAlign(align) && offset < WORD
      ensures var q := Request(actualSize, Granule(align), offset);
        && i == FirstFit(free, physOffset, q)
        && (i < |free| ==> preSize == Pre(physOffset, q, free[i]))
    {
      ghost var q := Request(actualSize, Granule(align), offset);
      i, preSize := 0, 0;
      while i < |free|
        invariant 0 <= i <= |free|
        invariant forall j :: 0 <= j < i ==> !Fits(physOffset, q, free[j])
      {
        var fits;
        preSize, fits := TryBlock(free[i], actualSize, align, offset);
        if fits {
          break;
        }
        i := i + 1;
      }
      FirstFitIs(free, q, i);
    }

    /** malloc_phys_offset(): what a caller may rely on. The new block overlaps nobody's and is placed as
        asked; NULL leaves every caller's block in place and means that nothing would do. */
    method MallocPhys(size: nat, align: nat, offset: nat) returns (ptr: int)
      requires Valid() && size < WORD && ValidAlign(align) && offset < WORD
      modifies this
      ensures Valid()
      ensures (State(), ptr) == Allocated(old(State()), size, align, offset)
      ensures ptr == 0 ==> size == 0 || size > WORD - MIN_BLOCK || NoRoom(State(), size, align, offset)
      ensures ptr == 0 ==> UserBlocks(tiles) == old(UserBlocks(tiles))
      ensures ptr != 0 ==>
        var x := Tile(ptr, RoundUp(size), Used);
        && ptr > 0 && size <= RoundUp(size) && x !in old(UserBlocks(tiles))
        && UserBlocks(tiles) == old(UserBlocks(tiles)) + {x}
        && (ptr + physOffset) % Granule(align) == offset % Granule(align)
    {
      hide Inv, UserBlocks, Granule, HeapModel.AllocMemblock, RoundUp, NoRoom;
      NewBlock(State(), size, align, offset);
      RefusedOnly(State(), size, align, offset);
      ptr := AllocMemblock(size, align, offset);
    }

    /** What an allocation does to the caller's blocks. */
    static lemma NewBlock(h: Heap, size: nat, align: nat, offset: nat)
      requires Inv(h) && size < WORD && ValidAlign(align)
      ensures forall c <- h.cache :: c.size >= 0
      ensures var (g, ptr) := HeapModel.AllocMemblock(h, size, align, offset);
        var x := Tile(ptr, RoundUp(size), Used);
        && (ptr == 0 ==> UserBlocks(g.tiles) == UserBlocks(h.tiles))
        && (ptr != 0 ==>
              && ptr > 0 && size <= RoundUp(size) && x !in UserBlocks(h.tiles)
              && UserBlocks(g.tiles) == UserBlocks(h.tiles) + {x}
              && (ptr + h.physOffset) % Granule(align) == offset % Granule(align))
    {
      hide Inv, UserBlocks, Granule, HeapModel.AllocMemblock, RoundUp, ValidAlign;
      AllocMemblockKeeps(h, size, align, offset);
      RoundUpMeaning(size);
    }

    /** free_phys(): takes exactly the caller's block back. */
    method FreePhys(ptr: int, size: nat)
      requires Valid() && size < WORD && Tile(ptr, RoundUp(size), Used) in UserBlocks(tiles)
      modifies this
      ensures Valid() && UserBlocks(tiles) == old(UserBlocks(tiles)) - {Tile(ptr, RoundUp(size), Used)}
      ensures State() == HeapModel.FreeMemblock(old(State()), ptr, size)
    {
      FindTile(tiles, Tile(ptr, RoundUp(size), Used));
      HeapTheorems.NotCached(State(), ptr, size);
      FreeKeepsShape(State(), ptr, size);
      UserFromHeld(tiles);
      FreeMemblock(ptr, size);
      UserFromHeld(tiles);
    }

    /** The masked distance, taken between wrapped addresses, is the distance to skip. */
    lemma MaskIsPre(b: Block, q: Request, align: nat)
      requires ValidAlign(align) && q.granule == Granule(align) && 0 <= q.offset
      ensures And(Wrap(q.offset - Wrap(b.addr + physOffset)), AlignMask(align)) == Pre(physOffset, q, b)
    {
      var x, y := q.offset - Wrap(b.addr + physOffset), q.offset - (b.addr + physOffset);
      MaskIsGranule(x, align);
      MaskIsGranule(y, align);
      var k := (b.addr + physOffset) / WORD;
      assert x == y + k * WORD;
      ModShift(y, k, WORD);
    }

    lemma FirstFitIs(blocks: seq<Block>, q: Request, i: nat)
      requires q.granule > 0 && i <= |blocks|
      requires forall j :: 0 <= j < i ==> !Fits(physOffset, q, blocks[j])
      requires i < |blocks| ==> Fits(physOffset, q, blocks[i])
      ensures FirstFit(blocks, physOffset, q) == i
    {
    }

    /** Split block i: link the remainder after it, shrink it to the part before, and unlink that if
        it is too small. */
    static method SplitBlock(blocks: seq<Block>, i: nat, preSize: nat, actualSize: nat) returns (list: seq<Block>)
      requires i < |blocks| && preSize + actualSize <= blocks[i].size
      ensures var b := blocks[i];
        list == blocks[..i] + Keep(b.addr, preSize)
                + Keep(b.addr + preSize + actualSize, b.size - preSize - actualSize) + blocks[i + 1..]
    {
      var pre, postSize := blocks[i], blocks[i].size - preSize - actualSize;
      var post := Keep(pre.addr + preSize + actualSize, postSize);
      list := LinkAfter(blocks, i, post);
      list := ShrinkOrUnlink(list, i, preSize);
      assert list == blocks[..i] + Keep(pre.addr, preSize) + (post + blocks[i + 1..]);
    }

    static method LinkAfter(blocks: seq<Block>, i: nat, post: seq<Block>) returns (list: seq<Block>)
      requires i < |blocks|
      ensures |list| > i && list[..i] == blocks[..i] && list[i] == blocks[i] && list[i + 1..] == post + blocks[i + 1..]
    {
      list := blocks[..i + 1] + post + blocks[i + 1..];
    }

    static method ShrinkOrUnlink(blocks: seq<Block>, i: nat, preSize: nat) returns (list: seq<Block>)
      requires i < |blocks|
      ensures list == blocks[..i] + Keep(blocks[i].addr, preSize) + blocks[i + 1..]
    {
      list := blocks[i := Block(blocks[i].addr, preSize)];
      if preSize < MIN_BLOCK {
        list := list[..i] + list[i + 1..];
      }
    }

    method Split(i: nat, preSize: nat, actualSize: nat)
      requires i < |free| && preSize + actualSize <= free[i].size
      modifies this
      ensures State() == Carve(old(State()), i, preSize, actualSize)
    {
      ghost var carved := Carve(State(), i, preSize, actualSize);
      free := SplitBlock(free, i, preSize, actualSize);
      assert free == carved.free;
      freemem := Wrap(freemem - actualSize);
      usedmem := Wrap(usedmem + actualSize);
      if usedmem > maxusedmem {
        maxusedmem := usedmem;
      }
      tiles := carved.tiles;
    }

    method Mpopulate(start: int, len: nat)
      requires Valid() && len < WORD && CanHandOver(State(), start, RoundDown(len))
      modifies this
      ensures Valid() && State() == Populate(old(State()), start, len)
    {
      hide Inv, And, CanHandOver, HandOver;
      MaskDown(len);
      var n := And(len, WORD - MIN_BLOCK);
      HandOverKeeps(State(), start, n);
      PopulateWhole(start, n);
    }

    /** Label the memory held, free it, and correct the used count. */
    method PopulateWhole(start: int, n: nat)
      requires Valid() && n < WORD && CanHandOver(State(), start, n)
      modifies this
      ensures State() == HandOver(old(State()), start, n)
    {
      hide Inv, Shape, CanFree, HandOver, HeapModel.FreeMemblock;
      ghost var h := State();
      ghost var given := Given(tiles, TileOf(tiles, start), start, n);
      HandOverReady(h, start, n, h.(tiles := given));
      tiles := given;
      FreeMemblock(start, n);
      usedmem := Wrap(usedmem + n);
    }
  }

  /** The first bytes of `kept` that fit, and whatever the fresh memory holds after them. */
  function Copied(kept: seq<bv8>, newSize: nat, junk: nat -> bv8): (bytes: seq<bv8>)
    ensures |bytes| == newSize
    ensures forall i :: 0 <= i < newSize ==> bytes[i] == if i < |kept| then kept[i] else junk(i)
  {
    seq(newSize, i requires 0 <= i => if i < |kept| then kept[i] else junk(i))
  }

  /** What asking malloc for memory does to the heap, and the pointer it gives. */
  ghost function Obtained(h: Heap, size: nat): (Heap, int) {
    if size == 0 then (h, NOWHERE)
    else if size + HEADER >= WORD then (h, 0)
    else
      var (g, block) := Allocated(h, size + HEADER, 1, 0);
      (g, if block == 0 then 0 else block + HEADER)
  }

  /** What giving a pointer up does to the heap. */
  ghost function Disposed(h: Heap, header: map<int, nat>, p: int): Heap {
    if p - HEADER in header then FreeMemblock(h, p - HEADER, header[p - HEADER]) else h
  }

  /** malloc had to refuse: the size overflows, or there is no room. */
  ghost predicate Refused(h: Heap, size: nat) {
    size + HEADER > WORD - MIN_BLOCK || NoRoom(h, size + HEADER, 1, 0)
  }

  /** malloc(), realloc() and free(): blocks that carry their own size in a header. */
  class MallocHeap {
    const heap: Allocator
    /** The size words at the start of blocks, and the bytes callers see after them. */
    var header: map<int, nat>
    var data: map<int, seq<bv8>>

    constructor (heap: Allocator)
      requires heap.Valid()
      ensures this.heap == heap && Valid() && data == map[]
    {
      this.heap := heap;
      header, data := map[], map[];
    }

    /** A pointer handed out by malloc: its header holds the size its block was allocated with. */
    ghost predicate Live(p: int)
      reads this, heap
    {
      && p in data && p - HEADER in header && header[p - HEADER] == |data[p]| + HEADER < WORD
      && Tile(p - HEADER, RoundUp(header[p - HEADER]), Used) in UserBlocks(heap.tiles)
    }

    ghost predicate Valid()
      reads this, heap
    {
      && heap.Valid()
      && (forall p <- data :: Live(p))
      && (forall b <- header :: b + HEADER in data)
    }

    /** The bytes behind a pointer; none behind NULL or NOWHERE. */
    ghost function Behind(p: int): seq<bv8>
      reads this
    {
      if p in data then data[p] else []
    }

    /** The block a pointer belongs to. */
    ghost function BlockOf(p: int): set<Tile>
      reads this
    {
      if p in data && p - HEADER in header then {Tile(p - HEADER, RoundUp(header[p - HEADER]), Used)} else {}
    }

    lemma LiveBounds(p: int)
      requires Valid() && p in data
      ensures p > HEADER && p < LIMIT + HEADER
    {
      assert Live(p);
      var x := Tile(p - HEADER, RoundUp(header[p - HEADER]), Used);
      FindTile(heap.tiles, x);
      HeldBounds(heap.tiles, TileAt(heap.tiles, x.addr));
      TileBounds(heap.tiles, TileAt(heap.tiles, x.addr), 0, LIMIT);
    }

    /** Allocate, copy what fits, free. On failure nothing is touched; otherwise the old pointer is gone
        and the new one, which no one else has, holds the same bytes up to the smaller size. */
    method Realloc(oldPtr: int, newSize: nat, junk: nat -> bv8) returns (newPtr: int)
      requires Valid() && newSize < WORD
      requires oldPtr == 0 || oldPtr == NOWHERE || oldPtr in data
      modifies this, heap
      ensures Valid()
      ensures newSize == 0 ==> newPtr == NOWHERE && data == old(data) - {oldPtr}
      ensures newSize > 0 && newPtr == 0 ==> data == old(data)
      ensures newSize > 0 && newPtr != 0 ==>
        newPtr != NOWHERE && newPtr !in old(data)
        && data == (old(data) - {oldPtr})[newPtr := Copied(old(Behind(oldPtr)), newSize, junk)]
      ensures UserBlocks(heap.tiles)
           == if newPtr == 0 then old(UserBlocks(heap.tiles))
              else old(UserBlocks(heap.tiles)) - old(BlockOf(oldPtr)) + BlockOf(newPtr)
      ensures newPtr != 0 ==> old(UserBlocks(heap.tiles)) !! BlockOf(newPtr)
      ensures newPtr == 0 ==> Refused(heap.State(), newSize)
      ensures var (h, p) := Obtained(old(heap.State()), newSize);
        newPtr == p && heap.State() == if p == 0 then h else Disposed(h, old(header), oldPtr)
    {
      hide Valid, Live, UserBlocks, Copied, Refused, Obtained, HeapModel.FreeMemblock;
      newPtr := NOWHERE;
      NothingObtained(heap.State());
      NullNotLive();
      if newSize > 0 {
        newPtr := Obtain(newSize, junk);
        if newPtr == 0 {
          return;
        }
        LiveBounds(newPtr);
      }
      if oldPtr != 0 && oldPtr != NOWHERE {
        if newSize > 0 {
          Copy(newPtr, oldPtr, newSize, junk);
        }
        Dispose(oldPtr);
      }
    }

    lemma NullNotLive()
      requires Valid()
      ensures 0 !in data && NOWHERE !in data && 0 - HEADER !in header && NOWHERE - HEADER !in header
    {
      hide Live;
      if 0 in data { LiveBounds(0); }
      if NOWHERE in data { LiveBounds(NOWHERE); }
    }

    /** Copy what fits from the old block to the fresh one. */
    method Copy(newPtr: int, oldPtr: int, newSize: nat, junk: nat -> bv8)
      requires Valid() && oldPtr in data && newPtr in data && data[newPtr] == Copied([], newSize, junk)
      modifies this
      ensures Valid() && header == old(header)
      ensures data == old(data)[newPtr := Copied(old(data)[oldPtr], newSize, junk)]
    {
      hide Live, UserBlocks;
      var n := if |data[oldPtr]| < newSize then |data[oldPtr]| else newSize;
      var bytes := data[oldPtr][..n] + data[newPtr][n..];
      assert bytes == Copied(data[oldPtr], newSize, junk);
      Write(newPtr, bytes);
    }

    method Write(p: int, bytes: seq<bv8>)
      requires Valid() && p in data && |bytes| == |data[p]|
      modifies this
      ensures Valid() && data == old(data)[p := bytes] && header == old(header)
    {
      data := data[p := bytes];
      assert forall q <- data :: old(Live(q)) ==> Live(q);
    }

    /** A block handed out by the allocator directly is not one of malloc's. */
    lemma NotMalloced(block: int, n: nat)
      requires Valid() && Tile(block, n, Used) in UserBlocks(heap.tiles)
      requires forall p <- data :: BlockOf(p) !! {Tile(block, n, Used)}
      ensures block + HEADER !in data
    {
      if block + HEADER in data {
        assert Live(block + HEADER);
        SameStart(heap.tiles, Tile(block, n, Used), Tile(block, RoundUp(header[block]), Used));
      }
    }

    /** Allocate a block from the heap itself, next to whatever malloc holds. */
    method TakePhys(size: nat, align: nat, offset: nat) returns (block: int)
      requires Valid() && size < WORD && ValidAlign(align) && offset < WORD
      modifies heap
      ensures Valid()
      ensures (heap.State(), block) == Allocated(old(heap.State()), size, align, offset)
      ensures block == 0 ==> size == 0 || size > WORD - MIN_BLOCK || NoRoom(heap.State(), size, align, offset)
      ensures block == 0 ==> UserBlocks(heap.tiles) == old(UserBlocks(heap.tiles))
      ensures block != 0 ==>
        && block > 0 && block + HEADER !in data
        && UserBlocks(heap.tiles) == old(UserBlocks(heap.tiles)) + {Tile(block, RoundUp(size), Used)}
        && Tile(block, RoundUp(size), Used) !in old(UserBlocks(heap.tiles))
        && (block + heap.physOffset) % Granule(align) == offset % Granule(align)
    {
      hide HeapModel.AllocMemblock, Inv, NoRoom, RoundUp, UserBlocks, Allocated, Granule, ValidAlign;
      block := heap.MallocPhys(size, align, offset);
      assert forall p <- data :: old(Live(p)) ==> Live(p);
      if block != 0 {
        NotMalloced(block, RoundUp(size));
      }
    }

    lemma Overflow(size: nat)
      requires size < WORD
      ensures var total := Wrap(size + HEADER);
        if size + HEADER >= WORD then total < size else total == size + HEADER
    {
    }

    /** Allocate a block with a header; its bytes are whatever was there. */
    method Obtain(size: nat, junk: nat -> bv8) returns (ptr: int)
      requires Valid() && 0 < size < WORD
      modifies this, heap
      ensures Valid()
      ensures (heap.State(), ptr) == Obtained(old(heap.State()), size)
      ensures ptr == 0 ==> Refused(heap.State(), size)
      ensures ptr == 0 ==> data == old(data) && header == old(header) && UserBlocks(heap.tiles) == old(UserBlocks(heap.tiles))
      ensures ptr != 0 ==>
        && ptr !in old(data) && data == old(data)[ptr := Copied([], size, junk)]
        && header == old(header)[ptr - HEADER := size + HEADER]
        && old(UserBlocks(heap.tiles)) !! BlockOf(ptr)
        && UserBlocks(heap.tiles) == old(UserBlocks(heap.tiles)) + BlockOf(ptr)
    {
      hide HeapModel.AllocMemblock, Inv, NoRoom, RoundUp, UserBlocks, Allocated, Live, Wrap, Copied;
      Overflow(size);
      var total := Wrap(size + HEADER);
      if total < size {
        return 0;
      }
      assert ValidAlign(1) by { assert Pow2(0) == 1; }
      var block := TakePhys(total, 1, 0);
      if block == 0 {
        return 0;
      }
      ptr := block + HEADER;
      Record(block, size, junk);
    }

    /** Write the size of a new block into its header. */
    method Record(block: int, size: nat, junk: nat -> bv8)
      requires Valid() && size + HEADER < WORD && block + HEADER !in data
      requires Tile(block, RoundUp(size + HEADER), Used) in UserBlocks(heap.tiles)
      modifies this
      ensures Valid() && data == old(data)[block + HEADER := Copied([], size, junk)]
      ensures header == old(header)[block := size + HEADER]
    {
      header := header[block := size + HEADER];
      data := data[block + HEADER := Copied([], size, junk)];
      assert forall p <- data :: p != block + HEADER && old(Live(p)) ==> Live(p);
    }

    lemma NothingObtained(h: Heap)
      ensures Obtained(h, 0) == (h, NOWHERE)
    {
    }

    lemma SameStart(ts: seq<Tile>, x: Tile, y: Tile)
      requires Tiling(ts) && x in ts && y in ts && x.addr == y.addr
      ensures x == y
    {
      if x != y { TilesDisjoint(ts, x, y); }
    }

    /** Free a block with the size its header records. */
    method Dispose(p: int)
      requires Valid() && p in data
      modifies this, heap
      ensures Valid() && data == old(data) - {p} && header == old(header) - {p - HEADER}
      ensures heap.State() == Disposed(old(heap.State()), old(header), p)
      ensures UserBlocks(heap.tiles) == old(UserBlocks(heap.tiles)) - old(BlockOf(p))
    {
      var block, total := p - HEADER, header[p - HEADER];
      heap.FreePhys(block, total);
      header := header - {block};
      data := data - {p};
    }

    method Malloc(size: nat, junk: nat -> bv8) returns (ptr: int)
      requires Valid() && size < WORD
      modifies this, heap
      ensures Valid()
      ensures size == 0 ==> ptr == NOWHERE && data == old(data)
      ensures size > 0 && ptr == 0 ==> data == old(data)
      ensures size > 0 && ptr != 0 ==> ptr !in old(data) && ptr in data && |data[ptr]| == size && data - {ptr} == old(data)
      ensures UserBlocks(heap.tiles) == old(UserBlocks(heap.tiles)) + if ptr == 0 then {} else BlockOf(ptr)
      ensures ptr != 0 ==> old(UserBlocks(heap.tiles)) !! BlockOf(ptr)
      ensures ptr == 0 ==> Refused(heap.State(), size)
      ensures (heap.State(), ptr) == Obtained(old(heap.State()), size)
    {
      hide Live, UserBlocks, Copied, Refused, Obtained, HeapModel.FreeMemblock;
      NullNotLive();
      ptr := Realloc(0, size, junk);
    }

    method Free(ptr: int)
      requires Valid() && (ptr == 0 || ptr == NOWHERE || ptr in data)
      modifies this, heap
      ensures Valid() && data == old(data) - {ptr}
      ensures UserBlocks(heap.tiles) == old(UserBlocks(heap.tiles)) - old(BlockOf(ptr))
      ensures heap.State() == Disposed(old(heap.State()), old(header), ptr)
    {
      hide Live, UserBlocks, Copied, Refused, HeapModel.FreeMemblock;
      NothingObtained(heap.State());
      var _ := Realloc(ptr, 0, _ => 0);
      NullNotLive();
    }
  }
}
