/** Allocation, runs of the allocator, and what holds after every run. */
module HeapRuns {
  import opened Arith
  import opened Bits
  import opened HeapModel
  import opened HeapTilings
  import opened HeapSafety

  /** The blocks that callers, rather than caches, hold. */
  ghost function UserBlocks(ts: seq<Tile>): set<Tile> {
    set x | x in ts && x.kind == Used
  }

  lemma UserFromHeld(ts: seq<Tile>)
    ensures UserBlocks(ts) == set x | x in Held(ts) && x.kind == Used
  {
  }

  //////////////////////////////////////////////////////////////////////////////
  // Discarding and allocating
  //////////////////////////////////////////////////////////////////////////////

  lemma {:induction false} FindTile(ts: seq<Tile>, x: Tile)
    requires Tiling(ts) && x in ts
    ensures TileAt(ts, x.addr) < |ts| && ts[TileAt(ts, x.addr)] == x
  {
    var k :| 0 <= k < |ts| && ts[k] == x;
    TileAtIndex(ts, k, 0, LIMIT);
  }

  /** Every cached item can be discarded. */
  lemma {:induction false} CanDiscard(h: Heap)
    requires Shape(h) && h.cache != []
    ensures h.cache[0].size > 0 && CanFree(h, h.cache[0].addr, h.cache[0].size)
    ensures h.tiles[TileAt(h.tiles, h.cache[0].addr)] == Tile(h.cache[0].addr, h.cache[0].size, Cached)
  {
    var c := h.cache[0];
    var x := Tile(c.addr, c.size, Cached);
    assert x in h.tiles;
    FindTile(h.tiles, x);
    HeldBounds(h.tiles, TileAt(h.tiles, x.addr));
    assert RoundUp(c.size) == c.size;
  }

  lemma {:induction false} CacheSizes(h: Heap)
    requires Shape(h)
    ensures forall c <- h.cache :: c.size >= 0
  {
    forall c | c in h.cache
      ensures c.size >= 0
    {
      var x := Tile(c.addr, c.size, Cached);
      var i :| 0 <= i < |h.cache| && h.cache[i] == c;
      FindTile(h.tiles, x);
      HeldBounds(h.tiles, TileAt(h.tiles, x.addr));
    }
  }

  lemma CacheTail(h: Heap)
    requires Shape(h) && h.cache != []
    ensures Shape(h.(cache := h.cache[1..]))
    ensures forall c <- h.cache[1..] :: c.addr != h.cache[0].addr
  {
  }

  /** Discarding keeps the invariant, uses up one cached item, and takes nothing from a caller. */
  lemma {:induction false} DiscardKeeps(h: Heap)
    requires Inv(h) && h.cache != []
    ensures h.cache[0].size >= 0
    ensures var g := Discard(h);
      && Inv(g) && g.cache == h.cache[1..] && g.physOffset == h.physOffset
      && UserBlocks(g.tiles) == UserBlocks(h.tiles)
      && g.freemem + g.usedmem == h.freemem + h.usedmem
  {
    var c, h' := h.cache[0], h.(cache := h.cache[1..]);
    CanDiscard(h);
    CacheTail(h);
    FreeKeepsShape(h', c.addr, c.size);
    FreeCounters(h', c.addr, c.size);
    UserFromHeld(h.tiles);
    UserFromHeld(Discard(h).tiles);
  }

  ghost predicate AllocOk(h: Heap, q: Request, g: Heap, ptr: int)
    requires q.granule > 0
  {
    && Inv(g) && g.physOffset == h.physOffset
    && g.freemem + g.usedmem == h.freemem + h.usedmem
    && if ptr == 0 then
         && UserBlocks(g.tiles) == UserBlocks(h.tiles)
         && g.cache == [] && (forall b <- g.free :: !Fits(h.physOffset, q, b))
       else
         && ptr > 0 && Aligned(h.physOffset, q, ptr)
         && Tile(ptr, q.size, Used) !in UserBlocks(h.tiles)
         && UserBlocks(g.tiles) == UserBlocks(h.tiles) + {Tile(ptr, q.size, Used)}
  }

  /** Distinct tiles of a tiling share no address. */
  lemma {:induction false} TilesDisjoint(ts: seq<Tile>, x: Tile, y: Tile)
    requires Tiling(ts) && x in ts && y in ts && x != y
    ensures x.End() <= y.addr || y.End() <= x.addr
    ensures x.size > 0 && y.size > 0
  {
    var i :| 0 <= i < |ts| && ts[i] == x;
    var j :| 0 <= j < |ts| && ts[j] == y;
    TileBounds(ts, i, 0, LIMIT);
    TileBounds(ts, j, 0, LIMIT);
    if i < j { Ordered(ts, i, j, 0, LIMIT); } else { Ordered(ts, j, i, 0, LIMIT); }
  }

  lemma {:induction false} CarvedWasFree(h: Heap, i: nat, pre: nat, n: nat)
    requires Tiling(h.tiles) && h.free == FreeList(h.tiles)
    requires n > 0 && i < |h.free| && pre + n <= h.free[i].size
    ensures Tile(h.free[i].addr + pre, n, Used) !in h.tiles
  {
    var b := h.free[i];
    var x := Tile(b.addr + pre, n, Used);
    LocateFree(h.tiles, i);
    var y := h.tiles[TileAt(h.tiles, b.addr)];
    if x in h.tiles {
      TilesDisjoint(h.tiles, x, y);
    }
  }

  lemma {:induction false} CarveOk(h: Heap, q: Request, i: nat, pre: nat)
    requires Inv(h) && q.granule > 0 && q.size > 0 && q.size % MIN_BLOCK == 0
    requires i < |h.free| && pre + q.size <= h.free[i].size && Aligned(h.physOffset, q, h.free[i].addr + pre)
    ensures AllocOk(h, q, Carve(h, i, pre, q.size), h.free[i].addr + pre)
  {
    CarveKeeps(h, i, pre, q.size);
    CarvedWasFree(h, i, pre, q.size);
    UserPlus(h.tiles, Carve(h, i, pre, q.size).tiles, Tile(h.free[i].addr + pre, q.size, Used));
  }

  lemma UserPlus(ts: seq<Tile>, us: seq<Tile>, x: Tile)
    requires Held(us) == Held(ts) + {x} && x.kind == Used
    ensures UserBlocks(us) == UserBlocks(ts) + {x}
  {
    UserFromHeld(ts);
    UserFromHeld(us);
  }

  /** Allocation keeps the invariant, leaves every caller's block alone, returns an aligned block, and
      fails only when, with every cached item discarded, no free block can hold the request. */
  lemma {:induction false} AllocateKeeps(h: Heap, q: Request)
    requires Inv(h) && q.granule > 0 && q.size > 0 && q.size % MIN_BLOCK == 0
    ensures forall c <- h.cache :: c.size >= 0
    ensures AllocOk(h, q, Allocate(h, q).0, Allocate(h, q).1)
    decreases |h.cache|
  {
    hide AllocOk, Carve, Discard, Shape, UserBlocks;
    CacheSizes(h);
    var i := FirstFit(h.free, h.physOffset, q);
    if i < |h.free| {
      FirstFitOk(h, q, i);
    } else if h.cache != [] {
      DiscardKeeps(h);
      AllocateKeeps(Discard(h), q);
      AllocAfterDiscard(h, Discard(h), q, Allocate(h, q).0, Allocate(h, q).1);
    } else {
      NothingFits(h, q);
    }
  }

  lemma FirstFitOk(h: Heap, q: Request, i: nat)
    requires Inv(h) && q.granule > 0 && q.size > 0 && q.size % MIN_BLOCK == 0
    requires i == FirstFit(h.free, h.physOffset, q) < |h.free|
    ensures var pre := Pre(h.physOffset, q, h.free[i]);
      pre + q.size <= h.free[i].size && AllocOk(h, q, Carve(h, i, pre, q.size), h.free[i].addr + pre)
  {
    hide AllocOk, Carve, Inv, Pre;
    PreAligns(h.physOffset, q, h.free[i]);
    CarveOk(h, q, i, Pre(h.physOffset, q, h.free[i]));
  }

  lemma NothingFits(h: Heap, q: Request)
    requires Inv(h) && q.granule > 0 && h.cache == [] && FirstFit(h.free, h.physOffset, q) >= |h.free|
    ensures AllocOk(h, q, h, 0)
  {
    hide Shape, UserBlocks, Fits;
  }

  lemma AllocAfterDiscard(h: Heap, d: Heap, q: Request, g: Heap, ptr: int)
    requires q.granule > 0 && AllocOk(d, q, g, ptr)
    requires d.physOffset == h.physOffset && UserBlocks(d.tiles) == UserBlocks(h.tiles)
    requires d.freemem + d.usedmem == h.freemem + h.usedmem
    ensures AllocOk(h, q, g, ptr)
  {
  }

  /** The same for a request as a caller makes it. */
  lemma {:induction false} AllocMemblockKeeps(h: Heap, size: nat, align: nat, offset: nat)
    requires Inv(h) && size < WORD && ValidAlign(align)
    ensures forall c <- h.cache :: c.size >= 0
    ensures var (g, ptr) := AllocMemblock(h, size, align, offset);
      && Inv(g) && g.freemem + g.usedmem == h.freemem + h.usedmem && g.physOffset == h.physOffset
      && (RoundUp(size) == 0 ==> g == h && ptr == 0)
      && (RoundUp(size) > 0 ==> AllocOk(h, Request(RoundUp(size), Granule(align), offset), g, ptr))
  {
    CacheSizes(h);
    RoundUpMeaning(size);
    if RoundUp(size) != 0 {
      AllocateKeeps(h, Request(RoundUp(size), Granule(align), offset));
    }
  }

  /** The allocation, for a heap whose cached items have sizes. */
  ghost function Allocated(h: Heap, size: nat, align: nat, offset: nat): (Heap, int) {
    if forall c <- h.cache :: c.size >= 0 then AllocMemblock(h, size, align, offset) else (h, 0)
  }

  /** Nothing is left to discard and no free block can hold the request. */
  ghost predicate NoRoom(h: Heap, size: nat, align: nat, offset: nat) {
    h.cache == [] && forall b <- h.free :: !Fits(h.physOffset, Request(RoundUp(size), Granule(align), offset), b)
  }

  /** NULL is returned for a size of zero or one that overflows, and otherwise only without room; where there is
      room from the start, memory is returned. */
  lemma RefusedOnly(h: Heap, size: nat, align: nat, offset: nat)
    requires Inv(h) && size < WORD && ValidAlign(align)
    ensures var (g, ptr) := Allocated(h, size, align, offset);
      && (ptr == 0 ==> size == 0 || size > WORD - MIN_BLOCK || NoRoom(g, size, align, offset))
      && (size == 0 || size > WORD - MIN_BLOCK ==> ptr == 0 && g == h)
      && (0 < size <= WORD - MIN_BLOCK && ptr == 0 ==>
            forall b <- h.free :: !Fits(h.physOffset, Request(RoundUp(size), Granule(align), offset), b))
  {
    hide Inv, Granule, Fits, UserBlocks;
    AllocMemblockKeeps(h, size, align, offset);
    RoundUpMeaning(size);
    if RoundUp(size) > 0 {
      var q := Request(RoundUp(size), Granule(align), offset);
      if Allocated(h, size, align, offset).1 == 0 {
        RefusedAtOnce(h, q);
      }
    }
  }

  lemma RefusedAtOnce(h: Heap, q: Request)
    requires Inv(h) && q.granule > 0 && q.size > 0 && q.size % MIN_BLOCK == 0 && (forall c <- h.cache :: c.size >= 0)
    requires Allocate(h, q).1 == 0
    ensures forall b <- h.free :: !Fits(h.physOffset, q, b)
  {
    hide Fits, Shape, Counters, Carve, AllocOk;
    var i := FirstFit(h.free, h.physOffset, q);
    if i < |h.free| {
      FirstFitOk(h, q, i);
      PositiveAddress(h, q, i);
    }
  }

  lemma PositiveAddress(h: Heap, q: Request, i: nat)
    requires q.granule > 0 && i < |h.free| && Inv(h)
    ensures h.free[i].addr + Pre(h.physOffset, q, h.free[i]) != 0
  {
    hide Pre, Counters;
    LocateFree(h.tiles, i);
    var t := TileAt(h.tiles, h.free[i].addr);
    TileBounds(h.tiles, t, 0, LIMIT);
  }

  /** A returned block is aligned as asked: physical address congruent to the offset. */
  lemma {:induction false} AllocAligned(h: Heap, size: nat, align: nat, offset: nat)
    requires Inv(h) && size < WORD && ValidAlign(align) && align > 0
    ensures forall c <- h.cache :: c.size >= 0
    ensures var ptr := AllocMemblock(h, size, align, offset).1;
      ptr != 0 ==> (ptr + h.physOffset) % align == offset % align
  {
    AllocMemblockKeeps(h, size, align, offset);
    GranuleCongruence(AllocMemblock(h, size, align, offset).1 + h.physOffset, offset, align);
  }

  lemma GranuleCongruence(x: int, y: int, align: nat)
    requires ValidAlign(align) && align > 0
    ensures x % Granule(align) == y % Granule(align) ==> x % align == y % align
  {
    if align < MIN_BLOCK {
      var k: nat :| k < 64 && align == Pow2(k);
      assert Pow2(5) == 32;
      if k >= 5 { Pow2Monotone(5, k); }
      Pow2Add(k, 5 - k);
      ModOfMultiple(x, align, Pow2(5 - k));
      ModOfMultiple(y, align, Pow2(5 - k));
    }
  }

  //////////////////////////////////////////////////////////////////////////////
  // Handing memory over
  //////////////////////////////////////////////////////////////////////////////

  /** Memory may be handed over if it is a whole block or more of addresses nobody owns. */
  predicate CanHandOver(h: Heap, start: int, n: nat) {
    var t := TileOf(h.tiles, start);
    && start > 0 && n > 0 && n % MIN_BLOCK == 0
    && t < |h.tiles| && h.tiles[t].kind == Outside && start + n <= h.tiles[t].End()
  }

  function GivenParts(addr: int, pre: nat, n: nat, post: nat): seq<Tile> {
    OutsideEdge(addr, pre) + [Tile(addr + pre, n, Used)] + OutsideEdge(addr + pre + n, post)
  }

  lemma {:induction false} GivenPartsShape(addr: int, pre: nat, n: nat, post: nat)
    requires n > 0
    ensures var ps := GivenParts(addr, pre, n, post);
      && ps != [] && Chain(ps, addr, addr + pre + n + post) && Coalesced(ps)
      && ps[0].kind != Free && ps[|ps| - 1].kind != Free
      && Held(ps) == {Tile(addr + pre, n, Used)}
      && (pre > 0 ==> ps[0].kind == Outside)
  {
    AroundShape(OutsideEdge(addr, pre), Tile(addr + pre, n, Used), OutsideEdge(addr + pre + n, post), addr, pre, post);
  }

  lemma {:induction false} GivenPartsFree(addr: int, pre: nat, n: nat, post: nat)
    ensures FreeList(GivenParts(addr, pre, n, post)) == []
  {
    var xs, y, zs := OutsideEdge(addr, pre), Tile(addr + pre, n, Used), OutsideEdge(addr + pre + n, post);
    FreeList3(xs, [y], zs);
    FreeListOne(y);
    if xs != [] { FreeListOne(xs[0]); }
    if zs != [] { FreeListOne(zs[0]); }
  }

  lemma {:induction false} GivenPartsBytes(addr: int, pre: nat, n: nat, post: nat, k: Kind)
    requires k != Outside
    ensures Bytes(GivenParts(addr, pre, n, post), k) == if k == Used then n else 0
  {
    var xs, y, zs := OutsideEdge(addr, pre), Tile(addr + pre, n, Used), OutsideEdge(addr + pre + n, post);
    Bytes3(xs, [y], zs, k);
    BytesOne(y, k);
    if xs != [] { BytesOne(xs[0], k); }
    if zs != [] { BytesOne(zs[0], k); }
  }

  lemma {:induction false} GivenTiles(ts: seq<Tile>, t: nat, start: int, n: nat)
    requires Tiling(ts) && Coalesced(ts) && t < |ts| && ts[t].kind == Outside && start > 0
    requires ts[t].addr <= start && start + n <= ts[t].End() && n > 0
    ensures var us := Given(ts, t, start, n);
      && Tiling(us) && Coalesced(us) && FreeList(us) == FreeList(ts)
      && Held(us) == Held(ts) + {Tile(start, n, Used)}
  {
    var x := ts[t];
    var pre, post := start - x.addr, x.End() - (start + n);
    var ps := GivenParts(x.addr, pre, n, post);
    assert Given(ts, t, start, n) == Splice(ts, t, ps);
    GivenPartsShape(x.addr, pre, n, post);
    GivenPartsFree(x.addr, pre, n, post);
    InsertedTiles(ts, t, ps);
  }

  /** Replacing unowned memory by parts that have no free memory at either end. */
  lemma {:induction false} InsertedTiles(ts: seq<Tile>, t: nat, ps: seq<Tile>)
    requires Tiling(ts) && Coalesced(ts) && t < |ts| && ts[t].kind == Outside
    requires ps != [] && Chain(ps, ts[t].addr, ts[t].End()) && Coalesced(ps) && FreeList(ps) == []
    requires ps[0].kind != Free && ps[|ps| - 1].kind != Free && (t == 0 ==> ps[0].kind == Outside)
    ensures var us := Splice(ts, t, ps);
      && Tiling(us) && Coalesced(us) && FreeList(us) == FreeList(ts) && Held(us) == Held(ts) + Held(ps)
  {
    TileBounds(ts, t, 0, LIMIT);
    ReplaceChain(ts, t, t + 1, ps, 0, LIMIT);
    ReplaceCoalesced(ts, t, t + 1, ps);
    SpliceHeld(ts, t, ps);
    SpliceFree(ts, t, ps);
  }

  lemma {:induction false} GivenShape(h: Heap, t: nat, start: int, n: nat)
    requires Shape(h) && t < |h.tiles| && h.tiles[t].kind == Outside && start > 0
    requires h.tiles[t].addr <= start && start + n <= h.tiles[t].End() && n > 0 && n % MIN_BLOCK == 0
    ensures var given := h.(tiles := Given(h.tiles, t, start, n));
      && Shape(given) && Held(given.tiles) == Held(h.tiles) + {Tile(start, n, Used)}
      && RoundUp(n) == n < LIMIT && CanFree(given, start, n)
      && given.tiles[TileAt(given.tiles, start)] == Tile(start, n, Used)
  {
    var us, x := Given(h.tiles, t, start, n), Tile(start, n, Used);
    GivenTiles(h.tiles, t, start, n);
    HeldPlus(h.cache, h.tiles, us, x);
    assert x in us by { assert x in Held(us); }
    FindTile(us, x);
    HeldBounds(us, TileAt(us, start));
  }

  lemma {:induction false} SpliceFree(ts: seq<Tile>, t: nat, ps: seq<Tile>)
    requires t < |ts| && ts[t].kind != Free && FreeList(ps) == []
    ensures FreeList(Splice(ts, t, ps)) == FreeList(ts)
  {
    assert ts == ts[..t] + [ts[t]] + ts[t + 1..];
    FreeList3(ts[..t], [ts[t]], ts[t + 1..]);
    FreeListOne(ts[t]);
    FreeList3(ts[..t], ps, ts[t + 1..]);
  }

  lemma {:induction false} GivenBytes(ts: seq<Tile>, t: nat, start: int, n: nat, k: Kind)
    requires t < |ts| && ts[t].kind == Outside && k != Outside
    requires ts[t].addr <= start && start + n <= ts[t].End()
    ensures Bytes(Given(ts, t, start, n), k) == Bytes(ts, k) + if k == Used then n else 0
  {
    var x := ts[t];
    var pre, post := start - x.addr, x.End() - (start + n);
    GivenPartsBytes(x.addr, pre, n, post, k);
    SpliceBytes(ts, t, GivenParts(x.addr, pre, n, post), k);
  }

  /** Handing memory over adds it to the free count and takes nothing from anyone. */
  lemma {:induction false} HandOverKeeps(h: Heap, start: int, n: nat)
    requires Inv(h) && CanHandOver(h, start, n)
    ensures var g := HandOver(h, start, n);
      && Inv(g) && g.freemem == h.freemem + n && g.usedmem == h.usedmem
      && UserBlocks(g.tiles) == UserBlocks(h.tiles)
      && g.cache == h.cache && g.physOffset == h.physOffset && g.maxusedmem == h.maxusedmem
  {
    var t := TileOf(h.tiles, start);
    var given := h.(tiles := Given(h.tiles, t, start, n));
    GivenShape(h, t, start, n);
    GivenTotals(h.tiles, t, start, n);
    PopulateFresh(h, t, start, n);
    HandOverGiven(h, start, n, given);
    HandOverIs(h, start, n, given);
  }

  lemma HandOverIs(h: Heap, start: int, n: nat, given: Heap)
    requires TileOf(h.tiles, start) < |h.tiles|
    requires given == h.(tiles := Given(h.tiles, TileOf(h.tiles, start), start, n))
    ensures HandOver(h, start, n) == FreeMemblock(given, start, n).(usedmem := Wrap(FreeMemblock(given, start, n).usedmem + n))
    ensures HandOver(h, start, n).cache == h.cache && HandOver(h, start, n).physOffset == h.physOffset
    ensures HandOver(h, start, n).maxusedmem == h.maxusedmem
  {
  }

  /** What mpopulate may rely on once the memory is labelled as held. */
  lemma HandOverReady(h: Heap, start: int, n: nat, given: Heap)
    requires Inv(h) && CanHandOver(h, start, n)
    requires given == h.(tiles := Given(h.tiles, TileOf(h.tiles, start), start, n))
    ensures Shape(given) && start != 0 && CanFree(given, start, n) && forall c <- given.cache :: c.addr != start
    ensures HandOver(h, start, n) == FreeMemblock(given, start, n).(usedmem := Wrap(FreeMemblock(given, start, n).usedmem + n))
  {
    hide Shape, FreeMemblock, HandOver, Given, Counters;
    var t := TileOf(h.tiles, start);
    GivenShape(h, t, start, n);
    PopulateFresh(h, t, start, n);
    HandOverIs(h, start, n, given);
  }

  lemma {:induction false} HandOverGiven(h: Heap, start: int, n: nat, given: Heap)
    requires Inv(h) && 0 < n < LIMIT && start > 0 && RoundUp(n) == n
    requires given == h.(tiles := given.tiles) && Shape(given)
    requires Held(given.tiles) == Held(h.tiles) + {Tile(start, n, Used)} && Tile(start, n, Used) !in Held(h.tiles)
    requires forall c <- h.cache :: c.addr != start
    requires CanFree(given, start, n) && given.tiles[TileAt(given.tiles, start)] == Tile(start, n, Used)
    requires Bytes(given.tiles, Free) + Bytes(given.tiles, Leaked) == Bytes(h.tiles, Free) + Bytes(h.tiles, Leaked)
    requires Bytes(given.tiles, Used) + Bytes(given.tiles, Cached) == Bytes(h.tiles, Used) + Bytes(h.tiles, Cached) + n
    ensures var f := FreeMemblock(given, start, n);
      var g := f.(usedmem := Wrap(f.usedmem + n));
      && Inv(g) && g.freemem == h.freemem + n && g.usedmem == h.usedmem
      && UserBlocks(g.tiles) == UserBlocks(h.tiles)
  {
    FreeKeepsShape(given, start, n);
    PopulateUsers(h, start, n, given);
    PopulateCounters(h, start, n, given);
  }

  lemma PopulateUsers(h: Heap, start: int, n: nat, given: Heap)
    requires Held(given.tiles) == Held(h.tiles) + {Tile(start, n, Used)}
    requires Held(FreeMemblock(given, start, n).tiles) == Held(given.tiles) - {Tile(start, n, Used)}
    requires Tile(start, n, Used) !in Held(h.tiles)
    ensures UserBlocks(FreeMemblock(given, start, n).tiles) == UserBlocks(h.tiles)
  {
    UserFromHeld(h.tiles);
    UserFromHeld(FreeMemblock(given, start, n).tiles);
  }

  /** Nobody holds a block that starts inside unowned memory. */
  lemma {:induction false} PopulateFresh(h: Heap, t: nat, start: int, n: nat)
    requires Shape(h) && t < |h.tiles| && h.tiles[t].kind == Outside
    requires h.tiles[t].Holds(start)
    ensures forall x <- Held(h.tiles) :: x.addr != start
    ensures forall c <- h.cache :: c.addr != start
  {
    forall x | x in Held(h.tiles)
      ensures x.addr != start
    {
      var k :| 0 <= k < |h.tiles| && h.tiles[k] == x;
      if k < t { Ordered(h.tiles, k, t, 0, LIMIT); TileBounds(h.tiles, k, 0, LIMIT); }
      if t < k { Ordered(h.tiles, t, k, 0, LIMIT); }
    }
    forall c | c in h.cache
      ensures c.addr != start
    {
      assert Tile(c.addr, c.size, Cached) in Held(h.tiles);
    }
  }

  lemma {:induction false} GivenTotals(ts: seq<Tile>, t: nat, start: int, n: nat)
    requires t < |ts| && ts[t].kind == Outside && ts[t].addr <= start && start + n <= ts[t].End()
    ensures var us := Given(ts, t, start, n);
      && Bytes(us, Free) + Bytes(us, Leaked) == Bytes(ts, Free) + Bytes(ts, Leaked)
      && Bytes(us, Used) + Bytes(us, Cached) == Bytes(ts, Used) + Bytes(ts, Cached) + n
  {
    GivenBytes(ts, t, start, n, Free);
    GivenBytes(ts, t, start, n, Leaked);
    GivenBytes(ts, t, start, n, Used);
    GivenBytes(ts, t, start, n, Cached);
  }

  /** Freeing uncounted memory and correcting the used count leaves the counters exact. */
  lemma {:induction false} PopulateCounters(h: Heap, start: int, n: nat, given: Heap)
    requires Tiling(h.tiles) && Counters(h) && 0 < n < LIMIT && start != 0 && RoundUp(n) == n
    requires given == h.(tiles := given.tiles) && Tiling(given.tiles)
    requires Bytes(given.tiles, Free) + Bytes(given.tiles, Leaked) == Bytes(h.tiles, Free) + Bytes(h.tiles, Leaked)
    requires Bytes(given.tiles, Used) + Bytes(given.tiles, Cached) == Bytes(h.tiles, Used) + Bytes(h.tiles, Cached) + n
    requires TileAt(given.tiles, start) < |given.tiles|
    requires given.tiles[TileAt(given.tiles, start)] == Tile(start, n, Used)
    requires Tiling(Release(given.tiles, TileAt(given.tiles, start)))
    ensures var f := FreeMemblock(given, start, n);
      var g := f.(usedmem := Wrap(f.usedmem + n));
      Counters(g) && g.freemem == h.freemem + n && g.usedmem == h.usedmem
  {
    ReleaseTotals(given.tiles, TileAt(given.tiles, start));
    TotalsBounded(h.tiles);
    TotalsBounded(Release(given.tiles, TileAt(given.tiles, start)));
    BorrowAndReturn(h.usedmem, n);
  }

  /** Taking n off an unsigned counter and putting it back, whether or not it wrapped. */
  lemma BorrowAndReturn(used: nat, n: nat)
    requires used < WORD && n < WORD
    ensures Wrap(Wrap(used - n) + n) == used
  {
  }
}
