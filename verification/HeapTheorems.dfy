/** The allocator as a state machine, and what holds in every state it can reach. */
module HeapTheorems {
  import opened Arith
  import opened Bits
  import opened HeapModel
  import opened HeapTilings
  import opened HeapSafety
  import opened HeapRuns

  /** `Retain` is a caller giving one of its blocks to a cache that a discarder may empty. */
  datatype Event =
    | HandOverEvent(start: int, len: nat)
    | AllocEvent(size: nat, align: nat, offset: nat)
    | FreeEvent(ptr: int, size: nat)
    | RetainEvent(ptr: int, size: nat)

  /** Only live blocks are freed or cached, with their own size, by the caller that holds them. */
  predicate UserHolds(h: Heap, ptr: int, size: nat) {
    CanFree(h, ptr, size) && h.tiles[TileAt(h.tiles, ptr)].kind == Used
  }

  function Retain(h: Heap, ptr: int, size: nat): Heap
    requires CanFree(h, ptr, size)
  {
    var t := TileAt(h.tiles, ptr);
    h.(cache := h.cache + [Block(ptr, h.tiles[t].size)],
       tiles := Splice(h.tiles, t, [Tile(ptr, h.tiles[t].size, Cached)]))
  }

  ghost predicate Legal(h: Heap, e: Event) {
    match e
    case HandOverEvent(start, len) => len < WORD && CanHandOver(h, start, RoundDown(len))
    case AllocEvent(size, align, offset) => size < WORD && ValidAlign(align)
    case FreeEvent(ptr, size) => ptr == 0 || UserHolds(h, ptr, size)
    case RetainEvent(ptr, size) => UserHolds(h, ptr, size)
  }

  ghost function Step(h: Heap, e: Event): Heap
    requires Inv(h) && Legal(h, e)
  {
    match e
    case HandOverEvent(start, len) => Populate(h, start, len)
    case AllocEvent(size, align, offset) => CacheSizes(h); AllocMemblock(h, size, align, offset).0
    case FreeEvent(ptr, size) => FreeMemblock(h, ptr, size)
    case RetainEvent(ptr, size) => Retain(h, ptr, size)
  }

  //////////////////////////////////////////////////////////////////////////////
  // Caching
  //////////////////////////////////////////////////////////////////////////////

  lemma {:induction false} RetainTiles(ts: seq<Tile>, t: nat)
    requires Tiling(ts) && Coalesced(ts) && t < |ts| && ts[t].kind == Used
    ensures var x := Tile(ts[t].addr, ts[t].size, Cached);
      var us := Splice(ts, t, [x]);
      && Tiling(us) && Coalesced(us) && FreeList(us) == FreeList(ts)
  {
    var x := Tile(ts[t].addr, ts[t].size, Cached);
    TileBounds(ts, t, 0, LIMIT);
    OneTile(x);
    ReplaceChain(ts, t, t + 1, [x], 0, LIMIT);
    ReplaceCoalesced(ts, t, t + 1, [x]);
    FreeListOne(x);
    SpliceFree(ts, t, [x]);
  }

  lemma {:induction false} RetainMembers(ts: seq<Tile>, t: nat, x: Tile)
    requires Tiling(ts) && t < |ts|
    ensures forall y :: y in Splice(ts, t, [x]) <==> y == x || (y in ts && y != ts[t])
  {
    var us := Splice(ts, t, [x]);
    forall y | y in ts && y != ts[t]
      ensures y in us
    {
      var k :| 0 <= k < |ts| && ts[k] == y;
      assert us[k] == y;
    }
    forall k | 0 <= k < |us|
      ensures us[k] == x || (us[k] in ts && us[k] != ts[t])
    {
      if k != t {
        assert us[k] == ts[k];
        TileAtIndex(ts, k, 0, LIMIT);
        TileAtIndex(ts, t, 0, LIMIT);
      }
    }
    assert us[t] == x;
  }

  lemma {:induction false} RetainShape(h: Heap, ptr: int, size: nat)
    requires Shape(h) && UserHolds(h, ptr, size)
    ensures Shape(Retain(h, ptr, size))
  {
    var t := TileAt(h.tiles, ptr);
    var x := Tile(ptr, h.tiles[t].size, Cached);
    var g := Retain(h, ptr, size);
    RetainTiles(h.tiles, t);
    RetainMembers(h.tiles, t, x);
    assert h.tiles[t] in h.tiles;
    forall i | 0 <= i < |h.cache|
      ensures Tile(h.cache[i].addr, h.cache[i].size, Cached) in g.tiles && h.cache[i].addr != ptr
    {
      FindTile(h.tiles, Tile(h.cache[i].addr, h.cache[i].size, Cached));
    }
  }

  lemma {:induction false} RetainKeeps(h: Heap, ptr: int, size: nat)
    requires Inv(h) && UserHolds(h, ptr, size)
    ensures Inv(Retain(h, ptr, size))
  {
    var t := TileAt(h.tiles, ptr);
    var x := Tile(ptr, h.tiles[t].size, Cached);
    RetainShape(h, ptr, size);
    RetainBytes(h.tiles, t, x, Free);
    RetainBytes(h.tiles, t, x, Leaked);
    RetainBytes(h.tiles, t, x, Used);
    RetainBytes(h.tiles, t, x, Cached);
  }

  lemma {:induction false} RetainBytes(ts: seq<Tile>, t: nat, x: Tile, k: Kind)
    requires t < |ts|
    ensures Bytes(Splice(ts, t, [x]), k) == Bytes(ts, k) - (if ts[t].kind == k then ts[t].size else 0)
                                            + (if x.kind == k then x.size else 0)
  {
    SpliceBytes(ts, t, [x], k);
    BytesOne(x, k);
  }

  //////////////////////////////////////////////////////////////////////////////
  // Runs
  //////////////////////////////////////////////////////////////////////////////

  lemma {:induction false} NotCached(h: Heap, ptr: int, size: nat)
    requires Shape(h) && UserHolds(h, ptr, size)
    ensures forall c <- h.cache :: c.addr != ptr
  {
    forall c | c in h.cache
      ensures c.addr != ptr
    {
      var i :| 0 <= i < |h.cache| && h.cache[i] == c;
      FindTile(h.tiles, Tile(c.addr, c.size, Cached));
    }
  }

  /** Every legal step keeps the invariant; only handing memory over changes the grand total. */
  lemma {:induction false} StepKeeps(h: Heap, e: Event)
    requires Inv(h) && Legal(h, e)
    ensures Inv(Step(h, e)) && Step(h, e).physOffset == h.physOffset
    ensures Step(h, e).freemem + Step(h, e).usedmem
         == h.freemem + h.usedmem + (if e.HandOverEvent? then RoundDown(e.len) else 0)
  {
    match e
    case HandOverEvent(start, len) => HandOverKeeps(h, start, RoundDown(len));
    case AllocEvent(size, align, offset) => AllocMemblockKeeps(h, size, align, offset);
    case FreeEvent(ptr, size) =>
      if ptr != 0 {
        NotCached(h, ptr, size);
        FreeKeeps(h, ptr, size);
      }
    case RetainEvent(ptr, size) => RetainKeeps(h, ptr, size);
  }

  ghost predicate LegalRun(h: Heap, es: seq<Event>)
    requires Inv(h)
    decreases |es|
  {
    es != [] ==>
      && Legal(h, es[0])
      && (StepKeeps(h, es[0]); LegalRun(Step(h, es[0]), es[1..]))
  }

  ghost function Run(h: Heap, es: seq<Event>): Heap
    requires Inv(h) && LegalRun(h, es)
    decreases |es|
  {
    if es == [] then h else (StepKeeps(h, es[0]); Run(Step(h, es[0]), es[1..]))
  }

  /** Bytes handed over during a run. */
  function Handed(es: seq<Event>): nat {
    if es == [] then 0 else (if es[0].HandOverEvent? then RoundDown(es[0].len) else 0) + Handed(es[1..])
  }

  /** Every run keeps the invariant and accounts for exactly the memory it was given. */
  lemma {:induction false} RunKeeps(h: Heap, es: seq<Event>)
    requires Inv(h) && LegalRun(h, es)
    ensures Inv(Run(h, es)) && Run(h, es).physOffset == h.physOffset
    ensures Run(h, es).freemem + Run(h, es).usedmem == h.freemem + h.usedmem + Handed(es)
    decreases |es|
  {
    if es != [] {
      StepKeeps(h, es[0]);
      RunKeeps(Step(h, es[0]), es[1..]);
    }
  }

  /** The most that is in use in any state of a run. */
  ghost function PeakUsed(h: Heap, es: seq<Event>): nat
    requires Inv(h) && LegalRun(h, es)
    decreases |es|
  {
    if es == [] then h.usedmem else (StepKeeps(h, es[0]); Max(h.usedmem, PeakUsed(Step(h, es[0]), es[1..])))
  }

  lemma {:induction false} AllocatePeak(h: Heap, q: Request)
    requires Inv(h) && q.granule > 0 && (forall c <- h.cache :: c.size >= 0)
    ensures Allocate(h, q).0.maxusedmem == Max(h.maxusedmem, Allocate(h, q).0.usedmem)
    decreases |h.cache|
  {
    hide Shape, FirstFit, Pre;
    if FirstFit(h.free, h.physOffset, q) == |h.free| && h.cache != [] {
      DiscardKeeps(h);
      CacheSizes(Discard(h));
      AllocatePeak(Discard(h), q);
    }
  }

  lemma StepPeak(h: Heap, e: Event)
    requires Inv(h) && Legal(h, e)
    ensures Step(h, e).maxusedmem == Max(h.maxusedmem, Step(h, e).usedmem)
  {
    StepKeeps(h, e);
    hide Shape, Allocate, HandOver, CanHandOver;
    match e
    case HandOverEvent(start, len) => HandOverKeeps(h, start, RoundDown(len));
    case AllocEvent(size, align, offset) =>
      CacheSizes(h);
      if RoundUp(size) != 0 {
        AllocatePeak(h, Request(RoundUp(size), Granule(align), offset));
      }
    case FreeEvent(ptr, size) =>
    case RetainEvent(ptr, size) =>
  }

  /** The high-water mark is the most that has been in use in any state of the run. */
  lemma {:induction false} RunPeak(h: Heap, es: seq<Event>)
    requires Inv(h) && LegalRun(h, es)
    ensures Run(h, es).maxusedmem == Max(h.maxusedmem, PeakUsed(h, es))
    decreases |es|
  {
    hide Step, Legal, Shape;
    if es != [] {
      StepKeeps(h, es[0]);
      StepPeak(h, es[0]);
      RunPeak(Step(h, es[0]), es[1..]);
    }
  }

  /** After any run from the empty heap: the free list is sorted, large enough and coalesced; every
      address has exactly one owner; the counters are the exact byte totals of the owners; and the high-water
      mark is the most that has ever been in use. */
  lemma {:induction false} EveryRunIsSafe(physOffset: int, es: seq<Event>)
    requires LegalRun(Initial(physOffset), es)
    ensures var h := Run(Initial(physOffset), es);
      && h.free == FreeList(h.tiles) && WellFormed(h.free)
      && (forall a :: 0 <= a < LIMIT ==>
            && TileOf(h.tiles, a) < |h.tiles|
            && forall i :: 0 <= i < |h.tiles| && h.tiles[i].Holds(a) ==> i == TileOf(h.tiles, a))
      && h.usedmem == Bytes(h.tiles, Used) + Bytes(h.tiles, Cached)
      && h.freemem == Bytes(h.tiles, Free) + Bytes(h.tiles, Leaked)
      && h.freemem + h.usedmem == Handed(es)
      && h.usedmem <= h.maxusedmem == PeakUsed(Initial(physOffset), es)
  {
    RunKeeps(Initial(physOffset), es);
    RunPeak(Initial(physOffset), es);
    var h := Run(Initial(physOffset), es);
    FreeListWellFormed(h.tiles, 0, LIMIT);
    forall a | 0 <= a < LIMIT
      ensures TileOf(h.tiles, a) < |h.tiles|
      ensures forall i :: 0 <= i < |h.tiles| && h.tiles[i].Holds(a) ==> i == TileOf(h.tiles, a)
    {
      OneOwner(h.tiles, a, 0, LIMIT);
    }
  }

  //////////////////////////////////////////////////////////////////////////////
  // Freeing undoes allocating
  //////////////////////////////////////////////////////////////////////////////

  /** A fragment is kept if it is empty or large enough to stay on the free list. */
  predicate Kept(n: int) { n == 0 || n >= MIN_BLOCK }

  lemma SpliceEnds(ts: seq<Tile>, t: nat, ps: seq<Tile>)
    requires t < |ts|
    ensures var us := Splice(ts, t, ps);
      && |us| == |ts| - 1 + |ps| && us[..t] == ts[..t] && us[t..t + |ps|] == ps && us[t + |ps|..] == ts[t + 1..]
  {
  }

  /** The carved block sits at a known place, with kept fragments only as free tiles around it. */
  lemma PartsEnds(addr: int, pre: nat, n: nat, post: nat)
    requires n > 0 && Kept(pre) && Kept(post)
    ensures var ps, k := Parts(addr, pre, n, post), |Edge(addr, pre)|;
      && 0 <= k <= 1 && k < |ps| <= k + 2 && ps[k] == Tile(addr + pre, n, Used)
      && ps[0].addr == addr && ps[|ps| - 1].End() == addr + pre + n + post
      && (k == 1 ==> ps[0].kind == Free) && (k + 1 < |ps| ==> ps[k + 1].kind == Free)
  {
  }

  lemma {:induction false} ReleaseParts(ts: seq<Tile>, t: nat, pre: nat, n: nat, post: nat, us: seq<Tile>)
    requires t < |ts| && ts[t].kind == Free && ts[t].size == pre + n + post && n > 0 && Kept(pre) && Kept(post)
    requires t > 0 ==> ts[t - 1].kind != Free
    requires t + 1 < |ts| ==> ts[t + 1].kind != Free
    requires us == Splice(ts, t, Parts(ts[t].addr, pre, n, post))
    ensures var u := t + |Edge(ts[t].addr, pre)|;
      u < |us| && us[u] == Tile(ts[t].addr + pre, n, Used) && Release(us, u) == ts
  {
    hide Splice, Release, Parts, Edge;
    PartsEnds(ts[t].addr, pre, n, post);
    ReleaseSpliced(ts, t, Parts(ts[t].addr, pre, n, post), |Edge(ts[t].addr, pre)|);
  }

  lemma {:induction false} ReleaseSpliced(ts: seq<Tile>, t: nat, ps: seq<Tile>, k: nat)
    requires t < |ts| && ts[t].kind == Free
    requires 0 <= k <= 1 && k < |ps| <= k + 2 && ps[0].addr == ts[t].addr && ps[|ps| - 1].End() == ts[t].End()
    requires (k == 1 ==> ps[0].kind == Free) && (k + 1 < |ps| ==> ps[k + 1].kind == Free)
    requires t > 0 ==> ts[t - 1].kind != Free
    requires t + 1 < |ts| ==> ts[t + 1].kind != Free
    ensures var us := Splice(ts, t, ps);
      t + k < |us| && us[t + k] == ps[k] && Release(us, t + k) == ts
  {
    SpliceEnds(ts, t, ps);
    ReleaseRejoins(ts, t, Splice(ts, t, ps), ps, k);
  }

  lemma {:induction false} ReleaseRejoins(ts: seq<Tile>, t: nat, us: seq<Tile>, ps: seq<Tile>, k: nat)
    requires t < |ts| && ts[t].kind == Free && |us| == |ts| - 1 + |ps|
    requires us[..t] == ts[..t] && us[t..t + |ps|] == ps && us[t + |ps|..] == ts[t + 1..]
    requires 0 <= k <= 1 && k < |ps| <= k + 2 && ps[0].addr == ts[t].addr && ps[|ps| - 1].End() == ts[t].End()
    requires (k == 1 ==> ps[0].kind == Free) && (k + 1 < |ps| ==> ps[k + 1].kind == Free)
    requires t > 0 ==> ts[t - 1].kind != Free
    requires t + 1 < |ts| ==> ts[t + 1].kind != Free
    ensures us[t + k] == ps[k] && Release(us, t + k) == ts
  {
    var mid := us[t..t + |ps|];
    assert us[t] == mid[0] && us[t + k] == mid[k] && us[t + |ps| - 1] == mid[|ps| - 1];
    if k + 1 < |ps| { assert us[t + k + 1] == mid[k + 1]; }
    assert Left(us, t + k) == t by { if t > 0 { assert us[t - 1] == us[..t][t - 1]; } }
    assert Right(us, t + k) == t + |ps| by {
      if t + |ps| < |us| { assert us[t + |ps|] == us[t + |ps|..][0] == ts[t + 1..][0]; }
    }
    assert ts == ts[..t] + [ts[t]] + ts[t + 1..];
  }

  /** Freeing a block just carved, when neither fragment was leaked, restores the heap exactly, apart
      from the high-water mark. */
  lemma {:induction false} FreeUndoesCarve(h: Heap, i: nat, pre: nat, n: nat)
    requires Inv(h) && n > 0 && n % MIN_BLOCK == 0 && i < |h.free| && pre + n <= h.free[i].size
    requires Kept(pre) && Kept(h.free[i].size - pre - n)
    ensures var g := Carve(h, i, pre, n);
      FreeMemblock(g, h.free[i].addr + pre, n) == h.(maxusedmem := g.maxusedmem)
  {
    CarveKeeps(h, i, pre, n);
    var u := CarvedTile(h, i, pre, n);
    UndoneState(h, Carve(h, i, pre, n), h.free[i].addr + pre, n, u);
  }

  lemma {:induction false} CarvedTile(h: Heap, i: nat, pre: nat, n: nat) returns (u: nat)
    requires Tiling(h.tiles) && Coalesced(h.tiles) && h.free == FreeList(h.tiles)
    requires n > 0 && i < |h.free| && pre + n <= h.free[i].size
    requires Kept(pre) && Kept(h.free[i].size - pre - n) && Tiling(Carve(h, i, pre, n).tiles)
    ensures var us, ptr := Carve(h, i, pre, n).tiles, h.free[i].addr + pre;
      u < |us| && us[u] == Tile(ptr, n, Used) && TileAt(us, ptr) == u && Release(us, u) == h.tiles
  {
    CarveFreeList(h, i, pre, n);
    var t, us := TileAt(h.tiles, h.free[i].addr), Carve(h, i, pre, n).tiles;
    u := PartsTile(h.tiles, t, pre, n, h.free[i].size - pre - n, us);
  }

  lemma {:induction false} PartsTile(ts: seq<Tile>, t: nat, pre: nat, n: nat, post: nat, us: seq<Tile>) returns (u: nat)
    requires Tiling(ts) && Coalesced(ts) && t < |ts| && ts[t].kind == Free
    requires ts[t].size == pre + n + post && n > 0 && Kept(pre) && Kept(post)
    requires us == Splice(ts, t, Parts(ts[t].addr, pre, n, post)) && Tiling(us)
    ensures var ptr := ts[t].addr + pre;
      && u < |us| && us[u] == Tile(ptr, n, Used) && TileAt(us, ptr) == u && Release(us, u) == ts
  {
    hide Splice, Release, Parts, Edge, Chain, Coalesced;
    CoalescedAt(ts, t);
    ReleaseParts(ts, t, pre, n, post, us);
    u := t + |Edge(ts[t].addr, pre)|;
    TileAtIndex(us, u, 0, LIMIT);
  }

  lemma {:induction false} UndoneState(h: Heap, g: Heap, ptr: int, n: nat, u: nat)
    requires Inv(h) && Inv(g) && ptr > 0 && n % MIN_BLOCK == 0 && u < |g.tiles|
    requires g.tiles[u] == Tile(ptr, n, Used) && TileAt(g.tiles, ptr) == u && Release(g.tiles, u) == h.tiles
    requires g.cache == h.cache && g.physOffset == h.physOffset
    requires g.freemem == h.freemem - n && g.usedmem == h.usedmem + n
    ensures FreeMemblock(g, ptr, n) == h.(maxusedmem := g.maxusedmem)
  {
    HeldBounds(g.tiles, u);
    assert RoundUp(n) == n;
    ReleaseFreeList(g.tiles, u);
    FreeCounters(g, ptr, n);
  }

  /** The bytes on the free list. */
  function Total(bs: seq<Block>): int {
    if bs == [] then 0 else bs[0].size + Total(bs[1..])
  }

  lemma {:induction false} FreeTotal(ts: seq<Tile>)
    ensures Total(FreeList(ts)) == Bytes(ts, Free)
  {
    if ts != [] {
      FreeTotal(ts[1..]);
      if ts[0].kind == Free {
        assert FreeList(ts)[1..] == FreeList(ts[1..]);
      } else {
        assert FreeList(ts) == FreeList(ts[1..]);
      }
    }
  }

  /** Allocating and freeing gives back the same free list exactly when no fragment is leaked. */
  lemma {:induction false} FreeRestoresFreeList(h: Heap, i: nat, pre: nat, n: nat)
    requires Inv(h) && n > 0 && n % MIN_BLOCK == 0 && i < |h.free| && pre + n <= h.free[i].size
    ensures FreeMemblock(Carve(h, i, pre, n), h.free[i].addr + pre, n).free == h.free
       <==> Kept(pre) && Kept(h.free[i].size - pre - n)
  {
    if Kept(pre) && Kept(h.free[i].size - pre - n) {
      FreeUndoesCarve(h, i, pre, n);
    } else {
      LeakShrinksFreeList(h, i, pre, n);
    }
  }

  lemma {:induction false} LeakShrinksFreeList(h: Heap, i: nat, pre: nat, n: nat)
    requires Inv(h) && n > 0 && n % MIN_BLOCK == 0 && i < |h.free| && pre + n <= h.free[i].size
    requires !(Kept(pre) && Kept(h.free[i].size - pre - n))
    ensures Total(FreeMemblock(Carve(h, i, pre, n), h.free[i].addr + pre, n).free) < Total(h.free)
  {
    var b, g, ptr := h.free[i], Carve(h, i, pre, n), h.free[i].addr + pre;
    CarveKeeps(h, i, pre, n);
    ReleasedTotal(g, ptr, n);
    CarvedFreeBytes(h, i, pre, n);
    FreeTotal(h.tiles);
  }

  lemma {:induction false} CarvedFreeBytes(h: Heap, i: nat, pre: nat, n: nat)
    requires Shape(h) && i < |h.free| && pre + n <= h.free[i].size
    ensures Bytes(Carve(h, i, pre, n).tiles, Free)
         == Bytes(h.tiles, Free) - n - (if pre < MIN_BLOCK then pre else 0)
            - (if h.free[i].size - pre - n < MIN_BLOCK then h.free[i].size - pre - n else 0)
  {
    CarveFreeList(h, i, pre, n);
    CarveBytes(h.tiles, TileAt(h.tiles, h.free[i].addr), pre, n, h.free[i].size - pre - n, Free);
  }

  lemma {:induction false} ReleasedTotal(g: Heap, ptr: int, n: nat)
    requires Inv(g) && Tile(ptr, n, Used) in Held(g.tiles)
    ensures Total(FreeMemblock(g, ptr, n).free) == Bytes(g.tiles, Free) + n
  {
    FindTile(g.tiles, Tile(ptr, n, Used));
    var u := TileAt(g.tiles, ptr);
    HeldBounds(g.tiles, u);
    assert RoundUp(n) == n;
    ReleaseFreeList(g.tiles, u);
    ReleaseBytes(g.tiles, u, Free);
    FreeTotal(Release(g.tiles, u));
  }

  //////////////////////////////////////////////////////////////////////////////
  // Less than one block
  //////////////////////////////////////////////////////////////////////////////

  ghost predicate Touches(free: seq<Block>, a: int) {
    exists b :: b in free && (b.addr == a || b.End() == a)
  }

  /** mpopulate with less than one block frees no bytes at all. On the free list this changes nothing if the region
      touches a free block; otherwise it leaves an empty block there, which check_blocks rejects. */
  lemma {:induction false} ShortRegion(free: seq<Block>, start: int)
    requires WellFormed(free) && forall b <- free :: start <= b.addr || b.End() <= start
    ensures WellFormed(InsertMerge(free, Block(start, 0))) <==> Touches(free, start)
    ensures Touches(free, start) ==> InsertMerge(free, Block(start, 0)) == free
    decreases |free|
  {
    if Touches(free, start) {
      EmptyMerged(free, start);
    } else {
      EmptyInserted(free, start);
    }
  }

  lemma {:induction false} EmptyMerged(free: seq<Block>, start: int)
    requires WellFormed(free) && (forall b <- free :: start <= b.addr || b.End() <= start) && Touches(free, start)
    ensures InsertMerge(free, Block(start, 0)) == free
    decreases |free|
  {
    NotEmpty(free, start);
    Following(free);
    hide WellFormed, Touches;
    var x, rest := free[0], free[1..];
    assert free == [x] + rest;
    if x.End() == start {
      Reinserted(rest, x);
    } else if x.addr < start {
      TouchesLater(free, start);
      EmptyMerged(rest, start);
    } else {
      TouchesFirst(free, start);
    }
  }

  lemma NotEmpty(free: seq<Block>, start: int)
    requires Touches(free, start)
    ensures free != []
  {
  }

  lemma Following(free: seq<Block>)
    requires WellFormed(free) && free != []
    ensures free[0].size > 0 && WellFormed(free[1..])
    ensures forall y <- free[1..] :: free[0].End() < y.addr && y.size > 0
  {
  }

  lemma TouchesLater(free: seq<Block>, start: int)
    requires Touches(free, start) && free != [] && free[0].addr != start && free[0].End() != start
    ensures Touches(free[1..], start)
  {
    var b :| b in free && (b.addr == start || b.End() == start);
    assert b in free[1..];
  }

  lemma TouchesFirst(free: seq<Block>, start: int)
    requires Touches(free, start) && free != [] && start <= free[0].addr && free[0].size > 0
    requires forall y <- free[1..] :: free[0].End() < y.addr && y.size > 0
    ensures free[0].addr == start
  {
    var b :| b in free && (b.addr == start || b.End() == start);
    FirstOrLater(free, b);
  }

  lemma FirstOrLater(free: seq<Block>, b: Block)
    requires b in free
    ensures b == free[0] || b in free[1..]
  {
  }

  lemma Reinserted(rest: seq<Block>, x: Block)
    requires x.size > 0 && forall y <- rest :: x.End() < y.addr && y.size > 0
    ensures InsertMerge(rest, Block(x.addr, x.size + 0)) == [x] + rest
  {
  }

  lemma {:induction false} EmptyInserted(free: seq<Block>, start: int)
    requires !Touches(free, start)
    ensures Block(start, 0) in InsertMerge(free, Block(start, 0)) && !WellFormed(InsertMerge(free, Block(start, 0)))
    decreases |free|
  {
    var e := Block(start, 0);
    if free != [] {
      assert free[0] in free;
      if free[0].addr < start {
        forall b | b in free[1..]
          ensures b.addr != start && b.End() != start
        {
          assert b in free;
        }
        EmptyInserted(free[1..], start);
      }
    }
    assert e in InsertMerge(free, e);
  }
}
