/** Fragments that the allocator gives up: which requests can make it lose memory in the middle of the heap. */
module HeapLeaks {
  import opened Arith
  import opened Bits
  import opened HeapModel
  import opened HeapTilings
  import opened HeapSafety
  import opened HeapRuns
  import opened HeapTheorems

  //////////////////////////////////////////////////////////////////////////////
  // Requests on one grid
  //////////////////////////////////////////////////////////////////////////////

  predicate OnGrid(a: int, grid: int) {
    (a + grid) % MIN_BLOCK == 0
  }

  /** Bytes below the first grid point at or after s, and above the last one at or before e. */
  function HeadGap(s: int, grid: int): nat { (-(s + grid)) % MIN_BLOCK }
  function TailGap(e: int, grid: int): nat { (e + grid) % MIN_BLOCK }

  /** Inside one region [s, e), everything but its two ends lies on a grid of blocks. */
  predicate Regular(x: Tile, s: int, e: int, grid: int) {
    match x.kind
    case Outside => true
    case Free => (x.addr == s || OnGrid(x.addr, grid)) && (x.End() == e || OnGrid(x.End(), grid))
    case Leaked =>
      || (x.addr == s && x.size == HeadGap(s, grid))
      || (x.addr == e - TailGap(e, grid) && x.size == TailGap(e, grid))
    case _ => x.size % MIN_BLOCK == 0 && OnGrid(x.addr, grid)
  }

  ghost predicate AllRegular(ts: seq<Tile>, s: int, e: int, grid: int) {
    forall x <- ts :: Regular(x, s, e, grid)
  }

  /** The fragments left by an allocation at a grid point are regular. */
  lemma CarveRegular(b: Block, pre: nat, n: nat, s: int, e: int, grid: int)
    requires Regular(Tile(b.addr, b.size, Free), s, e, grid)
    requires OnGrid(b.addr + pre, grid) && n % MIN_BLOCK == 0 && pre + n <= b.size
    ensures AllRegular(Parts(b.addr, pre, n, b.size - pre - n), s, e, grid)
  {
    var post := b.size - pre - n;
    HeadRegular(b, pre, s, e, grid);
    TailRegular(b, post, s, e, grid);
    assert Regular(Tile(b.addr + pre, n, Used), s, e, grid);
  }

  lemma HeadRegular(b: Block, pre: nat, s: int, e: int, grid: int)
    requires Regular(Tile(b.addr, b.size, Free), s, e, grid) && OnGrid(b.addr + pre, grid)
    ensures AllRegular(Edge(b.addr, pre), s, e, grid)
  {
  }

  lemma TailRegular(b: Block, post: nat, s: int, e: int, grid: int)
    requires Regular(Tile(b.addr, b.size, Free), s, e, grid) && OnGrid(b.End() - post, grid)
    ensures AllRegular(Edge(b.End() - post, post), s, e, grid)
  {
  }

  lemma {:induction false} ReleaseRegular(ts: seq<Tile>, t: nat, s: int, e: int, grid: int)
    requires Tiling(ts) && t < |ts| && ts[t].Allocated() && AllRegular(ts, s, e, grid)
    ensures AllRegular(Release(ts, t), s, e, grid)
  {
    var l, r := Left(ts, t), Right(ts, t);
    JoinBounds(ts, t);
    assert Regular(ts[t], s, e, grid) && Regular(ts[l], s, e, grid) && Regular(ts[r - 1], s, e, grid);
  }

  /** A request is served at a point of the grid that its offset belongs to. */
  lemma GridRequest(physOffset: int, q: Request, a: int, r: nat)
    requires q.granule > 0 && q.granule % MIN_BLOCK == 0 && q.offset % MIN_BLOCK == r
    requires Aligned(physOffset, q, a)
    ensures OnGrid(a, physOffset - r)
  {
    var g := q.granule / MIN_BLOCK;
    ModOfMultiple(a + physOffset, MIN_BLOCK, g);
    ModOfMultiple(q.offset, MIN_BLOCK, g);
    SubtractResidue(a + physOffset, r);
  }

  lemma SubtractResidue(x: int, r: nat)
    requires x % MIN_BLOCK == r
    ensures (x - r) % MIN_BLOCK == 0
  {
  }

  lemma {:induction false} CarveStepRegular(h: Heap, i: nat, pre: nat, n: nat, s: int, e: int, grid: int)
    requires Shape(h) && n % MIN_BLOCK == 0 && i < |h.free| && pre + n <= h.free[i].size
    requires OnGrid(h.free[i].addr + pre, grid) && AllRegular(h.tiles, s, e, grid)
    ensures AllRegular(Carve(h, i, pre, n).tiles, s, e, grid)
  {
    LocateFree(h.tiles, i);
    assert h.tiles[TileAt(h.tiles, h.free[i].addr)] in h.tiles;
    CarveRegular(h.free[i], pre, n, s, e, grid);
  }

  lemma {:induction false} DiscardRegular(h: Heap, s: int, e: int, grid: int)
    requires Shape(h) && h.cache != [] && h.cache[0].size >= 0 && AllRegular(h.tiles, s, e, grid)
    ensures AllRegular(Discard(h).tiles, s, e, grid)
  {
    CanDiscard(h);
    ReleaseRegular(h.tiles, TileAt(h.tiles, h.cache[0].addr), s, e, grid);
  }

  lemma {:induction false} AllocateRegular(h: Heap, q: Request, s: int, e: int, r: nat)
    requires Inv(h) && q.granule > 0 && q.size > 0 && q.size % MIN_BLOCK == 0
    requires q.granule % MIN_BLOCK == 0 && q.offset % MIN_BLOCK == r
    requires AllRegular(h.tiles, s, e, h.physOffset - r)
    ensures forall c <- h.cache :: c.size >= 0
    ensures AllRegular(Allocate(h, q).0.tiles, s, e, h.physOffset - r)
    decreases |h.cache|
  {
    hide AllRegular, Carve, Discard, Shape, Aligned, Pre;
    CacheSizes(h);
    var i := FirstFit(h.free, h.physOffset, q);
    if i < |h.free| {
      var pre := Pre(h.physOffset, q, h.free[i]);
      PreAligns(h.physOffset, q, h.free[i]);
      GridRequest(h.physOffset, q, h.free[i].addr + pre, r);
      CarveStepRegular(h, i, pre, q.size, s, e, h.physOffset - r);
    } else if h.cache != [] {
      DiscardKeeps(h);
      DiscardRegular(h, s, e, h.physOffset - r);
      AllocateRegular(Discard(h), q, s, e, r);
    }
  }

  /** Steps other than handing memory over, with every offset on one grid. */
  predicate GridEvent(ev: Event, r: nat) {
    !ev.HandOverEvent? && (ev.AllocEvent? ==> ev.offset % MIN_BLOCK == r)
  }

  lemma {:induction false} StepRegular(h: Heap, ev: Event, s: int, e: int, r: nat)
    requires Inv(h) && Legal(h, ev) && GridEvent(ev, r)
    requires AllRegular(h.tiles, s, e, h.physOffset - r)
    ensures AllRegular(Step(h, ev).tiles, s, e, h.physOffset - r)
  {
    match ev
    case AllocEvent(size, align, offset) =>
      RoundUpMeaning(size);
      if RoundUp(size) != 0 {
        MaskIsGranule(0, align);
        AllocateRegular(h, Request(RoundUp(size), Granule(align), offset), s, e, r);
      }
    case FreeEvent(ptr, size) =>
      if ptr != 0 { ReleaseRegular(h.tiles, TileAt(h.tiles, ptr), s, e, h.physOffset - r); }
    case RetainEvent(ptr, size) =>
      assert h.tiles[TileAt(h.tiles, ptr)] in h.tiles;
  }

  lemma {:induction false} RunRegular(h: Heap, es: seq<Event>, s: int, e: int, r: nat)
    requires Inv(h) && LegalRun(h, es) && (forall ev <- es :: GridEvent(ev, r))
    requires AllRegular(h.tiles, s, e, h.physOffset - r)
    ensures AllRegular(Run(h, es).tiles, s, e, h.physOffset - r)
    decreases |es|
  {
    if es != [] {
      StepKeeps(h, es[0]);
      StepRegular(h, es[0], s, e, r);
      RunRegular(Step(h, es[0]), es[1..], s, e, r);
    }
  }

  /** Leaked fragments at two possible places cannot exceed their two sizes. */
  lemma {:induction false} LeakTotal(ts: seq<Tile>, lo: int, hi: int, a: int, n: nat, b: int, m: nat)
    requires Chain(ts, lo, hi)
    requires forall x <- ts :: x.kind == Leaked ==> (x.addr == a && x.size == n) || (x.addr == b && x.size == m)
    ensures Bytes(ts, Leaked) <= (if lo <= a then n else 0) + (if lo <= b then m else 0)
  {
    if ts != [] {
      LeakTotal(ts[1..], ts[0].End(), hi, a, n, b, m);
    }
  }

  lemma {:induction false} GivenRegular(us: seq<Tile>, s: int, n: nat, grid: int)
    requires 2 <= |us| <= 3 && us[0].kind == Outside && us[0].addr != s && us[1] == Tile(s, n, Used)
    requires |us| == 3 ==> us[2].kind == Outside
    ensures TileAt(us, s) == 1 && AllRegular(Release(us, 1), s, s + n, grid)
  {
    assert us[1..][0] == us[1];
  }

  lemma {:induction false} HandOverRegular(h: Heap, s: int, n: nat, grid: int)
    requires h.tiles == [Tile(0, LIMIT, Outside)] && 0 < s && 0 < n && s + n <= LIMIT
    ensures AllRegular(HandOver(h, s, n).tiles, s, s + n, grid)
  {
    assert TileOf(h.tiles, s) == 0;
    var us := Given(h.tiles, 0, s, n);
    GivenRegular(us, s, n, grid);
  }

  lemma {:induction false} RegularLeaks(ts: seq<Tile>, s: int, n: nat, d: int)
    requires Tiling(ts) && AllRegular(ts, s, s + n, d) && n % MIN_BLOCK == 0
    ensures Bytes(ts, Leaked) <= MIN_BLOCK && LeaksAtEnds(ts, s, n)
  {
    var e := s + n;
    LeakTotal(ts, 0, LIMIT, s, HeadGap(s, d), e - TailGap(e, d), TailGap(e, d));
    assert HeadGap(s, d) + TailGap(e, d) <= MIN_BLOCK;
  }

  //////////////////////////////////////////////////////////////////////////////
  // Runs over one region
  //////////////////////////////////////////////////////////////////////////////

  /** A run from the empty heap that is handed one region and then asked for blocks. */
  function RegionRun(s: int, len: nat, es: seq<Event>): seq<Event> {
    [HandOverEvent(s, len)] + es
  }

  /** The tiles it leads to. */
  ghost function RegionTiles(physOffset: int, s: int, len: nat, es: seq<Event>): seq<Tile> {
    if LegalRun(Initial(physOffset), RegionRun(s, len, es)) then Run(Initial(physOffset), RegionRun(s, len, es)).tiles else []
  }

  /** It is legal, hands no more memory over, and asks for these offsets only. */
  ghost predicate OneRegion(physOffset: int, s: int, len: nat, es: seq<Event>, offsets: set<nat>) {
    && LegalRun(Initial(physOffset), RegionRun(s, len, es))
    && forall ev <- es :: !ev.HandOverEvent? && (ev.AllocEvent? ==> ev.offset in offsets)
  }

  /** Fragments have been leaked at the two ends of the region only. */
  ghost predicate LeaksAtEnds(ts: seq<Tile>, s: int, n: nat) {
    forall x <- ts :: x.kind == Leaked ==> x.addr == s || x.End() == s + n
  }

  lemma FirstStep(h: Heap, e: Event, es: seq<Event>)
    requires Inv(h)
    ensures LegalRun(h, [e] + es) <==> Legal(h, e) && Inv(Step(h, e)) && LegalRun(Step(h, e), es)
    ensures LegalRun(h, [e] + es) ==> Run(h, [e] + es) == Run(Step(h, e), es)
  {
    hide Inv, Legal, Step;
    assert ([e] + es)[0] == e && ([e] + es)[1..] == es;
    if Legal(h, e) {
      StepKeeps(h, e);
    }
  }

  lemma RegionStep(h: Heap, s: int, len: nat)
    requires Inv(h)
    ensures Legal(h, HandOverEvent(s, len)) <==> len < WORD && CanHandOver(h, s, RoundDown(len))
    ensures Legal(h, HandOverEvent(s, len)) ==> Step(h, HandOverEvent(s, len)) == HandOver(h, s, RoundDown(len))
  {
    hide Inv, HandOver, CanHandOver;
  }

  /** The region as a whole is free before the first request. */
  lemma RegionHeap(h: Heap, physOffset: int, s: int, n: nat)
    requires h == Initial(physOffset)
    ensures CanHandOver(h, s, n) <==> 0 < s && 0 < n && n % MIN_BLOCK == 0 && s + n <= LIMIT
    ensures CanHandOver(h, s, n) ==>
      var g := HandOver(h, s, n);
      g.free == [Block(s, n)] && g.cache == [] && g.physOffset == physOffset
  {
    if 0 < s && 0 < n && n % MIN_BLOCK == 0 && s + n <= LIMIT {
      assert TileOf(h.tiles, s) == 0;
      WholeSize(n);
    }
  }

  lemma WholeSize(n: nat)
    requires n % MIN_BLOCK == 0 && n <= LIMIT
    ensures RoundUp(n) == n
  {
  }

  /** One region, and all offsets congruent modulo the block size: whatever the run, only the region's two ends
      can have been leaked, and together they come to at most one block. */
  lemma {:induction false} LeaksOnlyAtTheEnds(physOffset: int, s: int, len: nat, es: seq<Event>, r: nat)
    requires LegalRun(Initial(physOffset), RegionRun(s, len, es)) && (forall ev <- es :: GridEvent(ev, r))
    ensures var ts := RegionTiles(physOffset, s, len, es);
      Bytes(ts, Leaked) <= MIN_BLOCK && LeaksAtEnds(ts, s, RoundDown(len))
  {
    hide Inv, Legal, Step, LegalRun, Run, AllRegular, HandOver, CanHandOver, Tiling, Bytes, LeaksAtEnds, Initial;
    var n, h0 := RoundDown(len), Initial(physOffset);
    FirstStep(h0, HandOverEvent(s, len), es);
    RegionStep(h0, s, len);
    RegionHeap(h0, physOffset, s, n);
    RegionGrid(h0, physOffset, s, n, physOffset - r);
    var h := HandOver(h0, s, n);
    RunRegular(h, es, s, s + n, r);
    RunKeeps(h, es);
    InvTiling(Run(h, es));
    RegularLeaks(Run(h, es).tiles, s, n, physOffset - r);
  }

  lemma RegionGrid(h: Heap, physOffset: int, s: int, n: nat, grid: int)
    requires h == Initial(physOffset) && 0 < s && 0 < n && s + n <= LIMIT
    ensures AllRegular(HandOver(h, s, n).tiles, s, s + n, grid)
  {
    HandOverRegular(h, s, n, grid);
  }

  lemma InvTiling(h: Heap)
    requires Inv(h)
    ensures Tiling(h.tiles)
  {
    hide Tiling, Coalesced, WholeBlocks;
  }

  //////////////////////////////////////////////////////////////////////////////
  // Requests on two grids
  //////////////////////////////////////////////////////////////////////////////

  /** When the first free block fits, it is the one that is carved. */
  lemma AllocateFirst(h: Heap, q: Request, pre: nat)
    requires q.granule > 0 && h.free != [] && (forall c <- h.cache :: c.size >= 0)
    requires Pre(h.physOffset, q, h.free[0]) == pre && pre + q.size <= h.free[0].size
    ensures Allocate(h, q) == (Carve(h, 0, pre, q.size), h.free[0].addr + pre)
  {
  }

  /** 64 bytes with the smallest alignment, at an offset. */
  function Ask(offset: nat): Event {
    AllocEvent(64, 1, offset)
  }

  lemma AllocIs(h: Heap, offset: nat, pre: nat)
    requires Inv(h) && h.cache == [] && h.free != [] && pre + 64 < h.free[0].size
    requires pre == (offset - (h.free[0].addr + h.physOffset)) % MIN_BLOCK
    ensures Legal(h, Ask(offset)) && Step(h, Ask(offset)) == Carve(h, 0, pre, 64)
  {
    hide Inv, Carve, ValidAlign;
    AlignOne();
    AllocateFirst(h, Request(64, MIN_BLOCK, offset), pre);
  }

  lemma AlignOne()
    ensures ValidAlign(1) && Granule(1) == MIN_BLOCK && RoundUp(64) == 64
  {
    assert Pow2(0) == 1;
  }

  /** The new block and the fragment in front of it; every other block stays. */
  lemma CarvedTilesAre(h: Heap, pre: nat)
    requires Inv(h) && h.free != [] && pre < MIN_BLOCK && pre + 64 + MIN_BLOCK <= h.free[0].size
    ensures var g, b := Carve(h, 0, pre, 64), h.free[0];
      && Tile(b.addr + pre, 64, Used) in g.tiles && (pre > 0 ==> Tile(b.addr, pre, Leaked) in g.tiles)
      && (forall x :: x in h.tiles && x.kind == Used ==> x in g.tiles)
  {
    FirstTile(h);
    var b := h.free[0];
    var t := TileAt(h.tiles, b.addr);
    hide Inv, TileAt, Splice, Parts;
    SpliceMembers(h.tiles, t, Parts(b.addr, pre, 64, b.size - pre - 64));
    PartsMembers(b.addr, pre, b.size - pre - 64);
  }

  lemma FirstTile(h: Heap)
    requires Inv(h) && h.free != []
    ensures var b, t := h.free[0], TileAt(h.tiles, h.free[0].addr);
      t < |h.tiles| && h.tiles[t] == Tile(b.addr, b.size, Free)
  {
    hide Tiling, Coalesced, WholeBlocks, TileAt, FreeList;
    LocateFree(h.tiles, 0);
  }

  lemma PartsMembers(addr: int, pre: nat, post: int)
    requires pre < MIN_BLOCK
    ensures var ps := Parts(addr, pre, 64, post);
      Tile(addr + pre, 64, Used) in ps && (pre > 0 ==> Tile(addr, pre, Leaked) in ps)
  {
  }

  lemma SpliceMembers(ts: seq<Tile>, t: nat, ps: seq<Tile>)
    requires t < |ts|
    ensures forall x :: x in ps ==> x in Splice(ts, t, ps)
    ensures forall x :: x in ts && x != ts[t] ==> x in Splice(ts, t, ps)
  {
    assert ts == ts[..t] + [ts[t]] + ts[t + 1..];
  }

  lemma CarvedFree(h: Heap, pre: nat, b: Block)
    requires h.free == [b] && pre < MIN_BLOCK && pre + 64 + MIN_BLOCK <= b.size
    ensures var g := Carve(h, 0, pre, 64);
      g.free == [Block(b.addr + pre + 64, b.size - pre - 64)] && g.cache == h.cache && g.physOffset == h.physOffset
  {
  }

  /** The second of two requests whose offsets differ modulo the block size leaks a fragment that lies between the
      two blocks, wherever the region is, if it has room for them. */
  lemma InteriorLeak(physOffset: int, s: int, len: nat, o: nat, p: nat)
    requires o % MIN_BLOCK != p % MIN_BLOCK && len < WORD && 0 < s && 224 <= RoundDown(len) && s + RoundDown(len) <= LIMIT
    ensures OneRegion(physOffset, s, len, [Ask(o), Ask(p)], {o, p})
    ensures var ts := RegionTiles(physOffset, s, len, [Ask(o), Ask(p)]);
      var first, gap := s + (o - (s + physOffset)) % MIN_BLOCK, (p - o) % MIN_BLOCK;
      && Tile(first, 64, Used) in ts && Tile(first + 64, gap, Leaked) in ts && Tile(first + 64 + gap, 64, Used) in ts
      && !LeaksAtEnds(ts, s, RoundDown(len))
  {
    hide Inv, Legal, Step, LegalRun, Run, HandOver, CanHandOver, Initial, Carve, RoundDown;
    var n, h0 := RoundDown(len), Initial(physOffset);
    var pre, gap := (o - (s + physOffset)) % MIN_BLOCK, (p - o) % MIN_BLOCK;
    WholeLength(len);
    Residues(o, p, s + physOffset);
    RegionStep(h0, s, len);
    RegionHeap(h0, physOffset, s, n);
    HandOverKeeps(h0, s, n);
    var h1 := HandOver(h0, s, n);
    AllocIs(h1, o, pre);
    CarvedTilesAre(h1, pre);
    CarvedFree(h1, pre, Block(s, n));
    StepKeeps(h1, Ask(o));
    var h2 := Step(h1, Ask(o));
    AllocIs(h2, p, gap);
    CarvedTilesAre(h2, gap);
    StepKeeps(h2, Ask(p));
    RunTwo(h1, Ask(o), Ask(p));
    FirstStep(h0, HandOverEvent(s, len), [Ask(o), Ask(p)]);
  }

  lemma WholeLength(len: nat)
    ensures RoundDown(len) % MIN_BLOCK == 0
  {
  }

  lemma Residues(o: nat, p: nat, base: int)
    requires o % MIN_BLOCK != p % MIN_BLOCK
    ensures var pre, gap := (o - base) % MIN_BLOCK, (p - o) % MIN_BLOCK;
      0 < gap < MIN_BLOCK && gap == (p - (base + pre + 64)) % MIN_BLOCK
  {
  }

  lemma RunTwo(h: Heap, a: Event, b: Event)
    requires Inv(h) && Legal(h, a) && Inv(Step(h, a)) && Legal(Step(h, a), b)
    ensures LegalRun(h, [a, b]) && Run(h, [a, b]) == Step(Step(h, a), b)
  {
    hide Inv, Legal, Step;
    StepKeeps(h, a);
    StepKeeps(Step(h, a), b);
    assert [a, b] == [a] + [b] && [b] == [b] + [];
    FirstStep(h, a, [b]);
    FirstStep(Step(h, a), b, []);
  }

  //////////////////////////////////////////////////////////////////////////////
  // The exact condition
  //////////////////////////////////////////////////////////////////////////////

  /** No run with these offsets leaks anywhere but at the ends of its region. */
  ghost predicate NeverLeaksInside(offsets: set<nat>) {
    forall physOffset, s, len, es :: OneRegion(physOffset, s, len, es, offsets) ==>
      LeaksAtEnds(RegionTiles(physOffset, s, len, es), s, RoundDown(len))
  }

  predicate Congruent(offsets: set<nat>) {
    forall o, p :: o in offsets && p in offsets ==> o % MIN_BLOCK == p % MIN_BLOCK
  }

  /** What malloc.c says about leaks holds for the offsets in use exactly when they are all congruent modulo the
      block size. */
  lemma LeaksExactly(offsets: set<nat>)
    ensures NeverLeaksInside(offsets) <==> Congruent(offsets)
  {
    hide LegalRun, Run, LeaksAtEnds, RegionTiles, OneRegion;
    if o, p :| o in offsets && p in offsets && o % MIN_BLOCK != p % MIN_BLOCK {
      InteriorLeak(0, 32, 224, o, p);
      MoreOffsets(0, 32, 224, [Ask(o), Ask(p)], {o, p}, offsets);
      assert !NeverLeaksInside(offsets);
    } else {
      var r := if offsets == {} then 0 else var o :| o in offsets; o % MIN_BLOCK;
      forall physOffset, s, len: nat, es | OneRegion(physOffset, s, len, es, offsets)
        ensures LeaksAtEnds(RegionTiles(physOffset, s, len, es), s, RoundDown(len))
      {
        OneGrid(physOffset, s, len, es, offsets, r);
        LeaksOnlyAtTheEnds(physOffset, s, len, es, r);
      }
    }
  }

  lemma OneGrid(physOffset: int, s: int, len: nat, es: seq<Event>, offsets: set<nat>, r: nat)
    requires OneRegion(physOffset, s, len, es, offsets) && forall o :: o in offsets ==> o % MIN_BLOCK == r
    ensures LegalRun(Initial(physOffset), RegionRun(s, len, es)) && (forall ev <- es :: GridEvent(ev, r))
  {
    hide LegalRun;
  }

  lemma MoreOffsets(physOffset: int, s: int, len: nat, es: seq<Event>, few: set<nat>, many: set<nat>)
    requires OneRegion(physOffset, s, len, es, few) && few <= many
    ensures OneRegion(physOffset, s, len, es, many)
  {
    hide LegalRun;
  }

  /** Used next to the usual offset zero, an offset is harmless exactly when it is a multiple of the block size. */
  lemma OffsetExactly(offset: nat)
    ensures NeverLeaksInside({0, offset}) <==> offset % MIN_BLOCK == 0
  {
    hide NeverLeaksInside, Congruent;
    LeaksExactly({0, offset});
    PairCongruent(offset);
  }

  lemma PairCongruent(offset: nat)
    ensures Congruent({0, offset}) <==> offset % MIN_BLOCK == 0
  {
    assert 0 in {0, offset} && offset in {0, offset};
  }
}
