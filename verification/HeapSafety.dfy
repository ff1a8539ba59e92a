/** What every heap operation keeps, and what holds after any run of them. */
module HeapSafety {
  import opened Arith
  import opened HeapModel
  import opened HeapTilings

  /** The blocks callers and caches hold. */
  ghost function Held(ts: seq<Tile>): set<Tile> {
    set x | x in ts && x.Allocated()
  }

  //////////////////////////////////////////////////////////////////////////////
  // Freeing
  //////////////////////////////////////////////////////////////////////////////

  lemma {:induction false} ReleaseHeld(ts: seq<Tile>, t: nat)
    requires Tiling(ts) && t < |ts| && ts[t].Allocated()
    ensures Held(Release(ts, t)) == Held(ts) - {ts[t]}
  {
    var l, r, us := Left(ts, t), Right(ts, t), Release(ts, t);
    forall x | x in Held(ts) && x != ts[t]
      ensures x in us
    {
      var k :| 0 <= k < |ts| && ts[k] == x;
      if k < l {
        assert us[k] == x;
      } else {
        assert k >= r;
        assert us[k - r + l + 1] == x;
      }
    }
    forall x | x in Held(us)
      ensures x in ts && x != ts[t]
    {
      var k :| 0 <= k < |us| && us[k] == x;
      var i := if k < l then k else k - l - 1 + r;
      assert ts[i] == x;
      if i < t { Ordered(ts, i, t, 0, LIMIT); TileBounds(ts, i, 0, LIMIT); }
      if t < i { Ordered(ts, t, i, 0, LIMIT); TileBounds(ts, t, 0, LIMIT); }
    }
  }

  lemma {:induction false} MiddleBytes(ts: seq<Tile>, t: nat, k: Kind)
    requires Tiling(ts) && t < |ts| && ts[t].kind != Free
    ensures var l, r := Left(ts, t), Right(ts, t);
      Bytes(ts[l..r], k) == (if k == ts[t].kind then ts[t].size else 0)
                            + (if k == Free then ts[r - 1].End() - ts[l].addr - ts[t].size else 0)
  {
    var l, r := Left(ts, t), Right(ts, t);
    var xs, ys := ts[l..t], ts[t + 1..r];
    assert ts[l..r] == xs + [ts[t]] + ys;
    Bytes3(xs, [ts[t]], ys, k);
    BytesOne(ts[t], k);
    JoinBounds(ts, t);
    if l < t { assert xs == [ts[t - 1]]; BytesOne(ts[t - 1], k); }
    if t + 1 < r { assert ys == [ts[t + 1]]; BytesOne(ts[t + 1], k); }
  }

  lemma {:induction false} ReleaseBytes(ts: seq<Tile>, t: nat, k: Kind)
    requires Tiling(ts) && t < |ts| && ts[t].kind != Free
    ensures Bytes(Release(ts, t), k)
         == Bytes(ts, k) - (if k == ts[t].kind then ts[t].size else 0) + (if k == Free then ts[t].size else 0)
  {
    var l, r := Left(ts, t), Right(ts, t);
    var joined := Tile(ts[l].addr, ts[r - 1].End() - ts[l].addr, Free);
    Bytes3(ts[..l], [joined], ts[r..], k);
    BytesOne(joined, k);
    assert ts == ts[..l] + ts[l..r] + ts[r..];
    Bytes3(ts[..l], ts[l..r], ts[r..], k);
    MiddleBytes(ts, t, k);
  }

  /** A block may be freed with size n if it is held and n rounds to the size it has. */
  predicate CanFree(h: Heap, ptr: int, size: nat) {
    var t := TileAt(h.tiles, ptr);
    t < |h.tiles| && h.tiles[t].Allocated() && h.tiles[t].size == RoundUp(size)
  }

  lemma {:induction false} HeldBounds(ts: seq<Tile>, t: nat)
    requires Tiling(ts) && t < |ts| && ts[t].Allocated()
    ensures ts[t].addr > 0 && 0 < ts[t].size < LIMIT
    ensures WholeBlocks(ts) ==> ts[t].size >= MIN_BLOCK
  {
    Ordered(ts, 0, t, 0, LIMIT);
    TileBounds(ts, 0, 0, LIMIT);
    TileBounds(ts, t, 0, LIMIT);
    assert ts[t] in ts;
  }

  /** Freeing a held block keeps the shape of the heap and returns exactly that block. */
  lemma {:induction false} FreeKeepsShape(h: Heap, ptr: int, size: nat)
    requires Shape(h) && CanFree(h, ptr, size)
    requires forall c <- h.cache :: c.addr != ptr
    ensures Shape(FreeMemblock(h, ptr, size))
    ensures ptr > 0
    ensures Held(FreeMemblock(h, ptr, size).tiles) == Held(h.tiles) - {h.tiles[TileAt(h.tiles, ptr)]}
  {
    var t := TileAt(h.tiles, ptr);
    var us := Release(h.tiles, t);
    HeldBounds(h.tiles, t);
    ReleaseTiling(h.tiles, t);
    ReleaseFreeList(h.tiles, t);
    ReleaseHeld(h.tiles, t);
    HeldWhole(h.tiles, us);
    HeldCache(h.cache, h.tiles, us, h.tiles[t]);
  }

  lemma HeldWhole(ts: seq<Tile>, us: seq<Tile>)
    requires WholeBlocks(ts) && Held(us) <= Held(ts)
    ensures WholeBlocks(us)
  {
    forall x | x in us && x.Allocated()
      ensures x.size % MIN_BLOCK == 0
    {
      assert x in Held(us);
    }
  }

  lemma HeldCache(cache: seq<Block>, ts: seq<Tile>, us: seq<Tile>, x: Tile)
    requires CacheOk(cache, ts) && Held(ts) - {x} <= Held(us)
    requires x.kind == Used || forall c <- cache :: c.addr != x.addr
    ensures CacheOk(cache, us)
  {
    forall i | 0 <= i < |cache|
      ensures Tile(cache[i].addr, cache[i].size, Cached) in us
    {
      var y := Tile(cache[i].addr, cache[i].size, Cached);
      assert y in Held(ts) - {x};
    }
  }

  lemma {:induction false} TotalsBounded(ts: seq<Tile>)
    requires Tiling(ts)
    ensures 0 <= Bytes(ts, Free) + Bytes(ts, Leaked) <= LIMIT
    ensures 0 <= Bytes(ts, Used) + Bytes(ts, Cached) <= LIMIT
  {
    BytesTotal(ts, 0, LIMIT);
    BytesNonneg(ts, Outside, 0, LIMIT);
    BytesNonneg(ts, Free, 0, LIMIT);
    BytesNonneg(ts, Used, 0, LIMIT);
    BytesNonneg(ts, Cached, 0, LIMIT);
    BytesNonneg(ts, Leaked, 0, LIMIT);
  }

  lemma {:induction false} ReleaseTotals(ts: seq<Tile>, t: nat)
    requires Tiling(ts) && t < |ts| && ts[t].Allocated()
    ensures var us := Release(ts, t);
      && Bytes(us, Free) + Bytes(us, Leaked) == Bytes(ts, Free) + Bytes(ts, Leaked) + ts[t].size
      && Bytes(us, Used) + Bytes(us, Cached) == Bytes(ts, Used) + Bytes(ts, Cached) - ts[t].size
  {
    ReleaseBytes(ts, t, Free);
    ReleaseBytes(ts, t, Leaked);
    ReleaseBytes(ts, t, Used);
    ReleaseBytes(ts, t, Cached);
  }

  lemma {:induction false} FreeCounters(h: Heap, ptr: int, size: nat)
    requires Tiling(h.tiles) && Counters(h) && CanFree(h, ptr, size) && ptr != 0
    requires Tiling(Release(h.tiles, TileAt(h.tiles, ptr)))
    ensures Counters(FreeMemblock(h, ptr, size))
    ensures FreeMemblock(h, ptr, size).freemem == h.freemem + RoundUp(size)
    ensures FreeMemblock(h, ptr, size).usedmem == h.usedmem - RoundUp(size)
  {
    var t := TileAt(h.tiles, ptr);
    ReleaseTotals(h.tiles, t);
    TotalsBounded(h.tiles);
    TotalsBounded(Release(h.tiles, t));
  }

  /** Freeing keeps the whole invariant; the bytes move from the used to the free count. */
  lemma {:induction false} FreeKeeps(h: Heap, ptr: int, size: nat)
    requires Inv(h) && CanFree(h, ptr, size)
    requires forall c <- h.cache :: c.addr != ptr
    ensures Inv(FreeMemblock(h, ptr, size))
    ensures FreeMemblock(h, ptr, size).freemem == h.freemem + RoundUp(size)
    ensures FreeMemblock(h, ptr, size).usedmem == h.usedmem - RoundUp(size)
  {
    FreeKeepsShape(h, ptr, size);
    FreeCounters(h, ptr, size);
  }

  //////////////////////////////////////////////////////////////////////////////
  // Allocating
  //////////////////////////////////////////////////////////////////////////////

  /** Block i of the free list is a tile, and splits the free list where it splits the tiling. */
  lemma {:induction false} LocateFree(ts: seq<Tile>, i: nat)
    requires Tiling(ts) && i < |FreeList(ts)|
    ensures var b, t := FreeList(ts)[i], TileAt(ts, FreeList(ts)[i].addr);
      && t < |ts| && ts[t] == Tile(b.addr, b.size, Free)
      && FreeList(ts[..t]) == FreeList(ts)[..i] && FreeList(ts[t + 1..]) == FreeList(ts)[i + 1..]
  {
    var k := LocateIndex(ts, i);
    TileAtIndex(ts, k, 0, LIMIT);
  }

  lemma {:induction false} LocateIndex(ts: seq<Tile>, i: nat) returns (k: nat)
    requires i < |FreeList(ts)|
    ensures k < |ts| && ts[k] == Tile(FreeList(ts)[i].addr, FreeList(ts)[i].size, Free)
    ensures FreeList(ts[..k]) == FreeList(ts)[..i] && FreeList(ts[k + 1..]) == FreeList(ts)[i + 1..]
  {
    if ts[0].kind == Free && i == 0 {
      k := 0;
    } else {
      var j := LocateIndex(ts[1..], if ts[0].kind == Free then i - 1 else i);
      k := j + 1;
      assert ts[..k] == [ts[0]] + ts[1..][..j];
      assert ts[k + 1..] == ts[1..][j + 1..];
    }
  }

  lemma HeldAppend(xs: seq<Tile>, ys: seq<Tile>)
    ensures Held(xs + ys) == Held(xs) + Held(ys)
  {
  }

  /** A single tile, as a chain. */
  lemma OneTile(x: Tile)
    requires x.size > 0
    ensures Chain([x], x.addr, x.End())
    ensures Coalesced([x]) <==> (x.kind == Free ==> x.size >= MIN_BLOCK)
    ensures Held([x]) == if x.Allocated() then {x} else {}
  {
    assert [x][1..] == [];
  }

  /** A fragment, of whatever kind, as a chain. */
  lemma {:induction false} FragmentShape(xs: seq<Tile>, addr: int, size: nat)
    requires xs == Edge(addr, size) || xs == OutsideEdge(addr, size)
    ensures Chain(xs, addr, addr + size) && Coalesced(xs) && Held(xs) == {}
  {
    if size > 0 {
      assert xs == [xs[0]];
      OneTile(xs[0]);
    }
  }

  /** Two fragments around a held block. */
  lemma {:induction false} AroundShape(xs: seq<Tile>, y: Tile, zs: seq<Tile>, addr: int, pre: nat, post: nat)
    requires xs == Edge(addr, pre) || xs == OutsideEdge(addr, pre)
    requires zs == Edge(y.End(), post) || zs == OutsideEdge(y.End(), post)
    requires y.addr == addr + pre && y.size > 0 && y.kind == Used
    ensures Chain(xs + [y] + zs, addr, y.End() + post)
    ensures Coalesced(xs + [y] + zs)
    ensures Held(xs + [y] + zs) == {y}
  {
    FragmentShape(xs, addr, pre);
    FragmentShape(zs, y.End(), post);
    OneTile(y);
    ChainJoin(xs, [y], addr, y.addr, y.End());
    ChainJoin(xs + [y], zs, addr, y.End(), y.End() + post);
    CoalescedAppend(xs, [y]);
    CoalescedAppend(xs + [y], zs);
    HeldAppend(xs, [y]);
    HeldAppend(xs + [y], zs);
  }

  lemma {:induction false} PartsShape(addr: int, pre: nat, n: nat, post: nat)
    requires n > 0
    ensures var ps := Parts(addr, pre, n, post);
      && ps != [] && Chain(ps, addr, addr + pre + n + post) && Coalesced(ps)
      && Held(ps) == {Tile(addr + pre, n, Used)}
  {
    AroundShape(Edge(addr, pre), Tile(addr + pre, n, Used), Edge(addr + pre + n, post), addr, pre, post);
  }

  lemma {:induction false} PartsFree(addr: int, pre: nat, n: nat, post: nat)
    ensures FreeList(Parts(addr, pre, n, post)) == Keep(addr, pre) + Keep(addr + pre + n, post)
  {
    var xs, y, zs := Edge(addr, pre), Tile(addr + pre, n, Used), Edge(addr + pre + n, post);
    FreeList3(xs, [y], zs);
    FreeListOne(y);
    if xs != [] { FreeListOne(xs[0]); }
    if zs != [] { FreeListOne(zs[0]); }
  }

  lemma {:induction false} PartsBytes(addr: int, pre: nat, n: nat, post: nat, k: Kind)
    ensures Bytes(Parts(addr, pre, n, post), k)
         == (if k == Used then n else 0)
            + (if k == (if pre >= MIN_BLOCK then Free else Leaked) then pre else 0)
            + (if k == (if post >= MIN_BLOCK then Free else Leaked) then post else 0)
  {
    var xs, y, zs := Edge(addr, pre), Tile(addr + pre, n, Used), Edge(addr + pre + n, post);
    Bytes3(xs, [y], zs, k);
    BytesOne(y, k);
    if xs != [] { BytesOne(xs[0], k); }
    if zs != [] { BytesOne(zs[0], k); }
  }

  lemma {:induction false} SpliceBytes(ts: seq<Tile>, t: nat, ps: seq<Tile>, k: Kind)
    requires t < |ts|
    ensures Bytes(Splice(ts, t, ps), k) == Bytes(ts, k) - (if ts[t].kind == k then ts[t].size else 0) + Bytes(ps, k)
  {
    assert ts == ts[..t] + [ts[t]] + ts[t + 1..];
    Bytes3(ts[..t], [ts[t]], ts[t + 1..], k);
    Bytes3(ts[..t], ps, ts[t + 1..], k);
    BytesOne(ts[t], k);
  }

  lemma {:induction false} SpliceHeld(ts: seq<Tile>, t: nat, ps: seq<Tile>)
    requires t < |ts| && !ts[t].Allocated()
    ensures Held(Splice(ts, t, ps)) == Held(ts) + Held(ps)
  {
    var us := Splice(ts, t, ps);
    forall x | x in Held(ts)
      ensures x in us
    {
      var k :| 0 <= k < |ts| && ts[k] == x;
      assert if k < t then us[k] == x else us[k - 1 + |ps|] == x;
    }
  }

  /** What carving does to the tiles. */
  lemma {:induction false} CarveTiles(ts: seq<Tile>, t: nat, pre: nat, n: nat, post: nat)
    requires Tiling(ts) && Coalesced(ts) && t < |ts|
    requires ts[t].kind == Free && ts[t].size == pre + n + post && n > 0
    ensures var us := Splice(ts, t, Parts(ts[t].addr, pre, n, post));
      && Tiling(us) && Coalesced(us)
      && Held(us) == Held(ts) + {Tile(ts[t].addr + pre, n, Used)}
  {
    var ps := Parts(ts[t].addr, pre, n, post);
    PartsShape(ts[t].addr, pre, n, post);
    TileBounds(ts, t, 0, LIMIT);
    ReplaceChain(ts, t, t + 1, ps, 0, LIMIT);
    CoalescedAt(ts, t);
    ReplaceCoalesced(ts, t, t + 1, ps);
    SpliceHeld(ts, t, ps);
  }

  lemma {:induction false} CarveFree(ts: seq<Tile>, t: nat, pre: nat, n: nat, post: nat)
    requires t < |ts|
    ensures FreeList(Splice(ts, t, Parts(ts[t].addr, pre, n, post)))
         == FreeList(ts[..t]) + Keep(ts[t].addr, pre) + Keep(ts[t].addr + pre + n, post) + FreeList(ts[t + 1..])
  {
    var ps := Parts(ts[t].addr, pre, n, post);
    PartsFree(ts[t].addr, pre, n, post);
    FreeList3(ts[..t], ps, ts[t + 1..]);
  }

  lemma {:induction false} CarveBytes(ts: seq<Tile>, t: nat, pre: nat, n: nat, post: nat, k: Kind)
    requires t < |ts| && ts[t].kind == Free && ts[t].size == pre + n + post
    ensures Bytes(Splice(ts, t, Parts(ts[t].addr, pre, n, post)), k)
         == Bytes(ts, k) - (if k == Free then pre + n + post else 0) + (if k == Used then n else 0)
            + (if k == (if pre >= MIN_BLOCK then Free else Leaked) then pre else 0)
            + (if k == (if post >= MIN_BLOCK then Free else Leaked) then post else 0)
  {
    PartsBytes(ts[t].addr, pre, n, post, k);
    SpliceBytes(ts, t, Parts(ts[t].addr, pre, n, post), k);
  }

  lemma {:induction false} CarveTotals(ts: seq<Tile>, t: nat, pre: nat, n: nat, post: nat)
    requires t < |ts| && ts[t].kind == Free && ts[t].size == pre + n + post
    ensures var us := Splice(ts, t, Parts(ts[t].addr, pre, n, post));
      && Bytes(us, Free) + Bytes(us, Leaked) == Bytes(ts, Free) + Bytes(ts, Leaked) - n
      && Bytes(us, Used) + Bytes(us, Cached) == Bytes(ts, Used) + Bytes(ts, Cached) + n
  {
    CarveBytes(ts, t, pre, n, post, Free);
    CarveBytes(ts, t, pre, n, post, Leaked);
    CarveBytes(ts, t, pre, n, post, Used);
    CarveBytes(ts, t, pre, n, post, Cached);
  }

  lemma HeldPlus(cache: seq<Block>, ts: seq<Tile>, us: seq<Tile>, x: Tile)
    requires WholeBlocks(ts) && CacheOk(cache, ts)
    requires Held(us) == Held(ts) + {x} && x.size % MIN_BLOCK == 0
    ensures WholeBlocks(us) && CacheOk(cache, us)
  {
    forall y | y in us && y.Allocated()
      ensures y.size % MIN_BLOCK == 0
    {
      assert y in Held(us);
    }
    HeldCache(cache, ts, us, Tile(0, 0, Used));
  }

  lemma {:induction false} CarveFreeList(h: Heap, i: nat, pre: nat, n: nat)
    requires Tiling(h.tiles) && h.free == FreeList(h.tiles)
    requires i < |h.free| && pre + n <= h.free[i].size
    ensures var b, t := h.free[i], TileAt(h.tiles, h.free[i].addr);
      && t < |h.tiles| && h.tiles[t] == Tile(b.addr, b.size, Free)
      && Carve(h, i, pre, n).tiles == Splice(h.tiles, t, Parts(b.addr, pre, n, b.size - pre - n))
    ensures Carve(h, i, pre, n).free == FreeList(Carve(h, i, pre, n).tiles)
  {
    LocateFree(h.tiles, i);
    CarveFree(h.tiles, TileAt(h.tiles, h.free[i].addr), pre, n, h.free[i].size - pre - n);
  }

  lemma {:induction false} CarveShape(h: Heap, i: nat, pre: nat, n: nat)
    requires Shape(h) && n > 0 && n % MIN_BLOCK == 0
    requires i < |h.free| && pre + n <= h.free[i].size
    ensures Shape(Carve(h, i, pre, n))
    ensures Held(Carve(h, i, pre, n).tiles) == Held(h.tiles) + {Tile(h.free[i].addr + pre, n, Used)}
  {
    CarveFreeList(h, i, pre, n);
    CarvedTiles(h, i, pre, n, Carve(h, i, pre, n).tiles);
  }

  /** The tiling part of carving, apart from the heap record. */
  lemma {:induction false} CarvedTiles(h: Heap, i: nat, pre: nat, n: nat, us: seq<Tile>)
    requires Tiling(h.tiles) && Coalesced(h.tiles) && WholeBlocks(h.tiles) && CacheOk(h.cache, h.tiles)
    requires n > 0 && n % MIN_BLOCK == 0 && i < |h.free| && pre + n <= h.free[i].size
    requires var b, t := h.free[i], TileAt(h.tiles, h.free[i].addr);
      && t < |h.tiles| && h.tiles[t] == Tile(b.addr, b.size, Free)
      && us == Splice(h.tiles, t, Parts(b.addr, pre, n, b.size - pre - n))
    ensures Tiling(us) && Coalesced(us) && WholeBlocks(us) && CacheOk(h.cache, us)
    ensures Held(us) == Held(h.tiles) + {Tile(h.free[i].addr + pre, n, Used)}
  {
    CarveTiles(h.tiles, TileAt(h.tiles, h.free[i].addr), pre, n, h.free[i].size - pre - n);
    HeldPlus(h.cache, h.tiles, us, Tile(h.free[i].addr + pre, n, Used));
  }

  lemma {:induction false} CarveCounters(h: Heap, i: nat, pre: nat, n: nat)
    requires Tiling(h.tiles) && h.free == FreeList(h.tiles) && Counters(h)
    requires i < |h.free| && pre + n <= h.free[i].size
    requires Tiling(Carve(h, i, pre, n).tiles)
    ensures var g := Carve(h, i, pre, n);
      && Counters(g)
      && g.usedmem == h.usedmem + n && g.freemem == h.freemem - n
      && g.maxusedmem == Max(g.usedmem, h.maxusedmem)
  {
    var b := h.free[i];
    LocateFree(h.tiles, i);
    CarveTotals(h.tiles, TileAt(h.tiles, b.addr), pre, n, b.size - pre - n);
    TotalsBounded(h.tiles);
    TotalsBounded(Carve(h, i, pre, n).tiles);
  }

  lemma {:induction false} FreeBlockBounds(ts: seq<Tile>, i: nat)
    requires Tiling(ts) && i < |FreeList(ts)|
    ensures FreeList(ts)[i].addr > 0
  {
    LocateFree(ts, i);
    Ordered(ts, 0, TileAt(ts, FreeList(ts)[i].addr), 0, LIMIT);
    TileBounds(ts, 0, 0, LIMIT);
  }

  /** Carving keeps the invariant, adds exactly the new block, and moves its bytes between the counters. */
  lemma {:induction false} CarveKeeps(h: Heap, i: nat, pre: nat, n: nat)
    requires Inv(h) && n > 0 && n % MIN_BLOCK == 0
    requires i < |h.free| && pre + n <= h.free[i].size
    ensures var g, ptr := Carve(h, i, pre, n), h.free[i].addr + pre;
      && Inv(g) && ptr > 0
      && Held(g.tiles) == Held(h.tiles) + {Tile(ptr, n, Used)}
      && g.usedmem == h.usedmem + n && g.freemem == h.freemem - n
      && g.maxusedmem == Max(g.usedmem, h.maxusedmem)
  {
    FreeBlockBounds(h.tiles, i);
    CarveShape(h, i, pre, n);
    CarveCounters(h, i, pre, n);
  }
}
