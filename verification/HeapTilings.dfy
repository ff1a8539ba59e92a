/** How splitting and merging tiles shows up in the free list and in the byte counts. */
module HeapTilings {
  import opened HeapModel

  //////////////////////////////////////////////////////////////////////////////
  // Chains
  //////////////////////////////////////////////////////////////////////////////

  /** Where tile l starts, or where the chain ends. */
  function At(ts: seq<Tile>, l: nat, hi: int): int {
    if l < |ts| then ts[l].addr else hi
  }

  lemma {:induction false} ChainJoin(xs: seq<Tile>, ys: seq<Tile>, lo: int, mid: int, hi: int)
    requires Chain(xs, lo, mid) && Chain(ys, mid, hi)
    ensures Chain(xs + ys, lo, hi)
  {
    if xs == [] {
      assert xs + ys == ys;
    } else {
      assert (xs + ys)[1..] == xs[1..] + ys;
      ChainJoin(xs[1..], ys, xs[0].End(), mid, hi);
    }
  }

  lemma {:induction false} ChainSplit(ts: seq<Tile>, l: nat, lo: int, hi: int)
    requires Chain(ts, lo, hi) && l <= |ts|
    ensures lo <= At(ts, l, hi) <= hi
    ensures Chain(ts[..l], lo, At(ts, l, hi)) && Chain(ts[l..], At(ts, l, hi), hi)
  {
    if l == 0 {
      assert ts[..l] == [] && ts[l..] == ts;
      if ts != [] { ChainSplit(ts[1..], 0, ts[0].End(), hi); }
    } else {
      ChainSplit(ts[1..], l - 1, ts[0].End(), hi);
      assert ts[..l][1..] == ts[1..][..l - 1];
      assert ts[l..] == ts[1..][l - 1..];
    }
  }

  /** A tile lies inside its chain, and the next one starts where it ends. */
  lemma {:induction false} TileBounds(ts: seq<Tile>, k: nat, lo: int, hi: int)
    requires Chain(ts, lo, hi) && k < |ts|
    ensures lo <= ts[k].addr && 0 < ts[k].size && ts[k].End() <= hi
    ensures ts[k].End() == At(ts, k + 1, hi)
  {
    ChainSplit(ts, k, lo, hi);
    assert ts[k..][1..] == ts[k + 1..];
    ChainSplit(ts[k + 1..], 0, ts[k].End(), hi);
  }

  lemma {:induction false} Ordered(ts: seq<Tile>, i: nat, j: nat, lo: int, hi: int)
    requires Chain(ts, lo, hi) && i < j < |ts|
    ensures ts[i].End() <= ts[j].addr
  {
    TileBounds(ts, i, lo, hi);
    ChainSplit(ts, i + 1, lo, hi);
    TileBounds(ts[i + 1..], j - i - 1, ts[i].End(), hi);
  }

  /** Every address of the tiled range has exactly one owner. */
  lemma {:induction false} OneOwner(ts: seq<Tile>, a: int, lo: int, hi: int)
    requires Chain(ts, lo, hi) && lo <= a < hi
    ensures TileOf(ts, a) < |ts|
    ensures forall i :: 0 <= i < |ts| && ts[i].Holds(a) ==> i == TileOf(ts, a)
  {
    if !ts[0].Holds(a) {
      OneOwner(ts[1..], a, ts[0].End(), hi);
    }
    var t := TileOf(ts, a);
    forall i | 0 <= i < |ts| && ts[i].Holds(a)
      ensures i == t
    {
      if i < t { Ordered(ts, i, t, lo, hi); }
      if t < i { Ordered(ts, t, i, lo, hi); }
    }
  }

  lemma {:induction false} TileAtIndex(ts: seq<Tile>, k: nat, lo: int, hi: int)
    requires Chain(ts, lo, hi) && k < |ts|
    ensures TileAt(ts, ts[k].addr) == k
  {
    var t := TileAt(ts, ts[k].addr);
    if t < k {
      Ordered(ts, t, k, lo, hi);
      TileBounds(ts, t, lo, hi);
    }
  }

  /** Replacing a run of tiles by a chain over the same addresses keeps a chain. */
  lemma {:induction false} ReplaceChain(ts: seq<Tile>, l: nat, r: nat, parts: seq<Tile>, lo: int, hi: int)
    requires Chain(ts, lo, hi) && l <= r <= |ts|
    requires Chain(parts, At(ts, l, hi), At(ts, r, hi))
    ensures Chain(ts[..l] + parts + ts[r..], lo, hi)
  {
    ChainSplit(ts, l, lo, hi);
    ChainSplit(ts, r, lo, hi);
    ChainJoin(ts[..l], parts, lo, At(ts, l, hi), At(ts, r, hi));
    ChainJoin(ts[..l] + parts, ts[r..], lo, At(ts, r, hi), hi);
  }

  //////////////////////////////////////////////////////////////////////////////
  // Coalescing
  //////////////////////////////////////////////////////////////////////////////

  predicate Apart(xs: seq<Tile>, ys: seq<Tile>) {
    xs != [] && ys != [] ==> !(xs[|xs| - 1].kind == Free && ys[0].kind == Free)
  }

  lemma {:induction false} CoalescedAppend(xs: seq<Tile>, ys: seq<Tile>)
    ensures Coalesced(xs + ys) <==> Coalesced(xs) && Coalesced(ys) && Apart(xs, ys)
  {
    if xs == [] {
      assert xs + ys == ys;
    } else {
      assert (xs + ys)[1..] == xs[1..] + ys;
      CoalescedAppend(xs[1..], ys);
    }
  }

  /** Replacing a run of tiles keeps the rest coalesced if no free part meets a free neighbour. */
  lemma {:induction false} ReplaceCoalesced(ts: seq<Tile>, l: nat, r: nat, parts: seq<Tile>)
    requires l <= r <= |ts| && parts != []
    requires Coalesced(ts) && Coalesced(parts)
    requires Apart(ts[..l], parts) && Apart(parts, ts[r..])
    ensures Coalesced(ts[..l] + parts + ts[r..])
  {
    assert ts == ts[..l] + ts[l..] && ts == ts[..r] + ts[r..];
    CoalescedAppend(ts[..l], ts[l..]);
    CoalescedAppend(ts[..r], ts[r..]);
    CoalescedAppend(ts[..l], parts);
    CoalescedAppend(ts[..l] + parts, ts[r..]);
  }

  lemma {:induction false} CoalescedAt(ts: seq<Tile>, t: nat)
    requires Coalesced(ts) && t < |ts| && ts[t].kind == Free
    ensures ts[t].size >= MIN_BLOCK
    ensures t > 0 ==> ts[t - 1].kind != Free
    ensures t + 1 < |ts| ==> ts[t + 1].kind != Free
  {
    assert ts == ts[..t] + ts[t..];
    CoalescedAppend(ts[..t], ts[t..]);
  }

  //////////////////////////////////////////////////////////////////////////////
  // Free lists and byte counts of concatenations
  //////////////////////////////////////////////////////////////////////////////

  lemma {:induction false} FreeListAppend(xs: seq<Tile>, ys: seq<Tile>)
    ensures FreeList(xs + ys) == FreeList(xs) + FreeList(ys)
  {
    if xs == [] {
      assert xs + ys == ys;
    } else {
      assert (xs + ys)[1..] == xs[1..] + ys;
      FreeListAppend(xs[1..], ys);
    }
  }

  lemma {:induction false} BytesAppend(xs: seq<Tile>, ys: seq<Tile>, k: Kind)
    ensures Bytes(xs + ys, k) == Bytes(xs, k) + Bytes(ys, k)
  {
    if xs == [] {
      assert xs + ys == ys;
    } else {
      assert (xs + ys)[1..] == xs[1..] + ys;
      BytesAppend(xs[1..], ys, k);
    }
  }

  lemma FreeListOne(x: Tile)
    ensures FreeList([x]) == if x.kind == Free then [Block(x.addr, x.size)] else []
  {
    assert [x][1..] == [];
  }

  lemma BytesOne(x: Tile, k: Kind)
    ensures Bytes([x], k) == if x.kind == k then x.size else 0
  {
    assert [x][1..] == [];
  }

  lemma {:induction false} FreeList3(xs: seq<Tile>, ys: seq<Tile>, zs: seq<Tile>)
    ensures FreeList(xs + ys + zs) == FreeList(xs) + FreeList(ys) + FreeList(zs)
  {
    FreeListAppend(xs + ys, zs);
    FreeListAppend(xs, ys);
  }

  lemma {:induction false} Bytes3(xs: seq<Tile>, ys: seq<Tile>, zs: seq<Tile>, k: Kind)
    ensures Bytes(xs + ys + zs, k) == Bytes(xs, k) + Bytes(ys, k) + Bytes(zs, k)
  {
    BytesAppend(xs + ys, zs, k);
    BytesAppend(xs, ys, k);
  }

  lemma {:induction false} BytesNonneg(ts: seq<Tile>, k: Kind, lo: int, hi: int)
    requires Chain(ts, lo, hi)
    ensures Bytes(ts, k) >= 0
  {
    if ts != [] {
      BytesNonneg(ts[1..], k, ts[0].End(), hi);
    }
  }

  /** The kinds share out every byte of the range. */
  lemma {:induction false} BytesTotal(ts: seq<Tile>, lo: int, hi: int)
    requires Chain(ts, lo, hi)
    ensures Bytes(ts, Outside) + Bytes(ts, Free) + Bytes(ts, Used) + Bytes(ts, Cached) + Bytes(ts, Leaked) == hi - lo
  {
    if ts != [] {
      BytesTotal(ts[1..], ts[0].End(), hi);
    }
  }

  /** Free blocks lie inside the tiles they are taken from. */
  lemma {:induction false} FreeListInside(ts: seq<Tile>, lo: int, hi: int)
    requires Chain(ts, lo, hi)
    ensures lo <= hi
    ensures forall b <- FreeList(ts) :: lo <= b.addr && 0 < b.size && b.End() <= hi
  {
    if ts != [] {
      FreeListInside(ts[1..], ts[0].End(), hi);
    }
  }

  /** The free list of a coalesced chain is sorted, and neighbours never touch. */
  lemma {:induction false} FreeListWellFormed(ts: seq<Tile>, lo: int, hi: int)
    requires Chain(ts, lo, hi) && Coalesced(ts)
    ensures WellFormed(FreeList(ts))
  {
    if ts != [] {
      var rest := FreeList(ts[1..]);
      FreeListWellFormed(ts[1..], ts[0].End(), hi);
      if ts[0].kind == Free {
        FirstFreeIsApart(ts, lo, hi);
        assert forall j :: 0 <= j < |rest| ==> rest[j] in rest;
      }
    }
  }

  lemma {:induction false} FirstFreeIsApart(ts: seq<Tile>, lo: int, hi: int)
    requires Chain(ts, lo, hi) && |ts| > 0 && (|ts| > 1 ==> ts[1].kind != Free)
    ensures forall b <- FreeList(ts[1..]) :: ts[0].End() < b.addr && 0 < b.size
  {
    if |ts| > 1 {
      assert ts[1..][1..] == ts[2..];
      FreeListInside(ts[2..], ts[1].End(), hi);
    }
  }

  //////////////////////////////////////////////////////////////////////////////
  // Releasing an allocated tile
  //////////////////////////////////////////////////////////////////////////////

  /** Blocks wholly before an inserted block, without touching it, stay as they are. */
  lemma {:induction false} InsertAfter(before: seq<Block>, rest: seq<Block>, b: Block)
    requires b.size > 0
    requires forall x <- before :: 0 < x.size && x.End() < b.addr
    ensures InsertMerge(before + rest, b) == before + InsertMerge(rest, b)
  {
    if before == [] {
      assert before + rest == rest;
    } else {
      assert (before + rest)[1..] == before[1..] + rest;
      InsertAfter(before[1..], rest, b);
    }
  }

  /** Inserting a block between neighbours it may touch. */
  lemma {:induction false} InsertBetween(left: seq<Block>, right: seq<Block>, after: seq<Block>, b: Block)
    requires b.size > 0 && |left| <= 1 && |right| <= 1
    requires left != [] ==> left[0].End() == b.addr && left[0].size > 0
    requires right != [] ==> right[0].addr == b.End() && right[0].size > 0
    requires right == [] && after != [] ==> after[0].size > 0 && b.End() < after[0].addr
    ensures InsertMerge(left + right + after, b)
         == [Block(if left == [] then b.addr else left[0].addr,
                   (if left == [] then 0 else left[0].size) + b.size + (if right == [] then 0 else right[0].size))]
            + after
  {
    var c := if left == [] then b else Block(left[0].addr, left[0].size + b.size);
    assert InsertMerge(left + right + after, b) == InsertMerge(right + after, c) by {
      assert left + right + after == left + (right + after);
      if left == [] {
        assert left + (right + after) == right + after;
      } else {
        assert (left + (right + after))[1..] == right + after;
      }
    }
    if right == [] {
      assert right + after == after;
    } else {
      assert (right + after)[1..] == after;
    }
  }

  /** The free blocks before the ones a tile joins end strictly before the tile. */
  lemma {:induction false} FreeBefore(ts: seq<Tile>, t: nat, lo: int, hi: int)
    requires Chain(ts, lo, hi) && t < |ts|
    ensures forall b <- FreeList(ts[..Left(ts, t)]) :: 0 < b.size && b.End() < ts[t].addr
  {
    var l := Left(ts, t);
    if t > 0 {
      ChainSplit(ts, t - 1, lo, hi);
      FreeListInside(ts[..t - 1], lo, ts[t - 1].addr);
      TileBounds(ts, t - 1, lo, hi);
      if l == t {
        assert ts[..l] == ts[..t - 1] + [ts[t - 1]];
        FreeListAppend(ts[..t - 1], [ts[t - 1]]);
        FreeListOne(ts[t - 1]);
      }
    }
  }

  lemma {:induction false} FreeAfter(ts: seq<Tile>, t: nat, lo: int, hi: int)
    requires Chain(ts, lo, hi) && t < |ts|
    ensures var after := FreeList(ts[Right(ts, t)..]);
      Right(ts, t) == t + 1 && after != [] ==> after[0].size > 0 && ts[t].End() < after[0].addr
  {
    if Right(ts, t) == t + 1 {
      ChainSplit(ts, t, lo, hi);
      FirstFreeIsApart(ts[t..], ts[t].addr, hi);
      assert ts[t..][1..] == ts[t + 1..];
    }
  }

  /** The free neighbours of a tile, as a list of at most one block each. */
  function LeftBlock(ts: seq<Tile>, t: nat): seq<Block>
    requires t < |ts|
  {
    if Left(ts, t) < t then [Block(ts[t - 1].addr, ts[t - 1].size)] else []
  }

  function RightBlock(ts: seq<Tile>, t: nat): seq<Block>
    requires t < |ts|
  {
    if t + 1 < Right(ts, t) then [Block(ts[t + 1].addr, ts[t + 1].size)] else []
  }

  lemma {:induction false} SplitFreeList(ts: seq<Tile>, t: nat)
    requires t < |ts| && ts[t].kind != Free
    ensures FreeList(ts) == FreeList(ts[..Left(ts, t)])
                            + (LeftBlock(ts, t) + RightBlock(ts, t) + FreeList(ts[Right(ts, t)..]))
  {
    assert ts == ts[..t] + [ts[t]] + ts[t + 1..];
    FreeList3(ts[..t], [ts[t]], ts[t + 1..]);
    FreeListOne(ts[t]);
    SplitLeft(ts, t);
    SplitRight(ts, t);
  }

  lemma {:induction false} SplitLeft(ts: seq<Tile>, t: nat)
    requires t < |ts|
    ensures FreeList(ts[..t]) == FreeList(ts[..Left(ts, t)]) + LeftBlock(ts, t)
  {
    if Left(ts, t) < t {
      assert ts[..t] == ts[..t - 1] + [ts[t - 1]];
      FreeListAppend(ts[..t - 1], [ts[t - 1]]);
      FreeListOne(ts[t - 1]);
    }
  }

  lemma {:induction false} SplitRight(ts: seq<Tile>, t: nat)
    requires t < |ts|
    ensures FreeList(ts[t + 1..]) == RightBlock(ts, t) + FreeList(ts[Right(ts, t)..])
  {
    if t + 1 < Right(ts, t) {
      assert ts[t + 1..][1..] == ts[t + 2..];
    }
  }

  lemma {:induction false} ReleasedFreeList(ts: seq<Tile>, t: nat)
    requires t < |ts|
    ensures var l, r := Left(ts, t), Right(ts, t);
      FreeList(Release(ts, t))
      == FreeList(ts[..l]) + ([Block(ts[l].addr, ts[r - 1].End() - ts[l].addr)] + FreeList(ts[r..]))
  {
    var l, r := Left(ts, t), Right(ts, t);
    var joined := Tile(ts[l].addr, ts[r - 1].End() - ts[l].addr, Free);
    FreeList3(ts[..l], [joined], ts[r..]);
    FreeListOne(joined);
  }

  /** Marking a tile free and joining its free neighbours is what the list insertion does. */
  lemma {:induction false} ReleaseFreeList(ts: seq<Tile>, t: nat)
    requires Tiling(ts) && t < |ts| && ts[t].kind != Free
    ensures FreeList(Release(ts, t)) == InsertMerge(FreeList(ts), Block(ts[t].addr, ts[t].size))
  {
    var b := Block(ts[t].addr, ts[t].size);
    var before, after := FreeList(ts[..Left(ts, t)]), FreeList(ts[Right(ts, t)..]);
    var left, right := LeftBlock(ts, t), RightBlock(ts, t);
    SplitFreeList(ts, t);
    ReleasedFreeList(ts, t);
    JoinBounds(ts, t);
    FreeBefore(ts, t, 0, LIMIT);
    InsertAfter(before, left + right + after, b);
    FreeAfter(ts, t, 0, LIMIT);
    InsertBetween(left, right, after, b);
  }

  /** The tiles joined by a release meet each other. */
  lemma {:induction false} JoinBounds(ts: seq<Tile>, t: nat)
    requires Tiling(ts) && t < |ts|
    ensures ts[t].size > 0
    ensures t > 0 ==> ts[t - 1].End() == ts[t].addr && ts[t - 1].size > 0
    ensures t + 1 < |ts| ==> ts[t].End() == ts[t + 1].addr && ts[t + 1].size > 0
  {
    TileBounds(ts, t, 0, LIMIT);
    if t > 0 { TileBounds(ts, t - 1, 0, LIMIT); }
    if t + 1 < |ts| { TileBounds(ts, t + 1, 0, LIMIT); }
  }

  lemma {:induction false} ReleaseTiling(ts: seq<Tile>, t: nat)
    requires Tiling(ts) && Coalesced(ts) && t < |ts| && ts[t].Allocated() && ts[t].size >= MIN_BLOCK
    ensures Tiling(Release(ts, t)) && Coalesced(Release(ts, t))
  {
    var l, r := Left(ts, t), Right(ts, t);
    var joined := Tile(ts[l].addr, ts[r - 1].End() - ts[l].addr, Free);
    JoinBounds(ts, t);
    TileBounds(ts, r - 1, 0, LIMIT);
    assert [joined][1..] == [];
    ReplaceChain(ts, l, r, [joined], 0, LIMIT);
    if l < t { CoalescedAt(ts, t - 1); }
    if t + 1 < r { CoalescedAt(ts, t + 1); }
    ReplaceCoalesced(ts, l, r, [joined]);
  }
}
