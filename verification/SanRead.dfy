/** sandev_rw and sandev_read of sanboot.c: the fragments of a transfer, and the override that is laid over
    what has been read. */
module SanRead {
  import opened Arith

  const UINT := 0x1_0000_0000
  const UINT64 := 0x1_0000_0000_0000_0000

  //////////////////////////////////////////////////////////////////////////////
  // Fragments
  //////////////////////////////////////////////////////////////////////////////

  /** The size of a number of blocks. */
  function Bytes(blocks: nat, blksize: nat): nat {
    blocks * blksize
  }

  /** One command: its first block, its number of blocks, and where its data goes in the buffer. */
  datatype Fragment = Fragment(lba: nat, count: nat, offset: nat)

  /** The fragments cover the blocks from first to last in order, each once, and their data is laid out without gaps.
      Each is as long as the limit and the blocks up to `end`, all that are to be read, allow. */
  ghost predicate Tiles(frags: seq<Fragment>, first: nat, last: nat, end: nat, limit: nat, offset: nat, blksize: nat)
    decreases |frags|
  {
    if frags == [] then first == last
    else
      && first < end && 0 < limit
      && frags[0] == Fragment(first, if end - first < limit then end - first else limit, offset)
      && Tiles(frags[1..], first + frags[0].count, last, end, limit, offset + Bytes(frags[0].count, blksize), blksize)
  }

  lemma {:induction false} TilesAppend(frags: seq<Fragment>, first: nat, last: nat, end: nat, limit: nat, offset: nat,
                                       blksize: nat, f: Fragment)
    requires Tiles(frags, first, last, end, limit, offset, blksize)
    requires first <= last < end && 0 < limit && f.lba == last
    requires f.count == (if end - last < limit then end - last else limit) && f.offset == offset + Bytes(last - first, blksize)
    ensures Tiles(frags + [f], first, last + f.count, end, limit, offset, blksize)
    decreases |frags|
  {
    if frags == [] {
      assert (frags + [f])[1..] == [];
    } else {
      var g := frags[0];
      assert (frags + [f])[1..] == frags[1..] + [f];
      var k := Bytes(g.count, blksize);
      TilesOrder(frags[1..], first + g.count, last, end, limit, offset + k, blksize);
      Advance(last - first, g.count, blksize);
      TilesAppend(frags[1..], first + g.count, last, end, limit, offset + Bytes(g.count, blksize), blksize, f);
    }
  }

  lemma {:induction false} TilesOrder(frags: seq<Fragment>, first: nat, last: nat, end: nat, limit: nat, offset: nat,
                                      blksize: nat)
    requires Tiles(frags, first, last, end, limit, offset, blksize)
    ensures first <= last
    decreases |frags|
  {
    if frags != [] {
      TilesOrder(frags[1..], first + frags[0].count, last, end, limit, offset + Bytes(frags[0].count, blksize), blksize);
    }
  }

  lemma Advance(n: nat, k: nat, b: nat)
    requires k <= n
    ensures n * b == k * b + (n - k) * b
  {
  }

  /** count << shift in an unsigned int. */
  function Remaining(count: nat, shift: nat): (r: nat)
    ensures r < UINT
  {
    count * Pow2(shift) % UINT
  }

  /** Nothing of the request is lost exactly when its block count fits. */
  lemma RemainingExact(count: nat, shift: nat)
    ensures Remaining(count, shift) == count * Pow2(shift) <==> count * Pow2(shift) < UINT
    ensures Remaining(count, shift) <= count * Pow2(shift)
  {
    var n := count * Pow2(shift);
    if n < UINT {
      SmallModulo(n, UINT);
    }
  }

  /** A request for 2^31 blocks of twice the device's block size reads nothing. */
  lemma RemainingExample()
    ensures Remaining(0x8000_0000, 1) == 0
  {
    assert Pow2(1) == 2;
  }

  //////////////////////////////////////////////////////////////////////////////
  // The override
  //////////////////////////////////////////////////////////////////////////////

  /** The byte at address a: the last range that covers it wins, and otherwise it is what was there. */
  function Overlaid(base: bv8, over: seq<bv8>, locs: seq<nat>, a: nat): bv8
    decreases |locs|
  {
    if locs == [] then base
    else
      var loc := locs[|locs| - 1];
      if loc <= a < loc + |over| then over[a - loc] else Overlaid(base, over, locs[..|locs| - 1], a)
  }

  /** Range k decides the byte at address a: it covers it, and no later range does. */
  ghost predicate LastToCover(n: nat, locs: seq<nat>, a: nat, k: nat) {
    k < |locs| && locs[k] <= a < locs[k] + n && forall j :: k < j < |locs| ==> !(locs[j] <= a < locs[j] + n)
  }

  /** Later ranges win over earlier ones, and a byte that no range covers stays. */
  lemma {:induction false} OverlaidExactly(base: bv8, over: seq<bv8>, locs: seq<nat>, a: nat)
    ensures forall k: nat :: LastToCover(|over|, locs, a, k) ==> Overlaid(base, over, locs, a) == over[a - locs[k]]
    ensures (forall k :: 0 <= k < |locs| ==> !(locs[k] <= a < locs[k] + |over|)) ==> Overlaid(base, over, locs, a) == base
    decreases |locs|
  {
    if locs != [] {
      var front := locs[..|locs| - 1];
      OverlaidExactly(base, over, front, a);
      forall k: nat | LastToCover(|over|, locs, a, k)
        ensures Overlaid(base, over, locs, a) == over[a - locs[k]]
      {
        if k < |front| {
          assert LastToCover(|over|, front, a, k);
        }
      }
    }
  }

  /** What a read of the given extent returns. */
  function Extent(disk: seq<bv8>, over: seq<bv8>, locs: seq<nat>, seek: nat, len: nat): (r: seq<bv8>)
    requires seek + len <= |disk|
    ensures |r| == len
    ensures forall i :: 0 <= i < len ==> r[i] == Overlaid(disk[seek + i], over, locs, seek + i)
  {
    seq(len, i requires 0 <= i < len => Overlaid(disk[seek + i], over, locs, seek + i))
  }

  /** Reading two adjacent extents is reading both at once. */
  lemma AdjacentExtents(disk: seq<bv8>, over: seq<bv8>, locs: seq<nat>, seek: nat, a: nat, b: nat)
    requires seek + a + b <= |disk|
    ensures Extent(disk, over, locs, seek, a) + Extent(disk, over, locs, seek + a, b) == Extent(disk, over, locs, seek, a + b)
  {
    hide Overlaid;
    var x, y, z := Extent(disk, over, locs, seek, a), Extent(disk, over, locs, seek + a, b), Extent(disk, over, locs, seek, a + b);
    forall i | 0 <= i < a + b
      ensures (x + y)[i] == z[i]
    {
      if i >= a {
        assert seek + a + (i - a) == seek + i;
      }
    }
    assert x + y == z;
  }

  /** memcpy. */
  method Copy(dst: array<bv8>, at: nat, src: seq<bv8>, from: nat, n: nat)
    requires at + n <= dst.Length && from + n <= |src|
    modifies dst
    ensures forall i :: 0 <= i < dst.Length ==>
              dst[i] == if at <= i < at + n then src[from + i - at] else old(dst[i])
  {
    for k := 0 to n
      invariant forall i :: 0 <= i < dst.Length ==>
                  dst[i] == if at <= i < at + k then src[from + i - at] else old(dst[i])
    {
      dst[at + k] := src[from + k];
    }
  }

  /** One override range, cut to the extent that was read. */
  method OverrideOne(buffer: array<bv8>, over: seq<bv8>, seek: nat, rangeStart: nat)
    requires seek + buffer.Length < UINT64 && rangeStart + |over| < UINT64
    modifies buffer
    ensures forall i :: 0 <= i < buffer.Length ==>
              buffer[i] == if rangeStart <= seek + i < rangeStart + |over| then over[seek + i - rangeStart] else old(buffer[i])
  {
    var len := buffer.Length;
    var rangeLen := |over|;
    var rangeEnd := rangeStart + rangeLen;
    if seek + len <= rangeStart || seek >= rangeEnd {
      // no override
    } else if seek <= rangeStart {
      var overLen := if seek + len <= rangeEnd then seek + len - rangeStart else rangeLen;
      Copy(buffer, rangeStart - seek, over, 0, overLen);
    } else {
      var overLen := if seek + len <= rangeEnd then len else rangeEnd - seek;
      Copy(buffer, 0, over, seek - rangeStart, overLen);
    }
  }

  /** The override loop of sandev_read. */
  method Override(buffer: array<bv8>, over: seq<bv8>, locs: seq<nat>, seek: nat)
    requires seek + buffer.Length < UINT64
    requires forall k :: 0 <= k < |locs| ==> locs[k] + |over| < UINT64
    modifies buffer
    ensures forall i :: 0 <= i < buffer.Length ==> buffer[i] == Overlaid(old(buffer[i]), over, locs, seek + i)
  {
    for k := 0 to |locs|
      invariant forall i :: 0 <= i < buffer.Length ==> buffer[i] == Overlaid(old(buffer[i]), over, locs[..k], seek + i)
    {
      OverrideOne(buffer, over, seek, locs[k]);
      assert locs[..k + 1][..k] == locs[..k];
    }
    assert locs[..|locs|] == locs;
  }

  //////////////////////////////////////////////////////////////////////////////
  // Reading
  //////////////////////////////////////////////////////////////////////////////

  lemma Scale(a: nat, k: nat, b: nat)
    ensures (a + k) * b == a * b + k * b
  {
  }

  lemma ScaleBound(k: nat, n: nat, b: nat)
    requires k <= n
    ensures k * b <= n * b
  {
  }

  /** The fragment loop of sandev_rw for a read: results holds the status of each command in turn, zero when
      none is given. */
  method ReadFragments(buffer: array<bv8>, disk: seq<bv8>, first: nat, total: nat, maxCount: nat, blksize: nat,
                       results: seq<int>)
    returns (rc: int, frags: seq<Fragment>, done: nat)
    requires maxCount > 0 && Bytes(total, blksize) <= buffer.Length && Bytes(first, blksize) + Bytes(total, blksize) <= |disk|
    modifies buffer
    ensures Tiles(frags, first, first + done, first + total, maxCount, 0, blksize)
    ensures done <= total && (rc == 0 <==> done == total)
    ensures FirstFailure(results, |frags|, rc)
    ensures Filled(old(buffer[..]), buffer[..], disk, Bytes(first, blksize), Bytes(done, blksize))
  {
    var lba, remaining, offset, count := first, total, 0, maxCount;
    frags, done := [], 0;
    ghost var base := Bytes(first, blksize);
    hide Filled, Tiles, Bytes, FirstFailure;
    NoneFailed(results);
    NoBytes(blksize);
    NoneFilled(buffer[..], disk, base);
    NoTiles(first, first + total, maxCount, blksize);
    while remaining > 0
      invariant 0 <= remaining && done + remaining == total && lba == first + done && offset == Bytes(done, blksize)
      invariant Tiles(frags, first, lba, first + total, maxCount, 0, blksize)
      invariant (remaining > 0 ==> count == maxCount) && FirstFailure(results, |frags|, 0)
      invariant Filled(old(buffer[..]), buffer[..], disk, base, offset)
    {
      if count > remaining {
        count := remaining;
      }
      rc := if |frags| < |results| then results[|frags|] else 0;
      NextStatus(results, |frags|);
      if rc != 0 {
        return;
      }
      NextFragment(first, done, count, total, blksize);
      var fragLen := Bytes(count, blksize);
      Transfer(buffer, disk, base, offset, fragLen, Bytes(lba, blksize), old(buffer[..]));
      TilesAppend(frags, first, lba, first + total, maxCount, 0, blksize, Fragment(lba, count, offset));
      frags := frags + [Fragment(lba, count, offset)];
      offset := offset + fragLen;
      lba := lba + count;
      remaining := remaining - count;
      done := done + count;
    }
    rc := 0;
  }

  /** Commands succeed until one fails; n succeeded, and rc is the status of the next if that failed. */
  ghost predicate FirstFailure(results: seq<int>, n: nat, rc: int) {
    && (forall k :: 0 <= k < n && k < |results| ==> results[k] == 0)
    && (rc != 0 ==> n < |results| && rc == results[n])
  }

  lemma NoneFailed(results: seq<int>)
    ensures FirstFailure(results, 0, 0)
  {
  }

  lemma NextStatus(results: seq<int>, n: nat)
    requires FirstFailure(results, n, 0)
    ensures var rc := if n < |results| then results[n] else 0;
      FirstFailure(results, n, rc) && (rc == 0 ==> FirstFailure(results, n + 1, 0))
  {
  }

  /** The first n bytes have been read from the disk, the others are as they were. */
  ghost predicate Filled(was: seq<bv8>, now: seq<bv8>, disk: seq<bv8>, base: nat, n: nat) {
    && |was| == |now| && n <= |now| && base + n <= |disk|
    && forall i :: 0 <= i < |now| ==> now[i] == if i < n then disk[base + i] else was[i]
  }

  lemma NoBytes(blksize: nat)
    ensures Bytes(0, blksize) == 0
  {
  }

  lemma NoneFilled(was: seq<bv8>, disk: seq<bv8>, base: nat)
    requires base <= |disk|
    ensures Filled(was, was, disk, base, 0)
  {
  }

  lemma NoTiles(first: nat, end: nat, limit: nat, blksize: nat)
    ensures Tiles([], first, first, end, limit, 0, blksize)
  {
  }

  method Transfer(buffer: array<bv8>, disk: seq<bv8>, ghost base: nat, offset: nat, n: nat, from: nat, ghost was: seq<bv8>)
    requires Filled(was, buffer[..], disk, base, offset)
    requires from == base + offset && offset + n <= buffer.Length && from + n <= |disk|
    modifies buffer
    ensures Filled(was, buffer[..], disk, base, offset + n)
  {
    Copy(buffer, offset, disk, from, n);
  }

  lemma NextFragment(first: nat, done: nat, count: nat, total: nat, blksize: nat)
    requires done + count <= total
    ensures Bytes(done + count, blksize) == Bytes(done, blksize) + Bytes(count, blksize) <= Bytes(total, blksize)
    ensures Bytes(first + done, blksize) == Bytes(first, blksize) + Bytes(done, blksize)
  {
    Scale(done, count, blksize);
    Scale(first, done, blksize);
    ScaleBound(done + count, total, blksize);
  }

  /** sandev_read. The extent and the override ranges lie below 2^64 bytes. */
  method Read(buffer: array<bv8>, disk: seq<bv8>, lba: nat, count: nat, shift: nat, maxCount: nat, blksize: nat,
              over: seq<bv8>, locs: seq<nat>, results: seq<int>)
    returns (rc: int, frags: seq<Fragment>, done: nat)
    requires maxCount > 0
    requires buffer.Length == count * Pow2(shift) * blksize
    requires lba * Pow2(shift) * blksize + buffer.Length <= |disk| < UINT64
    requires forall k :: 0 <= k < |locs| ==> locs[k] + |over| < UINT64
    modifies buffer
    ensures var first, total := lba * Pow2(shift), Remaining(count, shift);
      && Tiles(frags, first, first + done, first + total, maxCount, 0, blksize)
      && FirstFailure(results, |frags|, rc) && done <= total && (rc == 0 <==> done == total)
      && (rc != 0 ==> Filled(old(buffer[..]), buffer[..], disk, Bytes(first, blksize), Bytes(done, blksize)))
    ensures rc == 0 && count * Pow2(shift) < UINT ==>
              buffer[..] == Extent(disk, over, locs, lba * Pow2(shift) * blksize, buffer.Length)
    ensures rc == 0 ==> forall i :: 0 <= i < buffer.Length ==>
              buffer[i] == Overlaid(if i < Remaining(count, shift) * blksize then disk[lba * Pow2(shift) * blksize + i]
                                    else old(buffer[i]), over, locs, lba * Pow2(shift) * blksize + i)
  {
    hide Pow2, Tiles, FirstFailure;
    var first, total := lba * Pow2(shift), Remaining(count, shift);
    RemainingExact(count, shift);
    ScaleBound(total, count * Pow2(shift), blksize);
    rc, frags, done := ReadFragments(buffer, disk, first, total, maxCount, blksize, results);
    if rc != 0 {
      return;
    }
    var seek := first * blksize;
    Override(buffer, over, locs, seek);
  }
}
