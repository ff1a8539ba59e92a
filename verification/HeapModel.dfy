/** The heap of malloc.c as a value: the free list and counters the program keeps, next to a
    history variable that tiles the address space and says who owns each byte. */
module HeapModel {
  import opened Arith
  import opened Bits

  /** MIN_MEMBLOCK_SIZE: `struct memory_block` takes 32 bytes when `size_t` is 64 bits wide. */
  const MIN_BLOCK := 32

  /** Addresses lie below 2^63, so that pointer differences fit the `ssize_t` gaps. */
  const LIMIT := 0x8000_0000_0000_0000

  datatype Block = Block(addr: int, size: int) {
    function End(): int { addr + size }
  }

  /** Who owns a byte: nobody yet (`Outside`), the free list, a caller, a cache that a discarder can
      empty, or nobody any more because the fragment was too small to keep. */
  datatype Kind = Outside | Free | Used | Cached | Leaked

  datatype Tile = Tile(addr: int, size: int, kind: Kind) {
    function End(): int { addr + size }
    predicate Allocated() { kind == Used || kind == Cached }
    predicate Holds(a: int) { addr <= a < End() }
  }

  datatype Heap = Heap(free: seq<Block>, freemem: nat, usedmem: nat, maxusedmem: nat,
                       cache: seq<Block>, tiles: seq<Tile>, physOffset: int)

  /** An allocation request: rounded size, effective alignment, offset from it. */
  datatype Request = Request(size: nat, granule: nat, offset: int)

  //////////////////////////////////////////////////////////////////////////////
  // Sizes and alignment
  //////////////////////////////////////////////////////////////////////////////

  /** Round a size up to whole blocks, in wrapping 64-bit arithmetic. */
  function RoundUp(size: nat): nat {
    var x := Wrap(size + MIN_BLOCK - 1);
    x - x % MIN_BLOCK
  }

  /** Round a length down to whole blocks. */
  function RoundDown(len: nat): nat {
    var x := Wrap(len);
    x - x % MIN_BLOCK
  }

  /** The program rounds with masks: clearing the low bits is what the two functions above say. */
  lemma MaskDown(x: nat)
    requires x < WORD
    ensures And(x, WORD - MIN_BLOCK) == x - x % MIN_BLOCK
  {
    hide And, Pow2;
    WordIsPow2();
    Pow2Five();
    AndNotMask(x, 5, 64);
  }

  /** Rounding gives the least sufficient multiple of the block size, and zero exactly when the
      request is zero or the addition overflows. */
  lemma RoundUpMeaning(size: nat)
    requires size < WORD
    ensures RoundUp(size) % MIN_BLOCK == 0
    ensures RoundUp(size) == 0 <==> size == 0 || size > WORD - MIN_BLOCK
    ensures RoundUp(size) != 0 ==> size <= RoundUp(size) < size + MIN_BLOCK && RoundUp(size) < WORD
  {
  }

  predicate ValidAlign(align: nat) {
    align == 0 || exists k: nat :: k < 64 && align == Pow2(k)
  }

  /** The mask built from the alignment: (align - 1) | (MIN_MEMBLOCK_SIZE - 1). */
  function AlignMask(align: nat): nat {
    Or(Wrap(align - 1), MIN_BLOCK - 1)
  }

  /** The effective alignment: at least the block size; align == 0 asks for one exact address. */
  function Granule(align: nat): (g: nat)
    ensures g > 0
  {
    if align == 0 then WORD else if align < MIN_BLOCK then MIN_BLOCK else align
  }

  /** Masking the distance to the requested offset is reduction modulo the effective alignment. */
  lemma MaskIsGranule(x: int, align: nat)
    requires ValidAlign(align)
    ensures And(Wrap(x), AlignMask(align)) == x % Granule(align)
    ensures Granule(align) % MIN_BLOCK == 0
  {
    hide And, Pow2, Granule, AlignMask;
    var m := GranuleIsPow2(align);
    AndMask(Wrap(x), m);
    WrapModulo(x, m);
    Pow2IsAligned(m);
  }

  lemma WrapModulo(x: int, m: nat)
    requires m <= 64
    ensures Wrap(x) % Pow2(m) == x % Pow2(m)
  {
    hide Pow2;
    WordIsPow2();
    Pow2Add(m, 64 - m);
    ModOfMultiple(x, Pow2(m), Pow2(64 - m));
  }

  lemma Pow2IsAligned(m: nat)
    requires m >= 5
    ensures Pow2(m) % MIN_BLOCK == 0
  {
    Pow2Add(5, m - 5);
    ModShift(0, Pow2(m - 5), 32);
  }

  lemma GranuleIsPow2(align: nat) returns (m: nat)
    requires ValidAlign(align)
    ensures 5 <= m <= 64 && Pow2(m) == Granule(align) && AlignMask(align) == Pow2(m) - 1
  {
    hide Or, Pow2;
    WordIsPow2();
    Pow2Five();
    var k: nat := 64;
    if align != 0 {
      k :| k < 64 && align == Pow2(k);
      Pow2Monotone(k, 64);
    }
    assert Wrap(align - 1) == Pow2(k) - 1;
    OrMask(k, 5);
    if k < 5 { Pow2Monotone(k, 5); } else { Pow2Monotone(5, k); }
    m := if k < 5 then 5 else k;
  }

  lemma Pow2Five()
    ensures Pow2(5) == MIN_BLOCK
  {
  }

  /** Bytes to skip in a block before the first suitably aligned address. */
  function Pre(physOffset: int, q: Request, b: Block): (n: nat)
    requires q.granule > 0
    ensures n < q.granule
  {
    (q.offset - (b.addr + physOffset)) % q.granule
  }

  predicate Aligned(physOffset: int, q: Request, addr: int)
    requires q.granule > 0
  {
    (addr + physOffset) % q.granule == q.offset % q.granule
  }

  /** The skipped distance leads to an aligned address, and no shorter one does. */
  lemma PreAligns(physOffset: int, q: Request, b: Block)
    requires q.granule > 0
    ensures Aligned(physOffset, q, b.addr + Pre(physOffset, q, b))
    ensures forall a :: b.addr <= a < b.addr + Pre(physOffset, q, b) ==> !Aligned(physOffset, q, a)
  {
    var g, d := q.granule, q.offset - (b.addr + physOffset);
    var p := d % g;
    assert b.addr + p + physOffset == q.offset + (-(d / g)) * g;
    ModShift(q.offset, -(d / g), g);
    forall a | b.addr <= a < b.addr + p
      ensures !Aligned(physOffset, q, a)
    {
      if Aligned(physOffset, q, a) {
        PreUnique(physOffset, q, b, a);
      }
    }
  }

  lemma PreUnique(physOffset: int, q: Request, b: Block, a: int)
    requires q.granule > 0 && Aligned(physOffset, q, a) && 0 <= a - b.addr < q.granule
    ensures Pre(physOffset, q, b) == a - b.addr
  {
    var g, x := q.granule, a + physOffset;
    var e := q.offset / g - x / g;
    assert q.offset - x == e * g;
    DivModUnique(q.offset - (b.addr + physOffset), g, e, a - b.addr);
  }

  predicate Fits(physOffset: int, q: Request, b: Block)
    requires q.granule > 0
  {
    Pre(physOffset, q, b) + q.size <= b.size
  }

  //////////////////////////////////////////////////////////////////////////////
  // What the operations do to the free list
  //////////////////////////////////////////////////////////////////////////////

  function FirstFit(free: seq<Block>, physOffset: int, q: Request): (i: nat)
    requires q.granule > 0
    ensures i <= |free|
    ensures i < |free| ==> Fits(physOffset, q, free[i])
    ensures forall j :: 0 <= j < i ==> !Fits(physOffset, q, free[j])
  {
    if free == [] || Fits(physOffset, q, free[0]) then 0
    else 1 + FirstFit(free[1..], physOffset, q)
  }

  /** A fragment that stays on the free list, if it is large enough. */
  function Keep(addr: int, size: int): seq<Block> {
    if size >= MIN_BLOCK then [Block(addr, size)] else []
  }

  /** Put a block into an address-ordered list, merging it with whatever it touches. */
  function InsertMerge(free: seq<Block>, b: Block): seq<Block>
    decreases |free|
  {
    if free == [] then [b]
    else if free[0].End() == b.addr then
      InsertMerge(free[1..], Block(free[0].addr, free[0].size + b.size))
    else if free[0].addr < b.End() then [free[0]] + InsertMerge(free[1..], b)
    else if free[0].addr == b.End() then [Block(b.addr, b.size + free[0].size)] + free[1..]
    else [b] + free
  }

  /** Ascending, large enough, and never touching: what check_blocks asserts. */
  ghost predicate WellFormed(free: seq<Block>) {
    && (forall i :: 0 <= i < |free| ==> free[i].size >= MIN_BLOCK)
    && (forall i, j :: 0 <= i < j < |free| ==> free[i].End() < free[j].addr)
  }

  //////////////////////////////////////////////////////////////////////////////
  // Tilings
  //////////////////////////////////////////////////////////////////////////////

  /** Nonempty tiles that follow each other without gap or overlap from lo to hi. */
  predicate Chain(ts: seq<Tile>, lo: int, hi: int) {
    if ts == [] then lo == hi
    else ts[0].addr == lo && ts[0].size > 0 && Chain(ts[1..], ts[0].End(), hi)
  }

  predicate Tiling(ts: seq<Tile>) {
    Chain(ts, 0, LIMIT) && ts != [] && ts[0].kind == Outside
  }

  /** Free tiles are large enough and fully coalesced. */
  predicate Coalesced(ts: seq<Tile>) {
    ts != [] ==>
      && (ts[0].kind == Free ==> ts[0].size >= MIN_BLOCK && (|ts| > 1 ==> ts[1].kind != Free))
      && Coalesced(ts[1..])
  }

  function FreeList(ts: seq<Tile>): seq<Block> {
    if ts == [] then []
    else (if ts[0].kind == Free then [Block(ts[0].addr, ts[0].size)] else []) + FreeList(ts[1..])
  }

  function Bytes(ts: seq<Tile>, k: Kind): int {
    if ts == [] then 0
    else (if ts[0].kind == k then ts[0].size else 0) + Bytes(ts[1..], k)
  }

  /** The tile that starts at an address, if there is one. */
  function TileAt(ts: seq<Tile>, addr: int): (t: nat)
    ensures t <= |ts|
    ensures t < |ts| ==> ts[t].addr == addr
    ensures forall i :: 0 <= i < t ==> ts[i].addr != addr
  {
    if ts == [] || ts[0].addr == addr then 0 else 1 + TileAt(ts[1..], addr)
  }

  /** The tile that covers an address, if there is one. */
  function TileOf(ts: seq<Tile>, a: int): (t: nat)
    ensures t <= |ts|
    ensures t < |ts| ==> ts[t].Holds(a)
  {
    if ts == [] || ts[0].Holds(a) then 0 else 1 + TileOf(ts[1..], a)
  }

  function Splice(ts: seq<Tile>, t: nat, parts: seq<Tile>): seq<Tile>
    requires t < |ts|
  {
    ts[..t] + parts + ts[t + 1..]
  }

  /** What becomes of a fragment at the edge of an allocation. */
  function Edge(addr: int, size: int): seq<Tile> {
    if size <= 0 then []
    else [Tile(addr, size, if size >= MIN_BLOCK then Free else Leaked)]
  }

  /** The tiles that replace a free block when n bytes are carved out of it. */
  function Parts(addr: int, pre: int, n: int, post: int): seq<Tile> {
    Edge(addr, pre) + [Tile(addr + pre, n, Used)] + Edge(addr + pre + n, post)
  }

  function OutsideEdge(addr: int, size: int): seq<Tile> {
    if size <= 0 then [] else [Tile(addr, size, Outside)]
  }

  /** First and one-past-last tile that join tile t when it becomes free. */
  function Left(ts: seq<Tile>, t: nat): (l: nat)
    requires t < |ts|
    ensures l <= t
  {
    if t > 0 && ts[t - 1].kind == Free then t - 1 else t
  }

  function Right(ts: seq<Tile>, t: nat): (r: nat)
    requires t < |ts|
    ensures t < r <= |ts|
  {
    if t + 1 < |ts| && ts[t + 1].kind == Free then t + 2 else t + 1
  }

  function Release(ts: seq<Tile>, t: nat): seq<Tile>
    requires t < |ts|
  {
    var l, r := Left(ts, t), Right(ts, t);
    ts[..l] + [Tile(ts[l].addr, ts[r - 1].End() - ts[l].addr, Free)] + ts[r..]
  }

  //////////////////////////////////////////////////////////////////////////////
  // The operations
  //////////////////////////////////////////////////////////////////////////////

  function Max(a: nat, b: nat): nat { if a < b then b else a }

  function FreeMemblock(h: Heap, ptr: int, size: nat): Heap {
    if ptr == 0 then h
    else
      var b := Block(ptr, RoundUp(size));
      var t := TileAt(h.tiles, ptr);
      h.(free := InsertMerge(h.free, b),
         freemem := Wrap(h.freemem + b.size),
         usedmem := Wrap(h.usedmem - b.size),
         tiles := if t < |h.tiles| then Release(h.tiles, t) else h.tiles)
  }

  /** Carve n bytes out of free block i, after skipping `pre` bytes. */
  function Carve(h: Heap, i: nat, pre: nat, n: nat): Heap
    requires i < |h.free|
  {
    var b := h.free[i];
    var post := b.size - pre - n;
    var t := TileAt(h.tiles, b.addr);
    var used := Wrap(h.usedmem + n);
    h.(free := h.free[..i] + Keep(b.addr, pre) + Keep(b.addr + pre + n, post) + h.free[i + 1..],
       freemem := Wrap(h.freemem - n),
       usedmem := used,
       maxusedmem := Max(used, h.maxusedmem),
       tiles := if t < |h.tiles| then Splice(h.tiles, t, Parts(b.addr, pre, n, post)) else h.tiles)
  }

  /** Discard one cached item, freeing its block. */
  function Discard(h: Heap): Heap
    requires |h.cache| > 0 && h.cache[0].size >= 0
  {
    FreeMemblock(h.(cache := h.cache[1..]), h.cache[0].addr, h.cache[0].size)
  }

  /** Allocate, discarding cached items one at a time for as long as nothing fits. */
  function Allocate(h: Heap, q: Request): (Heap, int)
    requires q.granule > 0
    requires forall c <- h.cache :: c.size >= 0
    decreases |h.cache|
  {
    var i := FirstFit(h.free, h.physOffset, q);
    if i < |h.free| then
      var pre := Pre(h.physOffset, q, h.free[i]);
      (Carve(h, i, pre, q.size), h.free[i].addr + pre)
    else if h.cache == [] then (h, 0)
    else Allocate(Discard(h), q)
  }

  function AllocMemblock(h: Heap, size: nat, align: nat, offset: nat): (Heap, int)
    requires forall c <- h.cache :: c.size >= 0
  {
    if RoundUp(size) == 0 then (h, 0)
    else Allocate(h, Request(RoundUp(size), Granule(align), offset))
  }

  /** The tiles once [start, start + n) is labelled as held. */
  function Given(ts: seq<Tile>, t: nat, start: int, n: nat): seq<Tile>
    requires t < |ts|
  {
    Splice(ts, t, OutsideEdge(ts[t].addr, start - ts[t].addr) + [Tile(start, n, Used)]
                  + OutsideEdge(start + n, ts[t].End() - (start + n)))
  }

  /** Hand n bytes to the allocator: label them held, free them, and correct the used count. */
  function HandOver(h: Heap, start: int, n: nat): Heap {
    var t := TileOf(h.tiles, start);
    var given := if t < |h.tiles| then h.(tiles := Given(h.tiles, t, start, n)) else h;
    var freed := FreeMemblock(given, start, n);
    freed.(usedmem := Wrap(freed.usedmem + n))
  }

  function Populate(h: Heap, start: int, len: nat): Heap {
    HandOver(h, start, RoundDown(len))
  }

  //////////////////////////////////////////////////////////////////////////////
  // The invariant
  //////////////////////////////////////////////////////////////////////////////

  ghost predicate CacheOk(cache: seq<Block>, ts: seq<Tile>) {
    && (forall i :: 0 <= i < |cache| ==> Tile(cache[i].addr, cache[i].size, Cached) in ts)
    && (forall i, j :: 0 <= i < j < |cache| ==> cache[i].addr != cache[j].addr)
  }

  /** Sizes of allocated blocks are whole multiples of the block size. */
  ghost predicate WholeBlocks(ts: seq<Tile>) {
    forall t <- ts :: t.Allocated() ==> t.size % MIN_BLOCK == 0
  }

  ghost predicate Shape(h: Heap) {
    && Tiling(h.tiles) && Coalesced(h.tiles) && WholeBlocks(h.tiles)
    && h.free == FreeList(h.tiles)
    && CacheOk(h.cache, h.tiles)
  }

  ghost predicate Counters(h: Heap) {
    && h.freemem == Bytes(h.tiles, Free) + Bytes(h.tiles, Leaked)
    && h.usedmem == Bytes(h.tiles, Used) + Bytes(h.tiles, Cached)
    && h.usedmem <= h.maxusedmem
  }

  ghost predicate Inv(h: Heap) {
    Shape(h) && Counters(h)
  }

  /** A heap before any memory has been handed to it. */
  function Initial(physOffset: int): (h: Heap)
    ensures Inv(h)
  {
    Heap([], 0, 0, 0, [], [Tile(0, LIMIT, Outside)], physOffset)
  }
}
