/** The first-fit heap of src/mem.c as a transformation of its block list: `rt_malloc`,
    `rt_realloc`, `rt_free` with `plug_holes`, and what every run of them keeps. */
module SmallMem {
  import opened Blocks
  import opened Lists
  import opened Words

  const HEADER: nat := 12
  const MIN_SIZE: nat := 12

  /** `end` is the offset of `heap_end`, `lfree` the offset of the lowest-free cursor, `usedMem`
      and `maxMem` the statistics. */
  datatype Heap = Heap(blocks: seq<Block>, end: nat, lfree: nat, usedMem: int, maxMem: int)

  function UsedExtent(used: bool, extent: int): int { if used then extent else 0 }

  ghost predicate HasUsed(bs: seq<Block>) {
    exists i :: 0 <= i < |bs| && bs[i].used
  }

  /** The cursor is a free block, or the end of the heap while something is allocated. */
  ghost predicate CursorOk(h: Heap) {
    if h.lfree == h.end then HasUsed(h.blocks) else FreeBlock(h.blocks, h.lfree)
  }

  /** A used block may shrink to an empty payload, but never the last one, so that every payload
      address is below the end of the heap. */
  ghost predicate LastHasRoom(bs: seq<Block>, end: nat) {
    bs != [] && bs[|bs| - 1].off + HEADER < end
  }

  /** What every run keeps. */
  ghost predicate Valid(h: Heap) {
    && Tiled(h.blocks, h.end, HEADER) && Coalesced(h.blocks) && CursorOk(h)
    && h.end >= HEADER + MIN_SIZE && LastHasRoom(h.blocks, h.end)
    && h.usedMem == Total(h.blocks, h.end, UsedExtent) && h.usedMem <= h.maxMem
  }

  /** In runs without `rt_realloc`: the cursor is the lowest free block, or the end. */
  ghost predicate Lowest(h: Heap) {
    && (forall i :: 0 <= i < |h.blocks| && !h.blocks[i].used ==> h.lfree <= h.blocks[i].off)
    && CursorOk(h)
  }

  /** The bytes `p..next` were handed out and not freed. */
  ghost predicate Allocation(h: Heap, p: nat, next: nat) {
    p >= HEADER && Live(h.blocks, h.end, p - HEADER, next)
  }

  /** The payload size of the block at `p`. */
  ghost function Room(h: Heap, p: nat): nat {
    var i := if p < HEADER then |h.blocks| else IndexAt(h.blocks, p - HEADER);
    if i < |h.blocks| && p <= Next(h.blocks, h.end, i) then Next(h.blocks, h.end, i) - p else 0
  }

  ghost predicate Owned(h: Heap, p: nat) { exists next :: Allocation(h, p, next) }

  // ----- rt_system_heap_init -----

  function Init(size: nat): Heap { Heap([Block(0, false)], size + HEADER, 0, 0, 0) }

  // ----- plug_holes -----

  function PlugForward(h: Heap, i: nat): Heap
    requires i < |h.blocks|
  {
    var bs := h.blocks;
    if i + 1 < |bs| && !bs[i + 1].used then
      h.(blocks := Delete(bs, i + 1), lfree := if h.lfree == bs[i + 1].off then bs[i].off else h.lfree)
    else h
  }

  function PlugBackward(h: Heap, i: nat): Heap
    requires i < |h.blocks|
  {
    var bs := h.blocks;
    if i > 0 && !bs[i - 1].used then
      h.(blocks := Delete(bs, i), lfree := if h.lfree == bs[i].off then bs[i - 1].off else h.lfree)
    else h
  }

  function Plug(h: Heap, i: nat): Heap
    requires i < |h.blocks|
  {
    PlugBackward(PlugForward(h, i), i)
  }

  // ----- rt_malloc -----

  function Payload(bs: seq<Block>, end: nat, i: nat): int
    requires i < |bs|
  {
    Next(bs, end, i) - (bs[i].off + HEADER)
  }

  /** The search loop from block `i`: it stops at offset `limit`, which is the end less one header
      and the size, so a last block that fits exactly is not considered. */
  function FirstFit(bs: seq<Block>, end: nat, limit: int, size: nat, i: nat): (k: nat)
    requires i <= |bs|
    ensures i <= k <= |bs|
    decreases |bs| - i
  {
    if i == |bs| || bs[i].off >= limit then |bs|
    else if !bs[i].used && Payload(bs, end, i) >= size then i
    else FirstFit(bs, end, limit, size, i + 1)
  }

  /** The first free block at or after block `i`, or the end. */
  function NextFree(bs: seq<Block>, end: nat, i: nat): nat
    requires i <= |bs|
    decreases |bs| - i
  {
    if i == |bs| then end else if !bs[i].used then bs[i].off else NextFree(bs, end, i + 1)
  }

  /** The blocks after taking block `k` for `size` bytes: what is left is cut off when it can hold
      a block of its own. */
  function Taken(blocks: seq<Block>, end: nat, k: nat, size: nat): seq<Block>
    requires k < |blocks|
  {
    var bs := Mark(blocks, k, true);
    if Payload(bs, end, k) >= size + HEADER + MIN_SIZE then
      Insert(bs, k + 1, Block(bs[k].off + HEADER + size, false))
    else bs
  }

  function Take(h: Heap, k: nat, size: nat): Heap
    requires k < |h.blocks|
  {
    var off, bs := h.blocks[k].off, Taken(h.blocks, h.end, k, size);
    var used := h.usedMem + (Next(bs, h.end, k) - off);
    Heap(bs, h.end, if h.lfree == off then NextFree(bs, h.end, k) else h.lfree, used, Max(h.maxMem, used))
  }

  function Rounded(request: nat): nat {
    if Align(request) < MIN_SIZE then MIN_SIZE else Align(request)
  }

  function Malloc(h: Heap, request: nat): (Heap, Option<nat>) {
    if request == 0 || Align(request) > h.end - HEADER then (h, None) else MallocRounded(h, Rounded(request))
  }

  function MallocRounded(h: Heap, size: nat): (Heap, Option<nat>) {
    var k := FirstFit(h.blocks, h.end, h.end - HEADER - size, size, IndexAt(h.blocks, h.lfree));
    if k == |h.blocks| then (h, None) else (Take(h, k, size), Some(h.blocks[k].off + HEADER))
  }

  // ----- rt_free -----

  function Release(h: Heap, i: nat): Heap
    requires i < |h.blocks|
  {
    var off := h.blocks[i].off;
    h.(blocks := Mark(h.blocks, i, false), lfree := if off < h.lfree then off else h.lfree,
       usedMem := h.usedMem - (Next(h.blocks, h.end, i) - off))
  }

  /** Addresses outside the heap are ignored; any other must be an allocation. */
  function Free(h: Heap, p: nat): Heap {
    var i := if p < HEADER then |h.blocks| else IndexAt(h.blocks, p - HEADER);
    if p >= h.end || i == |h.blocks| then h else Plug(Release(h, i), i)
  }

  // ----- rt_realloc -----

  /** Cut the tail off block `i`, leaving it `size` bytes. */
  function Cut(h: Heap, i: nat, size: nat): Heap
    requires i < |h.blocks|
  {
    h.(blocks := Insert(h.blocks, i + 1, Block(h.blocks[i].off + HEADER + size, false)),
       usedMem := h.usedMem - (Payload(h.blocks, h.end, i) - size))
  }

  function Shrink(h: Heap, i: nat, size: nat): Heap
    requires i < |h.blocks|
  {
    Plug(Cut(h, i, size), i + 1)
  }

  function Realloc(h: Heap, p: Option<nat>, newsize: nat): (Heap, Option<nat>) {
    var size := Align(newsize);
    if size > h.end - HEADER then (h, None)
    else if p.None? then Malloc(h, size)
    else if p.value >= h.end then (h, p)
    else ReallocLive(h, p.value, size)
  }

  /** A live block is kept, shortened in place, or moved. */
  function ReallocLive(h: Heap, p: nat, size: nat): (Heap, Option<nat>) {
    var i := if p < HEADER then |h.blocks| else IndexAt(h.blocks, p - HEADER);
    if i == |h.blocks| then (h, Some(p))
    else
      var payload := Payload(h.blocks, h.end, i);
      if payload == size then (h, Some(p))
      else if size + HEADER + MIN_SIZE < payload then (Shrink(h, i, size), Some(p))
      else
        var (h', q) := Malloc(h, size);
        if q.None? then (h', None) else (Free(h', p), q)
  }

  // ----- merging keeps the heap -----

  ghost predicate SameAllocations(h: Heap, h': Heap) {
    forall q, next :: Allocation(h', q, next) <==> Allocation(h, q, next)
  }

  /** All neighbours except those of block `i` are coalesced. */
  ghost predicate CoalescedBut(bs: seq<Block>, i: nat) {
    forall k :: 0 <= k < |bs| - 1 && k + 1 != i && k != i ==> Separated(bs, k)
  }

  lemma PlugKeeps(h: Heap, i: nat)
    requires i < |h.blocks| && !h.blocks[i].used
    requires Tiled(h.blocks, h.end, HEADER) && CoalescedBut(h.blocks, i) && CursorOk(h)
    requires h.end >= HEADER + MIN_SIZE && LastHasRoom(h.blocks, h.end)
    requires h.usedMem == Total(h.blocks, h.end, UsedExtent) && h.usedMem <= h.maxMem
    ensures Valid(Plug(h, i))
    ensures SameAllocations(h, Plug(h, i))
    ensures Lowest(h) ==> Lowest(Plug(h, i))
  {
    hide Total;
    var h1 := PlugForward(h, i);
    PlugForwardKeeps(h, i);
    assert Plug(h, i) == PlugBackward(h1, i);
    PlugBackwardKeeps(h1, i);
  }

  lemma PlugForwardKeeps(h: Heap, i: nat)
    requires i < |h.blocks| && !h.blocks[i].used
    requires Tiled(h.blocks, h.end, HEADER) && CoalescedBut(h.blocks, i) && CursorOk(h) && LastHasRoom(h.blocks, h.end)
    ensures var h1 := PlugForward(h, i);
            && i < |h1.blocks| && h1.blocks[i] == h.blocks[i]
            && Tiled(h1.blocks, h.end, HEADER) && CursorOk(h1) && LastHasRoom(h1.blocks, h.end)
            && (forall k :: 0 <= k < |h1.blocks| - 1 && k + 1 != i ==> Separated(h1.blocks, k))
            && Total(h1.blocks, h.end, UsedExtent) == Total(h.blocks, h.end, UsedExtent)
            && SameAllocations(h, h1)
            && (Lowest(h) ==> Lowest(h1))
  {
    hide Total; hide SameAllocations;
    var bs := h.blocks;
    var h1 := PlugForward(h, i);
    SameIsSame(h, h1);
    if i + 1 < |bs| && !bs[i + 1].used {
      DeleteTiled(bs, h.end, HEADER, i + 1);
      TotalDelete(bs, h.end, UsedExtent, i + 1);
      DeleteSame(h, h1, i + 1);
      assert h1.blocks[i] == Block(bs[i].off, false);
      if h.lfree != bs[i + 1].off { CursorAfterDelete(h, i + 1); }
      Ordered(bs, h.end, HEADER, i, i + 1);
      Ordered(bs, h.end, HEADER, i, |bs|);
    }
    ForwardSeparated(bs, i);
  }

  lemma ForwardSeparated(bs: seq<Block>, i: nat)
    requires i < |bs| && !bs[i].used && CoalescedBut(bs, i)
    ensures var bs' := if i + 1 < |bs| && !bs[i + 1].used then Delete(bs, i + 1) else bs;
            forall k :: 0 <= k < |bs'| - 1 && k + 1 != i ==> Separated(bs', k)
  {
    var bs' := if i + 1 < |bs| && !bs[i + 1].used then Delete(bs, i + 1) else bs;
    forall k | 0 <= k < |bs'| - 1 && k + 1 != i ensures Separated(bs', k) {
      if bs' == bs { assert k != i ==> Separated(bs, k); } else { assert Separated(bs, if k < i then k else k + 1); }
    }
  }

  /** Deleting a free block changes no allocation. */
  lemma DeleteSame(h: Heap, h1: Heap, i: nat)
    requires Tiled(h.blocks, h.end, HEADER) && 0 < i < |h.blocks| && !h.blocks[i - 1].used && !h.blocks[i].used
    requires h1.blocks == Delete(h.blocks, i) && h1.end == h.end
    ensures SameAllocations(h, h1)
  {
    hide Tiled; hide Live;
    forall q: nat, next: nat ensures Allocation(h1, q, next) <==> Allocation(h, q, next) {
      if q >= HEADER { DeleteLive(h.blocks, h.end, i, q - HEADER, next); }
    }
  }

  lemma SameIsSame(h: Heap, h1: Heap)
    ensures h1 == h ==> SameAllocations(h, h1)
  {
  }

  lemma CursorAfterDelete(h: Heap, i: nat)
    requires i < |h.blocks| && !h.blocks[i].used && CursorOk(h) && h.lfree != h.blocks[i].off
    ensures CursorOk(h.(blocks := Delete(h.blocks, i)))
  {
    var bs := h.blocks;
    if h.lfree == h.end {
      var k :| 0 <= k < |bs| && bs[k].used;
      assert Delete(bs, i)[if k < i then k else k - 1] == bs[k];
    } else {
      var k :| 0 <= k < |bs| && bs[k] == Block(h.lfree, false);
      assert Delete(bs, i)[if k < i then k else k - 1] == bs[k];
    }
  }

  lemma CursorAfterInsert(h: Heap, i: nat, b: Block)
    requires i <= |h.blocks| && CursorOk(h)
    ensures CursorOk(h.(blocks := Insert(h.blocks, i, b)))
  {
    var bs := h.blocks;
    if h.lfree == h.end {
      var k :| 0 <= k < |bs| && bs[k].used;
      assert Insert(bs, i, b)[if k < i then k else k + 1] == bs[k];
    } else {
      var k :| 0 <= k < |bs| && bs[k] == Block(h.lfree, false);
      assert Insert(bs, i, b)[if k < i then k else k + 1] == bs[k];
    }
  }

  lemma PlugBackwardKeeps(h: Heap, i: nat)
    requires i < |h.blocks| && !h.blocks[i].used
    requires Tiled(h.blocks, h.end, HEADER) && CursorOk(h) && LastHasRoom(h.blocks, h.end)
    requires forall k :: 0 <= k < |h.blocks| - 1 && k + 1 != i ==> Separated(h.blocks, k)
    ensures var h1 := PlugBackward(h, i);
            && Tiled(h1.blocks, h.end, HEADER) && CursorOk(h1) && Coalesced(h1.blocks)
            && LastHasRoom(h1.blocks, h.end)
            && Total(h1.blocks, h.end, UsedExtent) == Total(h.blocks, h.end, UsedExtent)
            && SameAllocations(h, h1)
            && (Lowest(h) ==> Lowest(h1))
  {
    hide Total;
    var bs := h.blocks;
    var h1 := PlugBackward(h, i);
    if i > 0 && !bs[i - 1].used {
      DeleteTiled(bs, h.end, HEADER, i);
      TotalDelete(bs, h.end, UsedExtent, i);
      forall q: nat, next: nat ensures Allocation(h1, q, next) <==> Allocation(h, q, next) {
        if q >= HEADER { DeleteLive(bs, h.end, i, q - HEADER, next); }
      }
      assert h1.blocks[i - 1] == Block(bs[i - 1].off, false);
      if h.lfree != bs[i].off { CursorAfterDelete(h, i); }
      Ordered(bs, h.end, HEADER, i - 1, i);
      Ordered(bs, h.end, HEADER, i - 1, |bs|);
    }
    forall k | 0 <= k < |h1.blocks| - 1 ensures Separated(h1.blocks, k) {
      if h1.blocks == bs { assert k + 1 != i ==> Separated(bs, k); } else { assert Separated(bs, if k + 1 < i then k else k + 1); }
    }
  }

  // ----- rt_free -----

  /** Freeing an allocation gives back exactly that one. */
  lemma FreeKeeps(h: Heap, p: nat)
    requires Valid(h) && Owned(h, p)
    ensures Valid(Free(h, p)) && Free(h, p).end == h.end
    ensures forall q, next :: Allocation(Free(h, p), q, next) <==> Allocation(h, q, next) && q != p
    ensures Lowest(h) ==> Lowest(Free(h, p))
  {
    hide Total;
    var i := OwnedIndex(h, p);
    ReleaseKeeps(h, i);
    PlugKeeps(Release(h, i), i);
  }

  lemma ReleaseKeeps(h: Heap, i: nat)
    requires Valid(h) && i < |h.blocks| && h.blocks[i].used
    ensures var h1 := Release(h, i);
            && Tiled(h1.blocks, h.end, HEADER) && CoalescedBut(h1.blocks, i) && CursorOk(h1)
            && LastHasRoom(h1.blocks, h.end)
            && h1.usedMem == Total(h1.blocks, h.end, UsedExtent) && h1.usedMem <= h.maxMem
            && (forall q, next :: Allocation(h1, q, next) <==> Allocation(h, q, next) && q != h.blocks[i].off + HEADER)
            && (Lowest(h) ==> Lowest(h1))
  {
    hide Total;
    var bs, h1 := h.blocks, Release(h, i);
    MarkTiled(bs, h.end, HEADER, i, false);
    TotalMark(bs, h.end, UsedExtent, i, false);
    Ordered(bs, h.end, HEADER, i, |bs|);
    assert h1.blocks[i] == Block(bs[i].off, false);
    forall k | 0 <= k < |bs| - 1 && k + 1 != i && k != i ensures Separated(h1.blocks, k) { assert Separated(bs, k); }
    if bs[i].off >= h.lfree {
      var k :| 0 <= k < |bs| && bs[k] == Block(h.lfree, false);
      assert h1.blocks[k] == bs[k];
    }
    forall q: nat, next: nat ensures Allocation(h1, q, next) <==> Allocation(h, q, next) && q != bs[i].off + HEADER {
      if q >= HEADER { MarkLive(bs, h.end, HEADER, i, false, q - HEADER, next); }
    }
  }

  /** The block of an allocation, as `rt_free` and `rt_realloc` find it. */
  lemma OwnedIndex(h: Heap, p: nat) returns (i: nat)
    requires Valid(h) && Owned(h, p)
    ensures p >= HEADER && i < |h.blocks| && h.blocks[i] == Block(p - HEADER, true)
    ensures IndexAt(h.blocks, p - HEADER) == i && p <= Next(h.blocks, h.end, i) <= h.end
    ensures p < h.end
    ensures forall next :: Allocation(h, p, next) <==> next == Next(h.blocks, h.end, i)
  {
    hide Total; hide Coalesced; hide CursorOk; hide Tiled; hide Live;
    var next :| Allocation(h, p, next);
    i := LiveIndex(h.blocks, h.end, p - HEADER, next);
    IndexAtBlock(h.blocks, h.end, HEADER, i);
    Ordered(h.blocks, h.end, HEADER, i, |h.blocks|);
    if i + 1 < |h.blocks| { Ordered(h.blocks, h.end, HEADER, i, |h.blocks| - 1); }
    forall n: nat | Allocation(h, p, n) ensures n == next {
      assert Live(h.blocks, h.end, p - HEADER, n);
      LiveDisjoint(h.blocks, h.end, HEADER, p - HEADER, next, p - HEADER, n);
    }
  }

  // ----- rt_malloc -----

  lemma {:induction false} FirstFitIs(bs: seq<Block>, end: nat, header: nat, limit: int, size: nat, i: nat)
    requires Tiled(bs, end, header) && i <= |bs|
    ensures var k := FirstFit(bs, end, limit, size, i);
            && (k < |bs| ==> !bs[k].used && Payload(bs, end, k) >= size && bs[k].off < limit)
            && (forall j :: i <= j < k && !bs[j].used && Payload(bs, end, j) >= size ==> bs[j].off >= limit)
    decreases |bs| - i
  {
    if i < |bs| {
      if bs[i].off >= limit {
        forall j | i <= j < |bs| ensures bs[j].off >= limit {
          if i < j { Ordered(bs, end, header, i, j); }
        }
      } else if bs[i].used || Payload(bs, end, i) < size {
        FirstFitIs(bs, end, header, limit, size, i + 1);
      }
    }
  }

  lemma {:induction false} NextFreeIs(bs: seq<Block>, end: nat, header: nat, i: nat)
    requires Tiled(bs, end, header) && i <= |bs|
    ensures var off := NextFree(bs, end, i);
            && (off == end || FreeBlock(bs, off))
            && (forall j :: i <= j < |bs| && !bs[j].used ==> off <= bs[j].off)
    decreases |bs| - i
  {
    if i < |bs| {
      if bs[i].used {
        NextFreeIs(bs, end, header, i + 1);
      } else {
        assert bs[i] == Block(bs[i].off, false);
        forall j | i <= j < |bs| ensures bs[i].off <= bs[j].off {
          if i < j { Ordered(bs, end, header, i, j); }
        }
      }
    }
  }

  /** The allocations of `h'` are those of `h` and `p..next`. */
  ghost predicate Adds(h: Heap, h': Heap, p: nat, next: nat) {
    forall q, n :: Allocation(h', q, n) <==> Allocation(h, q, n) || (q == p && n == next)
  }

  ghost predicate AllocatesAtLeast(h: Heap, h': Heap, p: nat, size: nat) {
    exists next :: p + size <= next <= h.end && Adds(h, h', p, next)
  }

  /** The bound of the search loop excludes exactly one case: a last block of exactly this size. */
  lemma LimitExcludes(h: Heap, size: nat, j: nat)
    requires Valid(h) && j < |h.blocks| && Payload(h.blocks, h.end, j) >= size
    ensures h.blocks[j].off >= h.end - HEADER - size <==>
            j == |h.blocks| - 1 && Payload(h.blocks, h.end, j) == size
  {
    if j + 1 < |h.blocks| { Ordered(h.blocks, h.end, HEADER, j + 1, |h.blocks|); }
  }

  /** Taking a free block makes one new allocation of at least `size` bytes, and a heap again. */
  lemma TakeKeeps(h: Heap, k: nat, size: nat)
    requires Valid(h) && k < |h.blocks| && !h.blocks[k].used
    requires Payload(h.blocks, h.end, k) >= size >= MIN_SIZE && Aligned(size)
    ensures var h', p := Take(h, k, size), h.blocks[k].off + HEADER;
            && Valid(h') && h'.end == h.end && (Lowest(h) ==> Lowest(h'))
            && Aligned(p) && !Owned(h, p) && AllocatesAtLeast(h, h', p, size)
  {
    hide Total;
    TakeBlocks(h, k, size);
    TakeCursor(h, k, size);
    TakeAllocations(h, k, size);
    var h' := Take(h, k, size);
    Ordered(h'.blocks, h.end, HEADER, k, |h'.blocks|);
    assert Fits(h.blocks, h.end, HEADER, k);
    assert Adds(h, h', h.blocks[k].off + HEADER, Next(h'.blocks, h.end, k));
  }

  lemma TakeBlocks(h: Heap, k: nat, size: nat)
    requires Valid(h) && k < |h.blocks| && !h.blocks[k].used
    requires Payload(h.blocks, h.end, k) >= size >= MIN_SIZE && Aligned(size)
    ensures var bs := Taken(h.blocks, h.end, k, size);
            && Tiled(bs, h.end, HEADER) && Coalesced(bs) && LastHasRoom(bs, h.end)
            && k < |bs| && bs[k] == Block(h.blocks[k].off, true)
            && Total(bs, h.end, UsedExtent) == h.usedMem + (Next(bs, h.end, k) - bs[k].off)
            && Next(bs, h.end, k) >= h.blocks[k].off + HEADER + size
  {
    hide Tiled; hide Coalesced; hide LastHasRoom; hide UsedExtent;
    MarkUsedBlocks(h, k);
    var bs := Mark(h.blocks, k, true);
    if Payload(bs, h.end, k) >= size + HEADER + MIN_SIZE { CutBlocks(bs, h.end, k, size); }
  }

  lemma MarkUsedBlocks(h: Heap, k: nat)
    requires Valid(h) && k < |h.blocks| && !h.blocks[k].used
    ensures var bs := Mark(h.blocks, k, true);
            && Tiled(bs, h.end, HEADER) && Coalesced(bs) && LastHasRoom(bs, h.end)
            && (k + 1 < |bs| ==> bs[k + 1].used)
            && Total(bs, h.end, UsedExtent) == h.usedMem + (Next(bs, h.end, k) - bs[k].off)
  {
    hide Total;
    MarkTiled(h.blocks, h.end, HEADER, k, true);
    TotalMark(h.blocks, h.end, UsedExtent, k, true);
    forall j | 0 <= j < |h.blocks| - 1 ensures Separated(Mark(h.blocks, k, true), j) { assert Separated(h.blocks, j); }
    assert k + 1 < |h.blocks| ==> Separated(h.blocks, k);
  }

  /** A free remainder after a used block, before a used block or the end. */
  lemma CutBlocks(bs: seq<Block>, end: nat, k: nat, size: nat)
    requires Tiled(bs, end, HEADER) && Coalesced(bs) && LastHasRoom(bs, end)
    requires k < |bs| && bs[k].used && (k + 1 < |bs| ==> bs[k + 1].used)
    requires Payload(bs, end, k) >= size + HEADER + MIN_SIZE && Aligned(size)
    ensures var b := Block(bs[k].off + HEADER + size, false);
            var m := Insert(bs, k + 1, b);
            && Tiled(m, end, HEADER) && Coalesced(m) && LastHasRoom(m, end)
            && m[k] == bs[k] && m[k + 1] == b
            && Total(m, end, UsedExtent) == Total(bs, end, UsedExtent) - (Payload(bs, end, k) - size)
  {
    hide Total;
    var b := Block(bs[k].off + HEADER + size, false);
    assert Fits(bs, end, HEADER, k);
    InsertTiled(bs, end, HEADER, k + 1, b);
    TotalInsert(bs, end, UsedExtent, k + 1, b);
    var m := Insert(bs, k + 1, b);
    forall j | 0 <= j < |m| - 1 ensures Separated(m, j) {
      if j < k { assert Separated(bs, j); } else if j > k + 1 { assert Separated(bs, j - 1); }
    }
  }

  lemma TakeAllocations(h: Heap, k: nat, size: nat)
    requires Valid(h) && k < |h.blocks| && !h.blocks[k].used
    requires Payload(h.blocks, h.end, k) >= size >= MIN_SIZE && Aligned(size)
    ensures var h', p := Take(h, k, size), h.blocks[k].off + HEADER;
            && !Owned(h, p)
            && Adds(h, h', p, Next(h'.blocks, h.end, k))
  {
    var off := h.blocks[k].off;
    var bs := Mark(h.blocks, k, true);
    var b := Block(off + HEADER + size, false);
    MarkTiled(h.blocks, h.end, HEADER, k, true);
    var h' := Take(h, k, size);
    var p := off + HEADER;
    forall n: nat ensures !Allocation(h, p, n) {
      assert Mark(h.blocks, k, false) == h.blocks;
      MarkLive(h.blocks, h.end, HEADER, k, false, off, n);
    }
    forall q: nat, n: nat
      ensures Allocation(h', q, n) <==> Allocation(h, q, n) || (q == off + HEADER && n == Next(h'.blocks, h.end, k))
    {
      if q >= HEADER {
        MarkLive(h.blocks, h.end, HEADER, k, true, q - HEADER, n);
        if h'.blocks != bs { InsertLive(bs, h.end, HEADER, k + 1, b, q - HEADER, n); }
      }
    }
  }

  lemma TakeCursor(h: Heap, k: nat, size: nat)
    requires Valid(h) && k < |h.blocks| && !h.blocks[k].used
    requires Tiled(Take(h, k, size).blocks, h.end, HEADER)
    ensures CursorOk(Take(h, k, size)) && (Lowest(h) ==> Lowest(Take(h, k, size)))
  {
    hide Total; hide Coalesced; hide LastHasRoom; hide Tiled;
    var h' := Take(h, k, size);
    var bs, bs' := h.blocks, h'.blocks;
    NextFreeIs(bs', h.end, HEADER, k);
    assert bs'[k].used;
    forall j | 0 <= j < k ensures bs'[j] == bs[j] && (Lowest(h) && !bs[j].used ==> h.lfree <= bs[j].off < bs[k].off) {
      Ordered(bs, h.end, HEADER, j, k);
    }
    if h.lfree != bs[k].off && h.lfree != h.end {
      var f :| 0 <= f < |bs| && bs[f] == Block(h.lfree, false);
      assert bs'[if f < k then f else f + |bs'| - |bs|] == bs[f];
    }
    if Lowest(h) {
      forall j | 0 <= j < |bs'| && !bs'[j].used ensures h'.lfree <= bs'[j].off {
        if k < j { Ordered(bs', h.end, HEADER, k, j); }
      }
    }
  }

  /** The contract of `rt_malloc`: NULL leaves the heap untouched; otherwise the caller gets an
      aligned block of at least the requested size that nobody owned, and every other allocation
      stays what it was. */
  lemma MallocKeeps(h: Heap, request: nat)
    requires Valid(h)
    ensures var (h', r) := Malloc(h, request);
            && Valid(h') && h'.end == h.end && (Lowest(h) ==> Lowest(h'))
            && match r
               case None => h' == h
               case Some(p) =>
                 && Aligned(p) && !Owned(h, p)
                 && AllocatesAtLeast(h, h', p, Rounded(request))
  {
    hide Tiled; hide Take; hide Coalesced; hide Total;
    var size := Rounded(request);
    var from := IndexAt(h.blocks, h.lfree);
    FirstFitIs(h.blocks, h.end, HEADER, h.end - HEADER - size, size, from);
    var k := FirstFit(h.blocks, h.end, h.end - HEADER - size, size, from);
    if k < |h.blocks| { TakeKeeps(h, k, size); }
  }

  /** The block handed out is at least as long as the request, exactly when aligning the request
      does not wrap around 32 bits. */
  lemma RoundedCovers(request: nat)
    requires request < WRAP
    ensures Rounded(request) >= request <==> request <= WRAP - 4
  {
  }

  lemma RoundedAtLeast(size: nat)
    requires Aligned(size) && size < WRAP
    ensures size <= Rounded(size)
  {
    assert size <= WRAP - 4;
    AlignRoundsUp(size);
  }

  ghost predicate FitsBlock(h: Heap, size: nat, j: nat) {
    j < |h.blocks| && !h.blocks[j].used && Payload(h.blocks, h.end, j) >= size
  }

  /** The block that the search passes over although it fits. */
  ghost predicate ExactLast(h: Heap, size: nat, j: nat) {
    j == |h.blocks| - 1 && FitsBlock(h, size, j) && Payload(h.blocks, h.end, j) == size
  }

  /** With the cursor at the lowest free block, the search returns the lowest block that fits and
      is not an exact last one, and NULL exactly when there is none. */
  lemma MallocIsFirstFit(h: Heap, request: nat)
    requires Valid(h) && Lowest(h) && request > 0 && Align(request) <= h.end - HEADER
    ensures var size, r := Rounded(request), Malloc(h, request).1;
            && (r.None? <==> forall j: nat :: FitsBlock(h, size, j) ==> ExactLast(h, size, j))
            && (r.Some? ==> r.value >= HEADER && exists k: nat ::
                  FitsBlock(h, size, k) && !ExactLast(h, size, k) && h.blocks[k].off == r.value - HEADER
                  && forall j: nat :: j < k && FitsBlock(h, size, j) ==> ExactLast(h, size, j))
  {
    hide Total; hide Coalesced; hide IndexAt; hide Take; hide Fits;
    var size := Rounded(request);
    var limit, from := h.end - HEADER - size, IndexAt(h.blocks, h.lfree);
    FirstFitIs(h.blocks, h.end, HEADER, limit, size, from);
    var k := FirstFit(h.blocks, h.end, limit, size, from);
    forall j: nat | j < k && FitsBlock(h, size, j) ensures ExactLast(h, size, j) {
      LimitExcludes(h, size, j);
      CursorBefore(h, j);
    }
    if k < |h.blocks| {
      LimitExcludes(h, size, k);
      assert FitsBlock(h, size, k) && !ExactLast(h, size, k);
    }
  }

  lemma CursorBefore(h: Heap, j: nat)
    requires Valid(h) && Lowest(h) && j < |h.blocks| && !h.blocks[j].used
    ensures IndexAt(h.blocks, h.lfree) <= j
  {
    Ordered(h.blocks, h.end, HEADER, j, |h.blocks|);
    var f :| 0 <= f < |h.blocks| && h.blocks[f] == Block(h.lfree, false);
    IndexAtBlock(h.blocks, h.end, HEADER, f);
    if j < f { Ordered(h.blocks, h.end, HEADER, j, f); }
  }

  /** What the search may hand out: a free block from the cursor on that is large enough and no exact last one. */
  ghost predicate Eligible(h: Heap, size: nat, j: nat) {
    FitsBlock(h, size, j) && !ExactLast(h, size, j) && h.lfree <= h.blocks[j].off
  }

  ghost predicate NoneEligible(h: Heap, size: nat) { forall j: nat :: !Eligible(h, size, j) }

  ghost predicate FirstEligible(h: Heap, size: nat, k: nat) {
    Eligible(h, size, k) && forall j: nat :: j < k ==> !Eligible(h, size, j)
  }

  /** The first eligible block is handed out at `p`: cut to `size` bytes if what is left can hold a block, and whole
      if not. */
  ghost predicate Grants(h: Heap, h': Heap, p: nat, size: nat) {
    p >= HEADER && exists k: nat :: FirstEligible(h, size, k) && h.blocks[k].off == p - HEADER
                     && Adds(h, h', p, if Payload(h.blocks, h.end, k) < size + HEADER + MIN_SIZE
                                       then Next(h.blocks, h.end, k) else p + size)
  }

  /** The whole outcome of `rt_malloc`, wherever the cursor stands: NULL and no change for a size of zero or above
      the heap and if no block is eligible; otherwise a grant. */
  lemma MallocIs(h: Heap, request: nat)
    requires Valid(h)
    ensures var (h', r) := Malloc(h, request);
            if request == 0 || Align(request) > h.end - HEADER || NoneEligible(h, Rounded(request))
            then r == None && h' == h
            else r.Some? && Grants(h, h', r.value, Rounded(request))
  {
    hide Valid; hide Align; hide Rounded; hide Take; hide Adds; hide Eligible; hide FirstFit;
    if request > 0 && Align(request) <= h.end - HEADER {
      RoundedIs(request);
      SearchIs(h, Rounded(request));
    }
  }

  lemma RoundedIs(request: nat)
    ensures Aligned(Rounded(request)) && MIN_SIZE <= Rounded(request)
  {
  }

  lemma SearchIs(h: Heap, size: nat)
    requires Valid(h) && Aligned(size) && size >= MIN_SIZE
    ensures var k := FirstFit(h.blocks, h.end, h.end - HEADER - size, size, IndexAt(h.blocks, h.lfree));
            if k == |h.blocks| then NoneEligible(h, size)
            else FirstEligible(h, size, k) && Grants(h, Take(h, k, size), h.blocks[k].off + HEADER, size)
  {
    hide Total; hide Coalesced; hide Take; hide Fits; hide Adds; hide Aligned;
    var limit, from := h.end - HEADER - size, IndexAt(h.blocks, h.lfree);
    FirstFitIs(h.blocks, h.end, HEADER, limit, size, from);
    var k := FirstFit(h.blocks, h.end, limit, size, from);
    forall j: nat | j < k ensures !Eligible(h, size, j) {
      if FitsBlock(h, size, j) {
        LimitExcludes(h, size, j);
        CursorIndex(h, j);
      }
    }
    if k < |h.blocks| {
      LimitExcludes(h, size, k);
      CursorIndex(h, k);
      assert FirstEligible(h, size, k);
      TakeLength(h, k, size);
    }
  }

  /** A block at or after the cursor's index is one at or after its offset. */
  lemma CursorIndex(h: Heap, j: nat)
    requires Valid(h) && j < |h.blocks|
    ensures h.lfree <= h.blocks[j].off <==> IndexAt(h.blocks, h.lfree) <= j
  {
    Ordered(h.blocks, h.end, HEADER, j, |h.blocks|);
    var f := IndexAt(h.blocks, h.lfree);
    if h.lfree != h.end {
      var g :| 0 <= g < |h.blocks| && h.blocks[g] == Block(h.lfree, false);
      IndexAtBlock(h.blocks, h.end, HEADER, g);
      if j < f { Ordered(h.blocks, h.end, HEADER, j, f); } else if f < j { Ordered(h.blocks, h.end, HEADER, f, j); }
    } else if f < |h.blocks| {
      Ordered(h.blocks, h.end, HEADER, f, |h.blocks|);
    }
  }

  lemma TakeLength(h: Heap, k: nat, size: nat)
    requires Valid(h) && k < |h.blocks| && !h.blocks[k].used
    requires Payload(h.blocks, h.end, k) >= size >= MIN_SIZE && Aligned(size)
    ensures var p := h.blocks[k].off + HEADER;
            Adds(h, Take(h, k, size), p, if Payload(h.blocks, h.end, k) < size + HEADER + MIN_SIZE
                                         then Next(h.blocks, h.end, k) else p + size)
  {
    hide Total; hide Tiled; hide Coalesced; hide Adds;
    TakeAllocations(h, k, size);
    assert Mark(h.blocks, k, true)[k].off == h.blocks[k].off;
  }

  // ----- rt_realloc -----

  /** Shrinking in place: the allocation keeps its address and ends after `size` bytes. */
  lemma ShrinkKeeps(h: Heap, i: nat, size: nat)
    requires Valid(h) && i < |h.blocks| && h.blocks[i].used && Aligned(size)
    requires size + HEADER + MIN_SIZE < Payload(h.blocks, h.end, i)
    ensures var h', p := Shrink(h, i, size), h.blocks[i].off + HEADER;
            && Valid(h') && h'.end == h.end
            && forall q, n :: Allocation(h', q, n) <==> if q == p then n == p + size else Allocation(h, q, n)
  {
    var h1 := Cut(h, i, size);
    CutKeeps(h, i, size);
    PlugKeeps(h1, i + 1);
  }

  lemma CutKeeps(h: Heap, i: nat, size: nat)
    requires Valid(h) && i < |h.blocks| && h.blocks[i].used && Aligned(size)
    requires size + HEADER + MIN_SIZE < Payload(h.blocks, h.end, i)
    ensures var h1, p := Cut(h, i, size), h.blocks[i].off + HEADER;
            && Tiled(h1.blocks, h.end, HEADER) && CoalescedBut(h1.blocks, i + 1) && CursorOk(h1)
            && LastHasRoom(h1.blocks, h.end)
            && h1.usedMem == Total(h1.blocks, h.end, UsedExtent) && h1.usedMem <= h.maxMem
            && forall q, n :: Allocation(h1, q, n) <==> if q == p then n == p + size else Allocation(h, q, n)
  {
    hide Total;
    var bs, h1 := h.blocks, Cut(h, i, size);
    var b := Block(bs[i].off + HEADER + size, false);
    assert Fits(bs, h.end, HEADER, i);
    InsertTiled(bs, h.end, HEADER, i + 1, b);
    TotalInsert(bs, h.end, UsedExtent, i + 1, b);
    CursorAfterInsert(h, i + 1, b);
    forall k | 0 <= k < |h1.blocks| - 1 && k != i && k != i + 1 ensures Separated(h1.blocks, k) {
      assert Separated(bs, if k < i then k else k - 1);
    }
    forall q: nat, n: nat
      ensures Allocation(h1, q, n) <==> if q == bs[i].off + HEADER then n == b.off else Allocation(h, q, n)
    {
      if q >= HEADER { InsertLive(bs, h.end, HEADER, i + 1, b, q - HEADER, n); }
    }
  }

  /** A shrink does not lower the cursor, so afterwards the cursor is the lowest free block exactly
      when it was already below the shrunken block, or the block after it is free (and merged).
      Otherwise `rt_malloc` no longer sees the tail that was cut off. */
  lemma ShrinkKeepsLowest(h: Heap, i: nat, size: nat)
    requires Valid(h) && Lowest(h) && i < |h.blocks| && h.blocks[i].used && Aligned(size)
    requires size + HEADER + MIN_SIZE < Payload(h.blocks, h.end, i)
    ensures Lowest(Shrink(h, i, size)) <==>
            h.lfree < h.blocks[i].off || (i + 1 < |h.blocks| && !h.blocks[i + 1].used)
  {
    hide Total;
    var bs, h1, h' := h.blocks, Cut(h, i, size), Shrink(h, i, size);
    var off := bs[i].off + HEADER + size;
    CutKeeps(h, i, size);
    ShrinkKeeps(h, i, size);
    CursorBeside(h, i);
    assert h1.blocks[i] == bs[i] && h1.blocks[i + 1] == Block(off, false);
    var merged := i + 1 < |bs| && !bs[i + 1].used;
    if merged {
      assert h1.blocks[i + 2] == bs[i + 1];
      assert h'.blocks == Delete(h1.blocks, i + 2);
      assert h'.blocks == bs[i + 1 := Block(off, false)];
    } else {
      assert h'.blocks == h1.blocks;
    }
    if h.lfree < bs[i].off || merged {
      forall j | 0 <= j < |h'.blocks| && !h'.blocks[j].used ensures h'.lfree <= h'.blocks[j].off {
        if j != i + 1 { assert h'.blocks[j] == bs[if j <= i || merged then j else j - 1]; }
      }
    } else {
      assert h'.blocks[i + 1] == Block(off, false);
    }
  }

  /** The cursor is not inside a used block. */
  lemma CursorBeside(h: Heap, i: nat)
    requires Valid(h) && i < |h.blocks| && h.blocks[i].used
    ensures h.lfree < h.blocks[i].off || h.lfree >= Next(h.blocks, h.end, i)
  {
    Ordered(h.blocks, h.end, HEADER, i, |h.blocks|);
    if h.lfree != h.end {
      var f :| 0 <= f < |h.blocks| && h.blocks[f] == Block(h.lfree, false);
      if f < i { Ordered(h.blocks, h.end, HEADER, f, i); } else { Ordered(h.blocks, h.end, HEADER, i, f); }
    }
  }

  /** The allocations of `h'` are those of `h` with `p` replaced by one at `r` of at least `size`
      bytes. */
  ghost predicate Moves(h: Heap, h': Heap, p: nat, r: nat, size: nat) {
    exists next :: r + size <= next <= h.end && Replaces(h, h', p, r, next)
  }

  ghost predicate Replaces(h: Heap, h': Heap, p: nat, r: nat, next: nat) {
    forall q, n :: Allocation(h', q, n) <==> (Allocation(h, q, n) && q != p) || (q == r && n == next)
  }

  /** The contract of `rt_realloc` on a live block: NULL leaves the heap, and so the old block,
      untouched; otherwise the block is kept, shortened or moved, and no other is affected. */
  lemma ReallocKeeps(h: Heap, p: nat, newsize: nat)
    requires Valid(h) && Owned(h, p)
    ensures var (h', r) := Realloc(h, Some(p), newsize);
            && Valid(h') && h'.end == h.end
            && match r
               case None => h' == h
               case Some(r) => Moves(h, h', p, r, Align(newsize)) && (r == p || !Owned(h, r))
  {
    hide Total; hide Malloc; hide Free; hide Shrink; hide Tiled; hide Coalesced; hide Allocation;
    var size := Align(newsize);
    if size <= h.end - HEADER {
      var i := OwnedIndex(h, p);
      var next := Next(h.blocks, h.end, i);
      var payload := Payload(h.blocks, h.end, i);
      if payload == size {
        assert Replaces(h, h, p, p, next);
      } else if size + HEADER + MIN_SIZE < payload {
        ShrinkKeeps(h, i, size);
        assert Replaces(h, Shrink(h, i, size), p, p, p + size);
      } else {
        MoveKeeps(h, p, size);
      }
    }
  }

  /** The whole outcome of `rt_realloc` on a live block: NULL and no change if the rounded size is above the heap;
      the same block if it has exactly that size; the same block shortened to it if the tail can hold a block; and
      otherwise a move, or NULL and no change if the size is zero or no block is eligible for it. */
  lemma ReallocIs(h: Heap, p: nat, newsize: nat)
    requires Valid(h) && Owned(h, p)
    ensures var (h', r) := Realloc(h, Some(p), newsize);
            var size, room := Align(newsize), Room(h, p);
            if size > h.end - HEADER then h' == h && r == None
            else if room == size then h' == h && r == Some(p)
            else if size + HEADER + MIN_SIZE < room then r == Some(p) && Replaces(h, h', p, p, p + size)
            else if size == 0 || NoneEligible(h, Rounded(size)) then h' == h && r == None
            else r.Some? && r.value != p && !Owned(h, r.value) && Moves(h, h', p, r.value, size)
  {
    hide Valid; hide Malloc; hide Free; hide Shrink; hide Owned; hide Align; hide NoneEligible; hide Rounded; hide Moves; hide Replaces;
    var size := Align(newsize);
    ReallocKeeps(h, p, newsize);
    var i := OwnedIndex(h, p);
    assert Room(h, p) == Payload(h.blocks, h.end, i);
    AlignAgain(newsize);
    if size <= h.end - HEADER && Room(h, p) != size {
      if size + HEADER + MIN_SIZE < Room(h, p) {
        ShrinkReplaces(h, i, size);
      } else {
        MallocIs(h, size);
        MallocOther(h, p, size);
      }
    }
  }

  lemma AlignAgain(n: nat)
    ensures Align(Align(n)) == Align(n) && Aligned(Align(n))
  {
  }

  lemma ShrinkReplaces(h: Heap, i: nat, size: nat)
    requires Valid(h) && i < |h.blocks| && h.blocks[i].used && Aligned(size)
    requires size + HEADER + MIN_SIZE < Payload(h.blocks, h.end, i)
    ensures var p := h.blocks[i].off + HEADER; Replaces(h, Shrink(h, i, size), p, p, p + size)
  {
    hide Valid; hide Shrink;
    ShrinkKeeps(h, i, size);
  }

  /** Without an old block `rt_realloc` allocates, and an address beyond the heap comes back as it is. */
  lemma ReallocOther(h: Heap, ptr: Option<nat>, newsize: nat)
    requires Valid(h) && (ptr.None? || ptr.value >= h.end)
    ensures var (h', r) := Realloc(h, ptr, newsize);
            var size := Align(newsize);
            if size > h.end - HEADER then h' == h && r == None
            else if ptr.Some? then h' == h && r == ptr
            else if size == 0 || NoneEligible(h, Rounded(size)) then h' == h && r == None
            else r.Some? && Grants(h, h', r.value, Rounded(size))
  {
    hide Valid; hide Malloc; hide Align; hide NoneEligible; hide Rounded; hide Grants;
    AlignAgain(newsize);
    MallocIs(h, Align(newsize));
  }

  lemma MallocOther(h: Heap, p: nat, size: nat)
    requires Valid(h) && Owned(h, p)
    ensures Malloc(h, size).1 != Some(p)
  {
    hide Malloc; hide Valid;
    MallocKeeps(h, size);
  }

  lemma MoveKeeps(h: Heap, p: nat, size: nat)
    requires Valid(h) && Owned(h, p) && Aligned(size) && size < WRAP
    ensures var (h1, r) := Malloc(h, size);
            match r
            case None => h1 == h
            case Some(r) =>
              var h' := Free(h1, p);
              Valid(h') && h'.end == h.end && Moves(h, h', p, r, size) && !Owned(h, r)
  {
    hide Total; hide Malloc; hide Free; hide Rounded; hide Tiled; hide Coalesced; hide CursorOk; hide Live;
    var (h1, r) := Malloc(h, size);
    MallocKeeps(h, size);
    if r.Some? {
      var next :| r.value + Rounded(size) <= next <= h.end && Adds(h, h1, r.value, next);
      var n :| Allocation(h, p, n);
      assert Allocation(h1, p, n);
      FreeKeeps(h1, p);
      assert p != r.value;
      RoundedAtLeast(size);
      assert Replaces(h, Free(h1, p), p, r.value, next);
    }
  }

  // ----- runs -----

  datatype Op = MallocOp(request: nat) | FreeOp(p: nat) | ReallocOp(rmem: Option<nat>, newsize: nat)

  /** Callers free and reallocate only what they own. */
  ghost predicate Legal(h: Heap, op: Op) {
    match op
    case MallocOp(_) => true
    case FreeOp(p) => Owned(h, p)
    case ReallocOp(p, _) => p.None? || Owned(h, p.value)
  }

  function Step(h: Heap, op: Op): Heap {
    match op
    case MallocOp(n) => Malloc(h, n).0
    case FreeOp(p) => Free(h, p)
    case ReallocOp(p, n) => Realloc(h, p, n).0
  }

  function Run(h: Heap, ops: seq<Op>): Heap
    decreases |ops|
  {
    if ops == [] then h else Run(Step(h, ops[0]), ops[1..])
  }

  ghost predicate LegalRun(h: Heap, ops: seq<Op>)
    decreases |ops|
  {
    ops == [] || (Legal(h, ops[0]) && LegalRun(Step(h, ops[0]), ops[1..]))
  }

  /** The most bytes in use during an operation: a moving reallocation holds both blocks for a while. */
  function PeakOf(h: Heap, op: Op): int {
    if op.ReallocOp? && op.rmem.Some? && Realloc(h, op.rmem, op.newsize).1 !in {None, op.rmem}
    then Malloc(h, Align(op.newsize)).0.usedMem
    else Step(h, op).usedMem
  }

  /** The most bytes in use during a run. */
  function Peak(h: Heap, ops: seq<Op>): int
    decreases |ops|
  {
    if ops == [] then h.usedMem else Max(h.usedMem, Max(PeakOf(h, ops[0]), Peak(Step(h, ops[0]), ops[1..])))
  }

  lemma InitValid(size: nat)
    requires Aligned(size) && size >= MIN_SIZE
    ensures Valid(Init(size)) && Lowest(Init(size))
  {
    var h := Init(size);
    assert h.blocks[0] == Block(0, false);
    TotalOne(Block(0, false), h.end, UsedExtent);
  }

  lemma ValidPeak(h: Heap)
    requires Valid(h)
    ensures h.usedMem <= h.maxMem
  {
  }

  lemma MallocPeak(h: Heap, request: nat)
    requires Valid(h)
    ensures Malloc(h, request).0.maxMem == Max(h.maxMem, Malloc(h, request).0.usedMem)
  {
    hide Total; hide Tiled; hide Coalesced; hide Taken; hide IndexAt;
  }

  lemma FreePeak(h: Heap, p: nat)
    requires Valid(h) && Owned(h, p)
    ensures Free(h, p).maxMem == h.maxMem && Free(h, p).usedMem <= h.usedMem
  {
    hide Total; hide Coalesced; hide Mark;
    var i := OwnedIndex(h, p);
    assert Fits(h.blocks, h.end, HEADER, i);
  }

  /** How far a reallocation raises the high-water mark. */
  lemma ReallocPeak(h: Heap, p: nat, newsize: nat)
    requires Valid(h) && Owned(h, p)
    ensures var h' := Realloc(h, Some(p), newsize).0;
            var peak := PeakOf(h, ReallocOp(Some(p), newsize));
            h'.usedMem <= peak && h'.maxMem == Max(h.maxMem, peak)
  {
    hide Valid; hide Malloc; hide Free; hide Plug; hide Owned;
    var size := Align(newsize);
    ValidPeak(h);
    if size <= h.end - HEADER {
      var i := OwnedIndex(h, p);
      var payload := Payload(h.blocks, h.end, i);
      if payload != size && size + HEADER + MIN_SIZE < payload {
        PlugPeak(Cut(h, i, size), i + 1);
      } else if payload != size {
        MovePeak(h, p, size);
      }
    }
  }

  lemma PlugPeak(h: Heap, i: nat)
    requires i < |h.blocks|
    ensures Plug(h, i).usedMem == h.usedMem && Plug(h, i).maxMem == h.maxMem
  {
  }

  lemma MovePeak(h: Heap, p: nat, size: nat)
    requires Valid(h) && Owned(h, p) && Aligned(size) && size < WRAP
    ensures var (h1, r) := Malloc(h, size);
            && h1.maxMem == Max(h.maxMem, h1.usedMem) && r != Some(p) && (r.None? ==> h1 == h)
            && (r.Some? ==> Free(h1, p).maxMem == h1.maxMem && Free(h1, p).usedMem <= h1.usedMem)
  {
    hide Valid; hide Malloc; hide Free; hide Rounded; hide Live;
    var (h1, r) := Malloc(h, size);
    MallocKeeps(h, size);
    MallocPeak(h, size);
    if r.Some? {
      var next :| r.value + Rounded(size) <= next <= h.end && Adds(h, h1, r.value, next);
      var n :| Allocation(h, p, n);
      assert Allocation(h1, p, n);
      FreePeak(h1, p);
    }
  }

  lemma StepKeeps(h: Heap, op: Op)
    requires Valid(h) && Legal(h, op)
    ensures Valid(Step(h, op)) && Step(h, op).end == h.end
    ensures Step(h, op).usedMem <= PeakOf(h, op) && Step(h, op).maxMem == Max(h.maxMem, PeakOf(h, op))
    ensures Lowest(h) && !op.ReallocOp? ==> Lowest(Step(h, op))
  {
    hide Valid; hide Malloc; hide Free; hide Shrink; hide Lowest; hide Owned; hide IndexAt; hide Moves; hide AllocatesAtLeast;
    ValidPeak(h);
    match op
    case MallocOp(n) =>
      MallocKeeps(h, n);
      MallocPeak(h, n);
    case FreeOp(p) =>
      FreeKeeps(h, p);
      FreePeak(h, p);
    case ReallocOp(None, n) =>
      MallocKeeps(h, Align(n));
      MallocPeak(h, Align(n));
    case ReallocOp(Some(p), n) =>
      ReallocKeeps(h, p, n);
      ReallocPeak(h, p, n);
  }

  /** Every legal run of `rt_malloc`, `rt_free` and `rt_realloc` keeps the blocks tiling the heap, no
      two free neighbours and the byte count, and `max_mem` is the most that was ever in use; without
      `rt_realloc` also the lowest-free cursor. */
  lemma {:induction false} RunKeeps(h: Heap, ops: seq<Op>)
    requires Valid(h) && LegalRun(h, ops)
    ensures Valid(Run(h, ops)) && Run(h, ops).end == h.end
    ensures Run(h, ops).maxMem == Max(h.maxMem, Peak(h, ops))
    ensures Lowest(h) && (forall i :: 0 <= i < |ops| ==> !ops[i].ReallocOp?) ==> Lowest(Run(h, ops))
    decreases |ops|
  {
    hide Valid; hide Step; hide Legal; hide Lowest; hide PeakOf;
    ValidPeak(h);
    if ops != [] {
      StepKeeps(h, ops[0]);
      RunKeeps(Step(h, ops[0]), ops[1..]);
    }
  }

  /** Once everything is freed, the heap is the initial single free block again. */
  lemma RunDrains(size: nat, ops: seq<Op>)
    requires Aligned(size) && size >= MIN_SIZE && LegalRun(Init(size), ops)
    requires forall p, next :: !Allocation(Run(Init(size), ops), p, next)
    ensures Run(Init(size), ops) == Init(size).(maxMem := Peak(Init(size), ops))
  {
    hide Valid; hide Run; hide LegalRun; hide Allocation;
    InitValid(size);
    RunKeeps(Init(size), ops);
    Drained(Run(Init(size), ops));
    PeakAtLeast(Init(size), ops);
  }

  lemma PeakAtLeast(h: Heap, ops: seq<Op>)
    ensures Peak(h, ops) >= h.usedMem
  {
  }

  lemma Drained(h: Heap)
    requires Valid(h) && forall p, next :: !Allocation(h, p, next)
    ensures h.end >= HEADER && h == Init(h.end - HEADER).(maxMem := h.maxMem)
  {
    forall i | 0 <= i < |h.blocks| ensures !h.blocks[i].used {
      if h.blocks[i].used {
        assert LiveAt(h.blocks, h.end, i, h.blocks[i].off, Next(h.blocks, h.end, i));
        assert Allocation(h, h.blocks[i].off + HEADER, Next(h.blocks, h.end, i));
      }
    }
    assert |h.blocks| > 1 ==> Separated(h.blocks, 0);
    assert h.blocks == [Block(0, false)];
    TotalOne(Block(0, false), h.end, UsedExtent);
  }

  // ----- where the code falls short, from the initial heap -----

  /** A heap of one block refuses a request for exactly that block. */
  lemma ExactLastRefused()
    ensures var h := Init(MIN_SIZE); Valid(h) && FitsBlock(h, MIN_SIZE, 0) && Malloc(h, MIN_SIZE).1 == None
  {
    InitValid(MIN_SIZE);
  }

  /** The pointer of the search after `n` turns; the header at the end of the heap links to itself. */
  function Walk(h: Heap, n: nat): nat {
    if n == 0 then h.lfree
    else
      var i := IndexAt(h.blocks, Walk(h, n - 1));
      if i < |h.blocks| then Next(h.blocks, h.end, i) else h.end
  }

  /** The search of `rt_malloc` stops at this pointer: it is not below the bound, a 32-bit difference, or its block
      fits. */
  ghost predicate Stops(h: Heap, size: nat, off: nat) {
    || off >= (h.end - HEADER - size) % WRAP
    || exists j: nat :: FitsBlock(h, size, j) && h.blocks[j].off == off
  }

  ghost predicate SearchEnds(h: Heap, request: nat) { exists n: nat :: Stops(h, Rounded(request), Walk(h, n)) }

  /** On a fresh heap, the search for a request that is not refused at once ends if and only if the heap has at
      least 12 payload bytes; below that the bound wraps around, and the search stays at the end of the heap. */
  lemma SearchEndsIff(size: nat, request: nat)
    requires 0 < request < WRAP && Align(request) <= size && size + HEADER < WRAP
    ensures SearchEnds(Init(size), request) <==> size >= MIN_SIZE
  {
    var h, r := Init(size), Rounded(request);
    if size >= MIN_SIZE {
      assert Walk(h, 0) == 0 && IndexAt(h.blocks, 0) == 0;
      assert Walk(h, 1) == h.end;
      assert Stops(h, r, Walk(h, 1));
    } else {
      forall n: nat ensures !Stops(h, r, Walk(h, n)) { TinyWalk(size, n); }
    }
  }

  lemma {:induction false} TinyWalk(size: nat, n: nat)
    ensures Walk(Init(size), n) == if n == 0 then 0 else size + HEADER
    decreases n
  {
    if n > 0 { TinyWalk(size, n - 1); }
  }

  /** The largest request is granted with the smallest block. */
  lemma LargestGetsLeast()
    ensures var (h, r) := Malloc(Init(64), WRAP - 1);
            r == Some(HEADER) && Allocation(h, HEADER, HEADER + MIN_SIZE)
  {
    var h := Malloc(Init(64), WRAP - 1).0;
    assert h.blocks == [Block(0, true), Block(24, false)];
    assert LiveAt(h.blocks, h.end, 0, 0, 24);
  }

  /** After one allocation and one shrink, requests fail although the tail that was cut off fits them. */
  lemma ShrinkHidesTail()
    ensures var ops := [MallocOp(48), ReallocOp(Some(HEADER), 12)];
            var h := Run(Init(64), ops);
            && LegalRun(Init(64), ops) && !Lowest(h)
            && FitsBlock(h, MIN_SIZE, 1) && !ExactLast(h, MIN_SIZE, 1) && Malloc(h, MIN_SIZE).1 == None
  {
    hide Malloc; hide Realloc; hide Lowest; hide FitsBlock;
    FirstTakesAll();
    var h1 := Step(Init(64), MallocOp(48));
    var op := ReallocOp(Some(HEADER), 12);
    SecondCutsTail(h1);
    assert [MallocOp(48), op][1..] == [op] && [op][1..] == [];
    assert LegalRun(Step(h1, op), []) && LegalRun(h1, [op]);
    assert Run(h1, [op]) == Step(h1, op);
  }

  lemma FirstTakesAll()
    ensures var h := Malloc(Init(64), 48).0; h.blocks == [Block(0, true)] && h.lfree == h.end == 76
  {
  }

  lemma SecondCutsTail(h1: Heap)
    requires h1.blocks == [Block(0, true)] && h1.lfree == h1.end == 76
    ensures Owned(h1, HEADER)
    ensures var h := Realloc(h1, Some(HEADER), 12).0;
            !Lowest(h) && FitsBlock(h, MIN_SIZE, 1) && !ExactLast(h, MIN_SIZE, 1) && Malloc(h, MIN_SIZE).1 == None
  {
    assert LiveAt(h1.blocks, h1.end, 0, 0, 76);
    assert Allocation(h1, HEADER, 76);
    var h := Realloc(h1, Some(HEADER), 12).0;
    assert h.blocks == [Block(0, true), Block(24, false)] && h.lfree == 76;
    assert IndexAt(h.blocks, 76) == 2;
  }
}
