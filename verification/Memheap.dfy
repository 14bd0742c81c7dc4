/** The pool allocator of src/memheap.c as a transformation of its address-ordered blocks and its
    free list: `rt_memheap_alloc`, `rt_memheap_realloc`, `rt_memheap_free`, and what every run of
    them keeps. */
module Memheap {
  import opened Blocks
  import opened Lists
  import opened Words

  const HEADER: nat := 24
  const MIN_ALLOC: nat := 12

  /** `end` is the offset of the tail item, so the pool has `end + HEADER` bytes; `free` is the free
      list in its own order. */
  datatype Pool = Pool(blocks: seq<Block>, end: nat, free: seq<nat>, available: int, maxUsed: int)

  function FreePayload(used: bool, extent: int): int { if used then 0 else extent - HEADER }

  function Payload(bs: seq<Block>, end: nat, i: nat): int
    requires i < |bs|
  {
    Next(bs, end, i) - bs[i].off - HEADER
  }

  function InUse(m: Pool): int { m.end + HEADER - m.available }

  /** The free list holds each unused block exactly once. */
  ghost predicate Agree(bs: seq<Block>, free: seq<nat>) {
    NoDuplicates(free) && forall x: nat :: x in free <==> FreeBlock(bs, x)
  }

  /** What holds between the steps of an operation. */
  ghost predicate Consistent(m: Pool) {
    && Tiled(m.blocks, m.end, HEADER) && Agree(m.blocks, m.free)
    && m.available == Total(m.blocks, m.end, FreePayload)
  }

  /** Every used block has at least the smallest payload, so no step shortens one below it. */
  ghost predicate Roomy(bs: seq<Block>, end: nat) {
    forall i :: 0 <= i < |bs| && bs[i].used ==> Payload(bs, end, i) >= MIN_ALLOC
  }

  /** What every run keeps. */
  ghost predicate Valid(m: Pool) {
    Consistent(m) && Coalesced(m.blocks) && Roomy(m.blocks, m.end) && m.maxUsed >= InUse(m)
  }

  ghost predicate Allocation(m: Pool, p: nat, next: nat) {
    p >= HEADER && Live(m.blocks, m.end, p - HEADER, next)
  }

  ghost predicate Owned(m: Pool, p: nat) { exists next :: Allocation(m, p, next) }

  /** The index of the block whose payload starts at `p`, or the number of blocks. */
  function IndexOf(m: Pool, p: nat): nat {
    if p < HEADER then |m.blocks| else IndexAt(m.blocks, p - HEADER)
  }

  /** `rt_memheap_init`, with the tail item at `end`. */
  function Init(end: nat): Pool { Pool([Block(0, false)], end, [0], end - HEADER, 2 * HEADER) }

  // ----- the steps operations are made of -----

  /** Take all of free block `i`. */
  function Occupy(m: Pool, i: nat): Pool
    requires i < |m.blocks|
  {
    m.(blocks := Mark(m.blocks, i, true), free := Without(m.free, m.blocks[i].off),
       available := m.available - Payload(m.blocks, m.end, i))
  }

  /** Cut used block `i` after `size` bytes; the tail becomes the first free block. */
  function SplitUsed(m: Pool, i: nat, size: nat): Pool
    requires i < |m.blocks|
  {
    var tail := m.blocks[i].off + HEADER + size;
    m.(blocks := Insert(m.blocks, i + 1, Block(tail, false)), free := [tail] + m.free,
       available := m.available + (Next(m.blocks, m.end, i) - tail - HEADER))
  }

  /** Append the free successor to used block `i`. */
  function AbsorbNext(m: Pool, i: nat): Pool
    requires i + 1 < |m.blocks|
  {
    m.(blocks := Delete(m.blocks, i + 1), free := Without(m.free, m.blocks[i + 1].off),
       available := m.available - Payload(m.blocks, m.end, i + 1))
  }

  /** Give block `i` back as the first of the free list. */
  function ReleaseAlone(m: Pool, i: nat): Pool
    requires i < |m.blocks|
  {
    m.(blocks := Mark(m.blocks, i, false), free := [m.blocks[i].off] + m.free,
       available := m.available + Payload(m.blocks, m.end, i))
  }

  /** Give block `i` back as part of its free predecessor, which keeps its place in the free list. */
  function ReleaseLeft(m: Pool, i: nat): Pool
    requires 0 < i < |m.blocks|
  {
    m.(blocks := Delete(Mark(m.blocks, i, false), i),
       available := m.available + Payload(m.blocks, m.end, i) + HEADER)
  }

  /** Merge free block `i` with its free successor. */
  function MergeNext(m: Pool, i: nat): Pool
    requires i + 1 < |m.blocks|
  {
    m.(blocks := Delete(m.blocks, i + 1), free := Without(m.free, m.blocks[i + 1].off),
       available := m.available + HEADER)
  }

  function Record(m: Pool): Pool { m.(maxUsed := Max(m.maxUsed, InUse(m))) }

  predicate NextFree(m: Pool, i: nat) { i + 1 < |m.blocks| && !m.blocks[i + 1].used }

  // ----- the operations -----

  function Rounded(request: nat): nat {
    if Align(request) < MIN_ALLOC then MIN_ALLOC else Align(request)
  }

  /** MEMITEM_SIZE of the item at `x`. */
  function ItemSize(m: Pool, x: nat): int {
    var i := IndexAt(m.blocks, x);
    if i < |m.blocks| then Payload(m.blocks, m.end, i) else 0
  }

  /** The first item of the free list, from position `k` on, that is large enough. */
  function Find(m: Pool, size: nat, k: nat): (r: nat)
    requires k <= |m.free|
    ensures k <= r <= |m.free|
    ensures r < |m.free| ==> ItemSize(m, m.free[r]) >= size
    ensures forall j :: k <= j < r ==> ItemSize(m, m.free[j]) < size
    decreases |m.free| - k
  {
    if k == |m.free| || ItemSize(m, m.free[k]) >= size then k else Find(m, size, k + 1)
  }

  function Take(m: Pool, i: nat, size: nat): Pool
    requires i < |m.blocks|
  {
    var m1 := Occupy(m, i);
    Record(if Payload(m.blocks, m.end, i) >= size + HEADER + MIN_ALLOC then SplitUsed(m1, i, size) else m1)
  }

  function Alloc(m: Pool, request: nat): (Pool, Option<nat>) {
    var size := Rounded(request);
    var k := Find(m, size, 0);
    if size >= m.available || k == |m.free| || IndexAt(m.blocks, m.free[k]) == |m.blocks| then (m, None)
    else (Take(m, IndexAt(m.blocks, m.free[k]), size), Some(m.free[k] + HEADER))
  }

  function Free(m: Pool, p: nat): Pool {
    var i := IndexOf(m, p);
    if i == |m.blocks| then m
    else if i > 0 && !m.blocks[i - 1].used then
      var m1 := ReleaseLeft(m, i);
      if NextFree(m1, i - 1) then MergeNext(m1, i - 1) else m1
    else
      var m1 := ReleaseAlone(m, i);
      if NextFree(m1, i) then MergeNext(m1, i) else m1
  }

  /** Give block `i` exactly `size` bytes, out of its own and those of a free successor. */
  function Refit(m: Pool, i: nat, size: nat): Pool
    requires i < |m.blocks|
  {
    SplitUsed(if NextFree(m, i) then AbsorbNext(m, i) else m, i, size)
  }

  /** The test for growing in place, in 32-bit arithmetic. */
  predicate GrowsInPlace(m: Pool, i: nat, size: nat)
    requires i < |m.blocks|
  {
    && NextFree(m, i)
    && Payload(m.blocks, m.end, i + 1) + Payload(m.blocks, m.end, i) > (size + MIN_ALLOC) % WRAP
  }

  /** The sum of the test wraps beside a free block, and the test holds whatever the blocks are. */
  predicate Wraps(m: Pool, p: nat, size: nat) { size >= WRAP - MIN_ALLOC && NextFree(m, IndexOf(m, p)) }

  function Realloc(m: Pool, ptr: Option<nat>, newsize: nat): (Pool, Option<nat>) {
    if newsize == 0 then (if ptr.None? then m else Free(m, ptr.value), None)
    else if ptr.None? then Alloc(m, Rounded(newsize))
    else ReallocLive(m, ptr.value, Rounded(newsize))
  }

  function ReallocLive(m: Pool, p: nat, size: nat): (Pool, Option<nat>) {
    var i := IndexOf(m, p);
    if i == |m.blocks| then (m, None)
    else
      var had := Payload(m.blocks, m.end, i);
      if size > had then
        if GrowsInPlace(m, i, size) then (Record(Refit(m, i, size)), Some(p))
        else
          var (m1, q) := Alloc(m, size);
          if q.None? then (m1, None) else (Free(m1, p), q)
      else if size + HEADER + MIN_ALLOC >= had then (m, Some(p))
      else (Refit(m, i, size), Some(p))
  }

  // ----- each step keeps the two lists in agreement and the byte count exact -----

  lemma OccupyKeeps(m: Pool, i: nat)
    requires Consistent(m) && i < |m.blocks| && !m.blocks[i].used
    ensures var m' := Occupy(m, i);
            && Consistent(m')
            && forall p, n :: Allocation(m', p, n) <==>
                 if p == m.blocks[i].off + HEADER then n == Next(m.blocks, m.end, i) else Allocation(m, p, n)
  {
    hide Total; hide Tiled; hide Live; hide FreeBlock; hide NoDuplicates; hide Without; hide Mark;
    var bs, off := m.blocks, m.blocks[i].off;
    MarkTiled(bs, m.end, HEADER, i, true);
    TotalMark(bs, m.end, FreePayload, i, true);
    WithoutIs(m.free, bs[i].off);
    forall x: nat ensures FreeBlock(Mark(bs, i, true), x) <==> x in Without(m.free, bs[i].off) {
      FreeMark(bs, m.end, HEADER, i, true, x);
    }
    forall p: nat, n: nat
      ensures Allocation(Occupy(m, i), p, n) <==>
              if p == off + HEADER then n == Next(bs, m.end, i) else Allocation(m, p, n)
    {
      if p >= HEADER {
        MarkLive(bs, m.end, HEADER, i, true, p - HEADER, n);
      }
    }
  }

  lemma SplitUsedKeeps(m: Pool, i: nat, size: nat)
    requires Consistent(m) && i < |m.blocks| && m.blocks[i].used && Aligned(size)
    requires size + HEADER <= Payload(m.blocks, m.end, i)
    ensures var m', p := SplitUsed(m, i, size), m.blocks[i].off + HEADER;
            && Consistent(m')
            && forall q, n :: Allocation(m', q, n) <==> if q == p then n == p + size else Allocation(m, q, n)
  {
    hide Total; hide Live; hide FreeBlock; hide Insert; hide Fits;
    var bs, tail := m.blocks, m.blocks[i].off + HEADER + size;
    var b := Block(tail, false);
    TailAligned(bs, m.end, i, size);
    InsertTiled(bs, m.end, HEADER, i + 1, b);
    TotalInsert(bs, m.end, FreePayload, i + 1, b);
    forall x: nat ensures FreeBlock(Insert(bs, i + 1, b), x) <==> x == tail || FreeBlock(bs, x) {
      FreeInsert(bs, m.end, HEADER, i + 1, tail, x);
    }
    TailIsNoBlock(bs, m.end, i, tail);
    forall q: nat, n: nat
      ensures Allocation(SplitUsed(m, i, size), q, n) <==>
              if q == bs[i].off + HEADER then n == tail else Allocation(m, q, n)
    {
      if q >= HEADER {
        InsertLive(bs, m.end, HEADER, i + 1, b, q - HEADER, n);
      }
    }
  }

  lemma TailIsNoBlock(bs: seq<Block>, end: nat, i: nat, tail: nat)
    requires Tiled(bs, end, HEADER) && i < |bs| && bs[i].off < tail < Next(bs, end, i)
    ensures !FreeBlock(bs, tail)
  {
    InsideIsNoBlock(bs, end, HEADER, i, tail);
  }

  lemma TailAligned(bs: seq<Block>, end: nat, i: nat, size: nat)
    requires Tiled(bs, end, HEADER) && i < |bs| && Aligned(size)
    ensures Aligned(bs[i].off + HEADER + size) && bs[i].off + HEADER <= Next(bs, end, i)
  {
    assert Fits(bs, end, HEADER, i);
  }

  /** Deleting a free entry of the block list and of the free list. */
  lemma DropKeeps(m: Pool, m': Pool, i: nat)
    requires Consistent(m) && 0 < i < |m.blocks|
    requires m'.blocks == Delete(m.blocks, i) && m'.end == m.end && m'.free == Without(m.free, m.blocks[i].off)
    requires m'.available == Total(m'.blocks, m'.end, FreePayload)
    ensures Consistent(m')
  {
    hide Total; hide Live; hide FreeBlock; hide NoDuplicates; hide Without; hide Delete; hide Tiled;
    WithoutIs(m.free, m.blocks[i].off);
    DeleteTiled(m.blocks, m.end, HEADER, i);
    forall x: nat ensures FreeBlock(m'.blocks, x) <==> x in m'.free {
      FreeDelete(m.blocks, m.end, HEADER, i, x);
    }
  }

  lemma AbsorbNextKeeps(m: Pool, i: nat)
    requires Consistent(m) && NextFree(m, i) && m.blocks[i].used
    ensures var m', p := AbsorbNext(m, i), m.blocks[i].off + HEADER;
            && Consistent(m')
            && forall q, n :: Allocation(m', q, n) <==> if q == p then n == Next(m.blocks, m.end, i + 1) else Allocation(m, q, n)
  {
    hide Total; hide Live; hide Agree; hide Delete; hide Tiled; hide Without;
    TotalDelete(m.blocks, m.end, FreePayload, i + 1);
    DropKeeps(m, AbsorbNext(m, i), i + 1);
    forall q: nat, n: nat
      ensures Allocation(AbsorbNext(m, i), q, n) <==>
              if q == m.blocks[i].off + HEADER then n == Next(m.blocks, m.end, i + 1) else Allocation(m, q, n)
    {
      if q >= HEADER {
        AbsorbLive(m.blocks, m.end, HEADER, i + 1, q - HEADER, n);
      }
    }
  }

  lemma ReleaseAloneKeeps(m: Pool, i: nat)
    requires Consistent(m) && i < |m.blocks| && m.blocks[i].used
    ensures var m' := ReleaseAlone(m, i);
            && Consistent(m')
            && forall p, n :: Allocation(m', p, n) <==> Allocation(m, p, n) && p != m.blocks[i].off + HEADER
  {
    hide Total; hide Tiled; hide Live; hide Mark;
    var bs, off := m.blocks, m.blocks[i].off;
    MarkTiled(bs, m.end, HEADER, i, false);
    TotalMark(bs, m.end, FreePayload, i, false);
    UsedIsNotFree(bs, m.end, i);
    forall x: nat ensures FreeBlock(Mark(bs, i, false), x) <==> x in [off] + m.free {
      FreeMark(bs, m.end, HEADER, i, false, x);
    }
    forall p: nat, n: nat ensures Allocation(ReleaseAlone(m, i), p, n) <==> Allocation(m, p, n) && p != off + HEADER {
      if p >= HEADER {
        MarkLive(bs, m.end, HEADER, i, false, p - HEADER, n);
      }
    }
  }

  lemma UsedIsNotFree(bs: seq<Block>, end: nat, i: nat)
    requires Tiled(bs, end, HEADER) && i < |bs| && bs[i].used
    ensures !FreeBlock(bs, bs[i].off)
  {
    IndexAtBlock(bs, end, HEADER, i);
    forall k | 0 <= k < |bs| && bs[k].off == bs[i].off ensures k == i { IndexAtBlock(bs, end, HEADER, k); }
  }

  lemma ReleaseLeftKeeps(m: Pool, i: nat)
    requires Consistent(m) && 0 < i < |m.blocks| && m.blocks[i].used && !m.blocks[i - 1].used
    ensures var m' := ReleaseLeft(m, i);
            && Consistent(m')
            && forall p, n :: Allocation(m', p, n) <==> Allocation(m, p, n) && p != m.blocks[i].off + HEADER
  {
    hide Total; hide Tiled; hide Live; hide Delete; hide FreeBlock; hide NoDuplicates;
    var bs, off, m' := m.blocks, m.blocks[i].off, ReleaseLeft(m, i);
    var marked := Mark(bs, i, false);
    MarkTiled(bs, m.end, HEADER, i, false);
    DeleteTiled(marked, m.end, HEADER, i);
    TotalMark(bs, m.end, FreePayload, i, false);
    TotalDelete(marked, m.end, FreePayload, i);
    UsedIsNotFree(bs, m.end, i);
    forall x: nat ensures FreeBlock(m'.blocks, x) <==> x in m'.free {
      FreeMark(bs, m.end, HEADER, i, false, x);
      FreeDelete(marked, m.end, HEADER, i, x);
    }
    forall p: nat, n: nat ensures Allocation(m', p, n) <==> Allocation(m, p, n) && p != off + HEADER {
      if p >= HEADER {
        MarkLive(bs, m.end, HEADER, i, false, p - HEADER, n);
        DeleteLive(marked, m.end, i, p - HEADER, n);
      }
    }
  }

  lemma MergeNextKeeps(m: Pool, i: nat)
    requires Consistent(m) && NextFree(m, i) && !m.blocks[i].used
    ensures var m' := MergeNext(m, i);
            Consistent(m') && forall p, n :: Allocation(m', p, n) <==> Allocation(m, p, n)
  {
    hide Total; hide Tiled; hide Live; hide Delete; hide Agree; hide Without;
    TotalDelete(m.blocks, m.end, FreePayload, i + 1);
    DropKeeps(m, MergeNext(m, i), i + 1);
    forall p: nat, n: nat ensures Allocation(MergeNext(m, i), p, n) <==> Allocation(m, p, n) {
      if p >= HEADER {
        DeleteLive(m.blocks, m.end, i + 1, p - HEADER, n);
      }
    }
  }

  // ----- no two free neighbours, no payload below the smallest -----

  ghost predicate Sound(m: Pool) {
    Consistent(m) && Coalesced(m.blocks) && Roomy(m.blocks, m.end)
  }

  /** Coalesced but for blocks `i` and `i + 1`. */
  ghost predicate CoalescedExcept(bs: seq<Block>, i: nat) {
    forall k :: 0 <= k < |bs| - 1 && k != i ==> Separated(bs, k)
  }

  ghost predicate SameAllocations(m: Pool, m': Pool) {
    forall q, n :: Allocation(m', q, n) <==> Allocation(m, q, n)
  }

  lemma OccupySound(m: Pool, i: nat)
    requires Sound(m) && i < |m.blocks| && !m.blocks[i].used && Payload(m.blocks, m.end, i) >= MIN_ALLOC
    ensures Sound(Occupy(m, i)) && !NextFree(Occupy(m, i), i)
  {
    hide Consistent;
    OccupyKeeps(m, i);
    var bs, bs' := m.blocks, Occupy(m, i).blocks;
    assert i + 1 < |bs| ==> Separated(bs, i);
    forall k | 0 <= k < |bs| - 1 ensures Separated(bs', k) {
      assert Separated(bs, k);
    }
    forall k | 0 <= k < |bs'| && bs'[k].used ensures Payload(bs', m.end, k) >= MIN_ALLOC {
      assert Payload(bs', m.end, k) == Payload(bs, m.end, k);
    }
  }

  lemma SplitUsedSound(m: Pool, i: nat, size: nat)
    requires Sound(m) && i < |m.blocks| && m.blocks[i].used && !NextFree(m, i)
    requires Aligned(size) && MIN_ALLOC <= size && size + HEADER <= Payload(m.blocks, m.end, i)
    ensures Sound(SplitUsed(m, i, size))
  {
    hide Consistent;
    SplitUsedKeeps(m, i, size);
    var bs, bs' := m.blocks, SplitUsed(m, i, size).blocks;
    forall k | 0 <= k < |bs'| - 1 ensures Separated(bs', k) {
      if k < i { assert Separated(bs, k); } else if k > i + 1 { assert Separated(bs, k - 1); }
    }
    forall k | 0 <= k < |bs'| && bs'[k].used ensures Payload(bs', m.end, k) >= MIN_ALLOC {
      if k != i {
        assert Payload(bs', m.end, k) == Payload(bs, m.end, if k < i then k else k - 1);
      }
    }
  }

  lemma AbsorbNextSound(m: Pool, i: nat)
    requires Sound(m) && NextFree(m, i) && m.blocks[i].used
    ensures var m' := AbsorbNext(m, i);
            && Sound(m') && !NextFree(m', i) && i < |m'.blocks| && m'.blocks[i] == m.blocks[i]
            && Next(m'.blocks, m.end, i) == Next(m.blocks, m.end, i + 1)
  {
    NextExtent(m, i);
    RejoinSeparated(m, i);
    hide Consistent;
    AbsorbNextKeeps(m, i);
    var bs, bs' := m.blocks, AbsorbNext(m, i).blocks;
    forall k | 0 <= k < |bs'| && bs'[k].used ensures Payload(bs', m.end, k) >= MIN_ALLOC {
      if k != i {
        assert Payload(bs', m.end, k) == Payload(bs, m.end, if k < i then k else k + 1);
      } else {
        assert Payload(bs, m.end, i) >= MIN_ALLOC;
      }
    }
  }

  /** Deleting the free block after `i` leaves only used blocks beside it. */
  lemma RejoinSeparated(m: Pool, i: nat)
    requires CoalescedExcept(m.blocks, i) && NextFree(m, i)
    ensures Coalesced(Delete(m.blocks, i + 1)) && (i + 2 < |m.blocks| ==> m.blocks[i + 2].used)
  {
    var bs, bs' := m.blocks, Delete(m.blocks, i + 1);
    assert i + 2 < |bs| ==> Separated(bs, i + 1);
    forall k | 0 <= k < |bs'| - 1 ensures Separated(bs', k) {
      if k != i { assert Separated(bs, if k < i then k else k + 1); }
    }
  }

  lemma NextExtent(m: Pool, i: nat)
    requires Consistent(m) && NextFree(m, i)
    ensures Next(m.blocks, m.end, i) + HEADER <= Next(m.blocks, m.end, i + 1)
  {
    assert Fits(m.blocks, m.end, HEADER, i + 1);
  }

  /** The allocations of `m'` are those of `m` and `p..next`. */
  ghost predicate Adds(m: Pool, m': Pool, p: nat, next: nat) {
    forall q, n :: Allocation(m', q, n) <==> Allocation(m, q, n) || (q == p && n == next)
  }

  ghost predicate AllocatesAtLeast(m: Pool, m': Pool, p: nat, size: nat) {
    exists next :: p + size <= next <= m.end && Adds(m, m', p, next)
  }

  lemma FreeBlockFacts(m: Pool, i: nat)
    requires Consistent(m) && i < |m.blocks| && !m.blocks[i].used
    ensures Aligned(m.blocks[i].off + HEADER) && Next(m.blocks, m.end, i) <= m.end
    ensures !Owned(m, m.blocks[i].off + HEADER)
  {
    var bs, p := m.blocks, m.blocks[i].off + HEADER;
    assert Fits(bs, m.end, HEADER, i);
    Ordered(bs, m.end, HEADER, i, |bs|);
    forall n: nat ensures !Allocation(m, p, n) {
      assert Mark(bs, i, false) == bs;
      MarkLive(bs, m.end, HEADER, i, false, bs[i].off, n);
    }
  }

  lemma TakeKeeps(m: Pool, i: nat, size: nat)
    requires Valid(m) && i < |m.blocks| && !m.blocks[i].used
    requires Payload(m.blocks, m.end, i) >= size >= MIN_ALLOC && Aligned(size)
    ensures var m', p := Take(m, i, size), m.blocks[i].off + HEADER;
            && Valid(m') && m'.end == m.end && m'.maxUsed == Max(m.maxUsed, InUse(m'))
            && Aligned(p) && !Owned(m, p) && AllocatesAtLeast(m, m', p, size)
  {
    hide Consistent; hide Coalesced; hide Roomy; hide Allocation; hide Tiled;
    FreeBlockFacts(m, i);
    OccupySound(m, i);
    OccupyKeeps(m, i);
    var m1, p, next := Occupy(m, i), m.blocks[i].off + HEADER, Next(m.blocks, m.end, i);
    assert m1.blocks[i] == Block(m.blocks[i].off, true) && Payload(m1.blocks, m.end, i) == Payload(m.blocks, m.end, i);
    if Payload(m.blocks, m.end, i) >= size + HEADER + MIN_ALLOC {
      SplitUsedSound(m1, i, size);
      SplitUsedKeeps(m1, i, size);
      RecordKeeps(SplitUsed(m1, i, size));
      assert Adds(m, Take(m, i, size), p, p + size);
    } else {
      RecordKeeps(m1);
      assert Adds(m, Take(m, i, size), p, next);
    }
  }

  lemma RecordKeeps(m: Pool)
    ensures Sound(m) ==> Valid(Record(m))
    ensures SameAllocations(m, Record(m))
  {
  }

  // ----- rt_memheap_alloc -----

  /** The contract of `rt_memheap_alloc`: NULL leaves the pool untouched; otherwise the caller gets an
      aligned block of at least the rounded size that nobody owned, every other allocation stays what
      it was, and the high-water mark is brought up to date. */
  lemma AllocKeeps(m: Pool, request: nat)
    requires Valid(m)
    ensures var (m', r) := Alloc(m, request);
            && Valid(m') && m'.end == m.end
            && match r
               case None => m' == m
               case Some(p) =>
                 && Aligned(p) && !Owned(m, p) && AllocatesAtLeast(m, m', p, Rounded(request))
                 && m'.maxUsed == Max(m.maxUsed, InUse(m'))
  {
    hide Total; hide Take; hide Coalesced; hide Roomy; hide Tiled; hide NoDuplicates; hide Owned;
    var size := Rounded(request);
    var k := Find(m, size, 0);
    if k < |m.free| {
      var i := FreeIndex(m, k);
      if size < m.available { TakeKeeps(m, i, size); }
    }
  }

  /** The block of an entry of the free list. */
  lemma FreeIndex(m: Pool, k: nat) returns (i: nat)
    requires Consistent(m) && k < |m.free|
    ensures i < |m.blocks| && m.blocks[i] == Block(m.free[k], false) && IndexAt(m.blocks, m.free[k]) == i
    ensures ItemSize(m, m.free[k]) == Payload(m.blocks, m.end, i)
  {
    assert m.free[k] in m.free;
    i :| 0 <= i < |m.blocks| && m.blocks[i] == Block(m.free[k], false);
    IndexAtBlock(m.blocks, m.end, HEADER, i);
  }

  ghost predicate FitsBlock(m: Pool, size: nat, i: nat) {
    i < |m.blocks| && !m.blocks[i].used && Payload(m.blocks, m.end, i) >= size
  }

  /** NULL means that no free block fits, or that the request would use up the last available byte:
      the guard is strict.  Otherwise the block handed out is the first in free-list order that fits. */
  lemma AllocIsFirstFit(m: Pool, request: nat)
    requires Valid(m)
    ensures var size, r := Rounded(request), Alloc(m, request).1;
            && (r.None? <==> size >= m.available || forall i: nat :: !FitsBlock(m, size, i))
            && (r.Some? ==> r.value >= HEADER && exists k: nat, i: nat ::
                  && k < |m.free| && FitsBlock(m, size, i) && m.blocks[i].off == m.free[k] == r.value - HEADER
                  && forall j, l: nat :: 0 <= j < k && l < |m.blocks| && m.blocks[l].off == m.free[j] ==> !FitsBlock(m, size, l))
  {
    hide Total; hide Take; hide Coalesced; hide Roomy; hide Owned; hide Tiled;
    var size := Rounded(request);
    var k := Find(m, size, 0);
    forall j, l: nat | 0 <= j < k && l < |m.blocks| && m.blocks[l].off == m.free[j] ensures !FitsBlock(m, size, l) {
      var i := FreeIndex(m, j);
      IndexAtBlock(m.blocks, m.end, HEADER, l);
    }
    if k < |m.free| {
      var i := FreeIndex(m, k);
      assert FitsBlock(m, size, i);
    } else {
      forall i: nat ensures !FitsBlock(m, size, i) {
        if i < |m.blocks| && !m.blocks[i].used {
          assert m.blocks[i] == Block(m.blocks[i].off, false);
          assert m.blocks[i].off in m.free;
          var j :| 0 <= j < |m.free| && m.free[j] == m.blocks[i].off;
        }
      }
    }
  }

  /** The first of the free list that fits is handed out at `p`: cut to `size` bytes if what is left can hold a block,
      and whole if not. */
  ghost predicate Grants(m: Pool, m': Pool, p: nat, size: nat) {
    p >= HEADER && exists k: nat, i: nat ::
      && k < |m.free| && FitsBlock(m, size, i) && m.blocks[i].off == m.free[k] == p - HEADER
      && (forall j, l: nat :: 0 <= j < k && l < |m.blocks| && m.blocks[l].off == m.free[j] ==> !FitsBlock(m, size, l))
      && Adds(m, m', p, if Payload(m.blocks, m.end, i) < size + HEADER + MIN_ALLOC then Next(m.blocks, m.end, i) else p + size)
  }

  ghost predicate NoneFits(m: Pool, size: nat) { forall i: nat :: !FitsBlock(m, size, i) }

  /** The whole outcome of `rt_memheap_alloc`. */
  lemma AllocIs(m: Pool, request: nat)
    requires Valid(m)
    ensures var (m', r) := Alloc(m, request);
            var size := Rounded(request);
            if size >= m.available || NoneFits(m, size) then m' == m && r == None
            else r.Some? && Grants(m, m', r.value, size)
  {
    hide Valid; hide Take; hide Rounded; hide FitsBlock; hide Adds; hide NoneFits;
    var size := Rounded(request);
    RoundedAligned(request);
    FindIs(m, size);
  }

  lemma FindIs(m: Pool, size: nat)
    requires Valid(m) && Aligned(size) && size >= MIN_ALLOC
    ensures var k := Find(m, size, 0);
            if k == |m.free| then NoneFits(m, size)
            else
              var i := IndexAt(m.blocks, m.free[k]);
              i < |m.blocks| && !NoneFits(m, size) && Grants(m, Take(m, i, size), m.free[k] + HEADER, size)
  {
    hide Consistent; hide Coalesced; hide Roomy; hide Take; hide Adds; hide ItemSize; hide Find;
    FindFirst(m, size, 0);
    var k := Find(m, size, 0);
    forall j, l: nat | 0 <= j < k && l < |m.blocks| && m.blocks[l].off == m.free[j] ensures !FitsBlock(m, size, l) {
      ListedSize(m, j, l);
    }
    if k < |m.free| {
      var i := FreeIndex(m, k);
      assert FitsBlock(m, size, i);
      TakeLength(m, i, size);
    } else {
      forall i: nat ensures !FitsBlock(m, size, i) {
        if i < |m.blocks| && !m.blocks[i].used {
          var j := FreePlace(m, i);
          ListedSize(m, j, i);
        }
      }
    }
  }

  lemma FindFirst(m: Pool, size: nat, k: nat)
    requires k <= |m.free|
    ensures var r := Find(m, size, k);
            && k <= r <= |m.free| && (r < |m.free| ==> ItemSize(m, m.free[r]) >= size)
            && forall j :: k <= j < r ==> ItemSize(m, m.free[j]) < size
  {
  }

  lemma ListedSize(m: Pool, j: nat, l: nat)
    requires Consistent(m) && j < |m.free| && l < |m.blocks| && m.blocks[l].off == m.free[j]
    ensures ItemSize(m, m.free[j]) == Payload(m.blocks, m.end, l)
  {
    hide Total;
    IndexAtBlock(m.blocks, m.end, HEADER, l);
  }

  /** A free block is on the free list. */
  lemma FreePlace(m: Pool, i: nat) returns (j: nat)
    requires Consistent(m) && i < |m.blocks| && !m.blocks[i].used
    ensures j < |m.free| && m.free[j] == m.blocks[i].off
  {
    hide Total; hide Tiled;
    assert m.blocks[i] == Block(m.blocks[i].off, false);
    assert m.blocks[i].off in m.free;
    j :| 0 <= j < |m.free| && m.free[j] == m.blocks[i].off;
  }

  lemma TakeLength(m: Pool, i: nat, size: nat)
    requires Valid(m) && i < |m.blocks| && !m.blocks[i].used && Aligned(size) && Payload(m.blocks, m.end, i) >= size >= MIN_ALLOC
    ensures var p := m.blocks[i].off + HEADER;
            Adds(m, Take(m, i, size), p,
                 if Payload(m.blocks, m.end, i) < size + HEADER + MIN_ALLOC then Next(m.blocks, m.end, i) else p + size)
  {
    hide Consistent; hide Coalesced; hide Roomy; hide Allocation; hide Tiled; hide Occupy; hide SplitUsed;
    FreeBlockFacts(m, i);
    OccupySound(m, i);
    OccupyKeeps(m, i);
    OccupyAt(m, i);
    var m1 := Occupy(m, i);
    if Payload(m.blocks, m.end, i) >= size + HEADER + MIN_ALLOC {
      SplitUsedKeeps(m1, i, size);
      RecordKeeps(SplitUsed(m1, i, size));
    } else {
      RecordKeeps(m1);
    }
  }

  lemma OccupyAt(m: Pool, i: nat)
    requires i < |m.blocks|
    ensures var m1 := Occupy(m, i);
            && m1.end == m.end && i < |m1.blocks| && m1.blocks[i] == Block(m.blocks[i].off, true)
            && Payload(m1.blocks, m.end, i) == Payload(m.blocks, m.end, i)
  {
  }

  // ----- rt_memheap_free -----

  lemma OwnedIndex(m: Pool, p: nat) returns (i: nat)
    requires Consistent(m) && Owned(m, p)
    ensures p >= HEADER && i < |m.blocks| && m.blocks[i] == Block(p - HEADER, true) && IndexOf(m, p) == i
    ensures p <= Next(m.blocks, m.end, i) <= m.end
    ensures forall next :: Allocation(m, p, next) <==> next == Next(m.blocks, m.end, i)
  {
    hide Total;
    var next :| Allocation(m, p, next);
    i :| i < |m.blocks| && LiveAt(m.blocks, m.end, i, p - HEADER, next);
    IndexAtBlock(m.blocks, m.end, HEADER, i);
    Ordered(m.blocks, m.end, HEADER, i, |m.blocks|);
    assert Live(m.blocks, m.end, p - HEADER, next);
    forall n: nat | Allocation(m, p, n) ensures n == next {
      assert Live(m.blocks, m.end, p - HEADER, n);
      LiveDisjoint(m.blocks, m.end, HEADER, p - HEADER, next, p - HEADER, n);
    }
  }

  /** Freeing an allocation gives back exactly that one. */
  lemma FreeKeeps(m: Pool, p: nat)
    requires Valid(m) && Owned(m, p)
    ensures var m' := Free(m, p);
            && Valid(m') && m'.end == m.end && m'.maxUsed == m.maxUsed && InUse(m') <= InUse(m)
            && forall q, next :: Allocation(m', q, next) <==> Allocation(m, q, next) && q != p
  {
    hide Consistent; hide Coalesced; hide Roomy; hide Allocation; hide Owned;
    var i := OwnedIndex(m, p);
    var left := i > 0 && !m.blocks[i - 1].used;
    var m1, k := if left then ReleaseLeft(m, i) else ReleaseAlone(m, i), if left then i - 1 else i;
    if left { ReleaseLeftKeeps(m, i); } else { ReleaseAloneKeeps(m, i); }
    ReleaseSound(m, i, m1, k);
    if NextFree(m1, k) { MergeNextSound(m1, k); MergeNextKeeps(m1, k); }
  }

  lemma ReleaseSound(m: Pool, i: nat, m1: Pool, k: nat)
    requires Sound(m) && i < |m.blocks| && m.blocks[i].used
    requires var left := i > 0 && !m.blocks[i - 1].used;
             (m1, k) == if left then (ReleaseLeft(m, i), i - 1) else (ReleaseAlone(m, i), i)
    ensures k < |m1.blocks| && !m1.blocks[k].used && Roomy(m1.blocks, m1.end)
    ensures if NextFree(m1, k) then CoalescedExcept(m1.blocks, k) else Coalesced(m1.blocks)
  {
    hide Consistent; hide Without;
    var bs, bs' := m.blocks, m1.blocks;
    forall j | 0 <= j < |bs'| - 1 && j != k ensures Separated(bs', j) {
      if k < i { assert Separated(bs, if j < k then j else j + 1); } else { assert Separated(bs, j); }
    }
    forall j | 0 <= j < |bs'| && bs'[j].used ensures Payload(bs', m.end, j) >= MIN_ALLOC {
      assert Payload(bs', m.end, j) == Payload(bs, m.end, if k < i && j > k then j + 1 else j);
    }
    assert k + 1 < |bs'| && !NextFree(m1, k) ==> Separated(bs', k);
  }

  lemma MergeNextSound(m: Pool, i: nat)
    requires CoalescedExcept(m.blocks, i) && NextFree(m, i) && !m.blocks[i].used && Roomy(m.blocks, m.end)
    ensures var m' := MergeNext(m, i); Coalesced(m'.blocks) && Roomy(m'.blocks, m.end)
  {
    RejoinSeparated(m, i);
    var bs, bs' := m.blocks, MergeNext(m, i).blocks;
    forall j | 0 <= j < |bs'| && bs'[j].used ensures Payload(bs', m.end, j) >= MIN_ALLOC {
      assert Payload(bs', m.end, j) == Payload(bs, m.end, if j < i then j else j + 1);
    }
  }

  /** The order of the free list: the block that is given back comes first, unless it joins the free block before it,
      which keeps its place; a free block behind it leaves the list. */
  lemma FreeOrder(m: Pool, p: nat)
    requires Valid(m) && Owned(m, p)
    ensures p >= HEADER && IndexOf(m, p) < |m.blocks|
    ensures var (i, bs) := (IndexOf(m, p), m.blocks);
            var rest := if i + 1 < |bs| && !bs[i + 1].used then Without(m.free, bs[i + 1].off) else m.free;
            var off: nat := p - HEADER;
            Free(m, p).free == if i > 0 && !bs[i - 1].used then rest else [off] + rest
  {
    hide Consistent; hide Coalesced; hide Roomy; hide Owned; hide Allocation; hide Free; hide IndexOf; hide Without;
    var i := OwnedIndex(m, p);
    NextLater(m, i);
    FreeOrderAt(m, p, i);
  }

  lemma FreeOrderAt(m: Pool, p: nat, i: nat)
    requires p >= HEADER && i < |m.blocks| && m.blocks[i].off == p - HEADER && IndexOf(m, p) == i
    requires i + 1 < |m.blocks| ==> m.blocks[i + 1].off != m.blocks[i].off
    ensures var bs := m.blocks;
            var rest := if i + 1 < |bs| && !bs[i + 1].used then Without(m.free, bs[i + 1].off) else m.free;
            var off: nat := p - HEADER;
            Free(m, p).free == if i > 0 && !bs[i - 1].used then rest else [off] + rest
  {
    hide Without;
    if i + 1 < |m.blocks| {
      WithoutFirst(p - HEADER, m.free, m.blocks[i + 1].off);
      assert Mark(m.blocks, i, false)[i + 1] == m.blocks[i + 1];
    }
    if i > 0 {
      var bs' := Delete(Mark(m.blocks, i, false), i);
      assert |bs'| == |m.blocks| - 1 && (i + 1 < |m.blocks| ==> bs'[i] == m.blocks[i + 1]);
      assert Mark(m.blocks, i, false)[i - 1] == m.blocks[i - 1];
    }
  }

  lemma NextLater(m: Pool, i: nat)
    requires Valid(m) && i < |m.blocks|
    ensures i + 1 < |m.blocks| ==> m.blocks[i + 1].off != m.blocks[i].off
  {
    hide Total;
    if i + 1 < |m.blocks| { Ordered(m.blocks, m.end, HEADER, i, i + 1); }
  }

  lemma WithoutFirst(x: nat, rest: seq<nat>, y: nat)
    ensures x != y ==> Without([x] + rest, y) == [x] + Without(rest, y)
  {
    if x != y {
      var k := Position(rest, y);
      PositionNext(x, rest, y);
      hide Position;
      if k < |rest| { CutLater(x, rest, k); }
    }
  }

  lemma PositionNext(x: nat, rest: seq<nat>, y: nat)
    requires x != y
    ensures Position([x] + rest, y) == 1 + Position(rest, y)
  {
    assert ([x] + rest)[1..] == rest;
  }

  lemma CutLater(x: nat, rest: seq<nat>, k: nat)
    requires k < |rest|
    ensures ([x] + rest)[..k + 1] + ([x] + rest)[k + 2..] == [x] + (rest[..k] + rest[k + 1..])
  {
    var all := [x] + rest;
    assert all[..k + 1] == [x] + rest[..k] && all[k + 2..] == rest[k + 1..];
  }

  /** What is left of a block that was cut comes first on the free list, which the block itself has left. */
  lemma AllocOrder(m: Pool, request: nat)
    requires Valid(m)
    ensures var (m', r) := Alloc(m, request);
            r.Some? ==>
              && r.value >= HEADER && IndexAt(m.blocks, r.value - HEADER) < |m.blocks|
              && var (size, off: nat) := (Rounded(request), r.value - HEADER);
                 var i := IndexAt(m.blocks, off);
                 m'.free == (if Payload(m.blocks, m.end, i) >= size + HEADER + MIN_ALLOC then [r.value + size] else [])
                            + Without(m.free, off)
  {
    hide Valid; hide Without; hide Rounded; hide Find; hide Take;
    var r := Alloc(m, request).1;
    if r.Some? { TakeOrder(m, IndexAt(m.blocks, r.value - HEADER), Rounded(request)); }
  }

  lemma TakeOrder(m: Pool, i: nat, size: nat)
    requires i < |m.blocks|
    ensures var off := m.blocks[i].off;
            Take(m, i, size).free == (if Payload(m.blocks, m.end, i) >= size + HEADER + MIN_ALLOC then [off + HEADER + size] else [])
                                     + Without(m.free, off)
  {
    hide Without;
    var off := m.blocks[i].off;
    assert Mark(m.blocks, i, true)[i].off == off;
    assert [] + Without(m.free, off) == Without(m.free, off);
  }

  /** The whole outcome of `rt_memheap_realloc` on a live block and a size that is not zero. */

  /** Where the bytes that block `i` can grow into end. */
  function Reach(m: Pool, i: nat): nat
    requires i < |m.blocks|
  {
    Next(m.blocks, m.end, if NextFree(m, i) then i + 1 else i)
  }

  /** Refitting keeps the address and changes only this allocation's end, and the byte count by the
      difference and the header of a new block. */
  lemma RefitKeeps(m: Pool, i: nat, size: nat)
    requires Valid(m) && i < |m.blocks| && m.blocks[i].used
    requires Aligned(size) && MIN_ALLOC <= size && m.blocks[i].off + HEADER + size + HEADER <= Reach(m, i)
    ensures var m', p := Refit(m, i, size), m.blocks[i].off + HEADER;
            && Sound(m') && m'.end == m.end && m'.maxUsed == m.maxUsed
            && m'.available == m.available + Payload(m.blocks, m.end, i) - size - (if NextFree(m, i) then 0 else HEADER)
            && forall q, n :: Allocation(m', q, n) <==> if q == p then n == p + size else Allocation(m, q, n)
  {
    hide Consistent; hide Coalesced; hide Roomy; hide Allocation;
    if NextFree(m, i) {
      AbsorbNextSound(m, i);
      AbsorbNextKeeps(m, i);
      SplitUsedSound(AbsorbNext(m, i), i, size);
      SplitUsedKeeps(AbsorbNext(m, i), i, size);
    } else {
      SplitUsedSound(m, i, size);
      SplitUsedKeeps(m, i, size);
    }
  }

  /** The allocations of `m'` are those of `m` with `p` replaced by one at `r` of at least `size`
      bytes. */
  ghost predicate Moves(m: Pool, m': Pool, p: nat, r: nat, size: nat) {
    exists next :: r + size <= next <= m.end && Replaces(m, m', p, r, next)
  }

  ghost predicate Replaces(m: Pool, m': Pool, p: nat, r: nat, next: nat) {
    forall q, n :: Allocation(m', q, n) <==> (Allocation(m, q, n) && q != p) || (q == r && n == next)
  }

  /** The contract of `rt_memheap_realloc` on a live block and a size that is not zero: NULL leaves the
      pool, and so the old block, untouched; otherwise the block keeps its place or moves, and no
      other is affected. */
  lemma ReallocKeeps(m: Pool, p: nat, size: nat)
    requires Valid(m) && Owned(m, p) && Aligned(size) && MIN_ALLOC <= size < WRAP && !Wraps(m, p, size)
    ensures var (m', r) := ReallocLive(m, p, size);
            && Valid(m') && m'.end == m.end
            && match r
               case None => m' == m
               case Some(r) => Moves(m, m', p, r, size) && (r == p || !Owned(m, r))
  {
    var i := OwnedIndex(m, p);
    ReallocKeepsAt(m, p, i, size);
  }

  lemma ReallocKeepsAt(m: Pool, p: nat, i: nat, size: nat)
    requires Valid(m) && Owned(m, p) && Aligned(size) && MIN_ALLOC <= size < WRAP && !Wraps(m, p, size)
    requires p >= HEADER && i < |m.blocks| && m.blocks[i] == Block(p - HEADER, true) && IndexOf(m, p) == i
    requires forall next :: Allocation(m, p, next) <==> next == Next(m.blocks, m.end, i)
    requires Next(m.blocks, m.end, i) <= m.end
    ensures var (m', r) := ReallocLive(m, p, size);
            && Valid(m') && m'.end == m.end
            && match r
               case None => m' == m
               case Some(r) => Moves(m, m', p, r, size) && (r == p || !Owned(m, r))
  {
    if NextFree(m, i) { NextExtent(m, i); }
    hide Consistent; hide Coalesced; hide Roomy; hide Allocation; hide Alloc; hide Free; hide Refit; hide Owned;
    var had, m' := Payload(m.blocks, m.end, i), Refit(m, i, size);
    if size > had && !GrowsInPlace(m, i, size) {
      MoveKeeps(m, p, size);
    } else if size <= had && size + HEADER + MIN_ALLOC >= had {
      assert Replaces(m, m, p, p, Next(m.blocks, m.end, i));
    } else {
      RefitKeeps(m, i, size);
      RecordKeeps(m');
      RefitEnds(m, m', i, p, size);
      assert Replaces(m, m', p, p, p + size) && Replaces(m, Record(m'), p, p, p + size);
    }
  }

  /** What `rt_memheap_realloc` is to do with the live block `i` at `p`: a block that is long enough stays, shortened
      if the tail can hold a block; a shorter one grows in place if the free block behind it leaves more than the
      least size; and otherwise it moves, or NULL comes back and nothing changes if the size is not below the
      available bytes or no free block fits. */
  ghost predicate Resizes(m: Pool, m': Pool, r: Option<nat>, p: nat, i: nat, size: nat)
    requires i < |m.blocks|
  {
    var had := Payload(m.blocks, m.end, i);
    if had - HEADER - MIN_ALLOC <= size <= had then m' == m && r == Some(p)
    else if size < had || (i + 1 < |m.blocks| && !m.blocks[i + 1].used
                           && had + Payload(m.blocks, m.end, i + 1) > size + MIN_ALLOC)
    then r == Some(p) && Replaces(m, m', p, p, p + size)
    else if size >= m.available || NoneFits(m, size) then m' == m && r == None
    else r.Some? && r.value != p && !Owned(m, r.value) && Moves(m, m', p, r.value, size)
  }

  /** The whole outcome of `rt_memheap_realloc` on a live block and a size that is not zero. */
  lemma ReallocIs(m: Pool, p: nat, size: nat)
    requires Valid(m) && Owned(m, p) && Aligned(size) && MIN_ALLOC <= size < WRAP && !Wraps(m, p, size)
    ensures IndexOf(m, p) < |m.blocks|
    ensures Resizes(m, ReallocLive(m, p, size).0, ReallocLive(m, p, size).1, p, IndexOf(m, p), size)
  {
    hide Consistent; hide Coalesced; hide Roomy; hide Owned; hide ReallocLive; hide IndexOf; hide Resizes; hide Wraps;
    var i := OwnedIndex(m, p);
    ReallocIsAt(m, p, i, size);
  }

  lemma ReallocIsAt(m: Pool, p: nat, i: nat, size: nat)
    requires Valid(m) && Owned(m, p) && Aligned(size) && MIN_ALLOC <= size < WRAP && !Wraps(m, p, size)
    requires p >= HEADER && i < |m.blocks| && m.blocks[i] == Block(p - HEADER, true) && IndexOf(m, p) == i
    requires forall next :: Allocation(m, p, next) <==> next == Next(m.blocks, m.end, i)
    requires Next(m.blocks, m.end, i) <= m.end
    ensures Resizes(m, ReallocLive(m, p, size).0, ReallocLive(m, p, size).1, p, i, size)
  {
    if NextFree(m, i) { NextExtent(m, i); }
    hide Valid; hide Allocation; hide Alloc; hide Free; hide Refit; hide Owned; hide NoneFits; hide Moves; hide Replaces; hide Rounded;
    hide GrowsInPlace; hide Wraps;
    GrowsIff(m, i, p, size);
    var had := Payload(m.blocks, m.end, i);
    if size > had && !GrowsInPlace(m, i, size) {
      ReallocKeeps(m, p, size);
      RoundedFixed(size);
      AllocIs(m, size);
      AllocOther(m, p, size);
    } else if !(size <= had && size + HEADER + MIN_ALLOC >= had) {
      RefitReplaces(m, i, p, size);
    }
  }

  lemma GrowsIff(m: Pool, i: nat, p: nat, size: nat)
    requires i < |m.blocks| && IndexOf(m, p) == i && !Wraps(m, p, size)
    ensures GrowsInPlace(m, i, size) <==>
            i + 1 < |m.blocks| && !m.blocks[i + 1].used
            && Payload(m.blocks, m.end, i) + Payload(m.blocks, m.end, i + 1) > size + MIN_ALLOC
    ensures size < WRAP - MIN_ALLOC || !NextFree(m, i)
  {
  }

  /** A size of zero gives the block back, and without an old block `rt_memheap_realloc` allocates. */
  lemma ReallocOther(m: Pool, ptr: Option<nat>, newsize: nat)
    requires Valid(m) && (newsize == 0 || ptr.None?) && (ptr.Some? ==> Owned(m, ptr.value))
    ensures var (m', r) := Realloc(m, ptr, newsize);
            var size := Rounded(newsize);
            if newsize == 0 then
              r == None && forall q: nat, n: nat :: Allocation(m', q, n) <==> Allocation(m, q, n) && Some(q) != ptr
            else if size >= m.available || NoneFits(m, size) then m' == m && r == None
            else r.Some? && Grants(m, m', r.value, size)
  {
    hide Valid; hide Alloc; hide Free; hide Owned; hide Allocation; hide NoneFits; hide Grants; hide Rounded;
    if newsize == 0 {
      if ptr.Some? { FreeKeeps(m, ptr.value); }
    } else {
      RoundedAligned(newsize);
      RoundedFixed(Rounded(newsize));
      AllocIs(m, Rounded(newsize));
    }
  }

  lemma AllocOther(m: Pool, p: nat, size: nat)
    requires Valid(m) && Owned(m, p)
    ensures Alloc(m, size).1 != Some(p)
  {
    hide Alloc; hide Valid;
    AllocKeeps(m, size);
  }

  lemma RefitReplaces(m: Pool, i: nat, p: nat, size: nat)
    requires Valid(m) && Owned(m, p) && Aligned(size) && MIN_ALLOC <= size < WRAP
    requires p >= HEADER && i < |m.blocks| && m.blocks[i] == Block(p - HEADER, true)
    requires forall next :: Allocation(m, p, next) <==> next == Next(m.blocks, m.end, i)
    requires GrowsInPlace(m, i, size) || size + HEADER + MIN_ALLOC < Payload(m.blocks, m.end, i)
    requires size < WRAP - MIN_ALLOC || !NextFree(m, i)
    ensures Replaces(m, Refit(m, i, size), p, p, p + size) && Replaces(m, Record(Refit(m, i, size)), p, p, p + size)
  {
    if NextFree(m, i) { NextExtent(m, i); }
    hide Consistent; hide Coalesced; hide Roomy; hide Allocation; hide Refit; hide Owned;
    RefitKeeps(m, i, size);
    RecordKeeps(Refit(m, i, size));
  }

  /** A refitted block still ends inside the pool. */
  lemma RefitEnds(m: Pool, m': Pool, i: nat, p: nat, size: nat)
    requires Consistent(m') && Allocation(m', p, p + size)
    ensures p + size <= m'.end
  {
    LiveDisjoint(m'.blocks, m'.end, HEADER, p - HEADER, p + size, p - HEADER, p + size);
  }

  /** The block handed out is at least as long as the request, exactly when aligning the request does not wrap
      around 32 bits. */
  lemma RoundedCovers(request: nat)
    requires request < WRAP
    ensures Rounded(request) >= request <==> request <= WRAP - 4
  {
  }

  lemma RoundedFixed(size: nat)
    requires Aligned(size) && MIN_ALLOC <= size < WRAP
    ensures Rounded(size) == size
  {
  }

  lemma MoveKeeps(m: Pool, p: nat, size: nat)
    requires Valid(m) && Owned(m, p) && Aligned(size) && MIN_ALLOC <= size < WRAP
    ensures var (m1, r) := Alloc(m, size);
            match r
            case None => m1 == m
            case Some(r) =>
              var m' := Free(m1, p);
              && Valid(m') && m'.end == m.end && Moves(m, m', p, r, size) && !Owned(m, r)
              && m'.maxUsed == Max(m.maxUsed, InUse(m1)) && InUse(m') <= InUse(m1)
  {
    hide Valid; hide Alloc; hide Free; hide Rounded; hide Allocation;
    var (m1, r) := Alloc(m, size);
    AllocKeeps(m, size);
    RoundedFixed(size);
    if r.Some? {
      var next :| r.value + size <= next <= m.end && Adds(m, m1, r.value, next);
      var n :| Allocation(m, p, n);
      assert Allocation(m1, p, n);
      FreeKeeps(m1, p);
      assert p != r.value;
      assert Replaces(m, Free(m1, p), p, r.value, next);
    }
  }

  lemma GrowWraps(m: Pool, i: nat, p: nat, size: nat)
    requires Valid(m) && m.end + HEADER < WRAP - MIN_ALLOC && Aligned(size) && WRAP - MIN_ALLOC <= size < WRAP
    requires p >= HEADER && i < |m.blocks| && m.blocks[i] == Block(p - HEADER, true) && IndexOf(m, p) == i
    requires NextFree(m, i) && p <= Next(m.blocks, m.end, i) <= m.end
    ensures !Valid(ReallocLive(m, p, size).0)
  {
    hide Total; hide Agree; hide Coalesced;
    NextExtent(m, i);
    assert Payload(m.blocks, m.end, i) >= MIN_ALLOC;
    assert GrowsInPlace(m, i, size);
    var bs' := Refit(m, i, size).blocks;
    assert bs'[i + 1] == Block(p + size, false);
    if Tiled(bs', m.end, HEADER) { Ordered(bs', m.end, HEADER, i + 1, |bs'|); }
  }

  /** The in-place test adds in 32 bits, so for a size in the last bytes of the address space it
      holds whatever the blocks are: with a free successor the pool stops being one exactly then. */
  lemma ReallocValidIff(m: Pool, p: nat, size: nat)
    requires Valid(m) && Owned(m, p) && m.end + HEADER < WRAP - MIN_ALLOC
    requires Aligned(size) && MIN_ALLOC <= size < WRAP
    ensures Valid(ReallocLive(m, p, size).0) <==> !Wraps(m, p, size)
  {
    var i := OwnedIndex(m, p);
    if Wraps(m, p, size) { GrowWraps(m, i, p, size); } else { ReallocKeeps(m, p, size); }
  }

  // ----- runs -----

  datatype Op = AllocOp(request: nat) | FreeOp(p: nat) | ReallocOp(ptr: Option<nat>, newsize: nat)

  /** Callers free and reallocate only what they own, and the test for growing in place does not wrap. */
  ghost predicate Legal(m: Pool, op: Op) {
    match op
    case AllocOp(_) => true
    case FreeOp(p) => Owned(m, p)
    case ReallocOp(p, newsize) => p.Some? ==> Owned(m, p.value) && !Wraps(m, p.value, Rounded(newsize))
  }

  function Step(m: Pool, op: Op): Pool {
    match op
    case AllocOp(n) => Alloc(m, n).0
    case FreeOp(p) => Free(m, p)
    case ReallocOp(p, n) => Realloc(m, p, n).0
  }

  /** The most bytes in use during an operation: a moving reallocation holds both blocks for a
      while. */
  function PeakOf(m: Pool, op: Op): int {
    if op.ReallocOp? && op.newsize > 0 && op.ptr.Some? && Realloc(m, op.ptr, op.newsize).1 !in {None, op.ptr}
    then InUse(Alloc(m, Rounded(op.newsize)).0)
    else InUse(Step(m, op))
  }

  function Run(m: Pool, ops: seq<Op>): Pool
    decreases |ops|
  {
    if ops == [] then m else Run(Step(m, ops[0]), ops[1..])
  }

  /** The most bytes in use during a run. */
  function Peak(m: Pool, ops: seq<Op>): int
    decreases |ops|
  {
    if ops == [] then InUse(m) else Max(InUse(m), Max(PeakOf(m, ops[0]), Peak(Step(m, ops[0]), ops[1..])))
  }

  ghost predicate LegalRun(m: Pool, ops: seq<Op>)
    decreases |ops|
  {
    ops == [] || (Legal(m, ops[0]) && LegalRun(Step(m, ops[0]), ops[1..]))
  }

  lemma InitValid(end: nat)
    requires Aligned(end) && end >= HEADER
    ensures Valid(Init(end)) && Init(end).maxUsed == InUse(Init(end))
  {
    var m := Init(end);
    assert m.blocks[0] == Block(0, false);
    TotalOne(Block(0, false), end, FreePayload);
  }

  lemma RoundedAligned(request: nat)
    ensures Aligned(Rounded(request)) && MIN_ALLOC <= Rounded(request) < WRAP
  {
  }

  lemma StepKeeps(m: Pool, op: Op)
    requires Valid(m) && Legal(m, op)
    ensures var m' := Step(m, op);
            && Valid(m') && m'.end == m.end && InUse(m') <= PeakOf(m, op)
            && m'.maxUsed == Max(m.maxUsed, PeakOf(m, op))
  {
    hide Valid; hide Alloc; hide Free; hide Refit; hide Rounded; hide Owned; hide Total; hide IndexOf;
    ValidPeak(m);
    match op
    case AllocOp(n) => AllocKeeps(m, n);
    case FreeOp(p) => FreeKeeps(m, p);
    case ReallocOp(p, n) =>
      RoundedAligned(n);
      if n == 0 {
        if p.Some? { FreeKeeps(m, p.value); }
      } else if p.None? {
        AllocKeeps(m, Rounded(n));
      } else {
        ReallocKeeps(m, p.value, Rounded(n));
        ReallocPeak(m, p.value, Rounded(n));
      }
  }

  lemma ValidPeak(m: Pool)
    requires Valid(m)
    ensures m.maxUsed >= InUse(m)
  {
  }

  /** How far a reallocation raises the high-water mark. */
  lemma ReallocPeak(m: Pool, p: nat, size: nat)
    requires Valid(m) && Owned(m, p) && Aligned(size) && MIN_ALLOC <= size < WRAP && !Wraps(m, p, size)
    ensures var (m', r) := ReallocLive(m, p, size);
            var peak := if r in {None, Some(p)} then InUse(m') else InUse(Alloc(m, size).0);
            InUse(m') <= peak && m'.maxUsed == Max(m.maxUsed, peak)
  {
    var i := OwnedIndex(m, p);
    if NextFree(m, i) { NextExtent(m, i); }
    hide Consistent; hide Coalesced; hide Roomy; hide Allocation; hide Alloc; hide Free; hide Refit; hide Owned;
    var had := Payload(m.blocks, m.end, i);
    if size > had && !GrowsInPlace(m, i, size) {
      MoveKeeps(m, p, size);
    } else if !(size <= had && size + HEADER + MIN_ALLOC >= had) {
      RefitKeeps(m, i, size);
    }
  }

  /** Every legal run keeps both lists in agreement, no two free neighbours and the byte count, and
      the high-water mark is the most that was ever in use. */
  lemma {:induction false} RunKeeps(m: Pool, ops: seq<Op>)
    requires Valid(m) && LegalRun(m, ops)
    ensures var m' := Run(m, ops);
            && Valid(m') && m'.end == m.end
            && m'.maxUsed == Max(m.maxUsed, Peak(m, ops))
    decreases |ops|
  {
    hide Valid; hide Step; hide Legal; hide PeakOf;
    ValidPeak(m);
    if ops != [] {
      StepKeeps(m, ops[0]);
      RunKeeps(Step(m, ops[0]), ops[1..]);
    }
  }

  /** Once everything is freed, the pool is the initial single free block again. */
  lemma RunDrains(end: nat, ops: seq<Op>)
    requires Aligned(end) && end >= HEADER && LegalRun(Init(end), ops)
    requires forall p, next :: !Allocation(Run(Init(end), ops), p, next)
    ensures Run(Init(end), ops) == Init(end).(maxUsed := Peak(Init(end), ops))
  {
    hide Valid; hide Run; hide LegalRun; hide Allocation;
    InitValid(end);
    RunKeeps(Init(end), ops);
    Drained(Run(Init(end), ops));
  }

  lemma Drained(m: Pool)
    requires Valid(m) && forall p, next :: !Allocation(m, p, next)
    ensures m == Init(m.end).(maxUsed := m.maxUsed)
  {
    var end := m.end;
    forall i | 0 <= i < |m.blocks| ensures !m.blocks[i].used {
      if m.blocks[i].used {
        assert LiveAt(m.blocks, end, i, m.blocks[i].off, Next(m.blocks, end, i));
        assert Allocation(m, m.blocks[i].off + HEADER, Next(m.blocks, end, i));
      }
    }
    assert |m.blocks| > 1 ==> Separated(m.blocks, 0);
    assert m.blocks == [Block(0, false)];
    TotalOne(Block(0, false), end, FreePayload);
    SingletonList(m.free, 0);
  }

  // ----- where the code falls short, from the initial pool -----

  /** A request for all that is available is refused although the one free block fits it. */
  lemma LastBytesRefused()
    ensures var m := Init(HEADER + MIN_ALLOC);
            Valid(m) && m.available == MIN_ALLOC && FitsBlock(m, MIN_ALLOC, 0) && Alloc(m, MIN_ALLOC).1 == None
  {
    InitValid(HEADER + MIN_ALLOC);
  }

  /** The largest request is granted with the smallest block. */
  lemma LargestGetsLeast()
    ensures var (m, r) := Alloc(Init(1000), WRAP - 1);
            Valid(Init(1000)) && r == Some(HEADER) && Allocation(m, HEADER, HEADER + MIN_ALLOC)
  {
    InitValid(1000);
    FirstSplit();
    assert Rounded(WRAP - 1) == Rounded(MIN_ALLOC);
    var m := Alloc(Init(1000), WRAP - 1).0;
    assert LiveAt(m.blocks, m.end, 0, 0, HEADER + MIN_ALLOC);
  }

  /** One allocation and one reallocation to nearly the whole address space destroy the pool. */
  lemma GrowthDestroys()
    ensures var m := Alloc(Init(1000), MIN_ALLOC).0;
            Valid(m) && Owned(m, HEADER) && !Valid(Realloc(m, Some(HEADER), WRAP - 4).0)
  {
    hide Valid; hide Alloc; hide Wraps; hide ReallocLive; hide AllocatesAtLeast;
    var m, m1 := Init(1000), Alloc(Init(1000), MIN_ALLOC).0;
    InitValid(1000);
    AllocKeeps(m, MIN_ALLOC);
    FirstSplit();
    FirstOwned(m, m1);
    ReallocValidIff(m1, HEADER, WRAP - 4);
    FirstWraps(m1);
  }

  lemma FirstSplit()
    ensures var (m, r) := Alloc(Init(1000), MIN_ALLOC);
            m.blocks == [Block(0, true), Block(36, false)] && m.end == 1000 && r == Some(HEADER)
  {
    var m := Init(1000);
    assert ItemSize(m, 0) == 976;
    assert Find(m, MIN_ALLOC, 0) == 0;
  }

  lemma FirstOwned(m: Pool, m1: Pool)
    requires AllocatesAtLeast(m, m1, HEADER, MIN_ALLOC)
    ensures Owned(m1, HEADER)
  {
    var next :| HEADER + MIN_ALLOC <= next <= m.end && Adds(m, m1, HEADER, next);
    assert Allocation(m1, HEADER, next);
  }

  lemma FirstWraps(m: Pool)
    requires m.blocks == [Block(0, true), Block(36, false)]
    ensures Wraps(m, HEADER, WRAP - 4) && Realloc(m, Some(HEADER), WRAP - 4) == ReallocLive(m, HEADER, WRAP - 4)
  {
    hide ReallocLive;
  }
}
