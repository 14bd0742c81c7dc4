/** src/mem.c in place: block headers live in the heap's own cells, linked by offsets.  Each header
    field is kept in the cell of its first byte: the used flag at the header, `next` four bytes and
    `prev` eight bytes after it. */
module SmallHeap {
  import opened Blocks
  import opened Lists
  import opened SmallMem
  import opened Words

  function Flag(used: bool): int { if used then 1 else 0 }

  function Prev(bs: seq<Block>, i: nat): nat
    requires i < |bs|
  {
    if i == 0 then 0 else bs[i - 1].off
  }

  /** The header of block `i` as the cells hold it. */
  ghost predicate HeaderAt(cells: seq<int>, bs: seq<Block>, end: nat, i: nat)
    requires i < |bs|
  {
    && bs[i].off + HEADER <= |cells|
    && cells[bs[i].off] == Flag(bs[i].used) && cells[bs[i].off + 4] == Next(bs, end, i)
    && cells[bs[i].off + 8] == Prev(bs, i)
  }

  /** `next` and `prev` are mutually inverse along the blocks; the `prev` of the end stub is not
      maintained by the source and not read. */
  ghost predicate Linked(cells: seq<int>, bs: seq<Block>, end: nat) {
    && Tiled(bs, end, HEADER) && |cells| == end + HEADER
    && (forall i :: 0 <= i < |bs| ==> HeaderAt(cells, bs, end, i))
    && cells[end] == 1 && cells[end + 4] == end
  }

  /** Cells of some header. */
  ghost predicate HeaderCell(bs: seq<Block>, end: nat, c: nat) {
    end <= c || exists i :: 0 <= i < |bs| && bs[i].off <= c < bs[i].off + HEADER
  }

  /** Cell `c` belongs to the payload of the allocation at `q`. */
  ghost predicate Owns(h: Heap, q: nat, c: nat) {
    exists n: nat :: Allocation(h, q, n) && q <= c < n
  }

  /** A payload cell lies in no header, and in block `k` only if `q` is that block's payload. */
  lemma PayloadCell(h: Heap, k: nat, q: nat, c: nat)
    requires Tiled(h.blocks, h.end, HEADER) && Owns(h, q, c) && k < |h.blocks|
    ensures var at, next := h.blocks[k].off, Next(h.blocks, h.end, k);
            && c < h.end && !(at <= c < at + HEADER) && !(next <= c < next + HEADER)
            && if q == at + HEADER then h.blocks[k].used else c < at || next <= c
  {
    var n: nat :| Allocation(h, q, n) && q <= c < n;
    var i: nat :| i < |h.blocks| && LiveAt(h.blocks, h.end, i, q - HEADER, n);
    Ordered(h.blocks, h.end, HEADER, i, |h.blocks|);
    Ordered(h.blocks, h.end, HEADER, k, |h.blocks|);
    if i < k {
      Ordered(h.blocks, h.end, HEADER, i, k);
    } else if k < i {
      Ordered(h.blocks, h.end, HEADER, k, i);
      if k + 1 < i { Ordered(h.blocks, h.end, HEADER, k + 1, i); }
    }
  }

  lemma PayloadCellNoHeader(h: Heap, q: nat, c: nat)
    requires Tiled(h.blocks, h.end, HEADER) && Owns(h, q, c)
    ensures !HeaderCell(h.blocks, h.end, c)
  {
    PayloadCell(h, 0, q, c);
    forall k | 0 <= k < |h.blocks| ensures !(h.blocks[k].off <= c < h.blocks[k].off + HEADER) {
      PayloadCell(h, k, q, c);
    }
  }

  lemma LinkedMark(cells: seq<int>, bs: seq<Block>, end: nat, i: nat, used: bool)
    requires Linked(cells, bs, end) && i < |bs| && bs[i].off < |cells|
    ensures Linked(cells[bs[i].off := Flag(used)], Mark(bs, i, used), end)
  {
    var cells', bs' := cells[bs[i].off := Flag(used)], Mark(bs, i, used);
    MarkTiled(bs, end, HEADER, i, used);
    Ordered(bs, end, HEADER, i, |bs|);
    forall j | 0 <= j < |bs| ensures HeaderAt(cells', bs', end, j) {
      assert HeaderAt(cells, bs, end, j);
      Apart(bs, end, i, j);
    }
  }

  lemma Apart(bs: seq<Block>, end: nat, i: nat, j: nat)
    requires Tiled(bs, end, HEADER) && i < |bs| && j < |bs|
    ensures i == j || bs[i].off + HEADER <= bs[j].off || bs[j].off + HEADER <= bs[i].off
    ensures bs[j].off + HEADER <= end
  {
    if i < j { Ordered(bs, end, HEADER, i, j); } else if j < i { Ordered(bs, end, HEADER, j, i); }
    Ordered(bs, end, HEADER, j, |bs|);
  }

  /** The five writes of a split. */
  function SplitCells(cells: seq<int>, at: nat, tail: nat, next: nat, end: nat): (cells': seq<int>)
    requires at + HEADER <= |cells| && tail + HEADER <= |cells| && next + HEADER <= |cells|
    ensures |cells'| == |cells|
  {
    var c := cells[tail := 0][tail + 4 := next][tail + 8 := at][at + 4 := tail];
    if next != end then c[next + 8 := tail] else c
  }

  lemma LinkedInsert(cells: seq<int>, bs: seq<Block>, end: nat, i: nat, b: Block)
    requires Linked(cells, bs, end) && 0 < i <= |bs| && Aligned(b.off) && !b.used
    requires bs[i - 1].off + HEADER <= b.off && b.off + HEADER <= Next(bs, end, i - 1)
    requires bs[i - 1].off + HEADER <= |cells| && b.off + HEADER <= |cells| && Next(bs, end, i - 1) + HEADER <= |cells|
    ensures Linked(SplitCells(cells, bs[i - 1].off, b.off, Next(bs, end, i - 1), end), Insert(bs, i, b), end)
  {
    var at, next := bs[i - 1].off, Next(bs, end, i - 1);
    var cells', bs' := SplitCells(cells, at, b.off, next, end), Insert(bs, i, b);
    InsertTiled(bs, end, HEADER, i, b);
    Ordered(bs, end, HEADER, i - 1, |bs|);
    if i < |bs| { Ordered(bs, end, HEADER, i, |bs|); }
    forall j | 0 <= j < |bs'| ensures HeaderAt(cells', bs', end, j) {
      Apart(bs', end, i, j);
      Apart(bs', end, i - 1, j);
      if i + 1 < |bs'| { Apart(bs', end, i + 1, j); }
      if j < i { assert HeaderAt(cells, bs, end, j); } else if j > i { assert HeaderAt(cells, bs, end, j - 1); }
    }
  }

  /** The two writes of a merge. */
  function MergeCells(cells: seq<int>, at: nat, next: nat): seq<int>
    requires at + HEADER <= |cells| && next + HEADER <= |cells|
  {
    cells[at + 4 := next][next + 8 := at]
  }

  lemma LinkedDelete(cells: seq<int>, bs: seq<Block>, end: nat, i: nat)
    requires Linked(cells, bs, end) && 0 < i < |bs|
    requires bs[i - 1].off + HEADER <= |cells| && Next(bs, end, i) + HEADER <= |cells|
    ensures Linked(MergeCells(cells, bs[i - 1].off, Next(bs, end, i)), Delete(bs, i), end)
  {
    var at, next := bs[i - 1].off, Next(bs, end, i);
    var cells', bs' := MergeCells(cells, at, next), Delete(bs, i);
    DeleteTiled(bs, end, HEADER, i);
    Ordered(bs, end, HEADER, i - 1, i);
    Ordered(bs, end, HEADER, i, |bs|);
    if i + 1 < |bs| { Ordered(bs, end, HEADER, i + 1, |bs|); }
    forall j | 0 <= j < |bs'| ensures HeaderAt(cells', bs', end, j) {
      Apart(bs', end, i - 1, j);
      if i < |bs'| { Apart(bs', end, i, j); }
      assert HeaderAt(cells, bs, end, if j < i then j else j + 1);
    }
  }

  /** What a header says about the neighbours. */
  lemma LinksOf(cells: seq<int>, bs: seq<Block>, end: nat, i: nat)
    requires Linked(cells, bs, end) && i < |bs|
    ensures bs[i].off + HEADER <= Next(bs, end, i) <= end && |cells| == end + HEADER
    ensures cells[bs[i].off] == Flag(bs[i].used) && cells[bs[i].off + 4] == Next(bs, end, i)
    ensures cells[bs[i].off + 8] == (if i == 0 then 0 else bs[i - 1].off)
    ensures i > 0 ==> bs[i - 1].off + HEADER <= bs[i].off
    ensures i == 0 ==> bs[i].off == 0
    ensures i + 1 == |bs| ==> cells[Next(bs, end, i)] == 1
  {
    assert HeaderAt(cells, bs, end, i);
    Ordered(bs, end, HEADER, i, |bs|);
    if i > 0 { Ordered(bs, end, HEADER, i - 1, i); }
  }

  /** Writes that touch header cells only, and turn no other cell into one. */
  ghost predicate OnlyHeaders(cells: seq<int>, cells': seq<int>, bs: seq<Block>, bs': seq<Block>, end: nat) {
    && |cells| == |cells'|
    && forall c :: 0 <= c < |cells| && !HeaderCell(bs, end, c) ==>
         cells'[c] == cells[c] && !HeaderCell(bs', end, c)
  }

  lemma OnlyHeadersTwice(c0: seq<int>, c1: seq<int>, c2: seq<int>, bs0: seq<Block>, bs1: seq<Block>, bs2: seq<Block>, end: nat)
    requires OnlyHeaders(c0, c1, bs0, bs1, end) && OnlyHeaders(c1, c2, bs1, bs2, end)
    ensures OnlyHeaders(c0, c2, bs0, bs2, end)
  {
  }

  lemma MergeWrites(cells: seq<int>, bs: seq<Block>, end: nat, i: nat)
    requires Linked(cells, bs, end) && 0 < i < |bs|
    requires bs[i - 1].off + HEADER <= |cells| && Next(bs, end, i) + HEADER <= |cells|
    ensures OnlyHeaders(cells, MergeCells(cells, bs[i - 1].off, Next(bs, end, i)), bs, Delete(bs, i), end)
  {
    var bs' := Delete(bs, i);
    forall c: nat | HeaderCell(bs', end, c) ensures HeaderCell(bs, end, c) {
      if c < end {
        var k :| 0 <= k < |bs'| && bs'[k].off <= c < bs'[k].off + HEADER;
        assert bs'[k] == bs[if k < i then k else k + 1];
      }
    }
  }

  /** Every live payload of `h` but that of `except` holds what it held. */
  ghost predicate PayloadsKept(h: Heap, cells: seq<int>, cells': seq<int>, except: Option<nat>) {
    && |cells| == |cells'|
    && forall q: nat, c: nat :: Owns(h, q, c) && c < |cells| && Some(q) != except ==> cells'[c] == cells[c]
  }

  /** Header writes keep every payload. */
  lemma HeadersKeepPayloads(h: Heap, cells: seq<int>, cells': seq<int>, bs': seq<Block>)
    requires Tiled(h.blocks, h.end, HEADER) && OnlyHeaders(cells, cells', h.blocks, bs', h.end)
    ensures forall except :: PayloadsKept(h, cells, cells', except)
  {
    forall q: nat, c: nat | Owns(h, q, c) && c < |cells| ensures cells'[c] == cells[c] {
      PayloadCellNoHeader(h, q, c);
    }
  }

  /** Taking a free block in the cells: cut off the rest, then set the flag. */
  function TakeCells(cells: seq<int>, at: nat, next: nat, size: nat, end: nat): seq<int>
    requires at + HEADER <= next && next + HEADER <= |cells|
  {
    (if next - (at + HEADER) >= size + HEADER + MIN_SIZE
     then SplitCells(cells, at, at + HEADER + size, next, end) else cells)[at := 1]
  }

  lemma TakeCellsLinked(cells: seq<int>, h: Heap, k: nat, size: nat)
    requires Linked(cells, h.blocks, h.end) && k < |h.blocks| && !h.blocks[k].used && Aligned(size)
    requires h.blocks[k].off + HEADER <= Next(h.blocks, h.end, k) && Next(h.blocks, h.end, k) + HEADER <= |cells|
    ensures var cells' := TakeCells(cells, h.blocks[k].off, Next(h.blocks, h.end, k), size, h.end);
            Linked(cells', Taken(h.blocks, h.end, k, size), h.end) && PayloadsKept(h, cells, cells', None)
  {
    var at, next := h.blocks[k].off, Next(h.blocks, h.end, k);
    if next - (at + HEADER) >= size + HEADER + MIN_SIZE {
      var b := Block(at + HEADER + size, false);
      assert Fits(h.blocks, h.end, HEADER, k);
      LinkedInsert(cells, h.blocks, h.end, k + 1, b);
      LinkedMark(SplitCells(cells, at, b.off, next, h.end), Insert(h.blocks, k + 1, b), h.end, k, true);
      assert Mark(Insert(h.blocks, k + 1, b), k, true) == Insert(Mark(h.blocks, k, true), k + 1, b);
    } else {
      LinkedMark(cells, h.blocks, h.end, k, true);
    }
    forall q: nat, c: nat | Owns(h, q, c) && c < |cells|
      ensures TakeCells(cells, at, next, size, h.end)[c] == cells[c]
    {
      PayloadCell(h, k, q, c);
    }
  }

  /** `n` cells moved from `p` in the old memory to `q` in the new. */
  ghost predicate SameContents(cells: seq<int>, p: nat, cells': seq<int>, q: nat, n: nat) {
    p + n <= |cells| && q + n <= |cells'| && cells'[q..q + n] == cells[p..p + n]
  }

  /** Cutting a tail off keeps what stays allocated, and that lies outside the new header. */
  lemma CutPayloads(cells: seq<int>, h: Heap, i: nat, size: nat, q: nat, c: nat)
    requires Valid(h) && Linked(cells, h.blocks, h.end) && i < |h.blocks| && h.blocks[i].used && Aligned(size)
    requires size + HEADER + MIN_SIZE < Payload(h.blocks, h.end, i)
    requires Next(h.blocks, h.end, i) + HEADER <= |cells|
    requires var p := h.blocks[i].off + HEADER;
             if q == p then p <= c < p + size else Owns(h, q, c) && c < |cells|
    ensures var at := h.blocks[i].off;
            && Owns(Cut(h, i, size), q, c) && c < |cells|
            && SplitCells(cells, at, at + HEADER + size, Next(h.blocks, h.end, i), h.end)[c] == cells[c]
  {
    hide Linked; hide Allocation; hide Coalesced; hide CoalescedBut; hide CursorOk; hide Total; hide Insert;
    CutKeeps(h, i, size);
    var p, h1 := h.blocks[i].off + HEADER, Cut(h, i, size);
    if q == p {
      assert Allocation(h1, p, p + size);
    } else {
      PayloadCell(h, i, q, c);
      var n: nat :| Allocation(h, q, n) && q <= c < n;
      assert Allocation(h1, q, n);
    }
  }

  /** A shrink keeps what stays allocated. */
  lemma ShrinkPayloads(cells: seq<int>, cells': seq<int>, h: Heap, i: nat, size: nat, bs': seq<Block>)
    requires Valid(h) && Linked(cells, h.blocks, h.end) && i < |h.blocks| && h.blocks[i].used && Aligned(size)
    requires size + HEADER + MIN_SIZE < Payload(h.blocks, h.end, i)
    requires var at, next := h.blocks[i].off, Next(h.blocks, h.end, i);
             && next + HEADER <= |cells|
             && OnlyHeaders(SplitCells(cells, at, at + HEADER + size, next, h.end), cells', Cut(h, i, size).blocks, bs', h.end)
    ensures var p := h.blocks[i].off + HEADER;
            && PayloadsKept(h, cells, cells', Some(p)) && SameContents(cells, p, cells', p, size)
  {
    hide Valid; hide Linked; hide OnlyHeaders; hide Owns; hide SplitCells; hide Tiled; hide Aligned;
    hide Coalesced; hide CoalescedBut; hide CursorOk; hide Total; hide LastHasRoom; hide Allocation; hide Live;
    hide Insert; hide Separated; hide Fits; hide HeaderAt;
    var at, next := h.blocks[i].off, Next(h.blocks, h.end, i);
    var p, cut := at + HEADER, SplitCells(cells, at, at + HEADER + size, next, h.end);
    CutKeeps(h, i, size);
    LinksOf(cells, h.blocks, h.end, i);
    assert |cut| == |cells|;
    forall q: nat, c: nat | Owns(h, q, c) && c < |cells| && q != p ensures Owns(Cut(h, i, size), q, c) && cut[c] == cells[c] {
      CutPayloads(cells, h, i, size, q, c);
    }
    forall c: nat | p <= c < p + size ensures Owns(Cut(h, i, size), p, c) && c < |cells| && cut[c] == cells[c] {
      CutPayloads(cells, h, i, size, p, c);
    }
    HeadersKeepPart(h, Cut(h, i, size), cells, cut, cells', bs', p, size);
  }

  /** Header writes in `h1` keep what `h1` shares with `h`. */
  lemma HeadersKeepPart(h: Heap, h1: Heap, cells: seq<int>, cut: seq<int>, cells': seq<int>, bs': seq<Block>, p: nat, size: nat)
    requires Tiled(h1.blocks, h1.end, HEADER) && OnlyHeaders(cut, cells', h1.blocks, bs', h1.end) && |cut| == |cells|
    requires forall q: nat, c: nat :: Owns(h, q, c) && c < |cells| && q != p ==> Owns(h1, q, c) && cut[c] == cells[c]
    requires forall c: nat :: p <= c < p + size ==> Owns(h1, p, c) && c < |cells| && cut[c] == cells[c]
    requires p <= |cells|
    ensures PayloadsKept(h, cells, cells', Some(p)) && SameContents(cells, p, cells', p, size)
  {
    HeadersKeepPayloads(h1, cut, cells', bs');
    assert PayloadsKept(h1, cut, cells', None);
    if size > 0 { assert Owns(h1, p, p + size - 1); }
  }

  lemma LinkedFrame(cells: seq<int>, cells': seq<int>, bs: seq<Block>, end: nat)
    requires Linked(cells, bs, end) && |cells'| == |cells|
    requires forall c {:trigger cells'[c]} :: 0 <= c < |cells| && HeaderCell(bs, end, c) ==> cells'[c] == cells[c]
    ensures Linked(cells', bs, end)
  {
    forall j | 0 <= j < |bs| ensures HeaderAt(cells', bs, end, j) {
      assert HeaderAt(cells, bs, end, j);
      var off := bs[j].off;
      assert off <= off < off + HEADER && off <= off + 4 < off + HEADER && off <= off + 8 < off + HEADER;
      assert HeaderCell(bs, end, off) && HeaderCell(bs, end, off + 4) && HeaderCell(bs, end, off + 8);
    }
  }

  /** Where the old and the new block of a move lie. */
  lemma AfterMalloc(h: Heap, h1: Heap, p: nat, payload: nat, q: nat, next: nat)
    requires Valid(h1) && Allocation(h, p, p + payload) && Adds(h, h1, q, next) && !Owned(h, q)
    ensures Allocation(h1, p, p + payload) && Allocation(h1, q, next) && p != q
    ensures p + payload <= h1.end && next <= h1.end && Owned(h1, p)
    ensures p + payload + HEADER <= q || next + HEADER <= p
  {
    assert Allocation(h1, p, p + payload) && Allocation(h1, q, next);
    LiveDisjoint(h1.blocks, h1.end, HEADER, p - HEADER, p + payload, q - HEADER, next);
    LiveDisjoint(h1.blocks, h1.end, HEADER, q - HEADER, next, p - HEADER, p + payload);
  }

  /** A new block of at least `n` cells at `q` stands beside the block to be moved at `p`. */
  ghost predicate Moving(h: Heap, h1: Heap, p: nat, payload: nat, q: nat, n: nat) {
    && Allocation(h, p, p + payload) && n <= payload && !Owned(h, q)
    && exists next: nat :: q + n <= next <= h1.end && Adds(h, h1, q, next)
  }

  lemma AllocationInside(h: Heap, p: nat, next: nat)
    requires Valid(h) && Allocation(h, p, next)
    ensures p <= next <= h.end
  {
    LiveDisjoint(h.blocks, h.end, HEADER, p - HEADER, next, p - HEADER, next);
  }

  lemma MoveFacts(h: Heap, cells: seq<int>, p: nat, payload: nat, size: nat)
    requires Linked(cells, h.blocks, h.end)
    requires Valid(h) && Allocation(h, p, p + payload) && Aligned(size) && size < WRAP
    ensures |cells| == h.end + HEADER && p + payload <= h.end
    ensures var (h1, r) := Malloc(h, size);
            if r.None? then h1 == h else Moving(h, h1, p, payload, r.value, Min(size, payload))
  {
    hide Valid; hide Malloc; hide Rounded; hide Allocation; hide Adds; hide Owned;
    AllocationInside(h, p, p + payload);
    MallocKeeps(h, size);
    RoundedAtLeast(size);
    var (h1, r) := Malloc(h, size);
    if r.Some? {
      var next: nat :| r.value + Rounded(size) <= next <= h.end && Adds(h, h1, r.value, next);
      assert Min(size, payload) <= size <= Rounded(size);
    }
  }

  lemma CopyKeeps(cells: seq<int>, cells': seq<int>, h: Heap, q: nat, n: nat, next: nat)
    requires Linked(cells, h.blocks, h.end) && |cells'| == |cells|
    requires Allocation(h, q, next) && q + n <= next
    requires forall c {:trigger cells'[c]} :: 0 <= c < |cells| && !(q <= c < q + n) ==> cells'[c] == cells[c]
    ensures Linked(cells', h.blocks, h.end)
  {
    forall c {:trigger cells'[c]} | 0 <= c < |cells| && HeaderCell(h.blocks, h.end, c) ensures cells'[c] == cells[c] {
      if q <= c < q + n {
        assert Owns(h, q, c);
        PayloadCellNoHeader(h, q, c);
      }
    }
    LinkedFrame(cells, cells', h.blocks, h.end);
  }

  /** Contents through a move: allocate, copy `n` cells from `p` to `q`, free `p`. */
  lemma MovePayloads(c0: seq<int>, c1: seq<int>, c2: seq<int>, c3: seq<int>,
                     h: Heap, h1: Heap, p: nat, payload: nat, q: nat, n: nat, next: nat)
    requires Valid(h1) && Adds(h, h1, q, next) && !Owned(h, q)
    requires Allocation(h, p, p + payload) && n <= payload && q + n <= next <= h1.end && |c0| >= h1.end
    requires PayloadsKept(h, c0, c1, None) && PayloadsKept(h1, c2, c3, Some(p)) && |c2| == |c1|
    requires p + n <= |c1| && q + n <= |c1|
    requires c2[q..q + n] == c1[p..p + n]
    requires forall c {:trigger c2[c]} :: 0 <= c < |c1| && !(q <= c < q + n) ==> c2[c] == c1[c]
    ensures PayloadsKept(h, c0, c3, Some(p))
    ensures SameContents(c0, p, c3, q, n)
  {
    AfterMalloc(h, h1, p, payload, q, next);
    var from, to, copied := c0[p..p + n], c3[q..q + n], c2[q..q + n];
    forall c | 0 <= c < n ensures to[c] == from[c] {
      assert Owns(h1, q, q + c) && Owns(h, p, p + c);
      assert c3[q + c] == copied[c] && copied[c] == c1[p + c];
    }
    assert to == from;
    forall x: nat, c: nat | Owns(h, x, c) && c < |c0| && x != p ensures c3[c] == c0[c] {
      var m: nat :| Allocation(h, x, m) && x <= c < m;
      assert Allocation(h1, x, m);
      assert Owns(h1, x, c);
      assert x != q;
      LiveDisjoint(h1.blocks, h1.end, HEADER, x - HEADER, m, q - HEADER, next);
    }
  }

  lemma FreeTiled(h: Heap)
    ensures Valid(h) ==> Tiled(h.blocks, h.end, HEADER)
  {
  }

  /** What `rt_free` finds and does to the flag. */
  lemma FreeFacts(h: Heap, cells: seq<int>, p: nat) returns (i: nat)
    requires Valid(h) && Linked(cells, h.blocks, h.end) && Owned(h, p)
    ensures p < h.end
    ensures p >= HEADER && i < |h.blocks| && h.blocks[i] == Block(p - HEADER, true) && IndexAt(h.blocks, p - HEADER) == i
    ensures p <= |cells| && cells[p - HEADER + 4] == Next(h.blocks, h.end, i)
    ensures Linked(cells[p - HEADER := 0], Mark(h.blocks, i, false), h.end)
    ensures OnlyHeaders(cells, cells[p - HEADER := 0], h.blocks, Mark(h.blocks, i, false), h.end)
    ensures Tiled(h.blocks, h.end, HEADER) && Valid(Free(h, p))
  {
    hide Valid; hide Free; hide Owned; hide Allocation; hide OnlyHeaders; hide HeaderAt; hide Fits;
    FreeTiled(h);
    i := OwnedIndex(h, p);
    FreeKeeps(h, p);
    LinksOf(cells, h.blocks, h.end, i);
    LinkedMark(cells, h.blocks, h.end, i, false);
    FlagIsHeader(cells, h.blocks, h.end, i);
  }

  lemma TailLinked(cells: seq<int>, bs: seq<Block>, end: nat, i: nat, size: nat)
    requires Linked(cells, bs, end) && i < |bs| && Aligned(size)
    requires size + HEADER + MIN_SIZE < Payload(bs, end, i)
    ensures var at, tail, next := bs[i].off, bs[i].off + HEADER + size, Next(bs, end, i);
            && next <= end && |cells| == end + HEADER && cells[at + 4] == next
            && Linked(SplitCells(cells, at, tail, next, end), Insert(bs, i + 1, Block(tail, false)), end)
  {
    LinksOf(cells, bs, end, i);
    assert Fits(bs, end, HEADER, i);
    LinkedInsert(cells, bs, end, i + 1, Block(bs[i].off + HEADER + size, false));
  }

  /** What the header of a live block tells `rt_realloc`. */
  lemma ResizeFacts(h: Heap, cells: seq<int>, p: nat) returns (i: nat)
    requires Valid(h) && Linked(cells, h.blocks, h.end) && Owned(h, p)
    ensures p >= HEADER && p + 4 <= |cells| && cells[p - HEADER + 4] == p + Room(h, p)
    ensures i < |h.blocks| && h.blocks[i] == Block(p - HEADER, true) && IndexAt(h.blocks, p - HEADER) == i
    ensures Payload(h.blocks, h.end, i) == Room(h, p) && p + Room(h, p) <= |cells|
    ensures Allocation(h, p, p + Room(h, p))
    ensures forall size :: ReallocLive(h, p, size) == ReallocAt(h, p, size, i, Room(h, p))
  {
    i := OwnedIndex(h, p);
    LinksOf(cells, h.blocks, h.end, i);
  }

  ghost function ReallocAt(h: Heap, p: nat, size: nat, i: nat, payload: nat): (Heap, Option<nat>)
    requires i < |h.blocks|
  {
    if payload == size then (h, Some(p))
    else if size + HEADER + MIN_SIZE < payload then (Shrink(h, i, size), Some(p))
    else
      var (h', q) := Malloc(h, size);
      if q.None? then (h', None) else (Free(h', p), q)
  }

  /** A reallocation of the block at `p` to `size` bytes keeps every other payload, and its own up
      to the shorter of the two sizes; without a result it keeps everything. */
  ghost predicate Resized(h: Heap, cells: seq<int>, cells': seq<int>, p: nat, r: Option<nat>, size: nat) {
    && PayloadsKept(h, cells, cells', if r.None? then None else Some(p))
    && (r.Some? ==> SameContents(cells, p, cells', r.value, Min(size, Room(h, p))))
  }

  lemma ContentsStay(cells: seq<int>, p: nat, n: nat)
    requires p + n <= |cells|
    ensures SameContents(cells, p, cells, p, n)
  {
  }

  lemma PayloadsStay(h: Heap, cells: seq<int>)
    ensures forall except :: PayloadsKept(h, cells, cells, except)
  {
  }

  lemma FlagIsHeader(cells: seq<int>, bs: seq<Block>, end: nat, i: nat)
    requires i < |bs| && bs[i].off < |cells|
    ensures OnlyHeaders(cells, cells[bs[i].off := Flag(false)], bs, Mark(bs, i, false), end)
  {
    var m := Mark(bs, i, false);
    assert bs[i].off <= bs[i].off < bs[i].off + HEADER;
    forall c: nat | HeaderCell(m, end, c) ensures HeaderCell(bs, end, c) {
      if c < end {
        var k :| 0 <= k < |m| && m[k].off <= c < m[k].off + HEADER;
        assert bs[k].off == m[k].off;
      }
    }
  }

  class Store {
    var mem: seq<int>
    const heapEnd: nat
    var lfree: nat
    var usedMem: int
    var maxMem: int
    ghost var blocks: seq<Block>

    ghost function State(): Heap
      reads this
    {
      Heap(blocks, heapEnd, lfree, usedMem, maxMem)
    }

    ghost predicate Repr()
      reads this
    {
      Linked(mem, blocks, heapEnd)
    }

    ghost predicate Ok()
      reads this
    {
      Valid(State()) && Repr()
    }

    /** `rt_system_heap_init` on an aligned region of `size + 24` bytes. */
    constructor (region: seq<int>, size: nat)
      requires Aligned(size) && size >= MIN_SIZE && |region| == size + 2 * HEADER
      ensures Ok() && State() == Init(size)
    {
      var end := size + HEADER;
      mem := region[0 := 0][4 := end][8 := 0][end := 1][end + 4 := end][end + 8 := end];
      heapEnd, lfree, usedMem, maxMem := end, 0, 0, 0;
      blocks := [Block(0, false)];
      InitValid(size);
    }

    /** `plug_holes`: merge the free block at `at` with a free successor and a free predecessor.
        Only header cells are written. */
    method PlugHoles(at: nat, ghost i: nat)
      requires Repr() && i < |blocks| && blocks[i] == Block(at, false)
      modifies this
      ensures Repr() && State() == Plug(old(State()), i)
      ensures OnlyHeaders(old(mem), mem, old(blocks), blocks, heapEnd)
    {
      ghost var h := PlugForward(State(), i);
      PlugNext(at, i);
      PlugPrev(at, i);
    }

    method PlugNext(at: nat, ghost i: nat)
      requires Repr() && i < |blocks| && blocks[i] == Block(at, false)
      modifies this
      ensures Repr() && State() == PlugForward(old(State()), i)
      ensures i < |blocks| && blocks[i] == Block(at, false)
      ensures OnlyHeaders(old(mem), mem, old(blocks), blocks, heapEnd)
    {
      hide Fits;
      ghost var bs, cells := blocks, mem;
      LinksOf(cells, bs, heapEnd, i);
      var next := mem[at + 4];
      if i + 1 < |bs| { LinksOf(cells, bs, heapEnd, i + 1); }
      if next != at && mem[next] == 0 && next != heapEnd {
        if lfree == next { lfree := at; }
        var beyond := mem[next + 4];
        LinkedDelete(cells, bs, heapEnd, i + 1);
        MergeWrites(cells, bs, heapEnd, i + 1);
        mem := mem[at + 4 := beyond];
        mem := mem[beyond + 8 := at];
        blocks := Delete(bs, i + 1);
        assert mem == MergeCells(cells, at, beyond);
      }
    }

    method PlugPrev(at: nat, ghost i: nat)
      requires Repr() && i < |blocks| && blocks[i] == Block(at, false)
      modifies this
      ensures Repr() && State() == PlugBackward(old(State()), i)
      ensures OnlyHeaders(old(mem), mem, old(blocks), blocks, heapEnd)
    {
      hide Fits;
      ghost var bs, cells := blocks, mem;
      LinksOf(cells, bs, heapEnd, i);
      var prev := mem[at + 8];
      if i > 0 { LinksOf(cells, bs, heapEnd, i - 1); }
      if prev != at && mem[prev] == 0 {
        if lfree == at { lfree := prev; }
        var beyond := mem[at + 4];
        LinkedDelete(cells, bs, heapEnd, i);
        MergeWrites(cells, bs, heapEnd, i);
        mem := mem[prev + 4 := beyond];
        mem := mem[beyond + 8 := prev];
        blocks := Delete(bs, i);
        assert mem == MergeCells(cells, prev, beyond);
      }
    }

    method AdvanceCursor(ghost k: nat)
      requires Repr() && k < |blocks| && lfree == blocks[k].off
      modifies this`lfree
      ensures Repr() && State() == old(State()).(lfree := NextFree(blocks, heapEnd, k))
    {
      ghost var j := k;
      LinksOf(mem, blocks, heapEnd, j);
      while mem[lfree] != 0 && lfree != heapEnd
        invariant j <= |blocks| && lfree == (if j < |blocks| then blocks[j].off else heapEnd)
        invariant lfree <= heapEnd
        invariant NextFree(blocks, heapEnd, j) == NextFree(blocks, heapEnd, k)
        decreases |blocks| - j
      {
        LinksOf(mem, blocks, heapEnd, j);
        lfree := mem[lfree + 4];
        j := j + 1;
        if j < |blocks| { LinksOf(mem, blocks, heapEnd, j); }
      }
      if j < |blocks| { LinksOf(mem, blocks, heapEnd, j); }
    }

    /** Take block `k`, which starts at `at`: split it if the rest can hold a block, count the bytes,
        and move the cursor past used blocks when it stood here. */
    method TakeBlock(at: nat, size: nat, ghost k: nat)
      requires Ok() && k < |blocks| && blocks[k] == Block(at, false)
      requires Payload(blocks, heapEnd, k) >= size >= MIN_SIZE && Aligned(size)
      modifies this
      ensures Ok() && State() == Take(old(State()), k, size) && |mem| == |old(mem)|
      ensures PayloadsKept(old(State()), old(mem), mem, None)
    {
      hide Valid; hide Tiled; hide Owns;
      ghost var h, cells := State(), mem;
      TakeKeeps(h, k, size);
      LinksOf(cells, h.blocks, heapEnd, k);
      TakeCellsLinked(cells, h, k, size);
      var next := mem[at + 4];
      CutOff(at, next, size);
      blocks := Taken(h.blocks, heapEnd, k, size);
      assert Next(blocks, heapEnd, k) - at == usedMem - h.usedMem;
      if maxMem < usedMem { maxMem := usedMem; }
      if at == lfree { AdvanceCursor(k); }
    }

    /** The writes and the byte count of an allocation. */
    method CutOff(at: nat, next: nat, size: nat)
      requires at + HEADER <= next <= heapEnd && |mem| == heapEnd + HEADER
      modifies this`mem, this`usedMem
      ensures mem == TakeCells(old(mem), at, next, size, heapEnd)
      ensures usedMem == old(usedMem)
              + if next - (at + HEADER) >= size + HEADER + MIN_SIZE then size + HEADER else next - at
    {
      if next - (at + HEADER) >= size + HEADER + MIN_SIZE {
        WriteSplit(at, next, at + HEADER + size);
        usedMem := usedMem + (size + HEADER);
      } else {
        usedMem := usedMem + (next - at);
      }
      mem := mem[at := 1];
    }

    /** A new free header at `tail`, linked between `at` and `next`. */
    method WriteSplit(at: nat, next: nat, tail: nat)
      requires at + HEADER <= tail && tail + HEADER <= next <= heapEnd && |mem| == heapEnd + HEADER
      modifies this`mem
      ensures mem == SplitCells(old(mem), at, tail, next, heapEnd)
    {
      mem := mem[tail := 0];
      mem := mem[tail + 4 := next];
      mem := mem[tail + 8 := at];
      mem := mem[at + 4 := tail];
      if next != heapEnd { mem := mem[next + 8 := tail]; }
    }

    /** `rt_malloc`. */
    method Allocate(request: nat) returns (r: Option<nat>)
      requires Ok()
      modifies this
      ensures Ok() && (State(), r) == Malloc(old(State()), request) && |mem| == |old(mem)|
      ensures PayloadsKept(old(State()), old(mem), mem, None)
    {
      hide Valid; hide Linked; hide Owns; hide MallocRounded; hide PayloadsKept;
      if request == 0 || Align(request) > heapEnd - HEADER {
        PayloadsStay(State(), mem);
        return None;
      }
      r := AllocateRounded(Rounded(request));
    }

    method AllocateRounded(size: nat) returns (r: Option<nat>)
      requires Ok() && Aligned(size) && size >= MIN_SIZE
      modifies this
      ensures Ok() && (State(), r) == MallocRounded(old(State()), size) && |mem| == |old(mem)|
      ensures PayloadsKept(old(State()), old(mem), mem, None)
    {
      hide Valid; hide Linked; hide PayloadsKept; hide Take; hide FirstFit; hide IndexAt;
      PayloadsStay(State(), mem);
      var ptr, k := Search(size);
      if ptr.None? { return None; }
      TakeBlock(ptr.value, size, k);
      return Some(ptr.value + HEADER);
    }

    /** The search from the cursor for the first free block that is large enough. */
    method Search(size: nat) returns (hit: Option<nat>, ghost k: nat)
      requires Ok() && size > 0
      ensures k == FirstFit(blocks, heapEnd, heapEnd - HEADER - size, size, IndexAt(blocks, lfree))
      ensures k < |blocks| ==> blocks[k] == Block(blocks[k].off, false) && Payload(blocks, heapEnd, k) >= size
      ensures var j := FirstFit(blocks, heapEnd, heapEnd - HEADER - size, size, IndexAt(blocks, lfree));
              hit == if j < |blocks| then Some(blocks[j].off) else None
    {
      hide Total; hide Coalesced; hide Live;
      var limit := heapEnd - HEADER - size;
      k := IndexAt(blocks, lfree);
      ghost var goal := FirstFit(blocks, heapEnd, limit, size, k);
      CursorIndex();
      var ptr := lfree;
      while ptr < limit
        invariant k <= |blocks| && ptr == (if k < |blocks| then blocks[k].off else heapEnd)
        invariant FirstFit(blocks, heapEnd, limit, size, k) == goal
        decreases |blocks| - k
      {
        LinksOf(mem, blocks, heapEnd, k);
        var next := mem[ptr + 4];
        if mem[ptr] == 0 && next - (ptr + HEADER) >= size { return Some(ptr), k; }
        ptr := next;
        k := k + 1;
      }
      return None, |blocks|;
    }

    lemma CursorIndex()
      requires Ok()
      ensures var i := IndexAt(blocks, lfree); lfree == if i < |blocks| then blocks[i].off else heapEnd
    {
      if lfree != heapEnd {
        var f :| 0 <= f < |blocks| && blocks[f] == Block(lfree, false);
        IndexAtBlock(blocks, heapEnd, HEADER, f);
      } else {
        var i := IndexAt(blocks, lfree);
        if i < |blocks| { Ordered(blocks, heapEnd, HEADER, i, |blocks|); }
      }
    }

    /** NULL, or an address below or beyond the heap. */
    predicate Outside(rmem: Option<int>) { rmem.None? || rmem.value < 0 || rmem.value >= heapEnd }

    /** `rt_free`: NULL and addresses outside the heap are ignored. */
    method Deallocate(rmem: Option<int>)
      requires Ok() && (Outside(rmem) || Owned(State(), rmem.value))
      modifies this
      ensures Ok() && State() == if Outside(rmem) then old(State()) else Free(old(State()), rmem.value)
      ensures PayloadsKept(old(State()), old(mem), mem, if Outside(rmem) then None else Some(rmem.value))
    {
      hide Valid; hide Linked; hide Owned; hide Free; hide PayloadsKept;
      PayloadsStay(State(), mem);
      if Outside(rmem) { return; }
      FreeAt(rmem.value);
    }

    method FreeAt(p: nat)
      requires Ok() && Owned(State(), p)
      modifies this
      ensures Ok() && State() == Free(old(State()), p)
      ensures PayloadsKept(old(State()), old(mem), mem, Some(p))
    {
      hide Valid; hide Tiled; hide Owned; hide Linked; hide Plug; hide IndexAt; hide OnlyHeaders; hide PayloadsKept;
      PayloadsStay(State(), mem);
      ghost var h, cells := State(), mem;
      ghost var i := FreeFacts(h, cells, p);
      MarkFree(p - HEADER, i);
      ghost var marked, bs := mem, blocks;
      PlugHoles(p - HEADER, i);
      OnlyHeadersTwice(cells, marked, mem, h.blocks, bs, blocks, heapEnd);
      HeadersKeepPayloads(h, cells, mem, blocks);
    }

    method MarkFree(at: nat, ghost i: nat)
      requires i < |blocks| && at + HEADER <= |mem| && mem[at + 4] == Next(blocks, heapEnd, i) && blocks[i].off == at
      modifies this
      ensures mem == old(mem)[at := 0]
      ensures State() == SmallMem.Release(old(State()), i)
    {
      mem := mem[at := 0];
      if at < lfree { lfree := at; }
      usedMem := usedMem - (mem[at + 4] - at);
      blocks := Mark(blocks, i, false);
    }

    /** Cut the tail off block `i`, which starts at `at`, and merge it with a free successor. */
    method ShrinkBlock(at: nat, size: nat, ghost i: nat)
      requires Ok() && i < |blocks| && blocks[i] == Block(at, true) && Aligned(size)
      requires size + HEADER + MIN_SIZE < Payload(blocks, heapEnd, i)
      modifies this
      ensures Ok() && State() == Shrink(old(State()), i, size)
      ensures PayloadsKept(old(State()), old(mem), mem, Some(at + HEADER))
      ensures SameContents(old(mem), at + HEADER, mem, at + HEADER, size)
    {
      hide Valid; hide Linked; hide Shrink; hide PayloadsKept; hide SameContents; hide OnlyHeaders; hide Aligned;
      hide SplitCells;
      ghost var h, cells := State(), mem;
      ShrinkKeeps(h, i, size);
      LinksOf(cells, h.blocks, heapEnd, i);
      CutTail(at, size, i);
      ShrinkPayloads(cells, mem, h, i, size, blocks);
    }

    method CutTail(at: nat, size: nat, ghost i: nat)
      requires Repr() && i < |blocks| && blocks[i] == Block(at, true) && Aligned(size)
      requires size + HEADER + MIN_SIZE < Payload(blocks, heapEnd, i)
      requires Next(blocks, heapEnd, i) + HEADER <= |mem|
      modifies this
      ensures Repr() && State() == Shrink(old(State()), i, size)
      ensures OnlyHeaders(SplitCells(old(mem), at, at + HEADER + size, Next(old(blocks), heapEnd, i), heapEnd), mem,
                          Cut(old(State()), i, size).blocks, blocks, heapEnd)
    {
      hide Tiled; hide Linked; hide Plug; hide OnlyHeaders; hide SplitCells; hide Aligned;
      ghost var h, cells, bs := State(), mem, blocks;
      var tail := at + HEADER + size;
      TailLinked(cells, bs, heapEnd, i, size);
      var next := mem[at + 4];
      WriteSplit(at, next, tail);
      usedMem := usedMem - (next - at - HEADER - size);
      blocks := Insert(bs, i + 1, Block(tail, false));
      assert State() == Cut(h, i, size) && blocks[i + 1] == Block(tail, false);
      PlugHoles(tail, i + 1);
    }

    method Copy(p: nat, q: nat, n: nat)
      requires p + n <= |mem| && q + n <= |mem| && (p + n <= q || q + n <= p)
      modifies this`mem
      ensures |mem| == |old(mem)| && mem[q..q + n] == old(mem[p..p + n])
      ensures forall c :: 0 <= c < |mem| && !(q <= c < q + n) ==> mem[c] == old(mem[c])
    {
      var c := 0;
      while c < n
        invariant c <= n && |mem| == |old(mem)|
        invariant mem[q..q + c] == old(mem[p..p + c])
        invariant forall x :: 0 <= x < |mem| && !(q <= x < q + c) ==> mem[x] == old(mem[x])
      {
        ghost var before := mem;
        mem := mem[q + c := mem[p + c]];
        assert mem[q..q + (c + 1)] == before[q..q + c] + [before[p + c]];
        assert old(mem[p..p + (c + 1)]) == old(mem[p..p + c]) + [old(mem)[p + c]];
        c := c + 1;
      }
    }

    /** Allocate elsewhere, copy, free: the old block stays when there is no room. */
    method MoveBlock(p: nat, payload: nat, size: nat) returns (r: Option<nat>)
      requires Ok() && Owned(State(), p) && Aligned(size) && size < WRAP
      requires Allocation(State(), p, p + payload)
      modifies this
      ensures Ok()
      ensures var (h, q) := Malloc(old(State()), size);
              r == q && State() == if q.None? then h else Free(h, p)
      ensures PayloadsKept(old(State()), old(mem), mem, if r.None? then None else Some(p))
      ensures r.Some? ==> SameContents(old(mem), p, mem, r.value, Min(size, payload))
    {
      hide Valid; hide Linked; hide PayloadsKept; hide SameContents; hide Malloc; hide Free; hide Allocation;
      hide Moving; hide Owned;
      ghost var h, cells := State(), mem;
      MoveFacts(h, cells, p, payload, size);
      r := Allocate(size);
      if r.Some? {
        FinishMove(p, payload, r.value, Min(size, payload), h, cells);
      }
    }

    method FinishMove(p: nat, payload: nat, q: nat, n: nat, ghost h: Heap, ghost cells: seq<int>)
      requires Ok() && Moving(h, State(), p, payload, q, n)
      requires PayloadsKept(h, cells, mem, None) && |cells| >= heapEnd && |mem| == |cells|
      modifies this
      ensures Ok() && State() == Free(old(State()), p)
      ensures PayloadsKept(h, cells, mem, Some(p)) && SameContents(cells, p, mem, q, n)
    {
      hide Valid; hide Linked; hide PayloadsKept; hide SameContents; hide Free; hide Allocation; hide Owned;
      ghost var h1, cells1 := State(), mem;
      ghost var next: nat :| q + n <= next <= heapEnd && Adds(h, h1, q, next);
      AfterMalloc(h, h1, p, payload, q, next);
      ghost var cells2 := CopyAndFree(p, payload, q, n, next);
      MovePayloads(cells, cells1, cells2, mem, h, h1, p, payload, q, n, next);
    }

    method CopyAndFree(p: nat, payload: nat, q: nat, n: nat, ghost next: nat) returns (ghost copied: seq<int>)
      requires Ok() && Allocation(State(), q, next) && q + n <= next <= heapEnd
      requires Allocation(State(), p, p + payload) && n <= payload && p + payload <= heapEnd
      requires p + payload + HEADER <= q || next + HEADER <= p
      requires Owned(State(), p) && |mem| >= heapEnd
      modifies this
      ensures Ok() && State() == Free(old(State()), p)
      ensures |copied| == |old(mem)| >= heapEnd
      ensures copied[q..q + n] == old(mem)[p..p + n]
      ensures forall c {:trigger copied[c]} :: 0 <= c < |copied| && !(q <= c < q + n) ==> copied[c] == old(mem)[c]
      ensures PayloadsKept(old(State()), copied, mem, Some(p))
    {
      hide Valid; hide Linked; hide PayloadsKept; hide Allocation; hide Free;
      ghost var h := State();
      CopyLinked(p, q, n, next);
      copied := mem;
      assert State() == h;
      FreeAt(p);
    }

    /** Copying into an allocation leaves the heap alone. */
    method CopyLinked(p: nat, q: nat, n: nat, ghost next: nat)
      requires Ok() && Allocation(State(), q, next) && q + n <= next && Owned(State(), p)
      requires p + n <= |mem| && q + n <= |mem| && (p + n <= q || q + n <= p)
      modifies this`mem
      ensures Ok() && State() == old(State()) && Owned(State(), p)
      ensures |mem| == |old(mem)| && mem[q..q + n] == old(mem[p..p + n])
      ensures forall c :: 0 <= c < |mem| && !(q <= c < q + n) ==> mem[c] == old(mem[c])
    {
      hide Valid; hide Linked; hide Allocation;
      ghost var cells := mem;
      Copy(p, q, n);
      CopyKeeps(cells, mem, State(), q, n, next);
    }

    /** `rt_realloc`. */
    method Reallocate(rmem: Option<int>, newsize: nat) returns (r: Option<int>)
      requires Ok() && (Outside(rmem) || Owned(State(), rmem.value))
      modifies this
      ensures Ok()
      ensures if Align(newsize) > heapEnd - HEADER then r == None && State() == old(State())
              else if rmem.Some? && Outside(rmem) then r == rmem && State() == old(State())
              else (State(), r) == Realloc(old(State()), if rmem.None? then None else Some(rmem.value), newsize)
      ensures if r.Some? && !Outside(rmem) then
                r.value >= 0 && Resized(old(State()), old(mem), mem, rmem.value, Some(r.value), Align(newsize))
              else PayloadsKept(old(State()), old(mem), mem, None)
    {
      hide Valid; hide Linked; hide PayloadsKept; hide SameContents; hide ReallocLive; hide Malloc; hide Owned;
      hide Room;
      var size := Align(newsize);
      PayloadsStay(State(), mem);
      if size > heapEnd - HEADER {
        r := None;
      } else if rmem.None? {
        r := Allocate(size);
      } else if Outside(rmem) {
        r := rmem;
      } else {
        r := Resize(rmem.value, size);
      }
    }

    method Resize(p: nat, size: nat) returns (r: Option<nat>)
      requires Ok() && Owned(State(), p) && p < heapEnd && Aligned(size) && size < WRAP
      modifies this
      ensures Ok()
      ensures (State(), r) == ReallocLive(old(State()), p, size)
      ensures Resized(old(State()), old(mem), mem, p, r, size)
    {
      hide Valid; hide Linked; hide Allocation; hide PayloadsKept; hide IndexAt; hide Shrink; hide Malloc; hide Free;
      hide Owned; hide Room; hide SameContents; hide ReallocLive; hide Aligned;
      ghost var h, cells := State(), mem;
      ghost var i := ResizeFacts(h, cells, p);
      var payload := mem[p - HEADER + 4] - p;
      if payload == size {
        r := Some(p);
        PayloadsStay(h, cells);
        ContentsStay(cells, p, size);
      } else if size + HEADER + MIN_SIZE < payload {
        r := Some(p);
        ShrinkBlock(p - HEADER, size, i);
      } else {
        r := MoveBlock(p, payload, size);
      }
    }
  }
}
