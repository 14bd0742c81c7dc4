/** src/memheap.c in place: item headers at their offsets, threaded on the address-ordered ring and on
    the free list, beside the bytes of the pool. */
module MemheapPool {
  import opened Blocks
  import opened Lists
  import opened Memheap
  import opened Words

  const NULL := -1

  datatype Item = Item(used: bool, next: int, prev: int, nextFree: int, prevFree: int)

  type Items = map<int, Item>

  // ----- the ring in address order -----

  ghost predicate ItemAt(items: Items, bs: seq<Block>, end: nat, i: nat)
    requires i < |bs|
  {
    && bs[i].off in items
    && var it := items[bs[i].off];
       it.used == bs[i].used && it.next == Next(bs, end, i) && it.prev == if i == 0 then end else bs[i - 1].off
  }

  /** The ring closes through the used tail item at `end`. */
  ghost predicate Ring(items: Items, bs: seq<Block>, end: nat) {
    && Tiled(bs, end, HEADER)
    && (forall i :: 0 <= i < |bs| ==> ItemAt(items, bs, end, i))
    && end in items && items[end].used && items[end].next == 0 && items[end].prev == bs[|bs| - 1].off
  }

  ghost predicate SameRing(items: Items, items': Items) {
    forall x :: x in items ==>
      x in items' && items'[x].used == items[x].used && items'[x].next == items[x].next && items'[x].prev == items[x].prev
  }

  ghost predicate SameList(items: Items, items': Items, except: int) {
    forall x :: x in items && x != except ==>
      x in items' && items'[x].nextFree == items[x].nextFree && items'[x].prevFree == items[x].prevFree
  }

  lemma RingFrame(items: Items, items': Items, bs: seq<Block>, end: nat)
    requires Ring(items, bs, end) && SameRing(items, items')
    ensures Ring(items', bs, end)
  {
    forall i | 0 <= i < |bs| ensures ItemAt(items', bs, end, i) { assert ItemAt(items, bs, end, i); }
  }

  /** What an item says about its neighbours. */
  lemma RingAt(items: Items, bs: seq<Block>, end: nat, i: nat)
    requires Ring(items, bs, end) && i < |bs|
    ensures ItemAt(items, bs, end, i) && bs[i].off + HEADER <= Next(bs, end, i) <= end
    ensures Next(bs, end, i) in items && items[Next(bs, end, i)].prev == bs[i].off
    ensures items[Next(bs, end, i)].used == (i + 1 == |bs| || bs[i + 1].used)
    ensures var prev := if i == 0 then end else bs[i - 1].off;
            prev in items && items[prev].used == (i == 0 || bs[i - 1].used)
  {
    Ordered(bs, end, HEADER, i, |bs|);
    assert ItemAt(items, bs, end, i);
    assert i + 1 < |bs| ==> ItemAt(items, bs, end, i + 1);
    assert i > 0 ==> ItemAt(items, bs, end, i - 1);
  }

  function SetUsed(items: Items, x: int, used: bool): Items
    requires x in items
  {
    items[x := items[x].(used := used)]
  }

  lemma RingMark(items: Items, bs: seq<Block>, end: nat, i: nat, used: bool)
    requires Ring(items, bs, end) && i < |bs| && bs[i].off in items
    ensures Ring(SetUsed(items, bs[i].off, used), Mark(bs, i, used), end)
  {
    var items', bs' := SetUsed(items, bs[i].off, used), Mark(bs, i, used);
    MarkTiled(bs, end, HEADER, i, used);
    Ordered(bs, end, HEADER, i, |bs|);
    forall j | 0 <= j < |bs| ensures ItemAt(items', bs', end, j) {
      assert ItemAt(items, bs, end, j);
      Distinct(bs, end, i, j);
    }
  }

  lemma Distinct(bs: seq<Block>, end: nat, i: nat, j: nat)
    requires Tiled(bs, end, HEADER) && i < |bs| && j < |bs|
    ensures i == j || bs[i].off != bs[j].off
    ensures bs[j].off < end
  {
    if i < j { Ordered(bs, end, HEADER, i, j); } else if j < i { Ordered(bs, end, HEADER, j, i); }
    Ordered(bs, end, HEADER, j, |bs|);
  }

  /** A new free item between `at` and its successor. */
  function SplitItems(items: Items, at: int, tail: int): Items
    requires at in items && items[at].next in items
  {
    var next := items[at].next;
    var i1 := items[tail := Item(false, next, at, NULL, NULL)];
    var i2 := i1[next := i1[next].(prev := tail)];
    i2[at := i2[at].(next := tail)]
  }

  lemma RingInsert(items: Items, bs: seq<Block>, end: nat, i: nat, tail: nat)
    requires Ring(items, bs, end) && i < |bs| && Aligned(tail)
    requires bs[i].off + HEADER <= tail && tail + HEADER <= Next(bs, end, i)
    requires bs[i].off in items && items[bs[i].off].next in items
    ensures var items' := SplitItems(items, bs[i].off, tail);
            && Ring(items', Insert(bs, i + 1, Block(tail, false)), end)
            && SameList(items, items', tail)
  {
    var items', bs' := SplitItems(items, bs[i].off, tail), Insert(bs, i + 1, Block(tail, false));
    InsertTiled(bs, end, HEADER, i + 1, Block(tail, false));
    RingAt(items, bs, end, i);
    Distinct(bs, end, i, i);
    if i + 1 < |bs| { Distinct(bs, end, i, i + 1); }
    forall j | 0 <= j < |bs'| ensures ItemAt(items', bs', end, j) {
      Distinct(bs', end, i, j);
      Distinct(bs', end, i + 1, j);
      if i + 2 < |bs'| { Distinct(bs', end, i + 2, j); }
      if j <= i { assert ItemAt(items, bs, end, j); } else if j > i + 1 { assert ItemAt(items, bs, end, j - 1); }
    }
  }

  /** Take item `dead`, the successor of `at`, out of the ring. */
  function JoinItems(items: Items, at: int, dead: int): Items
    requires at in items && dead in items && items[dead].next in items
  {
    var next := items[dead].next;
    var i1 := items[next := items[next].(prev := at)];
    i1[at := i1[at].(next := next)]
  }

  lemma RingDelete(items: Items, bs: seq<Block>, end: nat, i: nat)
    requires Ring(items, bs, end) && i + 1 < |bs|
    requires bs[i].off in items && bs[i + 1].off in items && items[bs[i + 1].off].next in items
    ensures var items' := JoinItems(items, bs[i].off, bs[i + 1].off);
            Ring(items', Delete(bs, i + 1), end) && SameList(items, items', NULL)
  {
    var items', bs' := JoinItems(items, bs[i].off, bs[i + 1].off), Delete(bs, i + 1);
    DeleteTiled(bs, end, HEADER, i + 1);
    RingAt(items, bs, end, i + 1);
    Distinct(bs, end, i + 1, i);
    if i + 2 < |bs| { Distinct(bs, end, i, i + 2); }
    forall j | 0 <= j < |bs'| ensures ItemAt(items', bs', end, j) {
      Distinct(bs', end, i, j);
      if i + 1 < |bs'| { Distinct(bs', end, i + 1, j); }
      assert ItemAt(items, bs, end, if j <= i then j else j + 1);
    }
  }

  // ----- the free list -----

  /** The free list as a walk from its header back to its header. */
  function Circle(free: seq<nat>, header: nat): seq<nat> { [header] + free + [header] }

  ghost predicate LinkAt(items: Items, c: seq<nat>, k: nat)
    requires k + 1 < |c|
  {
    c[k] in items && c[k + 1] in items && items[c[k]].nextFree == c[k + 1] && items[c[k + 1]].prevFree == c[k]
  }

  /** `next_free` and `prev_free` follow the list in both directions. */
  ghost predicate Listed(items: Items, free: seq<nat>, header: nat) {
    && NoDuplicates(free) && header !in free
    && forall k :: 0 <= k <= |free| ==> LinkAt(items, Circle(free, header), k)
  }

  lemma ListFrame(items: Items, items': Items, free: seq<nat>, header: nat, except: int)
    requires Listed(items, free, header) && SameList(items, items', except) && except != header
    requires forall k :: 0 <= k < |free| ==> free[k] != except
    ensures Listed(items', free, header)
  {
    var c := Circle(free, header);
    forall k | 0 <= k <= |free| ensures LinkAt(items', c, k) { assert LinkAt(items, c, k); }
  }

  lemma LinksAt(items: Items, free: seq<nat>, header: nat, k: nat)
    requires Listed(items, free, header) && k < |free|
    ensures var c := Circle(free, header);
            && c[k + 1] == free[k] && free[k] in items && c[k] in items && c[k + 2] in items
            && items[free[k]].nextFree == c[k + 2] && items[free[k]].prevFree == c[k]
  {
    assert LinkAt(items, Circle(free, header), k) && LinkAt(items, Circle(free, header), k + 1);
  }

  lemma ListAfterSplit(items: Items, items': Items, free: seq<nat>, header: nat, except: int)
    requires Listed(items, free, header) && SameList(items, items', except) && except != header
    requires forall x :: x in free ==> x as int != except
    ensures Listed(items', free, header)
  {
    forall k | 0 <= k < |free| ensures free[k] != except { assert free[k] in free; }
    ListFrame(items, items', free, header, except);
  }

  function UnlinkItems(items: Items, x: int): Items
    requires x in items && items[x].nextFree in items && items[x].prevFree in items
  {
    var next, prev := items[x].nextFree, items[x].prevFree;
    var i1 := items[next := items[next].(prevFree := prev)];
    i1[prev := i1[prev].(nextFree := next)]
  }

  lemma ListRemove(items: Items, free: seq<nat>, header: nat, x: nat)
    requires Listed(items, free, header) && x in free
    requires x in items && items[x].nextFree in items && items[x].prevFree in items
    ensures var items' := UnlinkItems(items, x);
            Listed(items', Without(free, x), header) && SameRing(items, items')
  {
    var j := Position(free, x);
    LinksAt(items, free, header, j);
    WithoutIs(free, x);
    forall k | 0 <= k < |free| ensures LinkAt(UnlinkItems(items, x), Circle(Without(free, x), header), k) {
      UnlinkedLink(items, free, header, j, k);
    }
  }

  lemma UnlinkedLink(items: Items, free: seq<nat>, header: nat, j: nat, k: nat)
    requires Listed(items, free, header) && j < |free| && k < |free|
    requires free[j] in items && items[free[j]].nextFree in items && items[free[j]].prevFree in items
    ensures LinkAt(UnlinkItems(items, free[j]), Circle(free[..j] + free[j + 1..], header), k)
  {
    var c, c' := Circle(free, header), Circle(free[..j] + free[j + 1..], header);
    LinksAt(items, free, header, j);
    assert c'[k] == c[if k <= j then k else k + 1] && c'[k + 1] == c[if k < j then k + 1 else k + 2];
    assert LinkAt(items, c, if k <= j then k else k + 1);
  }

  function PushItems(items: Items, x: int, header: int): Items
    requires x in items && header in items && items[header].nextFree in items
  {
    var first := items[header].nextFree;
    var i1 := items[x := items[x].(nextFree := first, prevFree := header)];
    var i2 := i1[first := i1[first].(prevFree := x)];
    i2[header := i2[header].(nextFree := x)]
  }

  lemma ListPush(items: Items, free: seq<nat>, header: nat, x: nat)
    requires Listed(items, free, header) && x !in free && x != header && x in items
    requires header in items && items[header].nextFree in items
    ensures var items' := PushItems(items, x, header);
            Listed(items', [x] + free, header) && SameRing(items, items')
  {
    var items', c, c' := PushItems(items, x, header), Circle(free, header), Circle([x] + free, header);
    assert LinkAt(items, c, 0);
    forall k | 0 <= k <= |free| + 1 ensures LinkAt(items', c', k) {
      assert k > 0 ==> c'[k + 1] == c[k];
      assert k > 1 ==> c'[k] == c[k - 1] && LinkAt(items, c, k - 1);
    }
  }

  // ----- the bytes of the pool -----

  /** A new header overwrites the bytes it is built on. */
  function WithHeader(bytes: seq<int>, at: nat): seq<int>
    requires at + HEADER <= |bytes|
  {
    bytes[..at] + seq(HEADER, _ => 0) + bytes[at + HEADER..]
  }

  function Copied(bytes: seq<int>, p: nat, q: nat, n: nat): seq<int>
    requires p + n <= |bytes| && q + n <= |bytes|
  {
    bytes[..q] + bytes[p..p + n] + bytes[q + n..]
  }

  ghost predicate Kept(bytes: seq<int>, bytes': seq<int>, p: nat, next: nat) {
    p <= next <= |bytes| && |bytes'| == |bytes| && bytes'[p..next] == bytes[p..next]
  }

  lemma KeptPart(bytes: seq<int>, bytes': seq<int>, p: nat, next: nat, n: nat)
    requires Kept(bytes, bytes', p, next) && p + n <= next
    ensures bytes'[p..p + n] == bytes[p..p + n]
  {
    assert bytes'[p..p + n] == bytes'[p..next][..n];
    assert bytes[p..p + n] == bytes[p..next][..n];
  }

  /** Every live payload of `m` but that of `except` holds what it held. */
  ghost predicate PayloadsKept(m: Pool, bytes: seq<int>, bytes': seq<int>, except: Option<nat>) {
    forall q: nat, n: nat :: Allocation(m, q, n) && Some(q) != except ==> Kept(bytes, bytes', q, n)
  }

  lemma PayloadsStay(m: Pool, bytes: seq<int>)
    requires Tiled(m.blocks, m.end, HEADER) && |bytes| >= m.end
    ensures PayloadsKept(m, bytes, bytes, None)
  {
    forall q: nat, n: nat | Allocation(m, q, n) ensures Kept(bytes, bytes, q, n) {
      LiveDisjoint(m.blocks, m.end, HEADER, q - HEADER, n, q - HEADER, n);
    }
  }

  /** Another allocation lies outside what block `i` can grow into. */
  lemma Outside(m: Pool, i: nat, q: nat, n: nat)
    requires Tiled(m.blocks, m.end, HEADER) && i < |m.blocks| && Allocation(m, q, n) && q != m.blocks[i].off + HEADER
    ensures q <= n <= m.end && (n <= m.blocks[i].off || Reach(m, i) + HEADER <= q)
  {
    var bs := m.blocks;
    var k: nat :| k < |bs| && LiveAt(bs, m.end, k, q - HEADER, n);
    Ordered(bs, m.end, HEADER, k, |bs|);
    if k < i {
      Ordered(bs, m.end, HEADER, k, i);
    } else if i < k {
      Ordered(bs, m.end, HEADER, i, k);
      if i + 1 < k { Ordered(bs, m.end, HEADER, i + 1, k); }
    }
  }

  /** A header built where block `i` can grow touches no other payload. */
  lemma HeaderKeeps(m: Pool, bytes: seq<int>, i: nat, tail: nat)
    requires Tiled(m.blocks, m.end, HEADER) && |bytes| >= m.end && i < |m.blocks|
    requires m.blocks[i].off + HEADER <= tail && tail + HEADER <= Reach(m, i) && tail + HEADER <= |bytes|
    ensures PayloadsKept(m, bytes, WithHeader(bytes, tail), Some(m.blocks[i].off + HEADER))
    ensures forall p: nat :: p <= tail ==> Kept(bytes, WithHeader(bytes, tail), p, tail)
  {
    forall q: nat, n: nat | Allocation(m, q, n) && q != m.blocks[i].off + HEADER
      ensures Kept(bytes, WithHeader(bytes, tail), q, n)
    {
      Outside(m, i, q, n);
    }
  }

  /** Contents through a move: allocate `q..next`, copy `n` bytes from `p`. */
  lemma CopyKeeps(m: Pool, m1: Pool, b0: seq<int>, b1: seq<int>, p: nat, last: nat, q: nat, next: nat, n: nat)
    requires Tiled(m1.blocks, m1.end, HEADER) && Adds(m, m1, q, next) && !Owned(m, q) && |b1| >= m1.end
    requires PayloadsKept(m, b0, b1, None) && Allocation(m, p, last) && p + n <= last && q + n <= next
    ensures p + n <= |b1| && q + n <= |b1|
    ensures var b2 := Copied(b1, p, q, n);
            PayloadsKept(m, b0, b2, None) && |b0| == |b2| && b2[q..q + n] == b0[p..p + n]
  {
    assert Allocation(m1, p, last) && Allocation(m1, q, next);
    LiveDisjoint(m1.blocks, m1.end, HEADER, p - HEADER, last, q - HEADER, next);
    LiveDisjoint(m1.blocks, m1.end, HEADER, q - HEADER, next, p - HEADER, last);
    assert Kept(b0, b1, p, last);
    var b2 := Copied(b1, p, q, n);
    KeptPart(b0, b1, p, last, n);
    assert b2[q..q + n] == b1[p..p + n];
    forall x: nat, xn: nat | Allocation(m, x, xn) ensures Kept(b0, b2, x, xn) {
      assert Kept(b0, b1, x, xn) && Allocation(m1, x, xn) && x != q;
      LiveDisjoint(m1.blocks, m1.end, HEADER, x - HEADER, xn, q - HEADER, next);
      assert b2[x..xn] == b1[x..xn];
    }
  }

  ghost predicate SameContents(bytes: seq<int>, p: nat, bytes': seq<int>, r: nat, n: nat) {
    p + n <= |bytes| && r + n <= |bytes'| && bytes'[r..r + n] == bytes[p..p + n]
  }

  /** The first bytes of the block at `p` stand at `r` now, up to the shorter of its old length and
      `size`. */
  ghost predicate Carried(m: Pool, bytes: seq<int>, bytes': seq<int>, p: nat, r: nat, size: nat) {
    forall last: nat :: Allocation(m, p, last) && p <= last ==> SameContents(bytes, p, bytes', r, Min(size, last - p))
  }

  /** What `rt_memheap_alloc` may rely on when it takes free block `i`. */
  lemma TakeFacts(m: Pool, bytes: seq<int>, i: nat)
    requires Valid(m) && |bytes| == m.end + HEADER && i < |m.blocks| && !m.blocks[i].used
    ensures var h := m.blocks[i].off;
            h in m.free && h !in Without(m.free, h) && h < m.end && PayloadsKept(m, bytes, bytes, None)
  {
    var h := m.blocks[i].off;
    assert m.blocks[i] == Block(h, false);
    Ordered(m.blocks, m.end, HEADER, i, |m.blocks|);
    WithoutIs(m.free, h);
    PayloadsStay(m, bytes);
  }

  lemma SplitFacts(m: Pool, bytes: seq<int>, i: nat, size: nat)
    requires Valid(m) && |bytes| == m.end + HEADER && i < |m.blocks| && !m.blocks[i].used && Aligned(size)
    requires Payload(m.blocks, m.end, i) >= size + HEADER + MIN_ALLOC
    ensures var h, tail := m.blocks[i].off, m.blocks[i].off + size + HEADER;
            && Aligned(tail) && tail !in m.free && tail !in Without(m.free, h) && tail + HEADER <= m.end
            && PayloadsKept(m, bytes, WithHeader(bytes, tail), None)
            && Mark(Insert(m.blocks, i + 1, Block(tail, false)), i, true) == Insert(Mark(m.blocks, i, true), i + 1, Block(tail, false))
  {
    var h, tail := m.blocks[i].off, m.blocks[i].off + size + HEADER;
    Ordered(m.blocks, m.end, HEADER, i, |m.blocks|);
    TailAligned(m.blocks, m.end, i, size);
    TailIsNoBlock(m.blocks, m.end, i, tail);
    WithoutIs(m.free, h);
    FreeBlockFacts(m, i);
    NotCoalescedReach(m, i);
    HeaderKeeps(m, bytes, i, tail);
  }

  lemma NotCoalescedReach(m: Pool, i: nat)
    requires Coalesced(m.blocks) && i < |m.blocks| && !m.blocks[i].used
    ensures Reach(m, i) == Next(m.blocks, m.end, i)
  {
    assert i + 1 < |m.blocks| ==> Separated(m.blocks, i);
  }

  lemma WithoutFront(free: seq<nat>, h: nat, x: nat)
    requires h != x
    ensures Without([h] + free, x) == [h] + Without(free, x)
  {
    hide Position;
    PositionFront(free, h, x);
    if Position(free, x) < |free| { RemoveFront(free, h, Position(free, x)); }
  }

  lemma RemoveFront(free: seq<nat>, h: nat, k: nat)
    requires k < |free|
    ensures var s := [h] + free; s[..k + 1] + s[k + 2..] == [h] + (free[..k] + free[k + 1..])
  {
    var s := [h] + free;
    assert s[..k + 1] == [h] + free[..k] && s[k + 2..] == free[k + 1..];
  }

  lemma WithoutAlso(free: seq<nat>, h: nat, x: nat)
    requires h !in free
    ensures h !in Without(free, x)
  {
    var k := Position(free, x);
    assert k < |free| ==> forall y :: y in free[..k] || y in free[k + 1..] ==> y in free;
  }

  lemma PositionFront(free: seq<nat>, h: nat, x: nat)
    requires h != x
    ensures Position([h] + free, x) == 1 + Position(free, x)
  {
    assert ([h] + free)[1..] == free;
  }

  /** Where `rt_memheap_free` and `rt_memheap_realloc` find an allocation. */
  lemma OwnedFacts(m: Pool, p: nat) returns (i: nat)
    requires Valid(m) && Owned(m, p)
    ensures p >= HEADER && i < |m.blocks| && m.blocks[i] == Block(p - HEADER, true) && IndexOf(m, p) == i
    ensures p <= Next(m.blocks, m.end, i) <= m.end && p - HEADER !in m.free
    ensures NextFree(m, i) ==> m.blocks[i + 1].off in m.free && m.blocks[i + 1].off > p - HEADER
    ensures forall next :: Allocation(m, p, next) <==> next == Next(m.blocks, m.end, i)
  {
    i := OwnedIndex(m, p);
    UsedIsNotFree(m.blocks, m.end, i);
    if NextFree(m, i) {
      assert m.blocks[i + 1] == Block(m.blocks[i + 1].off, false);
    }
  }

  /** What refitting block `i` to `size` bytes may rely on. */
  lemma RefitFacts(m: Pool, bytes: seq<int>, i: nat, size: nat)
    requires Valid(m) && |bytes| == m.end + HEADER && i < |m.blocks| && m.blocks[i].used
    requires Aligned(size) && MIN_ALLOC <= size && m.blocks[i].off + HEADER + size + HEADER <= Reach(m, i)
    ensures var p := m.blocks[i].off + HEADER;
            var tail := p + size;
            && Aligned(tail) && tail + HEADER <= m.end && Valid(Record(Refit(m, i, size)))
            && tail !in (if NextFree(m, i) then AbsorbNext(m, i) else m).free
            && (size != Payload(m.blocks, m.end, i) ==> tail !in m.free)
            && PayloadsKept(m, bytes, WithHeader(bytes, tail), Some(p)) && Carried(m, bytes, WithHeader(bytes, tail), p, p, size)
  {
    hide Allocation; hide Total; hide PayloadsKept; hide Carried; hide Coalesced; hide Roomy; hide Refit; hide Fits;
    var p := m.blocks[i].off + HEADER;
    var tail := p + size;
    ReachEnd(m, i);
    RefitKeeps(m, i, size);
    RecordKeeps(Refit(m, i, size));
    TailAligned(m.blocks, m.end, i, size);
    HeaderKeeps(m, bytes, i, tail);
    TailNotFree(m, i, tail);
    if NextFree(m, i) { WithoutIs(m.free, m.blocks[i + 1].off); }
    CarriedBefore(m, bytes, WithHeader(bytes, tail), p, size);
  }

  lemma CarriedBefore(m: Pool, bytes: seq<int>, bytes': seq<int>, p: nat, size: nat)
    requires Kept(bytes, bytes', p, p + size)
    ensures Carried(m, bytes, bytes', p, p, size)
  {
    hide Allocation;
    forall last: nat | Allocation(m, p, last) && p <= last ensures SameContents(bytes, p, bytes', p, Min(size, last - p)) {
      var n := Min(size, last - p);
      KeptPart(bytes, bytes', p, p + size, n);
    }
  }

  lemma ReachEnd(m: Pool, i: nat)
    requires Consistent(m) && i < |m.blocks|
    ensures Reach(m, i) <= m.end
  {
    Ordered(m.blocks, m.end, HEADER, if NextFree(m, i) then i + 1 else i, |m.blocks|);
  }

  /** No block but possibly the absorbed one starts where the new item is built. */
  lemma TailNotFree(m: Pool, i: nat, tail: nat)
    requires Consistent(m) && i < |m.blocks| && m.blocks[i].used && m.blocks[i].off < tail < Reach(m, i)
    ensures tail !in (if NextFree(m, i) then AbsorbNext(m, i) else m).free
  {
    hide Total;
    if NextFree(m, i) {
      AbsorbNextKeeps(m, i);
      var m1 := AbsorbNext(m, i);
      assert m1.blocks[i] == m.blocks[i] && Next(m1.blocks, m.end, i) == Next(m.blocks, m.end, i + 1);
      TailIsNoBlock(m1.blocks, m.end, i, tail);
    } else {
      TailIsNoBlock(m.blocks, m.end, i, tail);
    }
  }

  class MemHeap {
    const end: nat
    var items: Items
    var bytes: seq<int>
    var available: int
    var maxUsed: int
    ghost var blocks: seq<Block>
    ghost var freeList: seq<nat>

    /** The address of `free_header`, which lies outside the pool. */
    const header: nat := end + HEADER

    ghost function State(): Pool
      reads this
    {
      Pool(blocks, end, freeList, available, maxUsed)
    }

    ghost predicate Repr()
      reads this
    {
      Ring(items, blocks, end) && Listed(items, freeList, header) && |bytes| == end + HEADER
    }

    ghost predicate Ok()
      reads this
    {
      Valid(State()) && Repr()
    }

    /** `rt_memheap_init` on a pool of `|region|` bytes. */
    constructor (region: seq<int>)
      requires Aligned(|region|) && |region| >= 2 * HEADER
      ensures Ok() && State() == Init(|region| - HEADER)
    {
      var tail := |region| - HEADER;
      var h := tail + HEADER;
      items := map[h := Item(false, NULL, NULL, 0, 0), 0 := Item(false, tail, tail, h, h), tail := Item(true, 0, 0, NULL, NULL)];
      bytes := region;
      end, available, maxUsed := tail, tail - HEADER, 2 * HEADER;
      blocks, freeList := [Block(0, false)], [0];
      InitValid(tail);
    }

    // ----- link updates -----

    /** A new free item at `tail` between `at` and its successor, not on the free list yet. */
    method SplitRing(at: nat, tail: nat, ghost i: nat)
      requires Repr() && i < |blocks| && blocks[i].off == at && Aligned(tail) && tail !in freeList
      requires at + HEADER <= tail && tail + HEADER <= Next(blocks, end, i)
      modifies this`items, this`bytes, this`blocks
      ensures Repr() && blocks == Insert(old(blocks), i + 1, Block(tail, false)) && tail in items
      ensures tail + HEADER <= end && bytes == WithHeader(old(bytes), tail)
    {
      hide Listed;
      ghost var was := items;
      RingAt(was, blocks, end, i);
      RingInsert(was, blocks, end, i, tail);
      var next := items[at].next;
      items := items[tail := Item(false, next, at, NULL, NULL)];
      items := items[next := items[next].(prev := tail)];
      items := items[at := items[at].(next := tail)];
      assert items == SplitItems(was, at, tail);
      bytes := WithHeader(bytes, tail);
      ListAfterSplit(was, items, freeList, header, tail);
      blocks := Insert(blocks, i + 1, Block(tail, false));
    }

    /** `next` and `prev` around item `dead`, the successor of `at`. */
    method JoinRing(at: nat, dead: nat, ghost i: nat)
      requires Repr() && i + 1 < |blocks| && blocks[i].off == at && blocks[i + 1].off == dead
      modifies this`items, this`blocks
      ensures Repr() && blocks == Delete(old(blocks), i + 1)
      ensures forall y :: y in old(items) ==> y in items
    {
      hide Listed;
      ghost var was := items;
      RingAt(was, blocks, end, i);
      RingAt(was, blocks, end, i + 1);
      RingDelete(was, blocks, end, i);
      var next := items[dead].next;
      items := items[next := items[next].(prev := at)];
      items := items[at := items[at].(next := next)];
      assert items == JoinItems(was, at, dead);
      ListAfterSplit(was, items, freeList, header, NULL);
      blocks := Delete(blocks, i + 1);
    }

    method Unlink(x: nat)
      requires Repr() && x in freeList
      modifies this`items, this`freeList
      ensures Repr() && freeList == Without(old(freeList), x)
      ensures x in items && forall y :: y in old(items) ==> y in items
    {
      hide Ring;
      LinksAt(items, freeList, header, Position(freeList, x));
      ListRemove(items, freeList, header, x);
      ghost var was := items;
      var next, prev := items[x].nextFree, items[x].prevFree;
      items := items[next := items[next].(prevFree := prev)];
      items := items[prev := items[prev].(nextFree := next)];
      assert items == UnlinkItems(was, x);
      RingFrame(was, items, blocks, end);
      freeList := Without(freeList, x);
    }

    /** Clear the links of an item that left the free list. */
    method ClearLinks(x: nat)
      requires Repr() && x in items && x !in freeList && x != header
      modifies this`items
      ensures Repr() && forall y :: y in old(items) ==> y in items
    {
      hide Ring; hide Listed;
      ghost var was := items;
      items := items[x := items[x].(nextFree := NULL)];
      items := items[x := items[x].(prevFree := NULL)];
      RingFrame(was, items, blocks, end);
      ListFrame(was, items, freeList, header, x);
    }

    /** Insert at the front of the free list. */
    method Push(x: nat)
      requires Repr() && x in items && x !in freeList && x != header
      modifies this`items, this`freeList
      ensures Repr() && freeList == [x] + old(freeList)
    {
      hide Ring;
      assert LinkAt(items, Circle(freeList, header), 0);
      ListPush(items, freeList, header, x);
      ghost var was := items;
      var first := items[header].nextFree;
      items := items[x := items[x].(nextFree := first, prevFree := header)];
      items := items[first := items[first].(prevFree := x)];
      items := items[header := items[header].(nextFree := x)];
      assert items == PushItems(was, x, header);
      RingFrame(was, items, blocks, end);
      freeList := [x] + freeList;
    }

    method SetFlag(x: nat, used: bool, ghost i: nat)
      requires Repr() && i < |blocks| && blocks[i].off == x
      modifies this`items, this`blocks
      ensures Repr() && blocks == Mark(old(blocks), i, used)
    {
      hide Listed;
      ghost var was := items;
      RingAt(was, blocks, end, i);
      RingMark(was, blocks, end, i, used);
      items := items[x := items[x].(used := used)];
      ListAfterSplit(was, items, freeList, header, NULL);
      blocks := Mark(blocks, i, used);
    }

    /** `max_used_size`. */
    method Record()
      modifies this`maxUsed
      ensures State() == Memheap.Record(old(State()))
    {
      if end + HEADER - available > maxUsed { maxUsed := end + HEADER - available; }
    }

    // ----- rt_memheap_alloc -----

    /** The search along the free list; `found` is the last size looked at. */
    method Search(size: nat) returns (h: int, found: int, ghost k: nat)
      requires Ok() && size > 0
      ensures k == Find(State(), size, 0) && (found >= size <==> k < |freeList|)
      ensures k < |freeList| ==> found == ItemSize(State(), freeList[k])
      ensures var j := Find(State(), size, 0); h == if j < |freeList| then freeList[j] else header
    {
      hide Ring; hide Tiled; hide Agree; hide Total; hide Coalesced; hide Roomy; hide ItemSize;
      ghost var c := Circle(freeList, header);
      k, found := 0, 0;
      assert LinkAt(items, c, 0);
      h := items[header].nextFree;
      while h != header && found < size
        invariant k <= |freeList| && h == c[k + 1] && (found < size || k < |freeList|)
        invariant Find(State(), size, 0) == Find(State(), size, k)
        invariant found >= size ==> found == ItemSize(State(), freeList[k])
        decreases |freeList| - k, if found < size then 1 else 0
      {
        assert k < |freeList| && h == freeList[k];
        SizeAt(k);
        found := items[h].next - h - HEADER;
        if found < size {
          LinksAt(items, freeList, header, k);
          h := items[h].nextFree;
          k := k + 1;
        }
      }
      assert k < |freeList| ==> freeList[k] in freeList;
    }

    lemma SizeAt(k: nat)
      requires Ok() && k < |freeList|
      ensures freeList[k] in items && items[freeList[k]].next - freeList[k] - HEADER == ItemSize(State(), freeList[k])
    {
      var i := FreeIndex(State(), k);
      RingAt(items, blocks, end, i);
    }

    /** Take the item at `h`, split if the rest can hold a block. */
    method TakeItem(h: nat, size: nat, found: int, ghost i: nat)
      requires Ok() && i < |blocks| && blocks[i] == Block(h, false) && found == Payload(blocks, end, i)
      requires found >= size >= MIN_ALLOC && Aligned(size)
      modifies this`items, this`bytes, this`blocks, this`freeList, this`available, this`maxUsed
      ensures Repr() && State() == Take(old(State()), i, size)
      ensures PayloadsKept(old(State()), old(bytes), bytes, None)
    {
      hide Ring; hide Listed; hide Tiled; hide Total; hide Coalesced; hide Roomy; hide Valid; hide PayloadsKept;
      hide Without; hide Insert;
      ghost var m, b := State(), bytes;
      TakeFacts(m, b, i);
      if found >= size + HEADER + MIN_ALLOC {
        SplitFacts(m, b, i, size);
        var tail := h + size + HEADER;
        SplitRing(h, tail, i);
        AfterInsert(m.blocks, i, Block(tail, false), end);
        Unlink(h);
        ClearLinks(h);
        Push(tail);
        available := available - size - HEADER;
        Record();
      } else {
        available := available - found;
        Record();
        Unlink(h);
        ClearLinks(h);
      }
      SetFlag(h, true, i);
    }

    /** `rt_memheap_alloc`. */
    method Alloc(request: nat) returns (r: Option<nat>)
      requires Ok()
      modifies this
      ensures Ok() && (State(), r) == Memheap.Alloc(old(State()), request)
      ensures PayloadsKept(old(State()), old(bytes), bytes, None)
    {
      ghost var m := State();
      AllocKeeps(m, request);
      PayloadsStay(m, bytes);
      hide Repr; hide Valid; hide PayloadsKept; hide Take; hide Find; hide ItemSize; hide IndexAt;
      var size := Rounded(request);
      RoundedAligned(request);
      if size < available {
        var h, found, k := Search(size);
        if found >= size {
          ghost var i := FreeIndex(m, k);
          TakeItem(h, size, found, i);
          return Some(h + HEADER);
        }
      }
      return None;
    }

    // ----- rt_memheap_free -----

    /** `rt_memheap_free`; no payload byte is written. */
    method Free(ptr: Option<nat>)
      requires Ok() && (ptr.Some? ==> Owned(State(), ptr.value))
      modifies this`items, this`blocks, this`freeList, this`available
      ensures Ok() && State() == if ptr.None? then old(State()) else Memheap.Free(old(State()), ptr.value)
    {
      if ptr.None? { return; }
      FreeKeeps(State(), ptr.value);
      ghost var i := OwnedFacts(State(), ptr.value);
      Release(ptr.value - HEADER, i);
    }

    /** Give block `i` back and merge it with free neighbours. */
    method Release(at: nat, ghost i: nat)
      requires Repr() && i < |blocks| && blocks[i] == Block(at, true) && at !in freeList
      requires NextFree(State(), i) ==> blocks[i + 1].off in freeList && blocks[i + 1].off > at
      requires IndexOf(State(), at + HEADER) == i
      modifies this`items, this`blocks, this`freeList, this`available
      ensures Repr() && State() == Memheap.Free(old(State()), at + HEADER)
    {
      hide Ring; hide Listed; hide Without; hide IndexOf; hide Delete;
      ghost var free := freeList;
      SetFlag(at, false, i);
      RingAt(items, blocks, end, i);
      available := available + (items[at].next - at - HEADER);
      var h, insert := at, true;
      var prev := items[h].prev;
      if !items[prev].used {
        available := available + HEADER;
        JoinRing(prev, h, i - 1);
        h := prev;
        insert := false;
      }
      ghost var k := if insert then i else i - 1;
      BesideDeleted(old(blocks), i);
      if NextFree(State(), k) { WithoutFront(free, at, blocks[k + 1].off); WithoutAlso(free, at, blocks[k + 1].off); }
      MergeRight(h, k);
      if insert { Push(h); }
    }

    lemma BesideDeleted(bs: seq<Block>, i: nat)
      requires i < |bs|
      ensures var marked := Mark(bs, i, false);
              && (i > 0 ==> Delete(marked, i)[i - 1] == bs[i - 1])
              && (i > 0 && i + 1 < |bs| ==> Delete(marked, i)[i] == bs[i + 1])
              && |Delete(marked, i)| == |bs| - 1
              && (i + 1 < |bs| ==> marked[i + 1] == bs[i + 1])
    {
    }

    /** Merge the free item at `h` with a free successor. */
    method MergeRight(h: nat, ghost k: nat)
      requires Repr() && k < |blocks| && blocks[k].off == h
      requires NextFree(State(), k) ==> blocks[k + 1].off in freeList
      modifies this`items, this`blocks, this`freeList, this`available
      ensures Repr() && State() == if NextFree(old(State()), k) then MergeNext(old(State()), k) else old(State())
      ensures forall y :: y in old(items) ==> y in items
    {
      hide Ring; hide Listed; hide Delete; hide Without;
      RingAt(items, blocks, end, k);
      var dead := items[h].next;
      if !items[dead].used {
        available := available + HEADER;
        JoinRing(h, dead, k);
        Unlink(dead);
      }
    }

    // ----- rt_memheap_realloc -----

    /** Take the free successor out and build a free item `size` bytes into the block. */
    method GrowInto(h: nat, had: int, size: nat, ghost i: nat)
      requires Ok() && i < |blocks| && blocks[i] == Block(h, true) && had == Payload(blocks, end, i)
      requires NextFree(State(), i) && had < size && Aligned(size) && h + HEADER + size + HEADER <= Reach(State(), i)
      requires MIN_ALLOC <= size && blocks[i + 1].off in freeList
      modifies this`items, this`bytes, this`blocks, this`freeList, this`available, this`maxUsed
      ensures Ok() && State() == Memheap.Record(Refit(old(State()), i, size))
      ensures PayloadsKept(old(State()), old(bytes), bytes, Some(h + HEADER))
      ensures Carried(old(State()), old(bytes), bytes, h + HEADER, h + HEADER, size)
    {
      hide Ring; hide Listed; hide Valid; hide PayloadsKept; hide Carried; hide Without; hide Delete; hide Insert;
      ghost var m := State();
      RefitFacts(m, bytes, i, size);
      RingAt(items, blocks, end, i);
      available := available - (size - had);
      Record();
      var dead := items[h].next;
      Unlink(dead);
      JoinRing(h, dead, i);
      AfterDelete(m.blocks, i, end);
      var tail := h + HEADER + size;
      SplitRing(h, tail, i);
      Push(tail);
    }

    lemma AfterDelete(bs: seq<Block>, i: nat, end: nat)
      requires i + 1 < |bs|
      ensures |Delete(bs, i + 1)| == |bs| - 1 && Delete(bs, i + 1)[i] == bs[i]
      ensures Next(Delete(bs, i + 1), end, i) == Next(bs, end, i + 1)
    {
    }

    /** Build a free item `size` bytes into the block and merge it with a free successor. */
    method ShrinkTo(h: nat, size: nat, ghost i: nat)
      requires Ok() && i < |blocks| && blocks[i] == Block(h, true) && Aligned(size) && MIN_ALLOC <= size
      requires size + HEADER + MIN_ALLOC < Payload(blocks, end, i)
      requires NextFree(State(), i) ==> blocks[i + 1].off in freeList
      modifies this`items, this`bytes, this`blocks, this`freeList, this`available
      ensures Repr() && State() == Refit(old(State()), i, size)
      ensures PayloadsKept(old(State()), old(bytes), bytes, Some(h + HEADER))
      ensures Carried(old(State()), old(bytes), bytes, h + HEADER, h + HEADER, size)
    {
      hide Ring; hide Listed; hide Valid; hide PayloadsKept; hide Carried; hide Without; hide Delete; hide Insert;
      ghost var m := State();
      ReachAtLeast(m, i);
      RefitFacts(m, bytes, i, size);
      var tail := h + size + HEADER;
      SplitRing(h, tail, i);
      AfterInsert(m.blocks, i, Block(tail, false), end);
      RingAt(items, blocks, end, i + 1);
      var next := items[tail].next;
      if !items[next].used {
        RingAt(items, blocks, end, i + 2);
        available := available - (items[next].next - next - HEADER);
        JoinRing(tail, next, i + 1);
        Unlink(next);
        AfterDelete(Insert(m.blocks, i + 1, Block(tail, false)), i + 1, end);
        AfterDelete(m.blocks, i, end);
      }
      Push(tail);
      RingAt(items, blocks, end, i + 1);
      available := available + (items[tail].next - tail - HEADER);
    }

    lemma ReachAtLeast(m: Pool, i: nat)
      requires Valid(m) && i < |m.blocks|
      ensures Reach(m, i) >= Next(m.blocks, m.end, i)
    {
      if NextFree(m, i) { NextExtent(m, i); }
    }

    lemma AfterInsert(bs: seq<Block>, i: nat, b: Block, end: nat)
      requires i < |bs|
      ensures var m := Insert(bs, i + 1, b);
              && |m| == |bs| + 1 && m[i] == bs[i] && m[i + 1] == b && Next(m, end, i + 1) == Next(bs, end, i)
              && (i + 1 < |bs| ==> m[i + 2] == bs[i + 1] && Delete(m, i + 2) == Insert(Delete(bs, i + 1), i + 1, b)
                                   && Next(m, end, i + 2) == Next(bs, end, i + 1))
    {
    }

    /** Allocate elsewhere, copy, free: the old block stays when there is no room. */
    method Move(p: nat, had: nat, size: nat) returns (r: Option<nat>)
      requires Ok() && Allocation(State(), p, p + had) && Aligned(size) && MIN_ALLOC <= size < WRAP
      modifies this
      ensures Ok()
      ensures var (m, q) := Memheap.Alloc(old(State()), size);
              r == q && State() == if q.None? then m else Memheap.Free(m, p)
      ensures PayloadsKept(old(State()), old(bytes), bytes, None)
      ensures r.Some? ==> Carried(old(State()), old(bytes), bytes, p, r.value, size)
    {
      hide Valid; hide Ring; hide Listed; hide PayloadsKept; hide Carried; hide Memheap.Alloc; hide Memheap.Free;
      hide Allocation;
      ghost var m, b := State(), bytes;
      AllocKeeps(m, size);
      RoundedFixed(size);
      r := Alloc(size);
      if r.Some? {
        ghost var m1, b1, n := State(), bytes, Min(size, had);
        MoveFacts(m, m1, b, b1, p, had, r.value, size);
        bytes := Copied(bytes, p, r.value, if had < size then had else size);
        Free(Some(p));
      }
    }

    lemma MoveFacts(m: Pool, m1: Pool, b0: seq<int>, b1: seq<int>, p: nat, had: nat, q: nat, size: nat)
      requires Valid(m) && Valid(m1) && Allocation(m, p, p + had) && !Owned(m, q) && |b1| >= m1.end
      requires AllocatesAtLeast(m, m1, q, size) && PayloadsKept(m, b0, b1, None)
      ensures var n := Min(size, had);
              && Owned(m1, p) && p + n <= |b1| && q + n <= |b1|
              && PayloadsKept(m, b0, Copied(b1, p, q, n), None) && Carried(m, b0, Copied(b1, p, q, n), p, q, size)
    {
      var next: nat :| q + size <= next <= m.end && Adds(m, m1, q, next);
      assert Allocation(m1, p, p + had);
      CopyKeeps(m, m1, b0, b1, p, p + had, q, next, Min(size, had));
      assert Kept(b0, b1, p, p + had);
      forall last: nat | Allocation(m, p, last) ensures last == p + had {
        LiveDisjoint(m.blocks, m.end, HEADER, p - HEADER, last, p - HEADER, p + had);
      }
    }

    /** `rt_memheap_realloc`. */
    method Realloc(ptr: Option<nat>, newsize: nat) returns (r: Option<nat>)
      requires Ok() && (ptr.Some? ==> Owned(State(), ptr.value) && !Wraps(State(), ptr.value, Rounded(newsize)))
      modifies this
      ensures Ok() && (State(), r) == Memheap.Realloc(old(State()), ptr, newsize)
      ensures if r.None? || ptr.None? then PayloadsKept(old(State()), old(bytes), bytes, None)
              else PayloadsKept(old(State()), old(bytes), bytes, ptr)
                   && Carried(old(State()), old(bytes), bytes, ptr.value, r.value, Rounded(newsize))
    {
      hide Valid; hide Ring; hide Listed; hide PayloadsKept; hide Carried; hide Memheap.Alloc; hide Memheap.Free;
      hide Owned; hide ReallocLive; hide Rounded; hide Memheap.Record; hide Refit;
      KeptAtFirst();
      if newsize == 0 {
        Free(ptr);
        return None;
      }
      var size := Rounded(newsize);
      RoundedAligned(newsize);
      if ptr.None? {
        r := Alloc(size);
        return;
      }
      r := Resize(ptr.value, size);
    }

    lemma KeptAtFirst()
      requires Ok()
      ensures PayloadsKept(State(), bytes, bytes, None)
    {
      PayloadsStay(State(), bytes);
    }

    method Resize(p: nat, size: nat) returns (r: Option<nat>)
      requires Ok() && Owned(State(), p) && Aligned(size) && MIN_ALLOC <= size < WRAP && !Wraps(State(), p, size)
      modifies this
      ensures Ok() && (State(), r) == ReallocLive(old(State()), p, size)
      ensures if r.None? then PayloadsKept(old(State()), old(bytes), bytes, None)
              else PayloadsKept(old(State()), old(bytes), bytes, Some(p))
                   && Carried(old(State()), old(bytes), bytes, p, r.value, size)
    {
      hide Valid; hide Ring; hide Listed; hide PayloadsKept; hide Carried; hide Memheap.Alloc; hide Memheap.Free;
      hide Owned; hide Refit; hide IndexOf;
      ghost var m, b := State(), bytes;
      ghost var i := OwnedFacts(m, p);
      ReallocKeeps(m, p, size);
      StayFacts(m, b, p, size, i);
      RingAt(items, blocks, end, i);
      var h := p - HEADER;
      var had := items[h].next - h - HEADER;
      if size > had {
        var next := items[h].next;
        if !items[next].used {
          RingAt(items, blocks, end, i + 1);
          var nextsize := items[next].next - next - HEADER;
          if nextsize + had > (size + MIN_ALLOC) % WRAP {
            GrowInto(h, had, size, i);
            return Some(p);
          }
        }
        r := Move(p, had, size);
        MovedKept(m, b, bytes, p);
      } else if size + HEADER + MIN_ALLOC >= had {
        r := Some(p);
      } else {
        ShrinkTo(h, size, i);
        r := Some(p);
      }
    }

    lemma MovedKept(m: Pool, b: seq<int>, b': seq<int>, p: nat)
      requires PayloadsKept(m, b, b', None)
      ensures PayloadsKept(m, b, b', Some(p))
    {
    }

    lemma StayFacts(m: Pool, b: seq<int>, p: nat, size: nat, i: nat)
      requires Valid(m) && |b| == m.end + HEADER && i < |m.blocks| && p <= Next(m.blocks, m.end, i) <= m.end
      requires forall next :: Allocation(m, p, next) <==> next == Next(m.blocks, m.end, i)
      ensures PayloadsKept(m, b, b, Some(p))
      ensures Carried(m, b, b, p, p, size)
    {
      PayloadsStay(m, b);
    }
  }
}
