/** src/slab.c in place: the allocator's tables updated step by step over its page list. */
module SlabHeap {
  import opened Lists
  import opened Pages
  import opened Zones
  import opened Slab
  import opened SlabBytes
  import opened Words

  class Store {
    const zpages: nat
    const pages: PageList
    var usage: seq<Usage>
    var zones: map<nat, Zone>
    var lists: seq<seq<nat>>
    var idle: seq<nat>
    /** The memory of the heap.  Zone headers and the heads of free page runs are kept in the fields above
        and in the page list; what matters here is the contents of live blocks. */
    var bytes: seq<int>

    ghost function State(): Heap
      reads this, pages
    {
      Heap(zpages, pages.runs, usage, zones, lists, idle)
    }

    ghost predicate Ok()
      reads this, pages
    {
      pages.Ok() && Valid(State()) && |bytes| == |usage| * PAGE
    }

    /** `rt_system_heap_init` on `npages` pages. */
    constructor (npages: nat, region: seq<int>)
      requires npages > 0 && |region| == npages * PAGE
      ensures Ok() && State() == Init(npages) && fresh(pages)
    {
      var list := new PageList(0, npages);
      var size := 32 * 1024;
      while size < 128 * 1024 && size * 2 < npages * PAGE / 1024
        invariant size in {32 * 1024, 64 * 1024, 128 * 1024}
        invariant size > 32 * 1024 ==> size < npages * PAGE / 1024
        decreases 128 * 1024 - size
      {
        size := size * 2;
      }
      zpages := size / PAGE;
      pages := list;
      usage, zones := seq(npages, _ => FreePage), map[];
      lists, idle, bytes := seq(NZONES, _ => []), [], region;
      new;
      InitValid(npages);
      assert npages * 4 + PAGE - 1 > 0;
      var table := pages.Alloc(Reserved(npages));
    }

    // ----- rt_malloc -----

    method Malloc(size: nat) returns (r: Option<nat>)
      requires Ok() && size < WRAP
      modifies this, pages
      ensures Ok() && (State(), r) == Slab.Malloc(old(State()), size) && |usage| == |old(usage)|
      ensures Kept(old(State()), old(bytes), bytes, None)
    {
      hide Valid; hide PageList.Ok; hide MallocLarge; hide MallocSmall; hide ZoneIndex; hide Kept; hide Adds;
      ghost var s := State();
      MallocKeeps(s, size);
      AllKept(s, bytes);
      if size == 0 { return None; }
      if size >= Limit(zpages) {
        r := Large(PagesFor(size));
      } else {
        ChunkWithin(size);
        r := Small(ZoneIndex(size).0);
        HeaderKeeps(s, State(), old(bytes), bytes, r);
      }
    }

    lemma HeaderKeeps(s: Heap, s': Heap, b: seq<int>, b': seq<int>, r: Option<nat>)
      requires Valid(s') && (b' == b || exists zp :: HeaderWritten(s', b, b', zp))
      requires if r.None? then s' == s else exists end :: Adds(s, s', r.value, end)
      ensures Kept(s, b, b', None)
    {
      hide Valid; hide Extent; hide Kept;
      AllKept(s, b);
      if b' != b {
        var zp :| HeaderWritten(s', b, b', zp);
        HeaderKept(s', b, zp);
        KeptBefore(s, s', b, b', None);
      }
    }

    lemma ChunkWithin(size: nat)
      requires Valid(State()) && 0 < size < Limit(zpages)
      ensures 8 <= ChunkOf(ZoneIndex(size).0) <= Limit(zpages) <= 16384 && ZoneIndex(size).0 < NZONES == |lists|
    {
      ChunkWithinLimit(zpages, size);
    }

    method Large(n: nat) returns (r: Option<nat>)
      requires Ok()
      modifies this, pages
      ensures pages.Ok() && (State(), r) == MallocLarge(old(State()), n) && |usage| == |old(usage)| && bytes == old(bytes)
    {
      hide PageList.Ok; hide AllocRun;
      ghost var s := State();
      if n > 0 { LargeInside(s, n); }
      var page := pages.Alloc(n);
      if page.None? { return None; }
      usage := usage[page.value := LargePage(n)];
      return Some(page.value * PAGE);
    }

    lemma LargeInside(s: Heap, n: nat)
      requires Valid(s) && n > 0
      ensures var r := AllocPages(s.runs, n).1;
              if r.None? then AllocPages(s.runs, n).0 == s.runs else r.value + n <= |s.usage|
    {
      AllocKeeps(s.runs, n);
      var r := AllocPages(s.runs, n).1;
      if r.Some? { assert InRange(r.value, n, r.value + n - 1); }
    }

    method Small(index: nat) returns (r: Option<nat>)
      requires Ok() && index < NZONES == |lists| && 8 <= ChunkOf(index) <= Limit(zpages) <= 16384
      modifies this, pages
      ensures lists != [] && (old(lists[index]) != [] ==> old(lists[index][0] in zones))
      ensures pages.Ok() && (State(), r) == MallocSmall(old(State()), index) && |usage| == |old(usage)|
      ensures bytes == old(bytes) || exists zp :: HeaderWritten(State(), old(bytes), bytes, zp)
    {
      hide PageList.Ok; hide TakeChunk; hide FreshZone; hide ChunkOf; hide Limit; hide MarkZone; hide AllocRun;
      HeadInUse(index);
      if lists[index] != [] {
        var zp := lists[index][0];
        var (z, c) := TakeChunk(zones[zp]);
        zones := zones[zp := z];
        if z.nfree == 0 { lists := lists[index := lists[index][1..]]; }
        return Some(c);
      }
      var at;
      if idle != [] {
        IdleInside();
        at := idle[0];
        idle := idle[1..];
      } else {
        LargeInside(State(), zpages);
        var page := pages.Alloc(zpages);
        if page.None? { return None; }
        at := page.value;
        Mark(at);
      }
      bytes := Cleared(bytes, at * PAGE, ZONE_HEADER);
      var z := FreshZone(at, index, ChunkOf(index), zpages);
      zones := zones[at := z];
      lists := lists[index := [at] + lists[index]];
      assert HeaderWritten(State(), old(bytes), bytes, at);
      return Some(z.base);
    }

    /** An idle zone lies in the heap. */
    lemma IdleInside()
      requires Ok() && idle != []
      ensures idle[0] * PAGE + ZONE_HEADER <= |bytes|
    {
      assert idle[0] in Owners(State());
      assert ZonePage(Owners(State()), zpages, idle[0], idle[0]);
    }

    lemma HeadInUse(index: nat)
      requires Valid(State()) && index < NZONES == |lists|
      ensures zpages > 0 && (lists[index] != [] ==> lists[index][0] in zones)
    {
      assert lists[index] != [] ==> lists[index][0] in lists[index];
    }

    method Mark(zp: nat)
      requires zp + zpages <= |usage|
      modifies this`usage
      ensures usage == MarkZone(old(usage), zp, zpages) && |usage| == |old(usage)|
    {
      for off := 0 to zpages
        invariant usage == MarkZone(old(usage), zp, off)
      {
        usage := usage[zp + off := SmallPage(off)];
      }
    }

    // ----- rt_realloc -----

    method Realloc(ptr: Option<nat>, size: nat) returns (r: Option<nat>)
      requires Ok() && size < WRAP && (ptr.Some? ==> Live(State(), ptr.value))
      modifies this, pages
      ensures Ok() && (State(), r) == Slab.Realloc(old(State()), ptr, size)
      ensures Kept(old(State()), old(bytes), bytes, if r.Some? || size == 0 then ptr else None)
      ensures ptr.Some? && r.Some? ==> Carried(old(State()), old(bytes), bytes, ptr.value, r.value, size)
    {
      hide Valid; hide PageList.Ok; hide Live; hide LiveChunk; hide LiveLarge; hide ZoneIndex; hide Slab.Malloc; hide Slab.Free;
      hide Kept; hide Carried; hide Extent;
      if ptr.None? {
        r := Malloc(size);
        return;
      }
      if size == 0 {
        Free(ptr);
        return None;
      }
      ghost var s := State();
      LivePage(s, ptr.value);
      BlockExtent(s, ptr.value);
      var kup := usage[ptr.value / PAGE];
      if kup.LargePage? {
        r := Replace(ptr.value, kup.count * PAGE, size);
      } else {
        ClassAtMost(size);
        var z := zones[ptr.value / PAGE - kup.offset];
        if z.chunk == ClassSize(size) {
          CarriedInPlace(s, bytes, ptr.value, size);
          return ptr;
        }
        r := Replace(ptr.value, z.chunk, ClassSize(size));
        if r.Some? { CarriedLess(s, old(bytes), bytes, ptr.value, r.value, ClassSize(size), size); }
      }
    }

    /** The length of a live block as the usage table and the zone give it. */
    lemma BlockExtent(s: Heap, p: nat)
      requires Valid(s) && Live(s, p)
      ensures p / PAGE < |s.usage|
      ensures match s.usage[p / PAGE]
              case LargePage(n) => Extent(s, p, p + n * PAGE)
              case SmallPage(offset) => offset <= p / PAGE && p / PAGE - offset in s.zones
                                        && Extent(s, p, p + s.zones[p / PAGE - offset].chunk)
              case FreePage => true
    {
      hide Valid; hide LiveChunk;
      LivePage(s, p);
      match s.usage[p / PAGE]
      case SmallPage(offset) => assert ChunkExtent(s, p / PAGE - offset, p, p + s.zones[p / PAGE - offset].chunk);
      case _ =>
    }

    /** Allocate, copy, free; `had` is the length of the old block. */
    method Replace(p: nat, had: nat, size: nat) returns (r: Option<nat>)
      requires Ok() && Live(State(), p) && size < WRAP && Extent(State(), p, p + had)
      modifies this, pages
      ensures Ok() && (State(), r) == Move(old(State()), p, size)
      ensures Kept(old(State()), old(bytes), bytes, if r.Some? then Some(p) else None)
      ensures r.Some? ==> Carried(old(State()), old(bytes), bytes, p, r.value, size)
    {
      hide Valid; hide PageList.Ok; hide Live; hide Slab.Malloc; hide Slab.Free; hide Kept; hide Carried; hide Extent; hide Adds;
      ghost var s, b0 := State(), bytes;
      MallocKeeps(s, size);
      MoveKeeps(s, p, size);
      StillLive(s, p, size);
      r := Malloc(size);
      if r.Some? {
        ghost var s1, b1 := State(), bytes;
        ghost var last :| r.value + size <= last && Adds(s, s1, r.value, last);
        MoveRoom(s, s1, p, had, r.value, last);
        var n := if size > had then had else size;
        CopyBytes(p, r.value, n);
        ghost var b2 := bytes;
        Free(Some(p));
        MoveBytes(s, s1, p, p + had, r.value, last, n, b0, b1, b2, bytes, size);
      }
    }

    /** Both blocks of a move lie in the heap and apart. */
    lemma MoveRoom(s: Heap, s1: Heap, p: nat, had: nat, r: nat, last: nat)
      requires Valid(s1) && Extent(s, p, p + had) && Adds(s, s1, r, last)
      ensures p + had <= |s1.usage| * PAGE && last <= |s1.usage| * PAGE && (p + had <= r || last <= p)
    {
      hide Valid; hide Extent;
      ExtentInside(s1, p, p + had);
      ExtentInside(s1, r, last);
      if p + had > r && last > p { LiveDisjoint(s1, p, p + had, r, last, if p < r then r else p); }
    }

    /** `rt_memcpy` between blocks that do not overlap. */
    method CopyBytes(p: nat, q: nat, n: nat)
      requires p + n <= |bytes| && q + n <= |bytes| && (p + n <= q || q + n <= p)
      modifies this`bytes
      ensures bytes == Copied(old(bytes), p, q, n)
    {
      ghost var b := bytes;
      var c := 0;
      while c < n
        invariant c <= n && |bytes| == |b|
        invariant forall x :: q <= x < q + c ==> bytes[x] == b[x - q + p]
        invariant forall x :: 0 <= x < |b| && !(q <= x < q + c) ==> bytes[x] == b[x]
      {
        bytes := bytes[q + c := bytes[p + c]];
        c := c + 1;
      }
      assert bytes == Copied(b, p, q, n);
    }

    lemma StillLive(s: Heap, p: nat, size: nat)
      requires Valid(s) && Live(s, p) && size < WRAP
      ensures Valid(Slab.Malloc(s, size).0) && Live(Slab.Malloc(s, size).0, p)
    {
      hide Slab.Malloc; hide Valid; hide Extent;
      MallocKeeps(s, size);
      var end :| Extent(s, p, end);
      assert Extent(Slab.Malloc(s, size).0, p, end);
    }

    // ----- rt_free -----

    /** `rt_free`: NULL is ignored. */
    method Free(ptr: Option<nat>)
      requires Ok() && (ptr.Some? ==> Live(State(), ptr.value))
      modifies this, pages
      ensures Ok() && State() == if ptr.None? then old(State()) else Slab.Free(old(State()), ptr.value)
      ensures Kept(old(State()), old(bytes), bytes, ptr)
    {
      hide Valid; hide PageList.Ok; hide Live; hide Slab.Free; hide Kept;
      AllKept(State(), bytes);
      if ptr.Some? { FreeAt(ptr.value); }
    }

    method FreeAt(p: nat)
      requires Ok() && Live(State(), p)
      modifies this, pages
      ensures Ok() && State() == Slab.Free(old(State()), p)
      ensures Kept(old(State()), old(bytes), bytes, Some(p))
    {
      hide Valid; hide PageList.Ok; hide Live; hide LiveChunk; hide LiveLarge; hide FreeChunk; hide FreePages; hide Kept;
      AllKept(State(), bytes);
      LivePage(State(), p);
      FreeLiveKeeps(State(), p);
      var kup := usage[p / PAGE];
      if kup.LargePage? {
        LargeTaken(State(), p);
        usage := usage[p / PAGE := LargePage(0)];
        pages.Free(p / PAGE, kup.count);
      } else {
        ghost var s := State();
        LinkInside(s, p);
        ReturnChunk(p / PAGE - kup.offset, p);
        LinkKept(s, old(bytes), p);
      }
    }

    lemma LinkInside(s: Heap, p: nat)
      requires Valid(s) && Live(s, p)
      ensures p + LINK <= |s.usage| * PAGE
    {
      hide Valid; hide Extent;
      var end :| Extent(s, p, end);
      ExtentInside(s, p, end);
    }

    /** The link in the freed chunk reaches no other block. */
    lemma LinkKept(s: Heap, b: seq<int>, p: nat)
      requires Valid(s) && Live(s, p) && p + LINK <= |b|
      ensures Kept(s, b, Cleared(b, p, LINK), Some(p))
    {
      hide Valid; hide Extent;
      var end :| Extent(s, p, end);
      ExtentInside(s, p, end);
      BlockKept(s, b, Cleared(b, p, LINK), p, end, LINK);
    }

    method ReturnChunk(zp: nat, p: nat)
      requires Ok() && LiveIn(State(), zp, p) && zp in zones && zones[zp].index < |lists| && p + LINK <= |bytes|
      modifies this, pages
      ensures pages.Ok() && State() == FreeChunk(old(State()), zp, p) && |usage| == |old(usage)|
      ensures bytes == Cleared(old(bytes), p, LINK)
    {
      hide PageList.Ok; hide Valid; hide LiveChunk; hide Retire; hide Without; hide Taken;
      ZoneTaken(State(), zp, p);
      ghost var s := State();
      var z := zones[zp];
      var index := z.index;
      bytes := Cleared(bytes, p, LINK);
      zones := zones[zp := z.(free := [p] + z.free, nfree := z.nfree + 1)];
      if z.nfree == 0 { lists := lists[index := [zp] + lists[index]]; }
      if z.nfree + 1 == z.nmax && lists[index] != [zp] {
        Unlist(index, zp);
        zones := zones - {zp};
        assert zones == s.zones - {zp};
        RetireZone(zp);
      }
    }

    /** An empty zone, off its list, joins the idle zones; the newest of more than two of them goes
        back to the page allocator. */
    method RetireZone(zp: nat)
      requires pages.Ok() && |idle| <= KEEP && zpages > 0 && zp + zpages <= |usage| && Taken(pages.runs, zp, zpages)
      modifies this`idle, this`usage, pages
      ensures pages.Ok() && State() == Retire(old(State()), zp) && |usage| == |old(usage)|
    {
      hide PageList.Ok; hide Taken; hide FreePages; hide ClearZone;
      idle := [zp] + idle;
      if |idle| > KEEP {
        var z := idle[0];
        idle := idle[1..];
        Clear(z);
        pages.Free(z, zpages);
      }
    }

    /** The pages of a zone are not free, and lie within the heap. */
    lemma ZoneTaken(s: Heap, zp: nat, p: nat)
      requires Valid(s) && LiveIn(s, zp, p)
      ensures Taken(s.runs, zp, s.zpages) && zp + s.zpages <= |s.usage| && s.zpages > 0
      ensures s.zones[zp].nfree > 0 ==> zp in s.lists[s.zones[zp].index]
      ensures s.zones[zp].nfree >= 0 && |s.idle| <= KEEP
    {
      forall q: nat | InRange(zp, s.zpages, q) ensures !IsFree(s.runs, q) && q < |s.usage| {
        assert ZonePage(Owners(s), s.zpages, zp, q);
      }
      assert InRange(zp, s.zpages, zp + s.zpages - 1);
    }

    /** Remove a zone from the list of its class. */
    method Unlist(index: nat, zp: nat)
      requires index < |lists| && zp in lists[index]
      modifies this`lists
      ensures lists == old(lists)[index := Without(old(lists)[index], zp)]
    {
      var k := 0;
      while lists[index][k] != zp
        invariant k < |lists[index]|
        invariant forall j :: 0 <= j < k ==> lists[index][j] != zp
        invariant zp in lists[index][k..]
        decreases |lists[index]| - k
      {
        assert lists[index][k..] == [lists[index][k]] + lists[index][k + 1..];
        k := k + 1;
      }
      lists := lists[index := lists[index][..k] + lists[index][k + 1..]];
    }

    method Clear(zp: nat)
      requires zp + zpages <= |usage|
      modifies this`usage
      ensures usage == ClearZone(old(usage), zp, zpages) && |usage| == |old(usage)|
    {
      for i := 0 to zpages
        invariant usage == ClearZone(old(usage), zp, i)
      {
        usage := usage[zp + i := FreePage];
      }
    }
  }
}
