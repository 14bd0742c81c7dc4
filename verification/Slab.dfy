/** The slab allocator of src/slab.c over its page allocator: zones per size class, the zone lists,
    `memusage`, and what every run of `rt_malloc`, `rt_realloc` and `rt_free` keeps. */
module Slab {
  import opened Lists
  import opened Pages
  import opened Zones
  import opened Words

  const KEEP: nat := 2

  /** One entry of `memusage`. */
  datatype Usage = FreePage | SmallPage(offset: nat) | LargePage(count: nat)

  /** `lists` is `zone_array`, `idle` is `zone_free`; `zones` holds the zones in use by their first
      page.  Addresses count from the start of the heap. */
  datatype Heap = Heap(zpages: nat, runs: seq<Run>, usage: seq<Usage>, zones: map<nat, Zone>, lists: seq<seq<nat>>, idle: seq<nat>)

  /** `zone_limit`. */
  function Limit(zpages: nat): nat { if zpages * PAGE / 4 > 16384 then 16384 else zpages * PAGE / 4 }

  // ----- invariants -----

  predicate Blank(u: Usage) { u == FreePage || u == LargePage(0) }

  /** A live large block: its other pages say nothing, and none of its pages is free. */
  ghost predicate LargeOk(usage: seq<Usage>, runs: seq<Run>, p: nat)
    requires p < |usage| && usage[p].LargePage?
  {
    && p + usage[p].count <= |usage| && !IsFree(runs, p)
    && forall q :: p < q < p + usage[p].count ==> Blank(usage[q]) && !IsFree(runs, q)
  }

  ghost predicate ZonePage(owners: set<nat>, zpages: nat, zp: nat, p: nat) { zp in owners && zp <= p < zp + zpages }

  /** Every page belongs to one owner at most: the free runs, a zone, or a live large block. */
  ghost predicate UsageOk(usage: seq<Usage>, runs: seq<Run>, owners: set<nat>, zpages: nat) {
    && (forall zp: nat, p: nat :: ZonePage(owners, zpages, zp, p) ==> p < |usage| && usage[p] == SmallPage(p - zp))
    && (forall p :: 0 <= p < |usage| && usage[p].SmallPage? ==>
          usage[p].offset <= p && ZonePage(owners, zpages, p - usage[p].offset, p))
    && (forall p: nat :: IsFree(runs, p) ==> p < |usage| && Blank(usage[p]))
    && (forall p :: 0 <= p < |usage| && usage[p].LargePage? && usage[p].count > 0 ==> LargeOk(usage, runs, p))
  }

  ghost predicate ZonesOk(zones: map<nat, Zone>, zpages: nat) {
    forall zp :: zp in zones ==> ZoneOk(zp, zones[zp], zpages)
  }

  /** A zone is on the list of its class exactly when it has a free chunk. */
  ghost predicate ListsOk(lists: seq<seq<nat>>, zones: map<nat, Zone>) {
    && |lists| == NZONES
    && (forall j :: 0 <= j < NZONES ==> NoDuplicates(lists[j]))
    && (forall zp :: zp in zones ==> zones[zp].index < NZONES && (zp in lists[zones[zp].index] <==> zones[zp].nfree > 0))
    && (forall j, zp :: 0 <= j < NZONES && zp in lists[j] ==> zp in zones && zones[zp].index == j)
  }

  ghost predicate IdleOk(idle: seq<nat>, zones: map<nat, Zone>) {
    NoDuplicates(idle) && |idle| <= KEEP && forall zp :: zp in idle ==> zp !in zones
  }

  ghost function Owners(s: Heap): set<nat> { s.zones.Keys + set zp | zp in s.idle }

  /** What every run keeps. */
  ghost predicate Valid(s: Heap) {
    && s.zpages in {8, 16, 32} && Canonical(s.runs)
    && UsageOk(s.usage, s.runs, Owners(s), s.zpages)
    && ZonesOk(s.zones, s.zpages) && ListsOk(s.lists, s.zones) && IdleOk(s.idle, s.zones)
  }

  /** The live blocks: chunks handed out and not freed, and large blocks. */
  ghost predicate LiveIn(s: Heap, zp: nat, p: nat) { zp in s.zones && LiveChunk(s.zones[zp], p) }

  ghost predicate LiveLarge(s: Heap, p: nat) {
    p % PAGE == 0 && p / PAGE < |s.usage| && s.usage[p / PAGE].LargePage? && s.usage[p / PAGE].count > 0
  }

  /** `memusage` maps every live chunk back to its zone. */
  lemma ChunkPage(s: Heap, zp: nat, p: nat)
    requires Valid(s) && LiveIn(s, zp, p)
    ensures var page: nat, z := p / PAGE, s.zones[zp];
            && zp <= page < zp + s.zpages && page < |s.usage| && s.usage[page] == SmallPage(page - zp)
            && zp * PAGE + ZONE_HEADER <= p && p + z.chunk <= (zp + s.zpages) * PAGE
  {
    hide ListsOk; hide IdleOk; hide Canonical; hide ChunkOf; hide ChunkAt; hide Carved; hide IsFree; hide LargeOk;
    ChunkInZone(zp, s.zones[zp], s.zpages, p);
    PageBounds(zp, s.zpages, p);
    assert ZonePage(Owners(s), s.zpages, zp, p / PAGE);
  }

  /** Whatever ran before, a live chunk whose size is a power of two is aligned to it exactly when its
      zone is, and always up to a page. */
  lemma PowersAligned(s: Heap, zp: nat, p: nat, start: nat)
    requires Valid(s) && LiveIn(s, zp, p) && start % PAGE == 0
    ensures zp in s.zones && (start + p) % 8 == 0
    ensures var chunk := s.zones[zp].chunk;
            chunk > 0 && (IsPower(chunk) ==>
              && ((start + p) % chunk == 0 <==> (start + zp * PAGE) % chunk == 0)
              && (chunk <= PAGE ==> (start + p) % chunk == 0))
  {
    hide UsageOk; hide ListsOk; hide IdleOk; hide Canonical; hide IsPower; hide ChunkOf;
    ChunkAligned(zp, s.zones[zp], s.zpages, p, start);
  }

  lemma PageBounds(zp: nat, n: nat, a: nat)
    requires zp * PAGE <= a < (zp + n) * PAGE
    ensures zp <= a / PAGE < zp + n
  {
  }

  /** The bytes `p..end` belong to live block `p`. */
  ghost predicate Extent(s: Heap, p: nat, end: nat) {
    LargeExtent(s, p, end) || exists zp :: ChunkExtent(s, zp, p, end)
  }

  ghost predicate LargeExtent(s: Heap, p: nat, end: nat) {
    LiveLarge(s, p) && end == p + s.usage[p / PAGE].count * PAGE
  }

  ghost predicate ChunkExtent(s: Heap, zp: nat, p: nat, end: nat) {
    LiveIn(s, zp, p) && end == p + s.zones[zp].chunk
  }

  ghost predicate Live(s: Heap, p: nat) { exists end :: Extent(s, p, end) }

  /** The page of an address is a page of the heap that is not free. */
  ghost predicate PageTaken(s: Heap, a: nat) {
    a / PAGE < |s.usage| && !IsFree(s.runs, a / PAGE)
  }

  lemma ChunkPages(s: Heap, zp: nat, p: nat, end: nat, a: nat)
    requires Valid(s) && ChunkExtent(s, zp, p, end) && p <= a < end
    ensures PageTaken(s, a) && zp <= a / PAGE && s.usage[a / PAGE] == SmallPage(a / PAGE - zp)
  {
    hide ListsOk; hide IdleOk; hide Canonical; hide ChunkOf; hide ChunkAt; hide Carved; hide IsFree; hide LargeOk;
    ChunkInZone(zp, s.zones[zp], s.zpages, p);
    PageBounds(zp, s.zpages, a);
    assert ZonePage(Owners(s), s.zpages, zp, a / PAGE);
  }

  /** An address in a large block: either in its first page, or in one that says nothing. */
  ghost predicate InLarge(s: Heap, p: nat, a: nat) {
    && a / PAGE < |s.usage| && p / PAGE <= a / PAGE && LiveLarge(s, p) && !s.usage[a / PAGE].SmallPage?
    && (a / PAGE == p / PAGE || Blank(s.usage[a / PAGE]))
  }

  lemma LargePages(s: Heap, p: nat, end: nat, a: nat)
    requires Valid(s) && LargeExtent(s, p, end) && p <= a < end
    ensures PageTaken(s, a) && InLarge(s, p, a)
  {
    assert LargeOk(s.usage, s.runs, p / PAGE);
  }

  /** Two live blocks that share address `a` are the same: live blocks do not overlap, and their pages
      are not free. */
  lemma LiveDisjoint(s: Heap, p: nat, end: nat, q: nat, end': nat, a: nat)
    requires Valid(s) && Extent(s, p, end) && Extent(s, q, end') && p <= a < end && q <= a < end'
    ensures p == q && PageTaken(s, a)
  {
    hide Valid; hide ChunkExtent;
    if LargeExtent(s, p, end) {
      LargePages(s, p, end, a);
      if LargeExtent(s, q, end') {
        if p <= q { LargePages(s, p, end, q); } else { LargePages(s, q, end', p); }
        SamePage(p, q);
      } else {
        var yp :| ChunkExtent(s, yp, q, end');
        ChunkPages(s, yp, q, end', a);
      }
    } else {
      var zp :| ChunkExtent(s, zp, p, end);
      ChunkPages(s, zp, p, end, a);
      if LargeExtent(s, q, end') {
        LargePages(s, q, end', a);
      } else {
        var yp :| ChunkExtent(s, yp, q, end');
        ChunkPages(s, yp, q, end', a);
        SameChunk(s, zp, p, end, q, end', a);
      }
    }
  }

  lemma SamePage(p: nat, q: nat)
    ensures p % PAGE == 0 && q % PAGE == 0 && p / PAGE == q / PAGE ==> p == q
  {
  }

  lemma SameChunk(s: Heap, zp: nat, p: nat, end: nat, q: nat, end': nat, a: nat)
    requires Valid(s) && ChunkExtent(s, zp, p, end) && ChunkExtent(s, zp, q, end')
    requires p <= a < end && q <= a < end'
    ensures p == q
  {
    if p != q { CarvedApart(s.zones[zp], p, q); }
  }

  // ----- operations -----

  function MarkZone(usage: seq<Usage>, zp: nat, zpages: nat): seq<Usage> {
    seq(|usage|, p requires 0 <= p < |usage| => if zp <= p < zp + zpages then SmallPage(p - zp) else usage[p])
  }

  function ClearZone(usage: seq<Usage>, zp: nat, zpages: nat): seq<Usage> {
    seq(|usage|, p requires 0 <= p < |usage| => if zp <= p < zp + zpages then FreePage else usage[p])
  }

  /** RT_ALIGN to a page on a 32-bit size, in pages. */
  function PagesFor(size: nat): nat { (size + PAGE - 1) % WRAP / PAGE }

  function MallocLarge(s: Heap, n: nat): (Heap, Option<nat>) {
    var (runs, r) := AllocPages(s.runs, n);
    if r.None? || r.value >= |s.usage| then (s, None)
    else (s.(runs := runs, usage := s.usage[r.value := LargePage(n)]), Some(r.value * PAGE))
  }

  /** Hand out a chunk of the first zone of a list. */
  function FromList(s: Heap, index: nat): (Heap, Option<nat>)
    requires index < |s.lists| && s.lists[index] != [] && s.lists[index][0] in s.zones
  {
    var zp := s.lists[index][0];
    var (z, c) := TakeChunk(s.zones[zp]);
    (s.(zones := s.zones[zp := z], lists := if z.nfree == 0 then s.lists[index := s.lists[index][1..]] else s.lists), Some(c))
  }

  function NewZone(s: Heap, zp: nat, index: nat): (Heap, Option<nat>)
    requires index < |s.lists| && 8 <= ChunkOf(index) <= 16384
  {
    var z := FreshZone(zp, index, ChunkOf(index), s.zpages);
    (s.(zones := s.zones[zp := z], lists := s.lists[index := [zp] + s.lists[index]]), Some(z.base))
  }

  function FromIdle(s: Heap, index: nat): (Heap, Option<nat>)
    requires index < |s.lists| && 8 <= ChunkOf(index) <= 16384 && s.idle != []
  {
    NewZone(s.(idle := s.idle[1..]), s.idle[0], index)
  }

  function FromPages(s: Heap, index: nat): (Heap, Option<nat>)
    requires index < |s.lists| && 8 <= ChunkOf(index) <= 16384
  {
    var (runs, r) := AllocPages(s.runs, s.zpages);
    if r.None? then (s, None)
    else NewZone(s.(runs := runs, usage := MarkZone(s.usage, r.value, s.zpages)), r.value, index)
  }

  function MallocSmall(s: Heap, index: nat): (Heap, Option<nat>)
    requires index < |s.lists| && 8 <= ChunkOf(index) <= 16384
    requires s.lists[index] != [] ==> s.lists[index][0] in s.zones
  {
    if s.lists[index] != [] then FromList(s, index)
    else if s.idle != [] then FromIdle(s, index)
    else FromPages(s, index)
  }

  function Malloc(s: Heap, size: nat): (Heap, Option<nat>)
    requires Valid(s)
  {
    if size == 0 then (s, None)
    else if size >= Limit(s.zpages) then MallocLarge(s, PagesFor(size))
    else
      ZoneIndexIs(size);
      MallocSmall(s, ZoneIndex(size).0)
  }

  /** A zone without live chunks joins the idle zones, or gives its pages back when there are enough
      of those. */
  function Retire(s: Heap, zp: nat): Heap {
    if |s.idle| < KEEP then s.(idle := [zp] + s.idle)
    else s.(usage := ClearZone(s.usage, zp, s.zpages), runs := FreePages(s.runs, zp, s.zpages))
  }

  function Listed(lists: seq<seq<nat>>, zp: nat, z: Zone): seq<seq<nat>>
    requires z.index < |lists|
  {
    if z.nfree == 0 then lists[z.index := [zp] + lists[z.index]] else lists
  }

  function FreeChunk(s: Heap, zp: nat, p: nat): Heap
    requires zp in s.zones && s.zones[zp].index < |s.lists|
  {
    var z := s.zones[zp];
    var z', lists := PutChunk(z, p), Listed(s.lists, zp, z);
    if z'.nfree == z'.nmax && lists[z.index] != [zp] then
      Retire(s.(zones := s.zones - {zp}, lists := lists[z.index := Without(lists[z.index], zp)]), zp)
    else s.(zones := s.zones[zp := z'], lists := lists)
  }

  function Free(s: Heap, p: nat): Heap
    requires Valid(s) && Live(s, p)
  {
    LivePage(s, p);
    match s.usage[p / PAGE]
    case LargePage(n) => s.(usage := s.usage[p / PAGE := LargePage(0)], runs := FreePages(s.runs, p / PAGE, n))
    case SmallPage(offset) => FreeChunk(s, p / PAGE - offset, p)
    case FreePage => s
  }

  /** What `rt_free` and `rt_realloc` find in `memusage`. */
  lemma LivePage(s: Heap, p: nat)
    requires Valid(s) && Live(s, p)
    ensures p / PAGE < |s.usage|
    ensures match s.usage[p / PAGE]
            case LargePage(n) => LiveLarge(s, p)
            case SmallPage(offset) => offset <= p / PAGE && LiveIn(s, p / PAGE - offset, p)
                                      && s.zones[p / PAGE - offset].index < |s.lists|
            case FreePage => false
  {
    hide ZonesOk; hide UsageOk;
    var end :| Extent(s, p, end);
    if !LargeExtent(s, p, end) {
      var zp :| ChunkExtent(s, zp, p, end);
      ChunkPage(s, zp, p);
    }
  }

  // ----- addresses belong to one zone -----

  lemma AddressZone(s: Heap, owners: set<nat>, zp: nat, a: nat)
    requires UsageOk(s.usage, s.runs, owners, s.zpages) && ZonesOk(s.zones, s.zpages)
    requires s.zones.Keys <= owners && zp in owners && zp * PAGE <= a < (zp + s.zpages) * PAGE
    ensures !LiveLarge(s, a) && forall yp :: LiveIn(s, yp, a) ==> yp == zp
  {
    hide IsFree; hide LargeOk; hide ZoneOk; hide Carved;
    PageBounds(zp, s.zpages, a);
    assert ZonePage(owners, s.zpages, zp, a / PAGE);
    forall yp | LiveIn(s, yp, a) ensures yp == zp {
      ChunkInZone(yp, s.zones[yp], s.zpages, a);
      PageBounds(yp, s.zpages, a);
      assert ZonePage(owners, s.zpages, yp, a / PAGE);
    }
  }

  /** The live blocks of `s'` are those of `s` and the new one at `p..end`. */
  ghost predicate Adds(s: Heap, s': Heap, p: nat, end: nat) {
    !Live(s, p) && forall q, e :: Extent(s', q, e) <==> Extent(s, q, e) || (q == p && e == end)
  }

  ghost predicate SameBlocks(s: Heap, s': Heap) {
    forall q, e :: Extent(s', q, e) <==> Extent(s, q, e)
  }

  ghost predicate SameLarge(s: Heap, s': Heap) {
    forall q, e :: LargeExtent(s', q, e) <==> LargeExtent(s, q, e)
  }

  /** Only zone `zp` changes, and there only chunk `c` comes to life. */
  lemma ZoneAdds(s: Heap, s': Heap, zp: nat, c: nat, end: nat)
    requires SameLarge(s, s') && !LiveLarge(s, c) && (forall yp :: LiveIn(s, yp, c) ==> yp == zp) && !LiveIn(s, zp, c)
    requires forall yp, q, e :: ChunkExtent(s', yp, q, e) <==> ChunkExtent(s, yp, q, e) || (yp == zp && q == c && e == end)
    ensures Adds(s, s', c, end)
  {
    forall e: nat ensures !Extent(s, c, e) { }
    hide ChunkExtent; hide LargeExtent;
    forall q: nat, e: nat ensures Extent(s', q, e) <==> Extent(s, q, e) || (q == c && e == end) {
      if yp :| ChunkExtent(s, yp, q, e) { assert ChunkExtent(s', yp, q, e); }
      if yp :| ChunkExtent(s', yp, q, e) { assert ChunkExtent(s, yp, q, e) || (yp == zp && q == c && e == end); }
      assert ChunkExtent(s', zp, c, end);
    }
  }

  lemma FromListKeeps(s: Heap, index: nat)
    requires Valid(s) && index < NZONES && s.lists[index] != []
    ensures s.lists[index][0] in s.zones
    ensures var (s', r) := FromList(s, index);
            && Valid(s') && s'.zpages == s.zpages && Adds(s, s', r.value, r.value + ChunkOf(index))
  {
    var zp := s.lists[index][0];
    assert zp in s.lists[index];
    TakeFromZone(s, index, zp);
    TakeFromLists(s, index, zp);
    assert Owners(FromList(s, index).0) == Owners(s);
  }

  lemma TakeFromLists(s: Heap, index: nat, zp: nat)
    requires ListsOk(s.lists, s.zones) && index < NZONES && s.lists[index] != [] && zp == s.lists[index][0] && zp in s.zones
    requires TakeChunk(s.zones[zp]).0.nfree >= 0
    ensures var s' := FromList(s, index).0; ListsOk(s'.lists, s'.zones)
  {
    hide ChunkAt;
    var (l, z) := (s.lists[index], TakeChunk(s.zones[zp]).0);
    assert z.index == s.zones[zp].index && z.nfree == s.zones[zp].nfree - 1;
    assert zp in l;
    assert l == [zp] + l[1..];
    assert NoDuplicates(l[1..]) && zp !in l[1..];
  }

  lemma TakeFromZone(s: Heap, index: nat, zp: nat)
    requires Valid(s) && index < NZONES && s.lists[index] != [] && zp == s.lists[index][0] && zp in s.zones
    requires zp in s.lists[index]
    ensures var (s', r) := FromList(s, index);
            && ZonesOk(s'.zones, s.zpages) && Adds(s, s', r.value, r.value + ChunkOf(index))
            && TakeChunk(s.zones[zp]).0.nfree >= 0
  {
    hide UsageOk; hide NoDuplicates; hide Canonical; hide ChunkOf; hide TakeChunk; hide ChunkAt; hide IdleOk;
    var z := s.zones[zp];
    var (z', c) := TakeChunk(z);
    TakeChunkKeeps(zp, z, s.zpages);
    TakeChunkFields(z);
    ChunkInZone(zp, z', s.zpages, c);
    AddressZone(s, Owners(s), zp, c);
    SameLargeUsage(s, FromList(s, index).0);
    ZoneAdds(s, FromList(s, index).0, zp, c, c + ChunkOf(index));
  }

  lemma TakeChunkFields(z: Zone)
    ensures var z' := TakeChunk(z).0; z'.index == z.index && z'.chunk == z.chunk && z'.nfree == z.nfree - 1
  {
  }

  /** All of `Valid`, but for a zone at `zp` that is neither in use nor idle. */
  ghost predicate ValidWith(s: Heap, zp: nat) {
    && s.zpages in {8, 16, 32} && Canonical(s.runs)
    && zp !in Owners(s) && UsageOk(s.usage, s.runs, Owners(s) + {zp}, s.zpages)
    && ZonesOk(s.zones, s.zpages) && ListsOk(s.lists, s.zones) && IdleOk(s.idle, s.zones)
  }

  lemma NewZoneKeeps(s: Heap, zp: nat, index: nat)
    requires ValidWith(s, zp) && index < |s.lists| == NZONES && 8 <= ChunkOf(index) <= Limit(s.zpages)
    ensures var (s', r) := NewZone(s, zp, index);
            && r.Some? && Valid(s') && s'.zpages == s.zpages && Adds(s, s', r.value, r.value + ChunkOf(index))
  {
    hide UsageOk; hide ZoneOk; hide Canonical; hide FreshZone; hide ChunkOf; hide ListsOk;
    var (s', r) := NewZone(s, zp, index);
    FreshZoneKeeps(zp, index, s.zpages);
    FreshFields(zp, index, ChunkOf(index), s.zpages);
    assert LiveChunk(s'.zones[zp], r.value);
    ChunkInZone(zp, s'.zones[zp], s.zpages, r.value);
    AddressZone(s, Owners(s) + {zp}, zp, r.value);
    SameLargeUsage(s, s');
    ZoneAdds(s, s', zp, r.value, r.value + ChunkOf(index));
    NewOnList(s, zp, s'.zones[zp]);
    assert Owners(s') == Owners(s) + {zp};
  }

  lemma FreshFields(at: nat, index: nat, chunk: nat, zpages: nat)
    requires 8 <= chunk <= 16384
    ensures var z := FreshZone(at, index, chunk, zpages); z.index == index && z.chunk == chunk
  {
  }

  /** A zone new to its list. */
  lemma NewOnList(s: Heap, zp: nat, z: Zone)
    requires ListsOk(s.lists, s.zones) && zp !in s.zones && z.index < NZONES && z.nfree > 0
    ensures ListsOk(s.lists[z.index := [zp] + s.lists[z.index]], s.zones[zp := z])
  {
  }

  lemma PopIdle(s: Heap)
    requires Valid(s) && s.idle != []
    ensures var s1 := s.(idle := s.idle[1..]); ValidWith(s1, s.idle[0]) && SameBlocks(s, s1)
  {
    hide UsageOk; hide ZonesOk; hide ListsOk; hide Canonical; hide LiveIn;
    var s1 := s.(idle := s.idle[1..]);
    assert s.idle == [s.idle[0]] + s1.idle;
    assert NoDuplicates(s1.idle) && s.idle[0] !in s1.idle && s.idle[0] in s.idle;
    assert Owners(s) == Owners(s1) + {s.idle[0]};
    SameLive(s, s1);
  }

  lemma SameLive(s: Heap, s': Heap)
    requires s'.zones == s.zones && SameLarge(s, s')
    ensures SameBlocks(s, s')
  {
    hide LargeExtent;
    forall q: nat, e: nat ensures Extent(s', q, e) <==> Extent(s, q, e) {
      if zp :| ChunkExtent(s, zp, q, e) { assert ChunkExtent(s', zp, q, e); }
      if zp :| ChunkExtent(s', zp, q, e) { assert ChunkExtent(s, zp, q, e); }
    }
  }

  /** Pages for a new zone. */
  lemma TakePages(s: Heap)
    requires Valid(s) && AllocPages(s.runs, s.zpages).1.Some?
    ensures var (runs, r) := AllocPages(s.runs, s.zpages);
            var s1 := s.(runs := runs, usage := MarkZone(s.usage, r.value, s.zpages));
            ValidWith(s1, r.value) && SameBlocks(s, s1)
  {
    hide ZonesOk; hide ListsOk; hide IsFree; hide LiveLarge; hide AllocRun; hide MarkZone;
    var (runs, r) := AllocPages(s.runs, s.zpages);
    var s1 := s.(runs := runs, usage := MarkZone(s.usage, r.value, s.zpages));
    AllocKeeps(s.runs, s.zpages);
    MarkUsage(s.usage, s.runs, runs, Owners(s), r.value, s.zpages);
    MarkLarge(s, s1, r.value);
    SameLive(s, s1);
    ZoneHead(s, r.value);
  }

  /** The first page of a zone is not free. */
  lemma ZoneHead(s: Heap, zp: nat)
    requires UsageOk(s.usage, s.runs, Owners(s), s.zpages) && IsFree(s.runs, zp) && s.zpages > 0
    ensures zp !in Owners(s)
  {
    if zp in Owners(s) { assert ZonePage(Owners(s), s.zpages, zp, zp); }
  }

  lemma MarkUsage(usage: seq<Usage>, runs: seq<Run>, runs': seq<Run>, owners: set<nat>, at: nat, n: nat)
    requires UsageOk(usage, runs, owners, n) && n > 0
    requires forall p :: if InRange(at, n, p) then IsFree(runs, p) && !IsFree(runs', p) else IsFree(runs', p) <==> IsFree(runs, p)
    ensures UsageOk(MarkZone(usage, at, n), runs', owners + {at}, n)
  {
    hide IsFree;
    var usage' := MarkZone(usage, at, n);
    forall zp: nat, p: nat | ZonePage(owners + {at}, n, zp, p) ensures p < |usage'| && usage'[p] == SmallPage(p - zp) {
      if zp != at || zp in owners { assert ZonePage(owners, n, zp, p); }
      assert InRange(at, n, p) <==> at <= p < at + n;
    }
    forall p: nat | p < |usage'| && usage'[p].SmallPage?
      ensures usage'[p].offset <= p && ZonePage(owners + {at}, n, p - usage'[p].offset, p)
    {
      if !(at <= p < at + n) { assert ZonePage(owners, n, p - usage[p].offset, p); }
    }
    forall p: nat | IsFree(runs', p) ensures p < |usage'| && Blank(usage'[p]) {
      assert !InRange(at, n, p);
    }
    forall p: nat | p < |usage'| && usage'[p].LargePage? && usage'[p].count > 0 ensures LargeOk(usage', runs', p) {
      assert LargeOk(usage, runs, p);
      forall q | p <= q < p + usage[p].count ensures !InRange(at, n, q) { }
    }
  }

  lemma MarkLarge(s: Heap, s1: Heap, at: nat)
    requires UsageOk(s.usage, s.runs, Owners(s), s.zpages)
    requires s1.usage == MarkZone(s.usage, at, s.zpages) && forall p :: InRange(at, s.zpages, p) ==> IsFree(s.runs, p)
    ensures SameLarge(s, s1)
  {
    hide IsFree;
    forall q: nat, e: nat ensures LargeExtent(s1, q, e) <==> LargeExtent(s, q, e) {
      if InRange(at, s.zpages, q / PAGE) { assert IsFree(s.runs, q / PAGE); }
    }
  }

  // ----- rt_malloc -----

  lemma LargeUsage(usage: seq<Usage>, runs: seq<Run>, runs': seq<Run>, owners: set<nat>, zpages: nat, at: nat, n: nat)
    requires UsageOk(usage, runs, owners, zpages) && n > 0 && at < |usage|
    requires forall p :: if InRange(at, n, p) then IsFree(runs, p) && !IsFree(runs', p) else IsFree(runs', p) <==> IsFree(runs, p)
    ensures UsageOk(usage[at := LargePage(n)], runs', owners, zpages)
  {
    hide IsFree;
    var usage' := usage[at := LargePage(n)];
    assert InRange(at, n, at) && InRange(at, n, at + n - 1);
    forall zp: nat, p: nat | ZonePage(owners, zpages, zp, p) ensures p < |usage'| && usage'[p] == SmallPage(p - zp) {
      assert InRange(at, n, p) ==> IsFree(runs, p);
    }
    forall p: nat | IsFree(runs', p) ensures p < |usage'| && Blank(usage'[p]) {
      assert !InRange(at, n, p);
    }
    forall p: nat | p < |usage'| && usage'[p].LargePage? && usage'[p].count > 0 ensures LargeOk(usage', runs', p) {
      if p == at {
        forall q: nat | at < q < at + n ensures Blank(usage'[q]) && !IsFree(runs', q) { assert InRange(at, n, q); }
      } else {
        assert LargeOk(usage, runs, p);
        forall q: nat | p <= q < p + usage[p].count ensures !InRange(at, n, q) { }
      }
    }
  }

  lemma MallocLargeKeeps(s: Heap, n: nat)
    requires Valid(s)
    ensures var (s', r) := MallocLarge(s, n);
            && Valid(s') && s'.zpages == s.zpages
            && (r.None? <==> n == 0 || forall i :: 0 <= i < |s.runs| ==> s.runs[i].count < n)
            && match r
               case None => s' == s
               case Some(p) => Adds(s, s', p, p + n * PAGE)
  {
    hide IsFree; hide AllocRun; hide ZonesOk; hide ListsOk; hide LargeOk;
    if n > 0 {
      AllocKeeps(s.runs, n);
      var (runs, r) := AllocPages(s.runs, n);
      if r.Some? {
        assert InRange(r.value, n, r.value);
        LargeUsage(s.usage, s.runs, runs, Owners(s), s.zpages, r.value, n);
        LargeLive(s, MallocLarge(s, n).0, r.value, n);
      }
    }
  }

  /** A large block comes to life at page `at`. */
  lemma LargeLive(s: Heap, s': Heap, at: nat, n: nat)
    requires Valid(s) && at < |s.usage| && IsFree(s.runs, at) && n > 0
    requires s'.zones == s.zones && s'.usage == s.usage[at := LargePage(n)]
    ensures Adds(s, s', at * PAGE, at * PAGE + n * PAGE)
  {
    hide IsFree; hide ZonesOk; hide ListsOk; hide LargeOk; hide LiveChunk;
    var p := at * PAGE;
    assert p / PAGE == at && p % PAGE == 0;
    forall zp | LiveIn(s, zp, p) ensures false { ChunkPage(s, zp, p); }
    forall e: nat ensures !Extent(s, p, e) { }
    forall q: nat, e: nat ensures Extent(s', q, e) <==> Extent(s, q, e) || (q == p && e == p + n * PAGE) {
      SamePage(p, q);
      if zp :| ChunkExtent(s, zp, q, e) { assert ChunkExtent(s', zp, q, e); }
      if zp :| ChunkExtent(s', zp, q, e) { assert ChunkExtent(s, zp, q, e); }
    }
  }

  lemma ChunkWithinLimit(zpages: nat, size: nat)
    requires zpages in {8, 16, 32} && 0 < size < Limit(zpages)
    ensures 8 <= ChunkOf(ZoneIndex(size).0) <= Limit(zpages) <= 16384 && ZoneIndex(size).0 < NZONES
    ensures size <= ChunkOf(ZoneIndex(size).0)
  {
    hide ZoneIndex;
    ZoneIndexIs(size);
    assert ChunkOf(63) == 8192 && ChunkOf(71) == 16384;
  }

  ghost predicate NoRun(runs: seq<Run>, n: nat) { forall i :: 0 <= i < |runs| ==> runs[i].count < n }

  /** When `rt_malloc` fails: on size zero, on a large size that wraps to no page or for which no run of
      pages is long enough, and on a small one when its class has no free chunk, no zone is idle and no
      run holds a zone. */
  ghost predicate Refuses(s: Heap, size: nat) {
    if size == 0 then true
    else if size >= Limit(s.zpages) then PagesFor(size) == 0 || NoRun(s.runs, PagesFor(size))
    else
      && s.idle == [] && NoRun(s.runs, s.zpages)
      && forall zp :: zp in s.zones && s.zones[zp].index == ZoneIndex(size).0 ==> s.zones[zp].nfree <= 0
  }

  /** A class list is empty exactly when no zone of the class has a free chunk. */
  lemma ListEmptyIff(s: Heap, index: nat)
    requires Valid(s) && index < NZONES
    ensures |s.lists| == NZONES
    ensures s.lists[index] == [] <==> forall zp :: zp in s.zones && s.zones[zp].index == index ==> s.zones[zp].nfree <= 0
  {
    hide UsageOk; hide Canonical; hide IdleOk; hide ZoneOk; hide NoDuplicates;
    var list := s.lists[index];
    if list != [] {
      var zp := list[0];
      assert zp in s.lists[index];
      assert zp in s.zones && s.zones[zp].index == index && s.zones[zp].nfree > 0;
    } else {
      forall zp | zp in s.zones && s.zones[zp].index == index ensures s.zones[zp].nfree <= 0 {
        assert zp !in s.lists[index];
      }
    }
  }

  /** The contract of `rt_malloc`: NULL leaves the heap untouched; otherwise the caller gets a block of
      at least `size` bytes that was not live, and every other live block stays what it was. */
  lemma MallocKeeps(s: Heap, size: nat)
    requires Valid(s) && size < WRAP
    ensures var (s', r) := Malloc(s, size);
            && Valid(s') && s'.zpages == s.zpages && (r.None? <==> Refuses(s, size))
            && match r
               case None => s' == s
               case Some(p) => exists end :: p + size <= end && Adds(s, s', p, end)
  {
    hide Valid; hide ValidWith; hide Adds; hide FromList; hide NewZone; hide MallocLarge; hide AllocPages; hide ZoneIndex;
    hide ChunkOf;
    var (s', r) := Malloc(s, size);
    ZPages(s);
    if size >= Limit(s.zpages) {
      MallocLargeKeeps(s, PagesFor(size));
      PagesCover(size);
    } else if size > 0 {
      ChunkWithinLimit(s.zpages, size);
      ListEmptyIff(s, ZoneIndex(size).0);
      MallocSmallKeeps(s, ZoneIndex(size).0);
    }
  }

  lemma ZPages(s: Heap)
    requires Valid(s)
    ensures s.zpages in {8, 16, 32} && |s.lists| == NZONES
  {
  }

  lemma PagesCover(size: nat)
    requires size < WRAP
    ensures PagesFor(size) == 0 || size <= PagesFor(size) * PAGE
  {
  }

  lemma MallocSmallKeeps(s: Heap, index: nat)
    requires Valid(s) && index < NZONES && |s.lists| == NZONES && 8 <= ChunkOf(index) <= Limit(s.zpages) <= 16384
    ensures s.lists[index] != [] ==> s.lists[index][0] in s.zones
    ensures var (s', r) := MallocSmall(s, index);
            && Valid(s') && s'.zpages == s.zpages
            && (r.None? <==> s.lists[index] == [] && s.idle == [] && forall i :: 0 <= i < |s.runs| ==> s.runs[i].count < s.zpages)
            && match r
               case None => s' == s
               case Some(p) => Adds(s, s', p, p + ChunkOf(index))
  {
    hide Valid; hide Live; hide FromList; hide NewZone; hide ChunkOf; hide Extent; hide Adds; hide SameBlocks;
    hide FromPages; hide FromIdle; hide Limit;
    RunsCanonical(s);
    if s.lists[index] != [] {
      FromListKeeps(s, index);
      FromListSome(s, index);
    } else if s.idle != [] {
      FromIdleKeeps(s, index);
    } else {
      FromPagesKeeps(s, index);
    }
  }

  lemma FromIdleKeeps(s: Heap, index: nat)
    requires Valid(s) && index < NZONES == |s.lists| && 8 <= ChunkOf(index) <= Limit(s.zpages) <= 16384 && s.idle != []
    ensures var (s', r) := FromIdle(s, index);
            && Valid(s') && s'.zpages == s.zpages && r.Some? && Adds(s, s', r.value, r.value + ChunkOf(index))
  {
    hide Valid; hide ValidWith; hide Live; hide NewZone; hide ChunkOf; hide Extent; hide Adds; hide SameBlocks; hide Limit;
    var s1 := s.(idle := s.idle[1..]);
    PopIdle(s);
    NewZoneKeeps(s1, s.idle[0], index);
    var p := NewZone(s1, s.idle[0], index).1.value;
    SameThenAdds(s, s1, NewZone(s1, s.idle[0], index).0, p, p + ChunkOf(index));
  }

  lemma FromPagesKeeps(s: Heap, index: nat)
    requires Valid(s) && index < NZONES == |s.lists| && 8 <= ChunkOf(index) <= Limit(s.zpages) <= 16384
    requires Canonical(s.runs) && s.zpages > 0
    ensures var (s', r) := FromPages(s, index);
            && Valid(s') && s'.zpages == s.zpages
            && (r.None? <==> forall i :: 0 <= i < |s.runs| ==> s.runs[i].count < s.zpages)
            && match r
               case None => s' == s
               case Some(p) => Adds(s, s', p, p + ChunkOf(index))
  {
    hide Valid; hide ValidWith; hide Live; hide NewZone; hide ChunkOf; hide Extent; hide Adds; hide SameBlocks; hide MarkZone; hide Limit;
    hide AllocRun;
    AllocKeeps(s.runs, s.zpages);
    var (runs, r) := AllocPages(s.runs, s.zpages);
    if r.Some? {
      TakePages(s);
      var s1 := s.(runs := runs, usage := MarkZone(s.usage, r.value, s.zpages));
      NewZoneKeeps(s1, r.value, index);
      var p := NewZone(s1, r.value, index).1.value;
      SameThenAdds(s, s1, NewZone(s1, r.value, index).0, p, p + ChunkOf(index));
    }
  }

  lemma SameThenAdds(s: Heap, s1: Heap, s': Heap, p: nat, end: nat)
    requires Adds(s1, s', p, end) && SameBlocks(s, s1)
    ensures Adds(s, s', p, end)
  {
    hide Extent;
  }

  lemma RunsCanonical(s: Heap)
    requires Valid(s)
    ensures Canonical(s.runs) && s.zpages > 0
  {
  }

  lemma FromListSome(s: Heap, index: nat)
    requires index < |s.lists| && s.lists[index] != [] && s.lists[index][0] in s.zones
    ensures FromList(s, index).1.Some?
  {
  }

  // ----- rt_free -----

  /** The live blocks of `s'` are those of `s` but for the one at `p`. */
  ghost predicate Drops(s: Heap, s': Heap, p: nat) {
    forall q, e :: Extent(s', q, e) <==> Extent(s, q, e) && q != p
  }

  /** Only zone `zp` changes, and there only chunk `c` dies. */
  lemma ZoneDrops(s: Heap, s': Heap, zp: nat, c: nat)
    requires SameLarge(s, s') && !LiveLarge(s, c) && (forall yp :: LiveIn(s, yp, c) ==> yp == zp)
    requires forall yp, q, e :: ChunkExtent(s', yp, q, e) <==> ChunkExtent(s, yp, q, e) && !(yp == zp && q == c)
    ensures Drops(s, s', c)
  {
    hide LiveLarge; hide LiveIn;
    forall q: nat, e: nat ensures Extent(s', q, e) <==> Extent(s, q, e) && q != c {
      if yp :| ChunkExtent(s, yp, q, e) && q != c { assert ChunkExtent(s', yp, q, e); }
      if yp :| ChunkExtent(s', yp, q, e) { assert ChunkExtent(s, yp, q, e); }
    }
  }

  lemma LargeFreeUsage(usage: seq<Usage>, runs: seq<Run>, runs': seq<Run>, owners: set<nat>, zpages: nat, at: nat)
    requires UsageOk(usage, runs, owners, zpages) && at < |usage| && usage[at].LargePage? && usage[at].count > 0
    requires forall p :: IsFree(runs', p) <==> IsFree(runs, p) || InRange(at, usage[at].count, p)
    ensures UsageOk(usage[at := LargePage(0)], runs', owners, zpages)
  {
    hide IsFree;
    var usage', n := usage[at := LargePage(0)], usage[at].count;
    assert LargeOk(usage, runs, at);
    forall p: nat | IsFree(runs', p) ensures p < |usage'| && Blank(usage'[p]) { }
    forall p: nat | p < |usage'| && usage'[p].LargePage? && usage'[p].count > 0 ensures LargeOk(usage', runs', p) {
      assert LargeOk(usage, runs, p);
      assert !InRange(at, n, p);
    }
  }

  /** A live large block's pages are not free. */
  lemma LargeTaken(s: Heap, p: nat)
    requires Valid(s) && LiveLarge(s, p)
    ensures s.usage[p / PAGE].count > 0 && Taken(s.runs, p / PAGE, s.usage[p / PAGE].count)
  {
    assert LargeOk(s.usage, s.runs, p / PAGE);
  }

  lemma FreeLargeKeeps(s: Heap, p: nat)
    requires Valid(s) && LiveLarge(s, p)
    ensures var at := p / PAGE;
            var s' := s.(usage := s.usage[at := LargePage(0)], runs := FreePages(s.runs, at, s.usage[at].count));
            Valid(s') && Drops(s, s', p)
  {
    hide IsFree; hide ZonesOk; hide ListsOk; hide LiveChunk; hide FreePages; hide UsageOk; hide Canonical; hide Drops;
    var at := p / PAGE;
    var s' := s.(usage := s.usage[at := LargePage(0)], runs := FreePages(s.runs, at, s.usage[at].count));
    LargeTaken(s, p);
    FreeKeeps(s.runs, at, s.usage[at].count);
    LargeFreeUsage(s.usage, s.runs, s'.runs, Owners(s), s.zpages, at);
    LargeDrops(s, s', p);
  }

  lemma LargeDrops(s: Heap, s': Heap, p: nat)
    requires Valid(s) && LiveLarge(s, p) && s'.zones == s.zones && s'.usage == s.usage[p / PAGE := LargePage(0)]
    ensures Drops(s, s', p)
  {
    hide IsFree; hide ZonesOk; hide ListsOk; hide LiveChunk;
    forall zp | LiveIn(s, zp, p) ensures false { ChunkPage(s, zp, p); }
    forall q: nat, e: nat ensures Extent(s', q, e) <==> Extent(s, q, e) && q != p {
      SamePage(p, q);
      if zp :| ChunkExtent(s, zp, q, e) { assert ChunkExtent(s', zp, q, e); }
      if zp :| ChunkExtent(s', zp, q, e) { assert ChunkExtent(s, zp, q, e); }
    }
  }

  /** Returning a chunk to its zone. */
  lemma FreeChunkKeeps(s: Heap, zp: nat, p: nat)
    requires Valid(s) && LiveIn(s, zp, p) && s.zones[zp].index < |s.lists|
    ensures var s' := FreeChunk(s, zp, p); Valid(s') && s'.zpages == s.zpages && Drops(s, s', p)
  {
    hide UsageOk; hide ZonesOk; hide Retire; hide ZoneOk; hide Canonical; hide NoDuplicates; hide ListsOk; hide Live;
    var s1 := Returned(s, zp, p);
    ReturnedKeeps(s, zp, p);
    if s1.zones[zp].nfree == s1.zones[zp].nmax && s1.lists[s.zones[zp].index] != [zp] {
      var s2 := Removed(s1, zp);
      RemovedKeeps(s1, zp);
      assert s2 == s.(zones := s.zones - {zp}, lists := s2.lists);
      RetireKeeps(s2, zp);
    }
  }

  /** Where a small block comes from: a zone of its class with a free chunk, before an idle zone, before new pages. */
  lemma SmallChoice(s: Heap, index: nat)
    requires Valid(s) && index < NZONES && |s.lists| == NZONES && 8 <= ChunkOf(index) <= 16384
    requires s.lists[index] != [] ==> s.lists[index][0] in s.zones
    ensures var s' := MallocSmall(s, index).0;
            if exists zp :: zp in s.zones && s.zones[zp].index == index && s.zones[zp].nfree > 0 then
              s'.zones.Keys == s.zones.Keys && s'.idle == s.idle && s'.runs == s.runs
            else if s.idle != [] then
              s'.zones.Keys == s.zones.Keys + {s.idle[0]} && s'.idle == s.idle[1..] && s'.runs == s.runs
            else s'.idle == s.idle && s'.runs == AllocPages(s.runs, s.zpages).0
  {
    hide Valid; hide TakeChunk; hide FreshZone; hide ChunkOf; hide AllocPages;
    ListEmptyIff(s, index);
    RunsCanonical(s);
    NoneUnchanged(s.runs, s.zpages);
  }

  /** When a zone is given up: exactly when its last live chunk is returned and another zone of its class has a free
      chunk.  It becomes idle while fewer than two are, and otherwise its pages become free. */
  lemma ReleaseChoice(s: Heap, zp: nat, p: nat)
    requires Valid(s) && LiveIn(s, zp, p) && s.zones[zp].index < |s.lists|
    ensures var (z, s') := (s.zones[zp], FreeChunk(s, zp, p));
            && (zp !in s'.zones <==>
                z.nfree + 1 == z.nmax && exists y :: y != zp && y in s.zones && s.zones[y].index == z.index && s.zones[y].nfree > 0)
            && (if zp in s'.zones then s'.idle == s.idle && s'.runs == s.runs && s'.zones.Keys == s.zones.Keys
                else
                  && s'.zones.Keys == s.zones.Keys - {zp}
                  && if |s.idle| < 2 then s'.idle == [zp] + s.idle && s'.runs == s.runs
                     else s'.idle == s.idle && forall page: nat :: zp <= page < zp + s.zpages ==> IsFree(s'.runs, page))
  {
    hide Valid; hide LiveChunk; hide IsFree; hide Retire; hide Returned; hide Removed; hide FreeChunk;
    var s1, index := Returned(s, zp, p), s.zones[zp].index;
    ReturnedKeeps(s, zp, p);
    ReturnedIs(s, zp, p);
    FreeCount(s, zp);
    OtherListed(s1, zp, index);
    if s1.zones[zp].nfree == s1.zones[zp].nmax && s1.lists[index] != [zp] {
      RemovedKeeps(s1, zp);
      RemovedIs(s1, zp);
      RetiredIs(Removed(s1, zp), zp);
    }
  }

  lemma ReturnedIs(s: Heap, zp: nat, p: nat)
    requires zp in s.zones && s.zones[zp].index < |s.lists|
    ensures var (z, s1) := (s.zones[zp], Returned(s, zp, p));
            && s1.zones.Keys == s.zones.Keys && s1.idle == s.idle && s1.runs == s.runs && |s1.lists| == |s.lists| && s1.zpages == s.zpages
            && s1.zones[zp].nfree == z.nfree + 1 && s1.zones[zp].nmax == z.nmax && s1.zones[zp].index == z.index
            && (forall y :: y in s.zones && y != zp ==> s1.zones[y] == s.zones[y])
            && FreeChunk(s, zp, p) ==
               if s1.zones[zp].nfree == z.nmax && s1.lists[z.index] != [zp] then Retire(Removed(s1, zp), zp) else s1
  {
    hide Retire;
    var s1 := Returned(s, zp, p);
    assert s1.zones - {zp} == s.zones - {zp};
  }

  lemma RemovedIs(s: Heap, zp: nat)
    requires zp in s.zones && s.zones[zp].index < |s.lists|
    ensures var s2 := Removed(s, zp);
            && s2.zones.Keys == s.zones.Keys - {zp} && s2.idle == s.idle && s2.runs == s.runs && s2.zpages == s.zpages
  {
  }

  lemma NoneUnchanged(runs: seq<Run>, n: nat)
    requires Canonical(runs)
    ensures AllocPages(runs, n).1.None? ==> AllocPages(runs, n).0 == runs
  {
    if n > 0 { AllocKeeps(runs, n); }
  }

  lemma FreeCount(s: Heap, zp: nat)
    requires Valid(s) && zp in s.zones
    ensures s.zones[zp].nfree >= 0
  {
    assert ZoneOk(zp, s.zones[zp], s.zpages);
  }

  /** The list of a class holds more than this zone exactly if another zone of the class has a free chunk. */
  lemma OtherListed(s: Heap, zp: nat, index: nat)
    requires Valid(s) && zp in s.zones && s.zones[zp].index == index && s.zones[zp].nfree > 0 && index < |s.lists|
    ensures s.lists[index] != [zp] <==> exists y :: y != zp && y in s.zones && s.zones[y].index == index && s.zones[y].nfree > 0
  {
    hide UsageOk; hide ZonesOk; hide ZoneOk; hide Canonical; hide IdleOk; hide Owners;
    var list := s.lists[index];
    assert zp in list && NoDuplicates(list);
    if list != [zp] {
      var k :| 0 <= k < |list| && list[k] == zp;
      OnlyMember(list, zp);
      var y := if k == 0 then list[1] else list[0];
      assert y in s.lists[index] && y != zp;
      assert y in s.zones && s.zones[y].index == index && s.zones[y].nfree > 0;
    }
    forall y | y != zp && y in s.zones && s.zones[y].index == index && s.zones[y].nfree > 0 ensures list != [zp] {
      assert y in s.lists[s.zones[y].index] && y !in [zp];
    }
  }

  lemma OnlyMember(list: seq<nat>, zp: nat)
    requires zp in list
    ensures |list| == 1 ==> list == [zp]
  {
  }

  lemma RetiredIs(s: Heap, zp: nat)
    requires ValidWith(s, zp)
    ensures var s' := Retire(s, zp);
            && s'.zones == s.zones
            && if |s.idle| < 2 then s'.idle == [zp] + s.idle && s'.runs == s.runs
               else s'.idle == s.idle && forall page: nat :: zp <= page < zp + s.zpages ==> IsFree(s'.runs, page)
  {
    hide ListsOk; hide ZonesOk; hide IsFree; hide FreePages; hide ZoneOk;
    forall p | InRange(zp, s.zpages, p) ensures !IsFree(s.runs, p) { assert ZonePage(Owners(s) + {zp}, s.zpages, zp, p); }
    FreeKeeps(s.runs, zp, s.zpages);
    forall page: nat | zp <= page < zp + s.zpages ensures IsFree(FreePages(s.runs, zp, s.zpages), page) {
      assert InRange(zp, s.zpages, page);
    }
  }

  /** The heap with the chunk on the free list of its zone, and the zone on the list of its class. */
  function Returned(s: Heap, zp: nat, p: nat): Heap
    requires zp in s.zones && s.zones[zp].index < |s.lists|
  {
    s.(zones := s.zones[zp := PutChunk(s.zones[zp], p)], lists := Listed(s.lists, zp, s.zones[zp]))
  }

  function Removed(s: Heap, zp: nat): Heap
    requires zp in s.zones && s.zones[zp].index < |s.lists|
  {
    var i := s.zones[zp].index;
    s.(zones := s.zones - {zp}, lists := s.lists[i := Without(s.lists[i], zp)])
  }

  lemma ReturnedKeeps(s: Heap, zp: nat, p: nat)
    requires Valid(s) && LiveIn(s, zp, p) && s.zones[zp].index < |s.lists|
    ensures var s1 := Returned(s, zp, p); Valid(s1) && zp in s1.zones && Drops(s, s1, p)
  {
    hide UsageOk; hide Canonical; hide NoDuplicates; hide ListsOk; hide ZoneOk; hide LiveChunk;
    var z, s1 := s.zones[zp], Returned(s, zp, p);
    PutChunkKeeps(zp, z, s.zpages, p);
    ReturnedLists(s, zp, p);
    OwnAddress(s, zp, p);
    assert Owners(s1) == Owners(s);
    SameLargeUsage(s, s1);
    ZoneDrops(s, s1, zp, p);
  }

  lemma OwnAddress(s: Heap, zp: nat, p: nat)
    requires Valid(s) && LiveIn(s, zp, p)
    ensures !LiveLarge(s, p) && forall yp :: LiveIn(s, yp, p) ==> yp == zp
  {
    hide ListsOk; hide IsFree; hide LargeOk;
    ChunkInZone(zp, s.zones[zp], s.zpages, p);
    AddressZone(s, Owners(s), zp, p);
  }

  lemma ReturnedLists(s: Heap, zp: nat, p: nat)
    requires ListsOk(s.lists, s.zones) && zp in s.zones && s.zones[zp].nfree >= 0 && s.zones[zp].index < |s.lists|
    ensures ListsOk(Returned(s, zp, p).lists, Returned(s, zp, p).zones)
  {
    var l := s.lists[s.zones[zp].index];
    assert zp !in l ==> NoDuplicates([zp] + l);
  }

  lemma RemovedKeeps(s: Heap, zp: nat)
    requires Valid(s) && zp in s.zones && s.zones[zp].index < |s.lists| && s.zones[zp].nfree == s.zones[zp].nmax
    ensures var s2 := Removed(s, zp); ValidWith(s2, zp) && SameBlocks(s, s2)
  {
    hide UsageOk; hide Canonical; hide ListsOk; hide LiveLarge; hide ZoneOk; hide LiveChunk;
    var s2, z := Removed(s, zp), s.zones[zp];
    RemovedLists(s, zp);
    assert Owners(s2) + {zp} == Owners(s);
    SameLargeUsage(s, s2);
    forall q: nat, e: nat ensures Extent(s2, q, e) <==> Extent(s, q, e) {
      FullIsEmpty(zp, z, s.zpages, q);
      if yp :| ChunkExtent(s, yp, q, e) { assert ChunkExtent(s2, yp, q, e); }
      if yp :| ChunkExtent(s2, yp, q, e) { assert ChunkExtent(s, yp, q, e); }
      assert LargeExtent(s2, q, e) <==> LargeExtent(s, q, e);
    }
  }

  lemma SameLargeUsage(s: Heap, s': Heap)
    requires s'.usage == s.usage
    ensures SameLarge(s, s')
  {
  }

  lemma RemovedLists(s: Heap, zp: nat)
    requires ListsOk(s.lists, s.zones) && zp in s.zones && s.zones[zp].index < |s.lists|
    ensures ListsOk(Removed(s, zp).lists, Removed(s, zp).zones)
  {
    hide NoDuplicates; hide Without;
    WithoutIs(s.lists[s.zones[zp].index], zp);
  }

  lemma RetireKeeps(s: Heap, zp: nat)
    requires ValidWith(s, zp)
    ensures var s' := Retire(s, zp); Valid(s') && s'.zpages == s.zpages && SameBlocks(s, s')
  {
    hide UsageOk; hide ListsOk; hide ZonesOk; hide LiveIn; hide IsFree; hide FreePages; hide Canonical; hide Owners;
    var s' := Retire(s, zp);
    if |s.idle| < KEEP {
      PushIdle(s, zp);
    } else {
      ReleaseUsage(s, zp);
    }
  }

  lemma PushIdle(s: Heap, zp: nat)
    requires IdleOk(s.idle, s.zones) && zp !in Owners(s) && |s.idle| < KEEP
    ensures var s' := s.(idle := [zp] + s.idle);
            && IdleOk(s'.idle, s'.zones) && Owners(s') == Owners(s) + {zp}
            && SameBlocks(s, s')
  {
    var s' := s.(idle := [zp] + s.idle);
    SameLargeUsage(s, s');
    SameLive(s, s');
  }

  /** Released pages are free again, and no live block had any of them. */
  lemma ReleaseUsage(s: Heap, zp: nat)
    requires ValidWith(s, zp)
    ensures var s' := s.(usage := ClearZone(s.usage, zp, s.zpages), runs := FreePages(s.runs, zp, s.zpages));
            && Canonical(s'.runs) && UsageOk(s'.usage, s'.runs, Owners(s'), s.zpages)
            && SameBlocks(s, s')
  {
    hide ListsOk; hide ZonesOk; hide IsFree; hide FreePages; hide LiveIn;
    var all := Owners(s) + {zp};
    forall p | InRange(zp, s.zpages, p) ensures !IsFree(s.runs, p) { assert ZonePage(all, s.zpages, zp, p); }
    FreeKeeps(s.runs, zp, s.zpages);
    ClearUsage(s.usage, s.runs, FreePages(s.runs, zp, s.zpages), Owners(s), zp, s.zpages);
    var s' := s.(usage := ClearZone(s.usage, zp, s.zpages), runs := FreePages(s.runs, zp, s.zpages));
    forall q: nat, e: nat ensures LargeExtent(s', q, e) <==> LargeExtent(s, q, e) {
      if zp <= q / PAGE < zp + s.zpages { assert ZonePage(all, s.zpages, zp, q / PAGE); }
    }
    SameLive(s, s');
  }

  lemma ClearUsage(usage: seq<Usage>, runs: seq<Run>, runs': seq<Run>, owners: set<nat>, at: nat, n: nat)
    requires UsageOk(usage, runs, owners + {at}, n) && at !in owners && n > 0
    requires forall p :: IsFree(runs', p) <==> IsFree(runs, p) || InRange(at, n, p)
    ensures UsageOk(ClearZone(usage, at, n), runs', owners, n)
  {
    hide IsFree;
    var usage', all := ClearZone(usage, at, n), owners + {at};
    forall p: nat | at <= p < at + n ensures p < |usage| && usage[p] == SmallPage(p - at) && InRange(at, n, p) {
      assert ZonePage(all, n, at, p);
    }
    forall zp: nat, p: nat | ZonePage(owners, n, zp, p) ensures p < |usage'| && usage'[p] == SmallPage(p - zp) {
      assert ZonePage(all, n, zp, p);
    }
    forall p: nat | p < |usage'| && usage'[p].SmallPage?
      ensures usage'[p].offset <= p && ZonePage(owners, n, p - usage'[p].offset, p)
    {
      assert ZonePage(all, n, p - usage[p].offset, p);
    }
    forall p: nat | p < |usage'| && usage'[p].LargePage? && usage'[p].count > 0 ensures LargeOk(usage', runs', p) {
      assert LargeOk(usage, runs, p);
    }
  }

  /** The contract of `rt_free` on a live block. */
  lemma FreeLiveKeeps(s: Heap, p: nat)
    requires Valid(s) && Live(s, p)
    ensures var s' := Free(s, p); Valid(s') && s'.zpages == s.zpages && Drops(s, s', p)
  {
    hide Valid; hide LiveLarge; hide LiveIn; hide Drops; hide FreeChunk; hide FreePages; hide Live;
    LivePage(s, p);
    match s.usage[p / PAGE]
    case LargePage(n) => FreeLargeKeeps(s, p);
    case SmallPage(offset) => FreeChunkKeeps(s, p / PAGE - offset, p);
  }

  // ----- rt_realloc -----

  /** The chunk size that `rt_realloc` compares with, which `zoneindex` leaves alone for large sizes. */
  function ClassSize(size: nat): nat { ZoneIndex(size).1 }

  function Move(s: Heap, p: nat, size: nat): (Heap, Option<nat>)
    requires Valid(s) && Live(s, p) && size < WRAP
  {
    MallocKeeps(s, size);
    var (s1, r) := Malloc(s, size);
    if r.None? then (s, None) else (Free(s1, p), r)
  }

  function Realloc(s: Heap, ptr: Option<nat>, size: nat): (Heap, Option<nat>)
    requires Valid(s) && (ptr.Some? ==> Live(s, ptr.value)) && size < WRAP
  {
    if ptr.None? then Malloc(s, size)
    else if size == 0 then (Free(s, ptr.value), None)
    else
      LivePage(s, ptr.value);
      match s.usage[ptr.value / PAGE]
      case LargePage(_) => Move(s, ptr.value, size)
      case SmallPage(offset) =>
        ClassAtMost(size);
        if s.zones[ptr.value / PAGE - offset].chunk == ClassSize(size) then (s, ptr) else Move(s, ptr.value, ClassSize(size))
      case FreePage => (s, None)
  }

  lemma ClassAtMost(size: nat)
    requires 0 < size < WRAP
    ensures size <= ClassSize(size) < WRAP
  {
    hide ZoneIndex;
    if size < 16384 { ZoneIndexIs(size); } else { ClassOfLarge(size); }
  }

  lemma ClassOfLarge(size: nat)
    requires size >= 16384
    ensures ZoneIndex(size).1 == size
  {
  }

  /** `s'` has the live blocks of `s` with `p` replaced by a block at `r` of at least `size` bytes. */
  ghost predicate Moves(s: Heap, s': Heap, p: nat, r: nat, size: nat) {
    exists end :: r + size <= end && Replaces(s, s', p, r, end)
  }

  ghost predicate Replaces(s: Heap, s': Heap, p: nat, r: nat, end: nat) {
    forall q, e :: Extent(s', q, e) <==> (Extent(s, q, e) && q != p) || (q == r && e == end)
  }

  /** The contract of `rt_realloc` on a live block and a size that is not zero. */
  lemma ReallocKeeps(s: Heap, p: nat, size: nat)
    requires Valid(s) && Live(s, p) && 0 < size < WRAP
    ensures var (s', r) := Realloc(s, Some(p), size);
            && Valid(s') && s'.zpages == s.zpages
            && match r
               case None => s' == s
               case Some(r) => Moves(s, s', p, r, size) && (r == p || !Live(s, r))
  {
    hide Valid; hide Live; hide Move; hide ZoneIndex;
    LivePage(s, p);
    match s.usage[p / PAGE]
    case LargePage(_) => MoveKeeps(s, p, size);
    case SmallPage(offset) =>
      ClassAtMost(size);
      var zp := p / PAGE - offset;
      if s.zones[zp].chunk == ClassSize(size) {
        StaysInPlace(s, zp, p);
        assert Replaces(s, s, p, p, p + s.zones[zp].chunk);
      } else {
        MoveKeeps(s, p, ClassSize(size));
        MovesLess(s, Move(s, p, ClassSize(size)).0, p, Move(s, p, ClassSize(size)).1, ClassSize(size), size);
      }
  }

  /** A move of the block at `p`, or NULL and no change exactly if `rt_malloc` refuses the size. */
  ghost predicate Moved(s: Heap, s': Heap, r: Option<nat>, p: nat, size: nat) {
    if Refuses(s, size) then r == None && s' == s
    else r.Some? && r.value != p && !Live(s, r.value) && Moves(s, s', p, r.value, size)
  }

  /** The whole outcome of `rt_realloc` on a live block and a size that is not zero: a chunk that has the chunk size
      of the request stays; any other block is moved, a chunk to that size. */
  lemma ReallocIs(s: Heap, p: nat, size: nat)
    requires Valid(s) && Live(s, p) && 0 < size < WRAP
    ensures var (s', r) := Realloc(s, Some(p), size);
            && (LiveLarge(s, p) ==> Moved(s, s', r, p, size))
            && forall zp :: LiveIn(s, zp, p) ==>
                 if s.zones[zp].chunk == ClassSize(size) then s' == s && r == Some(p) else Moved(s, s', r, p, ClassSize(size))
  {
    hide Valid; hide Live; hide Move; hide ZoneIndex; hide Moved; hide LiveChunk;
    LivePage(s, p);
    ClassAtMost(size);
    forall zp: nat | LiveIn(s, zp, p)
      ensures p / PAGE < |s.usage| && zp <= p / PAGE && s.usage[p / PAGE] == SmallPage(p / PAGE - zp)
    {
      ChunkPage(s, zp, p);
    }
    MoveIs(s, p, size);
    MoveIs(s, p, ClassSize(size));
  }

  /** A size of zero gives the block back, and without an old block `rt_realloc` allocates. */
  lemma ReallocOther(s: Heap, ptr: Option<nat>, size: nat)
    requires Valid(s) && size < WRAP && (size == 0 || ptr.None?) && (ptr.Some? ==> Live(s, ptr.value))
    ensures var (s', r) := Realloc(s, ptr, size);
            if ptr.Some? then r == None && Drops(s, s', ptr.value)
            else if Refuses(s, size) then r == None && s' == s
            else r.Some? && exists end :: r.value + size <= end && Adds(s, s', r.value, end)
  {
    hide Valid; hide Malloc; hide Free; hide Live; hide Adds; hide Drops;
    if ptr.Some? {
      FreeLiveKeeps(s, ptr.value);
    } else {
      MallocKeeps(s, size);
      var (s1, r) := Malloc(s, size);
      if r.Some? {
        var end :| r.value + size <= end && Adds(s, s1, r.value, end);
        assert Adds(s, Realloc(s, ptr, size).0, r.value, end);
      }
    }
  }

  lemma MoveIs(s: Heap, p: nat, size: nat)
    requires Valid(s) && Live(s, p) && size < WRAP
    ensures Moved(s, Move(s, p, size).0, Move(s, p, size).1, p, size)
  {
    hide Valid; hide Malloc; hide Free; hide Live; hide Refuses; hide Moves; hide Adds;
    MallocKeeps(s, size);
    MoveKeeps(s, p, size);
  }

  lemma MovesLess(s: Heap, s': Heap, p: nat, r: Option<nat>, size: nat, less: nat)
    requires less <= size && (r.Some? ==> Moves(s, s', p, r.value, size))
    ensures r.Some? ==> Moves(s, s', p, r.value, less)
  {
  }

  lemma MoveKeeps(s: Heap, p: nat, size: nat)
    requires Valid(s) && Live(s, p) && size < WRAP
    ensures var (s', r) := Move(s, p, size);
            && Valid(s') && s'.zpages == s.zpages
            && match r
               case None => s' == s
               case Some(r) => Moves(s, s', p, r, size) && !Live(s, r)
  {
    hide Valid; hide Malloc; hide Free; hide Extent;
    MallocKeeps(s, size);
    var (s1, r) := Malloc(s, size);
    if r.Some? {
      var end :| r.value + size <= end && Adds(s, s1, r.value, end);
      var last :| Extent(s, p, last);
      assert Extent(s1, p, last);
      FreeLiveKeeps(s1, p);
      assert p != r.value;
      assert Replaces(s, Free(s1, p), p, r.value, end);
    }
  }

  lemma StaysInPlace(s: Heap, zp: nat, p: nat)
    requires Valid(s) && LiveIn(s, zp, p)
    ensures forall e :: Extent(s, p, e) <==> e == p + s.zones[zp].chunk
  {
    OwnAddress(s, zp, p);
    assert ChunkExtent(s, zp, p, p + s.zones[zp].chunk);
  }

  // ----- runs -----

  /** `zone_size` in pages. */
  function ZonePages(npages: nat): nat {
    if 128 * 1024 < npages * PAGE / 1024 then 32 else if 64 * 1024 < npages * PAGE / 1024 then 16 else 8
  }

  /** The pages of `memusage`, four bytes a page. */
  function Reserved(npages: nat): nat { (npages * 4 + PAGE - 1) / PAGE }

  /** `rt_system_heap_init` on `npages` pages: the first of them hold `memusage`. */
  function Init(npages: nat): Heap {
    Heap(ZonePages(npages), AllocPages([Run(0, npages)], Reserved(npages)).0, seq(npages, _ => FreePage), map[],
         seq(NZONES, _ => []), [])
  }

  /** The zone size of the initial heap: from 32 KB on doubled while it is below 128 KB and its double is below a 1024th
      of the heap. */
  lemma ZoneSizeIs(npages: nat)
    ensures var size, most := ZonePages(npages) * PAGE, npages * PAGE / 1024;
            && size in {32 * 1024, 64 * 1024, 128 * 1024}
            && (size > 32 * 1024 ==> size < most) && (size < 128 * 1024 ==> size * 2 >= most)
  {
  }

  /** The initial heap keeps the least number of pages that hold `memusage`, from the start; the rest is free. */
  lemma InitReserves(npages: nat)
    requires npages > 0
    ensures var r := Reserved(npages);
            && (r - 1) * PAGE < npages * 4 <= r * PAGE && r <= npages
            && forall p: nat :: IsFree(Init(npages).runs, p) <==> r <= p < npages
  {
    var runs, r := [Run(0, npages)], Reserved(npages);
    assert Isolated(runs, 0);
    AllocFirst(runs, r);
    AllocKeeps(runs, r);
    forall p: nat ensures IsFree(Init(npages).runs, p) <==> r <= p < npages {
      OneRun(npages, p);
      assert InRange(0, r, p) <==> p < r;
    }
  }

  lemma OneRun(npages: nat, p: nat)
    ensures IsFree([Run(0, npages)], p) <==> p < npages
  {
    if p < npages { assert [Run(0, npages)][0] == Run(0, npages); }
  }

  lemma InitValid(npages: nat)
    requires npages > 0
    ensures Valid(Init(npages)) && forall p :: !Live(Init(npages), p)
  {
    var runs := [Run(0, npages)];
    assert Isolated(runs, 0);
    AllocKeeps(runs, Reserved(npages));
    forall p: nat | IsFree(runs, p) ensures p < npages { }
  }

  datatype Op = MallocOp(size: nat) | FreeOp(p: nat) | ReallocOp(ptr: Option<nat>, size: nat)

  ghost predicate Legal(s: Heap, op: Op) {
    match op
    case MallocOp(size) => size < WRAP
    case FreeOp(p) => Live(s, p)
    case ReallocOp(ptr, size) => size < WRAP && (ptr.Some? ==> Live(s, ptr.value))
  }

  ghost function Step(s: Heap, op: Op): Heap
    requires Valid(s) && Legal(s, op)
  {
    match op
    case MallocOp(size) => Malloc(s, size).0
    case FreeOp(p) => Free(s, p)
    case ReallocOp(ptr, size) => Realloc(s, ptr, size).0
  }

  lemma StepKeeps(s: Heap, op: Op)
    requires Valid(s) && Legal(s, op)
    ensures Valid(Step(s, op)) && Step(s, op).zpages == s.zpages
  {
    hide Valid; hide Malloc; hide Free;
    match op
    case MallocOp(size) => MallocKeeps(s, size);
    case FreeOp(p) => FreeLiveKeeps(s, p);
    case ReallocOp(ptr, size) =>
      if ptr.None? { MallocKeeps(s, size); }
      else if size == 0 { FreeLiveKeeps(s, ptr.value); }
      else { ReallocKeeps(s, ptr.value, size); }
  }

  /** `s'` is what some legal run leaves of `s`. */
  ghost predicate Reaches(s: Heap, ops: seq<Op>, s': Heap)
    requires Valid(s)
    decreases |ops|
  {
    if ops == [] then s' == s
    else Legal(s, ops[0]) && (StepKeeps(s, ops[0]); Reaches(Step(s, ops[0]), ops[1..], s'))
  }

  /** Every legal run keeps each zone's count of free chunks, the zone lists, `memusage`, at most two
      idle zones and a canonical page list. */
  lemma {:induction false} RunKeeps(s: Heap, ops: seq<Op>, s': Heap)
    requires Valid(s) && Reaches(s, ops, s')
    ensures Valid(s')
    decreases |ops|
  {
    if ops != [] {
      StepKeeps(s, ops[0]);
      RunKeeps(Step(s, ops[0]), ops[1..], s');
    }
  }
}
