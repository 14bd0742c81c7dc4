/** The promise of src/slab.c that all allocations of a power-of-two size are aligned to it, over every
    heap a run can reach: it holds exactly for sizes up to a page. */
module SlabAlignment {
  import opened Lists
  import opened Pages
  import opened Slab
  import opened Words
  import opened Zones

  /** A heap of `npages` pages fits between address `start`, which is aligned to a page, and the end of
      the address space. */
  predicate HeapAt(start: nat, npages: nat) {
    0 < start && start % PAGE == 0 && 0 < npages && start + npages * PAGE < WRAP
  }

  /** Some legal run from the initial heap of `npages` pages ends in `s`. */
  ghost predicate Reachable(npages: nat, s: Heap) {
    npages > 0 && (InitValid(npages); exists ops :: Reaches(Init(npages), ops, s))
  }

  lemma ReachableValid(npages: nat, s: Heap)
    requires Reachable(npages, s)
    ensures Valid(s)
  {
    hide Valid; hide Init;
    InitValid(npages);
    var ops :| Reaches(Init(npages), ops, s);
    RunKeeps(Init(npages), ops, s);
  }

  lemma InitReachable(npages: nat)
    requires npages > 0
    ensures Reachable(npages, Init(npages))
  {
    hide Valid; hide Init;
    InitValid(npages);
    assert Reaches(Init(npages), [], Init(npages));
  }

  /** An `rt_malloc(n)` now fails or returns an address that is a multiple of `n`. */
  ghost predicate MallocAligned(s: Heap, start: nat, n: nat)
    requires Valid(s) && n > 0
  {
    var r := Malloc(s, n).1;
    r.Some? ==> (start + r.value) % n == 0
  }

  /** Whatever the size of the heap at `start` and whatever ran before. */
  ghost predicate AlwaysAligned(start: nat, n: nat)
    requires n > 0
  {
    forall npages, s :: HeapAt(start, npages) && Reachable(npages, s) ==> Valid(s) && MallocAligned(s, start, n)
  }

  // ----- up to a page -----

  /** A power of two up to a page divides a page, and is one of the chunk sizes or divides the least. */
  lemma UpToPage(n: nat)
    requires IsPow2(n) && n <= PAGE
    ensures n > 0 && PAGE % n == 0 && (n < 8 ==> 8 % n == 0) && (n >= 8 ==> IsPower(n))
  {
    var k: nat :| n == Pow2(k);
    Pow2Table();
    if k > 12 { Pow2Grows(12, k); }
    SmallPowers(k);
  }

  lemma SmallPowers(k: nat)
    requires k <= 12
    ensures Pow2(k) in {1, 2, 4, 8, 16, 32, 64, 128, 256, 512, 1024, 2048, 4096}
  {
    Pow2Table();
  }

  lemma MultipleOfMultiple(a: nat, b: nat, n: nat)
    requires n > 0 && b > 0 && a % b == 0 && b % n == 0
    ensures a % n == 0
  {
    var p, q := a / b, b / n;
    assert a == p * (q * n) == (p * q) * n;
    ModShift(0, p * q, n);
  }

  /** `zoneindex` gives a power of two its own size. */
  lemma OwnClass(n: nat)
    requires 0 < n <= PAGE && (n < 8 || IsPower(n))
    ensures ChunkOf(ZoneIndex(n).0) == (if n < 8 then 8 else n)
  {
    ZoneIndexIs(n);
    assert ChunkOf(0) == 8 && ChunkOf(1) == 16 && ChunkOf(3) == 32 && ChunkOf(7) == 64 && ChunkOf(15) == 128;
    assert ChunkOf(23) == 256 && ChunkOf(31) == 512 && ChunkOf(39) == 1024 && ChunkOf(47) == 2048 && ChunkOf(55) == 4096;
  }

  lemma AlignedUpToPage(s: Heap, start: nat, n: nat)
    requires Valid(s) && start % PAGE == 0 && IsPow2(n) && n <= PAGE
    ensures n > 0 && MallocAligned(s, start, n)
  {
    hide Valid; hide ZoneIndex; hide ChunkOf; hide IsPower; hide MallocSmall; hide LiveIn; hide IsPow2;
    UpToPage(n);
    OwnClass(n);
    ZPages(s);
    ChunkWithinLimit(s.zpages, n);
    var index := ZoneIndex(n).0;
    MallocSmallKeeps(s, index);
    var (s', r) := MallocSmall(s, index);
    if r.Some? { ExtentAligned(s', r.value, ChunkOf(index), start, n); }
  }

  /** A live block of one of the small power-of-two chunk sizes. */
  lemma ExtentAligned(s: Heap, p: nat, chunk: nat, start: nat, n: nat)
    requires Valid(s) && Extent(s, p, p + chunk) && start % PAGE == 0
    requires 0 < n <= PAGE && PAGE % n == 0 && chunk == (if n < 8 then 8 else n)
    requires (n < 8 ==> 8 % n == 0) && (n >= 8 ==> IsPower(n))
    ensures (start + p) % n == 0
  {
    hide Valid; hide IsPower; hide LiveIn;
    if LargeExtent(s, p, p + chunk) {
      PageSum(start, p);
      MultipleOfMultiple(start + p, PAGE, n);
    } else {
      var zp :| ChunkExtent(s, zp, p, p + chunk);
      PowersAligned(s, zp, p, start);
      if n < 8 { MultipleOfMultiple(start + p, 8, n); }
    }
  }

  lemma PageSum(a: nat, b: nat)
    requires a % PAGE == 0 && b % PAGE == 0
    ensures (a + b) % PAGE == 0
  {
  }

  // ----- beyond a page -----

  /** A fresh heap of this many pages, and one of 1024 more, has room for `n` bytes. */
  function Enough(n: nat): nat { n / PAGE + n / PAGE / 1024 + 2 }

  lemma UsageGrows(npages: nat)
    ensures Reserved(npages + 1024) == Reserved(npages) + 1
  {
  }

  lemma EnoughIs(n: nat)
    requires PAGE < n <= 0x8000_0000
    ensures Reserved(Enough(n)) + n / PAGE <= Enough(n) && Reserved(Enough(n)) > 0
  {
  }

  /** Larger powers of two are whole pages. */
  lemma BeyondPage(n: nat)
    requires IsPow2(n) && PAGE < n < WRAP
    ensures n % PAGE == 0 && 2 * PAGE <= n <= 0x8000_0000
  {
    var k: nat :| n == Pow2(k);
    Pow2Table();
    if k <= 12 { SmallPowers(k); }
    Pow2Divides(12, k);
    var d: nat :| n == d * PAGE;
    ModShift(0, d, PAGE);
    if k > 32 { Pow2Grows(32, k); }
    if k < 31 { Pow2Grows(k, 31); }
  }

  lemma UsageFirst(npages: nat, u: nat)
    requires 0 < u < npages
    ensures AllocRun([Run(0, npages)], u) == ([Run(u, npages - u)], Some(0))
  {
    assert [Run(u, npages - u)] + [Run(0, npages)][1..] == [Run(u, npages - u)];
  }

  /** The first large block of a fresh heap starts behind `memusage`. */
  lemma FirstLarge(npages: nat, n: nat)
    requires npages > 0 && n % PAGE == 0 && PAGE < n <= 0x8000_0000 && Limit(ZonePages(npages)) <= n
    requires 0 < Reserved(npages) && Reserved(npages) + n / PAGE <= npages
    ensures Valid(Init(npages)) && Malloc(Init(npages), n).1 == Some(Reserved(npages) * PAGE)
  {
    hide Valid; hide Limit; hide ZonePages;
    InitValid(npages);
    var u, c := Reserved(npages), n / PAGE;
    UsageFirst(npages, u);
    assert PagesFor(n) == c;
    assert AllocRun([Run(u, npages - u)], c).1 == Some(u);
  }

  lemma TwoPages(a: nat, n: nat)
    requires n > PAGE && a % n == 0
    ensures (a + PAGE) % n != 0
  {
    assert a + PAGE == a / n * n + PAGE;
    Unique(a / n, PAGE, n);
  }

  /** For every larger power of two and every start with room for it: of two fresh heaps, one misaligns
      its very first allocation. */
  lemma MisalignedBeyondPage(start: nat, n: nat)
    requires IsPow2(n) && PAGE < n < WRAP && HeapAt(start, Enough(n) + 1024)
    ensures var m := Enough(n);
            && m > 0 && Valid(Init(m)) && Valid(Init(m + 1024))
            && !(MallocAligned(Init(m), start, n) && MallocAligned(Init(m + 1024), start, n))
  {
    hide Valid; hide Init; hide IsPow2; hide Malloc; hide Reserved;
    BeyondPage(n);
    var m := Enough(n);
    EnoughIs(n);
    UsageGrows(m);
    LimitBelow(n);
    FirstLarge(m, n);
    FirstLarge(m + 1024, n);
    var a := start + Reserved(m) * PAGE;
    assert start + Reserved(m + 1024) * PAGE == a + PAGE;
    if a % n == 0 { TwoPages(a, n); }
  }

  lemma LimitBelow(n: nat)
    requires n % PAGE == 0 && PAGE < n
    ensures Limit(ZonePages(Enough(n))) <= n && Limit(ZonePages(Enough(n) + 1024)) <= n
  {
    if n < 16384 { assert n / PAGE <= 3; }
  }

  /** In the zones as well: of these two fresh heaps, one misaligns its first chunk of 8192 bytes. */
  lemma MisalignedChunk(start: nat)
    requires start % PAGE == 0
    ensures Valid(Init(16385)) && Valid(Init(17409)) && 8192 < Limit(ZonePages(16385)) == Limit(ZonePages(17409))
    ensures !(MallocAligned(Init(16385), start, 8192) && MallocAligned(Init(17409), start, 8192))
  {
    hide Valid;
    InitValid(16385);
    InitValid(17409);
    FirstChunk(16385, 17);
    FirstChunk(17409, 18);
    assert start + 18 * PAGE + 8192 == (start + 17 * PAGE + 8192) + PAGE;
    if (start + 17 * PAGE + 8192) % 8192 == 0 { TwoPages(start + 17 * PAGE + 8192, 8192); }
  }

  lemma FirstChunk(npages: nat, u: nat)
    requires (npages == 16385 && u == 17) || (npages == 17409 && u == 18)
    ensures Valid(Init(npages)) && Malloc(Init(npages), 8192).1 == Some(u * PAGE + 8192)
  {
    hide Valid; hide MallocSmall; hide ZoneIndex; hide ChunkOf;
    InitValid(npages);
    UsageFirst(npages, u);
    Class8192();
    ZoneIndexIs(8192);
    var s := Init(npages);
    assert s.zpages == 16 && s.runs == [Run(u, npages - u)];
    assert s.lists[63] == [];
    FromFirstRun(s, u, npages - u);
  }

  lemma Class8192()
    ensures ZoneIndex(8192) == (63, 8192) && ChunkOf(63) == 8192 && Offset(8192) == 8192
  {
    OffsetRounds(8192);
  }

  lemma FromFirstRun(s: Heap, at: nat, count: nat)
    requires |s.lists| == NZONES && s.lists[63] == [] && s.idle == [] && s.zpages == 16
    requires s.runs == [Run(at, count)] && count > 16
    ensures ChunkOf(63) == 8192 && MallocSmall(s, 63).1 == Some(at * PAGE + 8192)
  {
    hide ZoneIndex; hide ChunkOf; hide Offset;
    Class8192();
    assert AllocRun(s.runs, 16).1 == Some(at);
  }

  /** For a power of two, every `rt_malloc` of every reachable heap at `start` is aligned to the size
      if and only if the size is at most a page. */
  lemma PowerAlignedIff(start: nat, n: nat)
    requires IsPow2(n) && n < WRAP && HeapAt(start, Enough(n) + 1024)
    ensures n > 0 && (AlwaysAligned(start, n) <==> n <= PAGE)
  {
    hide Valid; hide Init; hide MallocAligned; hide IsPow2; hide Reachable;
    if n <= PAGE {
      UpToPage(n);
      forall npages, s | HeapAt(start, npages) && Reachable(npages, s) ensures Valid(s) && MallocAligned(s, start, n) {
        ReachableValid(npages, s);
        AlignedUpToPage(s, start, n);
      }
    } else {
      MisalignedBeyondPage(start, n);
      var m := Enough(n);
      InitReachable(m);
      InitReachable(m + 1024);
      assert HeapAt(start, m) && HeapAt(start, m + 1024);
    }
  }
}
