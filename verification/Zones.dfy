/** One zone of src/slab.c: the size classes of `zoneindex`, and the chunks of a zone with its count of
    free ones, its virgin chunks and its free list. */
module Zones {
  import opened Lists
  import opened Words

  const PAGE: nat := 4096
  const NZONES: nat := 72
  const ZONE_HEADER: nat := 36

  // ----- zoneindex -----

  function RoundTo(n: nat, granule: nat): nat
    requires granule > 0
  {
    (n + granule - 1) / granule * granule
  }

  lemma RoundToIs(n: nat, granule: nat)
    requires granule > 0
    ensures var r := RoundTo(n, granule);
            n <= r < n + granule && r == r / granule * granule
  {
    var q := (n + granule - 1) / granule;
    assert q * granule / granule == q by { MultipleDivides(q, granule); }
  }

  lemma MultipleDivides(q: nat, g: nat)
    requires g > 0
    ensures q * g / g == q
  {
    var d := q * g / g;
    if d < q { Multiples(d, q, g); } else if q < d { Multiples(q, d, g); }
  }

  /** The index and the chunk size of a request below 16384 bytes. */
  function ZoneIndex(n: nat): (nat, nat) {
    if n < 128 then var c := RoundTo(n, 8); (if c == 0 then 0 else c / 8 - 1, c)
    else if n < 256 then var c := RoundTo(n, 16); (c / 16 + 7, c)
    else if n < 512 then var c := RoundTo(n, 32); (c / 32 + 15, c)
    else if n < 1024 then var c := RoundTo(n, 64); (c / 64 + 23, c)
    else if n < 2048 then var c := RoundTo(n, 128); (c / 128 + 31, c)
    else if n < 4096 then var c := RoundTo(n, 256); (c / 256 + 39, c)
    else if n < 8192 then var c := RoundTo(n, 512); (c / 512 + 47, c)
    else if n < 16384 then var c := RoundTo(n, 1024); (c / 1024 + 55, c)
    else (0, n)
  }

  /** The chunk size of a class: multiples of 8 up to 128, then eight classes to each doubling. */
  function ChunkOf(index: nat): nat {
    if index < 16 then (index + 1) * 8
    else if index < 24 then (index - 7) * 16
    else if index < 32 then (index - 15) * 32
    else if index < 40 then (index - 23) * 64
    else if index < 48 then (index - 31) * 128
    else if index < 56 then (index - 39) * 256
    else if index < 64 then (index - 47) * 512
    else (index - 55) * 1024
  }

  /** `zoneindex` picks a class below NZONES that the request fits, wasting less than 8 bytes or an
      eighth of it, and no smaller class fits. */
  lemma ZoneIndexIs(n: nat)
    requires 0 < n < 16384
    ensures var (index, chunk) := ZoneIndex(n);
            && index < NZONES && chunk == ChunkOf(index) && n <= chunk <= 16384
            && (chunk - n < 8 || 8 * (chunk - n) < n)
            && forall j: nat :: j < NZONES && ChunkOf(j) >= n ==> ChunkOf(j) >= chunk
  {
    var (index, chunk) := ZoneIndex(n);
    ClassBounds(n);
    forall j: nat ensures (j < index ==> ChunkOf(j) < n) && (index <= j ==> ChunkOf(j) >= chunk) {
      if j < index { ClassesGrow(j, index - 1); } else { ClassesGrow(index, j); }
    }
  }

  lemma ClassBounds(n: nat)
    requires 0 < n < 16384
    ensures var (index, chunk) := ZoneIndex(n);
            && index < NZONES && chunk == ChunkOf(index) && n <= chunk <= 16384
            && (chunk - n < 8 || 8 * (chunk - n) < n)
            && (index > 0 ==> ChunkOf(index - 1) < n)
  {
    hide RoundTo;
    RoundToIs(n, if n < 128 then 8 else if n < 256 then 16 else if n < 512 then 32 else if n < 1024 then 64
                 else if n < 2048 then 128 else if n < 4096 then 256 else if n < 8192 then 512 else 1024);
  }

  lemma ClassesGrow(i: nat, j: nat)
    requires i <= j
    ensures ChunkOf(i) <= ChunkOf(j)
  {
  }

  /** The chunk sizes that are powers of two. */
  predicate IsPower(chunk: nat) { chunk in {8, 16, 32, 64, 128, 256, 512, 1024, 2048, 4096, 8192, 16384} }

  /** Bitwise or. */
  function Or(a: nat, b: nat): nat {
    if a == 0 && b == 0 then 0 else (if a % 2 == 1 || b % 2 == 1 then 1 else 0) + 2 * Or(a / 2, b / 2)
  }

  lemma {:induction false} OrSame(a: nat)
    ensures Or(a, a) == a
  {
    if a > 0 { OrSame(a / 2); }
  }

  /** The source's test for a power of two, `(size | (size - 1)) + 1 == (size << 1)`. */
  predicate PowerTest(size: nat)
    requires size > 0
  {
    Or(size, size - 1) + 1 == 2 * size
  }

  /** It finds exactly the powers of two. */
  lemma {:induction false} PowerTestIff(size: nat)
    requires size > 0
    ensures PowerTest(size) <==> IsPow2(size)
    decreases size
  {
    if size % 2 == 1 {
      OrSame((size - 1) / 2);
      OddPow2(size);
    } else {
      PowerTestIff(size / 2);
      DoublePow2(size / 2);
    }
  }

  lemma OddPow2(size: nat)
    requires size % 2 == 1
    ensures IsPow2(size) <==> size == 1
  {
    assert Pow2(0) == 1;
    if IsPow2(size) {
      var k: nat :| size == Pow2(k);
      EvenPow2(k);
    }
  }

  lemma {:induction false} EvenPow2(k: nat)
    ensures k == 0 || Pow2(k) % 2 == 0
  {
    if k > 0 {
      var half := Pow2(k - 1);
      assert Pow2(k) == 2 * half;
    }
  }

  lemma DoublePow2(half: nat)
    requires half > 0
    ensures IsPow2(2 * half) <==> IsPow2(half)
  {
    if k: nat :| half == Pow2(k) { assert 2 * half == Pow2(k + 1); }
    if k: nat :| 2 * half == Pow2(k) { assert k > 0 && half == Pow2(k - 1); }
  }

  lemma PowerTestIs(chunk: nat)
    requires 8 <= chunk <= 16384
    ensures PowerTest(chunk) <==> IsPower(chunk)
  {
    hide PowerTest;
    PowerTestIff(chunk);
    Pow2Table();
    if k: nat :| chunk == Pow2(k) {
      if k < 3 { Pow2Grows(k, 3); } else if k > 14 { Pow2Grows(14, k); }
    }
  }

  /** Where the chunks start in a zone: after its header, and at a multiple of the chunk size if
      that is a power of two, of 8 otherwise. */
  function Offset(chunk: nat): nat
    requires 8 <= chunk <= 16384
  {
    if PowerTest(chunk) then RoundTo(ZONE_HEADER, chunk) else RoundTo(ZONE_HEADER, 8)
  }

  lemma OffsetRounds(chunk: nat)
    requires 8 <= chunk <= 16384
    ensures Offset(chunk) == RoundTo(ZONE_HEADER, if IsPower(chunk) then chunk else 8)
  {
    hide PowerTest; hide IsPower; hide RoundTo;
    PowerTestIs(chunk);
  }

  lemma OffsetBounds(chunk: nat)
    requires 8 <= chunk <= 16384
    ensures ZONE_HEADER <= Offset(chunk) && (Offset(chunk) == 40 || Offset(chunk) < ZONE_HEADER + chunk)
  {
    hide RoundTo; hide Offset; hide IsPower;
    OffsetRounds(chunk);
    RoundToIs(ZONE_HEADER, chunk);
    HeaderRounded();
  }

  lemma HeaderRounded()
    ensures RoundTo(ZONE_HEADER, 8) == 40
  {
  }

  // ----- chunks -----

  /** A zone in use; `base` is the address of its first chunk, `free` its list of freed chunks. */
  datatype Zone = Zone(index: nat, chunk: nat, base: nat, nmax: int, nfree: int, uindex: int, free: seq<nat>)

  function ChunkAt(z: Zone, k: nat): nat { z.base + k * z.chunk }

  lemma ChunksApart(z: Zone, i: nat, j: nat)
    requires i < j
    ensures ChunkAt(z, i) + z.chunk <= ChunkAt(z, j)
  {
    Multiples(i, j, z.chunk);
  }

  lemma Multiples(i: int, j: int, c: nat)
    requires i < j
    ensures i * c + c <= j * c
  {
    var d := j - i - 1;
    assert j * c == i * c + c + d * c by { assert j == i + 1 + d; }
    assert d * c >= 0;
  }

  /** Chunk `c` has been handed out at some time. */
  ghost predicate Carved(z: Zone, c: nat) {
    exists k: nat :: k <= z.uindex && c == ChunkAt(z, k)
  }

  ghost predicate LiveChunk(z: Zone, c: nat) { Carved(z, c) && c !in z.free }

  /** A zone of `zpages` pages at page `at`. */
  ghost predicate ZoneOk(at: nat, z: Zone, zpages: nat) {
    && z.index < NZONES && z.chunk == ChunkOf(z.index) >= 8
    && at * PAGE + ZONE_HEADER <= z.base == at * PAGE + Offset(z.chunk) && 0 <= z.uindex < z.nmax && z.nmax >= 2
    && ChunkAt(z, z.nmax) <= (at + zpages) * PAGE
    && z.nfree == z.nmax - 1 - z.uindex + |z.free|
    && NoDuplicates(z.free) && forall c :: c in z.free ==> Carved(z, c)
  }

  /** Chunks lie inside their zone, behind its header, and do not overlap. */
  lemma ChunkInZone(at: nat, z: Zone, zpages: nat, c: nat)
    requires ZoneOk(at, z, zpages) && Carved(z, c)
    ensures at * PAGE + ZONE_HEADER <= c < c + z.chunk <= (at + zpages) * PAGE
  {
    hide ChunkAt;
    var k: nat :| k <= z.uindex && c == ChunkAt(z, k);
    ChunkIsAfterBase(z, k);
    ChunksApart(z, k, z.nmax);
  }

  lemma ChunkIsAfterBase(z: Zone, k: nat)
    ensures ChunkAt(z, k) >= z.base
  {
    assert k * z.chunk >= 0;
  }

  lemma CarvedApart(z: Zone, c: nat, d: nat)
    requires Carved(z, c) && Carved(z, d) && c != d
    ensures c + z.chunk <= d || d + z.chunk <= c
  {
    hide ChunkAt;
    var i: nat :| i <= z.uindex && c == ChunkAt(z, i);
    var j: nat :| j <= z.uindex && d == ChunkAt(z, j);
    if i < j { ChunksApart(z, i, j); } else { ChunksApart(z, j, i); }
  }

  lemma Unique(q: nat, r: nat, c: nat)
    requires r < c
    ensures (q * c + r) % c == r
  {
    var n := q * c + r;
    if n / c < q { Multiples(n / c, q, c); } else if q < n / c { Multiples(q, n / c, c); }
  }

  /** Whole multiples of `c` do not change the remainder. */
  lemma ModShift(x: nat, m: nat, c: nat)
    requires c > 0
    ensures (x + m * c) % c == x % c
  {
    Unique(x / c + m, x % c, c);
    assert x + m * c == (x / c + m) * c + x % c;
  }

  /** `start` is the page-aligned address of the heap.  Every chunk is aligned to eight bytes.  A chunk
      whose size is a power of two is aligned to that size, as the source asks for, exactly when its
      zone is: always for sizes up to a page, but pages guarantee nothing for the larger ones. */
  lemma ChunkAligned(at: nat, z: Zone, zpages: nat, c: nat, start: nat)
    requires ZoneOk(at, z, zpages) && Carved(z, c) && start % PAGE == 0
    ensures (start + c) % 8 == 0
    ensures IsPower(z.chunk) ==>
              && ((start + c) % z.chunk == 0 <==> (start + at * PAGE) % z.chunk == 0)
              && (z.chunk <= PAGE ==> (start + c) % z.chunk == 0)
  {
    hide IsPower; hide ChunkOf; hide RoundTo; hide ChunkAt;
    var k: nat :| k <= z.uindex && c == ChunkAt(z, k);
    var page := start + at * PAGE;
    OffsetIs(z.index);
    PageDivides(start, at, z.index);
    ChunkShift(page, z, at, start, k, 8);
    if IsPower(z.chunk) { ChunkShift(page, z, at, start, k, z.chunk); }
  }

  lemma ChunkShift(page: nat, z: Zone, at: nat, start: nat, k: nat, c: nat)
    requires c > 0 && page == start + at * PAGE && 8 <= z.chunk <= 16384 && z.base == at * PAGE + Offset(z.chunk)
    requires Offset(z.chunk) == Offset(z.chunk) / c * c && z.chunk == z.chunk / c * c
    ensures (start + ChunkAt(z, k)) % c == page % c
  {
    hide Offset;
    var p, q := Offset(z.chunk) / c, z.chunk / c;
    ModShift(page, p + k * q, c);
    assert k * z.chunk == k * q * c;
    assert start + ChunkAt(z, k) == page + (p + k * q) * c;
  }

  lemma OffsetIs(index: nat)
    requires index < NZONES
    ensures var c := ChunkOf(index);
            && 8 <= c <= 16384 && c == c / 8 * 8 && Offset(c) == Offset(c) / 8 * 8
            && (IsPower(c) ==> Offset(c) == Offset(c) / c * c)
  {
    hide IsPower; hide RoundTo; hide Offset; hide ChunkOf;
    var c := ChunkOf(index);
    ChunkEights(index);
    OffsetRounds(c);
    RoundToIs(ZONE_HEADER, c);
    HeaderRounded();
    if IsPower(c) { PowerRounded(c); }
  }

  lemma ChunkEights(index: nat)
    requires index < NZONES
    ensures 8 <= ChunkOf(index) <= 16384 && ChunkOf(index) == ChunkOf(index) / 8 * 8
  {
  }

  lemma PowerRounded(c: nat)
    requires IsPower(c)
    ensures RoundTo(ZONE_HEADER, c) == RoundTo(ZONE_HEADER, c) / 8 * 8
  {
  }

  lemma PageDivides(start: nat, at: nat, index: nat)
    requires start % PAGE == 0 && index < NZONES
    ensures (start + at * PAGE) % 8 == 0
    ensures IsPower(ChunkOf(index)) && ChunkOf(index) <= PAGE ==> (start + at * PAGE) % ChunkOf(index) == 0
  {
    hide ChunkOf;
    var c := ChunkOf(index);
    var pages := start / PAGE + at;
    assert start + at * PAGE == pages * PAGE;
    ModShift(0, pages * 512, 8);
    if IsPower(c) && c <= PAGE {
      var d := PAGE / c;
      assert d * c == PAGE;
      ModShift(0, pages * d, c);
      assert pages * d * c == pages * PAGE;
    }
  }

  /** A fresh zone with its first chunk handed out. */
  function FreshZone(at: nat, index: nat, chunk: nat, zpages: nat): Zone
    requires 8 <= chunk <= 16384
  {
    var nmax := (zpages * PAGE - Offset(chunk)) / chunk;
    Zone(index, chunk, at * PAGE + Offset(chunk), nmax, nmax - 1, 0, [])
  }

  lemma FreshZoneKeeps(at: nat, index: nat, zpages: nat)
    requires index < NZONES && 8 <= ChunkOf(index) <= 16384 && 8 <= zpages && 4 * ChunkOf(index) <= zpages * PAGE
    ensures var z := FreshZone(at, index, ChunkOf(index), zpages);
            && ZoneOk(at, z, zpages) && z.nfree > 0
            && forall c :: LiveChunk(z, c) <==> c == z.base
  {
    var chunk := ChunkOf(index);
    var z := FreshZone(at, index, chunk, zpages);
    OffsetBounds(chunk);
    hide Offset;
    var room := zpages * PAGE - Offset(chunk);
    assert room >= 2 * chunk;
    DivisionFits(room, chunk);
    assert ChunkAt(z, 0) == z.base;
    forall c | Carved(z, c) ensures c == z.base { }
  }

  lemma DivisionFits(room: nat, chunk: nat)
    requires chunk > 0 && room >= 2 * chunk
    ensures room / chunk >= 2 && room / chunk * chunk <= room
  {
  }

  /** Hand out a chunk: a virgin one while there is one, else the first of the free list. */
  function TakeChunk(z: Zone): (Zone, nat) {
    var z1 := z.(nfree := z.nfree - 1);
    if z.uindex + 1 != z.nmax && z.uindex >= 0 then (z1.(uindex := z.uindex + 1), ChunkAt(z, z.uindex + 1))
    else if z.free == [] then (z1, z.base)
    else (z1.(free := z.free[1..]), z.free[0])
  }

  lemma TakeChunkKeeps(at: nat, z: Zone, zpages: nat)
    requires ZoneOk(at, z, zpages) && z.nfree > 0
    ensures var (z', c) := TakeChunk(z);
            && ZoneOk(at, z', zpages) && !LiveChunk(z, c)
            && forall d :: LiveChunk(z', d) <==> LiveChunk(z, d) || d == c
  {
    hide ChunkAt;
    var (z', c) := TakeChunk(z);
    SameChunks(z, z');
    if z.uindex + 1 != z.nmax {
      forall k: nat | k <= z.uindex ensures ChunkAt(z, k) != c { ChunksApart(z, k, z.uindex + 1); }
      forall d: nat ensures Carved(z', d) <==> Carved(z, d) || d == c {
        assert ChunkAt(z', z'.uindex) == c;
        if Carved(z, d) {
          var k: nat :| k <= z.uindex && d == ChunkAt(z, k);
          assert k <= z'.uindex && d == ChunkAt(z', k);
        }
        if Carved(z', d) {
          var k: nat :| k <= z'.uindex && d == ChunkAt(z', k);
          assert d == ChunkAt(z, k);
        }
      }
    } else {
      assert z.free == [c] + z'.free;
      assert c in z.free;
      SameCarved(z, z');
      assert forall i :: 0 <= i < |z'.free| ==> z'.free[i] == z.free[i + 1];
    }
  }

  lemma SameChunks(z: Zone, z': Zone)
    requires z'.base == z.base && z'.chunk == z.chunk
    ensures forall k: nat :: ChunkAt(z', k) == ChunkAt(z, k)
  {
  }

  lemma SameCarved(z: Zone, z': Zone)
    requires z'.base == z.base && z'.chunk == z.chunk && z'.uindex == z.uindex
    ensures forall d :: Carved(z', d) <==> Carved(z, d)
  {
    hide ChunkAt;
    SameChunks(z, z');
    forall d: nat ensures Carved(z', d) <==> Carved(z, d) {
      if Carved(z, d) {
        var k: nat :| k <= z.uindex && d == ChunkAt(z, k);
        assert d == ChunkAt(z', k);
      }
      if Carved(z', d) {
        var k: nat :| k <= z.uindex && d == ChunkAt(z', k);
        assert d == ChunkAt(z, k);
      }
    }
  }

  function PutChunk(z: Zone, c: nat): Zone { z.(free := [c] + z.free, nfree := z.nfree + 1) }

  /** Chunks that were never handed out come first, in order; after those the chunk that was returned last. */
  lemma TakeChunkChoice(at: nat, z: Zone, zpages: nat, c: nat)
    requires ZoneOk(at, z, zpages)
    ensures z.uindex + 1 < z.nmax ==> TakeChunk(z) == (z.(uindex := z.uindex + 1, nfree := z.nfree - 1), ChunkAt(z, z.uindex + 1))
    ensures z.uindex + 1 == z.nmax ==> TakeChunk(PutChunk(z, c)) == (z, c)
  {
    hide ChunkAt; hide Carved; hide NoDuplicates; hide ChunkOf; hide Offset;
  }

  lemma PutChunkKeeps(at: nat, z: Zone, zpages: nat, c: nat)
    requires ZoneOk(at, z, zpages) && LiveChunk(z, c)
    ensures var z' := PutChunk(z, c);
            && ZoneOk(at, z', zpages) && z'.nfree > 0
            && forall d :: LiveChunk(z', d) <==> LiveChunk(z, d) && d != c
  {
    hide ChunkAt;
    SameChunks(z, PutChunk(z, c));
    SameCarved(z, PutChunk(z, c));
  }

  /** When the count of free chunks reaches the maximum, nothing in the zone is live. */
  lemma FullIsEmpty(at: nat, z: Zone, zpages: nat, c: nat)
    requires ZoneOk(at, z, zpages) && z.nfree == z.nmax
    ensures !LiveChunk(z, c)
  {
    hide ChunkAt;
    var all, freed := AllChunks(z, z.uindex + 1), set d | d in z.free;
    Cardinality(z.free);
    forall d | d in freed ensures d in all {
      var k: nat :| k <= z.uindex && d == ChunkAt(z, k);
      InAllChunks(z, z.uindex + 1, k);
    }
    SubsetOfSameSize(freed, all);
    if Carved(z, c) {
      var k: nat :| k <= z.uindex && c == ChunkAt(z, k);
      InAllChunks(z, z.uindex + 1, k);
      assert c in freed;
    }
  }

  /** The first `n` chunk addresses. */
  ghost function AllChunks(z: Zone, n: nat): (s: set<nat>)
    requires z.chunk > 0
    ensures |s| == n && forall c :: c in s ==> c + z.chunk <= ChunkAt(z, n)
  {
    if n == 0 then {} else
      ChunksApart(z, n - 1, n);
      AllChunks(z, n - 1) + {ChunkAt(z, n - 1)}
  }

  lemma {:induction false} InAllChunks(z: Zone, n: nat, k: nat)
    requires z.chunk > 0 && k < n
    ensures ChunkAt(z, k) in AllChunks(z, n)
  {
    if k < n - 1 { InAllChunks(z, n - 1, k); }
  }
}
