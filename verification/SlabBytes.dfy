/** The contents of live blocks of the slab allocator: what it writes itself, a header at the start of each
    zone and a link in each freed chunk, never reaches them, and what a reallocation carries over. */
module SlabBytes {
  import opened Lists
  import opened Pages
  import opened Slab
  import opened Words
  import opened Zones

  /** The link in a free chunk. */
  const LINK: nat := 4

  /** The bytes `at..at + n` cleared. */
  function Cleared(bytes: seq<int>, at: nat, n: nat): seq<int>
    requires at + n <= |bytes|
  {
    bytes[..at] + seq(n, _ => 0) + bytes[at + n..]
  }

  /** The bytes `p..p + n` copied to `q`. */
  function Copied(bytes: seq<int>, p: nat, q: nat, n: nat): seq<int>
    requires p + n <= |bytes| && q + n <= |bytes|
  {
    bytes[..q] + bytes[p..p + n] + bytes[q + n..]
  }

  /** Every byte of every live block stays, except those of block `except`. */
  ghost predicate Kept(s: Heap, b: seq<int>, b': seq<int>, except: Option<nat>) {
    && |b'| == |b|
    && forall p: nat, end: nat, a: nat :: Inside(s, p, end, a) && Some(p) != except && a < |b| ==> b'[a] == b[a]
  }

  ghost predicate Inside(s: Heap, p: nat, end: nat, a: nat) { Extent(s, p, end) && p <= a < end }

  /** The block at `r` starts with the bytes of live block `p`, as many of the first `size` as there are. */
  ghost predicate Carried(s: Heap, b: seq<int>, b': seq<int>, p: nat, r: nat, size: nat) {
    forall end: nat :: Extent(s, p, end) ==> CarriedTo(b, b', p, r, Min(size, end - p))
  }

  ghost predicate CarriedTo(b: seq<int>, b': seq<int>, p: nat, r: nat, n: int) {
    0 <= n && p + n <= |b| && r + n <= |b'| && b'[r..r + n] == b[p..p + n]
  }

  lemma ExtentInside(s: Heap, p: nat, end: nat)
    requires Valid(s) && Extent(s, p, end)
    ensures p + 8 <= end <= |s.usage| * PAGE
  {
    hide UsageOk; hide ListsOk; hide IdleOk; hide Canonical; hide LiveChunk;
    ExtentLength(s, p, end);
    LiveDisjoint(s, p, end, p, end, end - 1);
  }

  lemma ExtentLength(s: Heap, p: nat, end: nat)
    requires Valid(s) && Extent(s, p, end)
    ensures p + 8 <= end
  {
    hide UsageOk; hide ListsOk; hide IdleOk; hide Canonical; hide LiveChunk; hide ChunkOf; hide Offset; hide Carved;
    if !LargeExtent(s, p, end) {
      var zp :| ChunkExtent(s, zp, p, end);
      assert ZoneOk(zp, s.zones[zp], s.zpages);
    }
  }

  /** One live block has one extent. */
  lemma ExtentUnique(s: Heap, p: nat, end: nat, end': nat)
    requires Valid(s) && Extent(s, p, end) && Extent(s, p, end')
    ensures end == end'
  {
    hide UsageOk; hide ListsOk; hide IdleOk; hide Canonical; hide ZonesOk; hide LiveChunk; hide LiveLarge;
    if zp :| ChunkExtent(s, zp, p, end) { StaysInPlace(s, zp, p); }
    if zp :| ChunkExtent(s, zp, p, end') { StaysInPlace(s, zp, p); }
  }

  /** The header of a zone in use reaches no live block. */
  lemma HeaderOutside(s: Heap, zp: nat, p: nat, end: nat, a: nat)
    requires Valid(s) && zp in s.zones && zp * PAGE <= a < zp * PAGE + ZONE_HEADER
    ensures !Inside(s, p, end, a)
  {
    hide ListsOk; hide IdleOk; hide Canonical; hide LiveIn; hide LiveLarge; hide ZoneOk; hide LargeOk; hide IsFree;
    if Inside(s, p, end, a) {
      PageBounds(zp, s.zpages, a);
      assert ZonePage(Owners(s), s.zpages, zp, a / PAGE);
      if LargeExtent(s, p, end) {
        LargePages(s, p, end, a);
      } else {
        var yp :| ChunkExtent(s, yp, p, end);
        ChunkPages(s, yp, p, end, a);
        ChunkPage(s, yp, p);
      }
      assert false;
    }
  }

  lemma HeaderKept(s: Heap, b: seq<int>, zp: nat)
    requires Valid(s) && zp in s.zones && zp * PAGE + ZONE_HEADER <= |b|
    ensures Kept(s, b, Cleared(b, zp * PAGE, ZONE_HEADER), None)
  {
    hide Valid; hide Inside;
    var b' := Cleared(b, zp * PAGE, ZONE_HEADER);
    forall p: nat, end: nat, a: nat | Inside(s, p, end, a) && a < |b| ensures b'[a] == b[a] {
      if zp * PAGE <= a < zp * PAGE + ZONE_HEADER { HeaderOutside(s, zp, p, end, a); }
    }
  }

  /** Writes to the start of a live block reach no other. */
  lemma BlockKept(s: Heap, b: seq<int>, b': seq<int>, p: nat, end: nat, n: nat)
    requires Valid(s) && Extent(s, p, end) && p + n <= end && |b'| == |b|
    requires forall a {:trigger b'[a]} :: 0 <= a < |b| && !(p <= a < p + n) ==> b'[a] == b[a]
    ensures Kept(s, b, b', Some(p))
  {
    hide Valid; hide Extent;
    forall q: nat, e: nat, a: nat | Inside(s, q, e, a) && Some(q) != Some(p) && a < |b| ensures b'[a] == b[a] {
      if p <= a < p + n { LiveDisjoint(s, p, end, q, e, a); }
    }
  }

  lemma AllKept(s: Heap, b: seq<int>)
    ensures forall except :: Kept(s, b, b, except)
  {
  }

  /** The header of zone `zp` was cleared. */
  ghost predicate HeaderWritten(s: Heap, b: seq<int>, b': seq<int>, zp: nat) {
    zp in s.zones && zp * PAGE + ZONE_HEADER <= |b| && b' == Cleared(b, zp * PAGE, ZONE_HEADER)
  }

  lemma KeptBefore(s: Heap, s1: Heap, b: seq<int>, b': seq<int>, except: Option<nat>)
    requires Kept(s1, b, b', except) && forall p: nat, end: nat :: Extent(s, p, end) ==> Extent(s1, p, end)
    ensures Kept(s, b, b', except)
  {
    hide Extent;
    forall p: nat, end: nat, a: nat | Inside(s, p, end, a) && Some(p) != except && a < |b| ensures b'[a] == b[a] {
      assert Inside(s1, p, end, a);
    }
  }

  lemma CarriedInPlace(s: Heap, b: seq<int>, p: nat, size: nat)
    requires Valid(s) && |b| == |s.usage| * PAGE
    ensures Kept(s, b, b, Some(p)) && Carried(s, b, b, p, p, size)
  {
    hide Valid; hide Extent;
    forall end: nat | Extent(s, p, end) ensures CarriedTo(b, b, p, p, Min(size, end - p)) { ExtentInside(s, p, end); }
  }

  lemma CarriedLess(s: Heap, b: seq<int>, b': seq<int>, p: nat, r: nat, size: nat, less: nat)
    requires Carried(s, b, b', p, r, size) && less <= size
    ensures Carried(s, b, b', p, r, less)
  {
    hide Extent;
    forall end: nat | Extent(s, p, end) ensures CarriedTo(b, b', p, r, Min(less, end - p)) {
      var n, m := Min(size, end - p), Min(less, end - p);
      assert CarriedTo(b, b', p, r, n);
      assert b'[r..r + m] == b'[r..r + n][..m] && b[p..p + m] == b[p..p + n][..m];
    }
  }

  /** Contents through a move: `b1` after the allocation, `b2` after the copy, `b3` after the old block was
      freed. */
  lemma MoveBytes(s: Heap, s1: Heap, p: nat, end: nat, r: nat, last: nat, n: nat,
                  b0: seq<int>, b1: seq<int>, b2: seq<int>, b3: seq<int>, size: nat)
    requires Valid(s) && Valid(s1) && Extent(s, p, end) && Adds(s, s1, r, last) && |b0| == |s.usage| * PAGE
    requires |s1.usage| == |s.usage| && r + n <= last && n == Min(size, end - p)
    requires Kept(s, b0, b1, None) && p + n <= |b1| && r + n <= |b1| && b2 == Copied(b1, p, r, n)
    requires Kept(s1, b2, b3, Some(p))
    ensures Kept(s, b0, b3, Some(p)) && Carried(s, b0, b3, p, r, size)
  {
    hide Valid; hide Extent;
    assert Extent(s1, p, end) && Extent(s1, r, last) && p != r;
    var before, after := b0[p..p + n], b3[r..r + n];
    forall i: nat | i < n ensures after[i] == before[i] {
      assert Inside(s, p, end, p + i);
      assert Inside(s1, r, last, r + i);
      assert b2[r + i] == b1[p + i];
    }
    assert after == before;
    forall e: nat | Extent(s, p, e) ensures CarriedTo(b0, b3, p, r, Min(size, e - p)) { ExtentUnique(s, p, end, e); }
    forall q: nat, e: nat, a: nat | Inside(s, q, e, a) && Some(q) != Some(p) && a < |b0| ensures b3[a] == b0[a] {
      assert Inside(s1, q, e, a);
      if r <= a < r + n { LiveDisjoint(s1, q, e, r, last, a); }
      assert b2[a] == b1[a];
    }
  }
}
