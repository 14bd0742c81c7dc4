/** A region cut into adjacent blocks, each starting with a header, as both in-band heap allocators
    keep it.  A block extends to the start of the next one, so cutting a block is inserting an
    entry and merging two is deleting one. */
module Blocks {
  import opened Words

  datatype Block = Block(off: nat, used: bool)

  predicate Aligned(n: int) { n % 4 == 0 }

  /** RT_ALIGN to four bytes on a 32-bit size: a size in the last three bytes wraps to zero. */
  function Align(size: nat): nat {
    var n := (size + 3) % WRAP;
    n - n % 4
  }

  lemma AlignRoundsUp(size: nat)
    requires size <= WRAP - 4
    ensures size <= Align(size) < size + 4 && Aligned(Align(size))
  {
  }

  ghost predicate FreeBlock(bs: seq<Block>, off: nat) {
    exists i :: 0 <= i < |bs| && bs[i] == Block(off, false)
  }

  /** Where block `i` ends: the next block, or the end of the region. */
  function Next(bs: seq<Block>, end: nat, i: nat): nat
    requires i < |bs|
  {
    if i + 1 < |bs| then bs[i + 1].off else end
  }

  /** The blocks tile `0..end`: they start at 0, leave no gap, are aligned to four bytes, and each
      has room for its header. */
  ghost predicate Tiled(bs: seq<Block>, end: nat, header: nat) {
    && bs != [] && bs[0].off == 0 && Aligned(end)
    && forall i :: 0 <= i < |bs| ==> Fits(bs, end, header, i)
  }

  ghost predicate Fits(bs: seq<Block>, end: nat, header: nat, i: nat)
    requires i < |bs|
  {
    Aligned(bs[i].off) && bs[i].off + header <= Next(bs, end, i)
  }

  /** No two neighbours are both free. */
  ghost predicate Coalesced(bs: seq<Block>) {
    forall i :: 0 <= i < |bs| - 1 ==> Separated(bs, i)
  }

  ghost predicate Separated(bs: seq<Block>, i: nat)
    requires i + 1 < |bs|
  {
    bs[i].used || bs[i + 1].used
  }

  lemma {:induction false} Ordered(bs: seq<Block>, end: nat, header: nat, i: nat, j: nat)
    requires Tiled(bs, end, header) && i < j <= |bs|
    ensures bs[i].off + header <= Next(bs, end, i) <= (if j == |bs| then end else bs[j].off)
    decreases j - i
  {
    assert Fits(bs, end, header, i);
    if i + 1 < j { Ordered(bs, end, header, i + 1, j); }
  }

  /** The index of the block that starts at `off`, or the number of blocks. */
  function IndexAt(bs: seq<Block>, off: nat): (i: nat)
    ensures i <= |bs|
    ensures i < |bs| ==> bs[i].off == off
    ensures forall j :: 0 <= j < i ==> bs[j].off != off
  {
    if bs == [] || bs[0].off == off then 0 else 1 + IndexAt(bs[1..], off)
  }

  lemma IndexAtBlock(bs: seq<Block>, end: nat, header: nat, i: nat)
    requires Tiled(bs, end, header) && header > 0 && i < |bs|
    ensures IndexAt(bs, bs[i].off) == i
  {
    var k := IndexAt(bs, bs[i].off);
    if k < i { Ordered(bs, end, header, k, i); }
  }

  function Insert(bs: seq<Block>, i: nat, b: Block): seq<Block>
    requires i <= |bs|
  {
    bs[..i] + [b] + bs[i..]
  }

  function Delete(bs: seq<Block>, i: nat): seq<Block>
    requires i < |bs|
  {
    bs[..i] + bs[i + 1..]
  }

  function Mark(bs: seq<Block>, i: nat, used: bool): seq<Block>
    requires i < |bs|
  {
    bs[i := bs[i].(used := used)]
  }

  lemma MarkTiled(bs: seq<Block>, end: nat, header: nat, i: nat, used: bool)
    requires Tiled(bs, end, header) && i < |bs|
    ensures Tiled(Mark(bs, i, used), end, header)
  {
    var m := Mark(bs, i, used);
    forall k | 0 <= k < |m| ensures Fits(m, end, header, k)
    {
      assert Fits(bs, end, header, k);
    }
  }

  lemma InsertTiled(bs: seq<Block>, end: nat, header: nat, i: nat, b: Block)
    requires Tiled(bs, end, header) && 0 < i <= |bs| && Aligned(b.off)
    requires bs[i - 1].off + header <= b.off && b.off + header <= Next(bs, end, i - 1)
    ensures Tiled(Insert(bs, i, b), end, header)
  {
    var m := Insert(bs, i, b);
    forall k | 0 <= k < |m| ensures Fits(m, end, header, k)
    {
      if k < i { assert Fits(bs, end, header, k); } else if k > i { assert Fits(bs, end, header, k - 1); }
    }
  }

  lemma DeleteTiled(bs: seq<Block>, end: nat, header: nat, i: nat)
    requires Tiled(bs, end, header) && 0 < i < |bs|
    ensures Tiled(Delete(bs, i), end, header)
  {
    var m := Delete(bs, i);
    forall k | 0 <= k < |m| ensures Fits(m, end, header, k)
    {
      if k < i { assert Fits(bs, end, header, k); } else { assert Fits(bs, end, header, k + 1); }
      assert Fits(bs, end, header, i);
    }
  }

  /** Bytes taken by the used blocks, or by the payloads of the free ones: each block counts
      `weight(used, extent)`. */
  function Total(bs: seq<Block>, end: int, weight: (bool, int) -> int): int {
    if bs == [] then 0
    else
      var last := bs[|bs| - 1];
      Total(bs[..|bs| - 1], last.off, weight) + weight(last.used, end - last.off)
  }

  lemma {:induction false} TotalSplit(bs: seq<Block>, end: int, weight: (bool, int) -> int, i: nat)
    requires i < |bs|
    ensures Total(bs, end, weight) == Total(bs[..i], bs[i].off, weight) + Total(bs[i..], end, weight)
    decreases |bs|
  {
    var n := |bs| - 1;
    if i == n {
      assert bs[i..] == [bs[i]];
      assert Total([], bs[i].off, weight) == 0 && [bs[i]][..0] == [];
    } else {
      TotalSplit(bs[..n], bs[n].off, weight, i);
      assert bs[..n][..i] == bs[..i] && bs[i..][..n - i] == bs[..n][i..];
      assert bs[i..][n - i] == bs[n];
    }
  }

  /** The total of one block. */
  lemma TotalOne(b: Block, end: int, weight: (bool, int) -> int)
    ensures Total([b], end, weight) == weight(b.used, end - b.off)
  {
    assert [b][..0] == [];
  }

  /** The total around block `i`: what lies before, the block, what lies after. */
  lemma TotalAt(bs: seq<Block>, end: int, weight: (bool, int) -> int, i: nat)
    requires i < |bs|
    ensures var next := if i + 1 < |bs| then bs[i + 1].off else end;
            Total(bs, end, weight) ==
            Total(bs[..i], bs[i].off, weight) + weight(bs[i].used, next - bs[i].off) + Total(bs[i + 1..], end, weight)
  {
    TotalSplit(bs, end, weight, i);
    if i + 1 < |bs| {
      TotalSplit(bs[i..], end, weight, 1);
      assert bs[i..][..1] == [bs[i]] && bs[i..][1..] == bs[i + 1..];
      TotalOne(bs[i], bs[i + 1].off, weight);
    } else {
      assert bs[i..] == [bs[i]] && bs[i + 1..] == [];
      TotalOne(bs[i], end, weight);
    }
  }

  lemma TotalMark(bs: seq<Block>, end: nat, weight: (bool, int) -> int, i: nat, used: bool)
    requires i < |bs|
    ensures var extent := Next(bs, end, i) - bs[i].off;
            Total(Mark(bs, i, used), end, weight) ==
            Total(bs, end, weight) - weight(bs[i].used, extent) + weight(used, extent)
  {
    var m := Mark(bs, i, used);
    TotalAt(bs, end, weight, i);
    TotalAt(m, end, weight, i);
    assert m[..i] == bs[..i] && m[i + 1..] == bs[i + 1..];
  }

  lemma TotalInsert(bs: seq<Block>, end: nat, weight: (bool, int) -> int, i: nat, b: Block)
    requires 0 < i <= |bs|
    ensures var a, next := bs[i - 1], Next(bs, end, i - 1);
            Total(Insert(bs, i, b), end, weight) ==
            Total(bs, end, weight) - weight(a.used, next - a.off)
            + weight(a.used, b.off - a.off) + weight(b.used, next - b.off)
  {
    var m := Insert(bs, i, b);
    TotalAt(bs, end, weight, i - 1);
    TotalAt(m, end, weight, i - 1);
    TotalAt(m[i..], end, weight, 0);
    assert m[..i - 1] == bs[..i - 1] && m[i..][1..] == bs[i..] && m[i..][..0] == [];
  }

  /** Deleting an entry is the reverse of inserting it. */
  lemma TotalDelete(bs: seq<Block>, end: nat, weight: (bool, int) -> int, i: nat)
    requires 0 < i < |bs|
    ensures var a, b, next := bs[i - 1], bs[i], Next(bs, end, i);
            Total(Delete(bs, i), end, weight) ==
            Total(bs, end, weight) + weight(a.used, next - a.off)
            - weight(a.used, b.off - a.off) - weight(b.used, next - b.off)
  {
    var d := Delete(bs, i);
    assert Insert(d, i, bs[i]) == bs;
    TotalInsert(d, end, weight, i, bs[i]);
  }

  lemma {:induction false} TotalSigned(bs: seq<Block>, end: nat, header: nat, weight: (bool, int) -> int)
    requires Tiled(bs, end, header)
    requires forall u, n: int {:trigger weight(u, n)} :: n >= header ==> weight(u, n) >= 0
    ensures Total(bs, end, weight) >= 0
    decreases |bs|
  {
    var n := |bs| - 1;
    assert Fits(bs, end, header, n);
    if n > 0 {
      PrefixTiled(bs, end, header, n);
      TotalSigned(bs[..n], bs[n].off, header, weight);
    } else {
      assert bs[..0] == [];
    }
  }

  lemma PrefixTiled(bs: seq<Block>, end: nat, header: nat, n: nat)
    requires Tiled(bs, end, header) && 0 < n < |bs|
    ensures Tiled(bs[..n], bs[n].off, header)
  {
    var m := bs[..n];
    assert Fits(bs, end, header, n);
    forall k | 0 <= k < |m| ensures Fits(m, bs[n].off, header, k)
    {
      assert Fits(bs, end, header, k);
    }
  }

  /** A used block together with its end: what one allocation owns. */
  ghost predicate Live(bs: seq<Block>, end: nat, off: nat, next: nat) {
    exists i: nat :: i < |bs| && LiveAt(bs, end, i, off, next)
  }

  ghost predicate LiveAt(bs: seq<Block>, end: nat, i: nat, off: nat, next: nat)
    requires i < |bs|
  {
    bs[i] == Block(off, true) && Next(bs, end, i) == next
  }

  lemma LiveIndex(bs: seq<Block>, end: nat, off: nat, next: nat) returns (i: nat)
    requires Live(bs, end, off, next)
    ensures i < |bs| && bs[i] == Block(off, true) && Next(bs, end, i) == next
  {
    i :| i < |bs| && LiveAt(bs, end, i, off, next);
  }

  /** Live blocks lie in the region and do not overlap. */
  lemma LiveDisjoint(bs: seq<Block>, end: nat, header: nat, off: nat, next: nat, off': nat, next': nat)
    requires Tiled(bs, end, header) && Live(bs, end, off, next) && Live(bs, end, off', next')
    ensures Aligned(off) && off + header <= next <= end && off' + header <= next'
    ensures (off == off' && next == next') || next <= off' || next' <= off
  {
    var i: nat :| i < |bs| && LiveAt(bs, end, i, off, next);
    var j: nat :| j < |bs| && LiveAt(bs, end, j, off', next');
    assert Fits(bs, end, header, i);
    assert Fits(bs, end, header, j);
    Ordered(bs, end, header, i, |bs|);
    if i < j { Ordered(bs, end, header, i, j); } else if j < i { Ordered(bs, end, header, j, i); }
  }

  /** Merging two free neighbours leaves every live block as it was. */
  lemma DeleteLive(bs: seq<Block>, end: nat, i: nat, off: nat, next: nat)
    requires 0 < i < |bs| && !bs[i - 1].used && !bs[i].used
    ensures Live(Delete(bs, i), end, off, next) <==> Live(bs, end, off, next)
  {
    var m := Delete(bs, i);
    if Live(bs, end, off, next) {
      var k: nat :| k < |bs| && LiveAt(bs, end, k, off, next);
      assert LiveAt(m, end, if k < i then k else k - 1, off, next);
    }
    if Live(m, end, off, next) {
      var k: nat :| k < |m| && LiveAt(m, end, k, off, next);
      assert LiveAt(bs, end, if k < i then k else k + 1, off, next);
    }
  }

  /** Cutting a free remainder off block `i - 1` changes only that block's extent. */
  lemma InsertLive(bs: seq<Block>, end: nat, header: nat, i: nat, b: Block, off: nat, next: nat)
    requires Tiled(bs, end, header) && header > 0 && 0 < i <= |bs| && !b.used
    ensures Live(Insert(bs, i, b), end, off, next) <==>
            if off == bs[i - 1].off then bs[i - 1].used && next == b.off else Live(bs, end, off, next)
  {
    hide Tiled;
    var m := Insert(bs, i, b);
    if Live(m, end, off, next) { InsertedLive(bs, end, header, i, b, off, next); }
    if off == bs[i - 1].off {
      assert bs[i - 1].used ==> LiveAt(m, end, i - 1, off, b.off);
    } else if Live(bs, end, off, next) {
      var k: nat :| k < |bs| && LiveAt(bs, end, k, off, next);
      assert LiveAt(m, end, if k < i then k else k + 1, off, next);
    }
  }

  lemma InsertedLive(bs: seq<Block>, end: nat, header: nat, i: nat, b: Block, off: nat, next: nat)
    requires Tiled(bs, end, header) && header > 0 && 0 < i <= |bs| && !b.used && Live(Insert(bs, i, b), end, off, next)
    ensures if off == bs[i - 1].off then bs[i - 1].used && next == b.off else Live(bs, end, off, next)
  {
    hide Tiled;
    var m := Insert(bs, i, b);
    var k: nat :| k < |m| && LiveAt(m, end, k, off, next);
    if off == bs[i - 1].off {
      IndexAtBlock(bs, end, header, i - 1);
      if k < i { IndexAtBlock(bs, end, header, k); } else { IndexAtBlock(bs, end, header, k - 1); }
    } else {
      assert LiveAt(bs, end, if k < i then k else k - 1, off, next);
    }
  }

  /** Marking a block used or free makes exactly that block live or not. */
  lemma MarkLive(bs: seq<Block>, end: nat, header: nat, i: nat, used: bool, off: nat, next: nat)
    requires Tiled(bs, end, header) && header > 0 && i < |bs|
    ensures Live(Mark(bs, i, used), end, off, next) <==>
            if off == bs[i].off then used && next == Next(bs, end, i) else Live(bs, end, off, next)
  {
    var m := Mark(bs, i, used);
    if Live(m, end, off, next) {
      var k: nat :| k < |m| && LiveAt(m, end, k, off, next);
      if off == bs[i].off {
        IndexAtBlock(bs, end, header, i);
        IndexAtBlock(bs, end, header, k);
      } else {
        assert LiveAt(bs, end, k, off, next);
      }
    }
    if off == bs[i].off {
      assert used ==> LiveAt(m, end, i, off, Next(bs, end, i));
    } else if Live(bs, end, off, next) {
      var k: nat :| k < |bs| && LiveAt(bs, end, k, off, next);
      assert LiveAt(m, end, k, off, next);
    }
  }

  /** A used block that swallows its free successor is the only one to change its extent. */
  lemma AbsorbLive(bs: seq<Block>, end: nat, header: nat, i: nat, off: nat, next: nat)
    requires Tiled(bs, end, header) && header > 0 && 0 < i < |bs| && bs[i - 1].used && !bs[i].used
    ensures Live(Delete(bs, i), end, off, next) <==>
            if off == bs[i - 1].off then next == Next(bs, end, i) else Live(bs, end, off, next)
  {
    var d := Delete(bs, i);
    assert Insert(d, i, bs[i]) == bs;
    DeleteTiled(bs, end, header, i);
    InsertLive(d, end, header, i, bs[i], off, next);
    assert d[i - 1] == bs[i - 1];
    if off == bs[i - 1].off {
      assert LiveAt(d, end, i - 1, off, Next(bs, end, i));
      if Live(d, end, off, next) {
        LiveDisjoint(d, end, header, off, next, off, Next(bs, end, i));
      }
    }
  }

  lemma FreeMark(bs: seq<Block>, end: nat, header: nat, i: nat, used: bool, x: nat)
    requires Tiled(bs, end, header) && header > 0 && i < |bs|
    ensures FreeBlock(Mark(bs, i, used), x) <==> if x == bs[i].off then !used else FreeBlock(bs, x)
  {
    var m := Mark(bs, i, used);
    assert m[i] == Block(bs[i].off, used);
    if FreeBlock(m, x) {
      var k :| 0 <= k < |m| && m[k] == Block(x, false);
      IndexAtBlock(bs, end, header, i);
      IndexAtBlock(bs, end, header, k);
      assert k != i ==> bs[k] == m[k];
    }
    if FreeBlock(bs, x) && x != bs[i].off {
      var k :| 0 <= k < |bs| && bs[k] == Block(x, false);
      assert m[k] == bs[k];
    }
  }

  lemma FreeInsert(bs: seq<Block>, end: nat, header: nat, i: nat, off: nat, x: nat)
    requires Tiled(bs, end, header) && header > 0 && 0 < i <= |bs|
    requires bs[i - 1].off < off < Next(bs, end, i - 1)
    ensures FreeBlock(Insert(bs, i, Block(off, false)), x) <==> x == off || FreeBlock(bs, x)
  {
    var m := Insert(bs, i, Block(off, false));
    assert m[i] == Block(off, false);
    if FreeBlock(m, x) && x != off {
      var k :| 0 <= k < |m| && m[k] == Block(x, false);
      assert bs[if k < i then k else k - 1] == m[k];
    }
    if FreeBlock(bs, x) {
      var k :| 0 <= k < |bs| && bs[k] == Block(x, false);
      assert m[if k < i then k else k + 1] == bs[k];
    }
  }

  /** No block starts inside another. */
  lemma InsideIsNoBlock(bs: seq<Block>, end: nat, header: nat, i: nat, off: nat)
    requires Tiled(bs, end, header) && i < |bs| && bs[i].off < off < Next(bs, end, i)
    ensures forall k :: 0 <= k < |bs| ==> bs[k].off != off
  {
    forall k | 0 <= k < |bs| ensures bs[k].off != off {
      if k < i { Ordered(bs, end, header, k, i); } else if i < k { Ordered(bs, end, header, i, k); }
    }
  }

  lemma FreeDelete(bs: seq<Block>, end: nat, header: nat, i: nat, x: nat)
    requires Tiled(bs, end, header) && header > 0 && i < |bs|
    ensures FreeBlock(Delete(bs, i), x) <==> FreeBlock(bs, x) && x != bs[i].off
  {
    var m := Delete(bs, i);
    IndexAtBlock(bs, end, header, i);
    if FreeBlock(m, x) {
      var k :| 0 <= k < |m| && m[k] == Block(x, false);
      var k' := if k < i then k else k + 1;
      assert bs[k'] == m[k];
      IndexAtBlock(bs, end, header, k');
    }
    if FreeBlock(bs, x) && x != bs[i].off {
      var k :| 0 <= k < |bs| && bs[k] == Block(x, false);
      assert m[if k < i then k else k - 1] == bs[k];
    }
  }
}
