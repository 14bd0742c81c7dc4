/** The page allocator of src/slab.c: runs of free pages in address order, first as a value with
    `rt_page_alloc` and `rt_page_free` on it, then in place as heads linked inside the free pages. */
module Pages {
  import opened Lists

  /** `count` free pages from `page` on. */
  datatype Run = Run(page: nat, count: nat)

  /** Runs are not empty, sorted, disjoint, and no two of them touch. */
  ghost predicate Canonical(runs: seq<Run>) {
    forall i :: 0 <= i < |runs| ==> Isolated(runs, i)
  }

  ghost predicate Isolated(runs: seq<Run>, i: nat)
    requires i < |runs|
  {
    runs[i].count > 0 && (i + 1 < |runs| ==> runs[i].page + runs[i].count < runs[i + 1].page)
  }

  ghost predicate Covers(r: Run, p: nat) { r.page <= p < r.page + r.count }

  /** Page `p` is free. */
  ghost predicate IsFree(runs: seq<Run>, p: nat) {
    exists i :: 0 <= i < |runs| && Covers(runs[i], p)
  }

  lemma IsFreeFirst(runs: seq<Run>, p: nat)
    requires runs != []
    ensures IsFree(runs, p) <==> Covers(runs[0], p) || IsFree(runs[1..], p)
  {
    if IsFree(runs[1..], p) {
      var i :| 0 <= i < |runs[1..]| && Covers(runs[1..][i], p);
      assert Covers(runs[i + 1], p);
    }
    if IsFree(runs, p) && !Covers(runs[0], p) {
      var i :| 0 <= i < |runs| && Covers(runs[i], p);
      assert Covers(runs[1..][i - 1], p);
    }
  }

  lemma CanonicalRest(runs: seq<Run>)
    requires Canonical(runs) && runs != []
    ensures Canonical(runs[1..]) && Isolated(runs, 0)
  {
    forall i | 0 <= i < |runs| - 1 ensures Isolated(runs[1..], i) { assert Isolated(runs, i + 1); }
  }

  lemma CanonicalFirst(r: Run, rest: seq<Run>)
    requires Canonical(rest) && r.count > 0 && (rest != [] ==> r.page + r.count < rest[0].page)
    ensures Canonical([r] + rest)
  {
    forall i | 0 <= i < |rest| + 1 ensures Isolated([r] + rest, i) {
      if i > 0 { assert Isolated(rest, i - 1); }
    }
  }

  /** No free page lies before the first run. */
  lemma {:induction false} FreeFromFirst(runs: seq<Run>, p: nat)
    requires Canonical(runs) && IsFree(runs, p)
    ensures runs != [] && runs[0].page <= p
    decreases |runs|
  {
    var i :| 0 <= i < |runs| && Covers(runs[i], p);
    if i > 0 {
      IsFreeFirst(runs, p);
      CanonicalRest(runs);
      assert Covers(runs[1..][i - 1], p);
      FreeFromFirst(runs[1..], p);
    }
  }

  /** The page after a run and those between runs are not free. */
  lemma GapAfterFirst(runs: seq<Run>, p: nat)
    requires Canonical(runs) && runs != [] && runs[0].page + runs[0].count <= p
    requires |runs| > 1 ==> p < runs[1].page
    ensures !IsFree(runs, p)
  {
    CanonicalRest(runs);
    IsFreeFirst(runs, p);
    if IsFree(runs[1..], p) { FreeFromFirst(runs[1..], p); }
  }

  /** The run list is a canonical form: it is determined by the set of free pages. */
  lemma {:induction false} CanonicalUnique(a: seq<Run>, b: seq<Run>)
    requires Canonical(a) && Canonical(b)
    requires forall p :: IsFree(a, p) <==> IsFree(b, p)
    ensures a == b
    decreases |a|
  {
    if a != [] && b != [] {
      CanonicalRest(a);
      CanonicalRest(b);
      SameFirst(a, b);
      forall p: nat ensures IsFree(a[1..], p) <==> IsFree(b[1..], p) {
        IsFreeFirst(a, p);
        IsFreeFirst(b, p);
        assert IsFree(a, p) <==> IsFree(b, p);
        if IsFree(a[1..], p) { FreeFromFirst(a[1..], p); }
        if IsFree(b[1..], p) { FreeFromFirst(b[1..], p); }
      }
      CanonicalUnique(a[1..], b[1..]);
      assert a == [a[0]] + a[1..] && b == [b[0]] + b[1..];
    } else {
      FirstPage(a);
      FirstPage(b);
    }
  }

  lemma FirstPage(runs: seq<Run>)
    requires Canonical(runs)
    ensures runs == [] || (IsFree(runs, runs[0].page) && !IsFree(runs, runs[0].page + runs[0].count))
  {
    if runs != [] {
      assert Isolated(runs, 0);
      assert Covers(runs[0], runs[0].page);
      GapAfterFirst(runs, runs[0].page + runs[0].count);
    }
  }

  lemma CoveredIsFree(runs: seq<Run>, p: nat)
    requires runs != []
    ensures Covers(runs[0], p) ==> IsFree(runs, p)
  {
  }

  lemma SameFirst(a: seq<Run>, b: seq<Run>)
    requires Canonical(a) && Canonical(b) && a != [] && b != []
    requires forall p :: IsFree(a, p) <==> IsFree(b, p)
    ensures a[0] == b[0]
  {
    FirstPage(a);
    FirstPage(b);
    FreeFromFirst(b, a[0].page);
    FreeFromFirst(a, b[0].page);
    var (x, y) := (a[0].page + a[0].count, b[0].page + b[0].count);
    assert !IsFree(b, x) && !IsFree(a, y);
    CoveredIsFree(b, x);
    CoveredIsFree(a, y);
  }

  // ----- rt_page_alloc -----

  /** First fit: the run keeps its upper pages. */
  function AllocRun(runs: seq<Run>, n: nat): (seq<Run>, Option<nat>)
    decreases |runs|
  {
    if runs == [] then (runs, None)
    else
      var b := runs[0];
      if b.count > n then ([Run(b.page + n, b.count - n)] + runs[1..], Some(b.page))
      else if b.count == n then (runs[1..], Some(b.page))
      else
        var (rest, r) := AllocRun(runs[1..], n);
        ([b] + rest, r)
  }

  function AllocPages(runs: seq<Run>, n: nat): (seq<Run>, Option<nat>) {
    if n == 0 then (runs, None) else AllocRun(runs, n)
  }

  ghost predicate InRange(at: nat, n: nat, p: nat) { at <= p < at + n }

  /** The first run that is long enough gives its first pages. */
  lemma {:induction false} AllocFirst(runs: seq<Run>, n: nat)
    ensures match AllocRun(runs, n).1
            case None => forall i :: 0 <= i < |runs| ==> runs[i].count < n
            case Some(at) => exists i :: 0 <= i < |runs| && runs[i].page == at && FirstLong(runs, n, i)
    decreases |runs|
  {
    if runs != [] && runs[0].count < n {
      AllocFirst(runs[1..], n);
      if AllocRun(runs[1..], n).1.Some? {
        var i :| 0 <= i < |runs[1..]| && runs[1..][i].page == AllocRun(runs[1..], n).1.value && FirstLong(runs[1..], n, i);
        assert runs[i + 1] == runs[1..][i];
        assert FirstLong(runs, n, i + 1) by {
          forall j | 0 <= j < i + 1 ensures runs[j].count < n { if j > 0 { assert runs[j] == runs[1..][j - 1]; } }
        }
      }
    } else if runs != [] {
      assert FirstLong(runs, n, 0);
    }
  }

  ghost predicate FirstLong(runs: seq<Run>, n: nat, i: nat)
    requires i < |runs|
  {
    runs[i].count >= n && forall j :: 0 <= j < i ==> runs[j].count < n
  }

  /** Allocation keeps the canonical form; it returns NULL exactly when no run is long enough, and
      otherwise takes exactly the returned pages, which were free. */
  lemma {:induction false} AllocKeeps(runs: seq<Run>, n: nat)
    requires Canonical(runs) && n > 0
    ensures var (runs', r) := AllocRun(runs, n);
            && Canonical(runs')
            && (r.None? <==> forall i :: 0 <= i < |runs| ==> runs[i].count < n)
            && (runs' != [] ==> runs != [] && runs'[0].page >= runs[0].page)
            && match r
               case None => runs' == runs
               case Some(at) => forall p :: if InRange(at, n, p) then IsFree(runs, p) && !IsFree(runs', p)
                                            else IsFree(runs', p) <==> IsFree(runs, p)
    decreases |runs|
  {
    if runs != [] {
      var b, rest := runs[0], runs[1..];
      CanonicalRest(runs);
      if b.count >= n {
        var (runs', _) := AllocRun(runs, n);
        if b.count > n { CanonicalFirst(Run(b.page + n, b.count - n), rest); }
        forall p: nat ensures if InRange(b.page, n, p) then IsFree(runs, p) && !IsFree(runs', p)
                              else IsFree(runs', p) <==> IsFree(runs, p)
        {
          IsFreeFirst(runs, p);
          if b.count > n {
            IsFreeFirst(runs', p);
            assert runs'[1..] == rest;
          }
          if IsFree(rest, p) { FreeFromFirst(rest, p); }
        }
      } else {
        AllocKeeps(rest, n);
        var (rest', r) := AllocRun(rest, n);
        var runs' := [b] + rest';
        CanonicalFirst(b, rest');
        assert runs == [b] + rest && runs'[1..] == rest';
        assert r.None? <==> forall i :: 0 <= i < |runs| ==> runs[i].count < n by {
          assert forall i :: 0 <= i < |rest| ==> rest[i] == runs[i + 1];
          if r.Some? {
            var i :| 0 <= i < |rest| && rest[i].count >= n;
            assert runs[i + 1].count >= n;
          }
        }
        if r.Some? {
          forall p: nat ensures if InRange(r.value, n, p) then IsFree(runs, p) && !IsFree(runs', p)
                                else IsFree(runs', p) <==> IsFree(runs, p)
          {
            IsFreeFirst(runs, p);
            IsFreeFirst(runs', p);
            assert InRange(r.value, n, p) ==> IsFree(rest, p);
            if IsFree(rest, p) { FreeFromFirst(rest, p); }
          }
        }
      }
    }
  }

  // ----- rt_page_free -----

  function FreePages(runs: seq<Run>, at: nat, n: nat): seq<Run>
    decreases |runs|
  {
    if runs == [] then [Run(at, n)]
    else
      var b := runs[0];
      if b.page + b.count == at then
        if |runs| > 1 && at + n == runs[1].page then [Run(b.page, b.count + n + runs[1].count)] + runs[2..]
        else [Run(b.page, b.count + n)] + runs[1..]
      else if b.page == at + n then [Run(at, n + b.count)] + runs[1..]
      else if b.page > at + n then [Run(at, n)] + runs
      else [b] + FreePages(runs[1..], at, n)
  }

  /** Pages that are not free. */
  ghost predicate Taken(runs: seq<Run>, at: nat, n: nat) {
    forall p :: InRange(at, n, p) ==> !IsFree(runs, p)
  }

  /** Freeing adds exactly the given pages and keeps the canonical form. */
  lemma {:induction false} FreeKeeps(runs: seq<Run>, at: nat, n: nat)
    requires Canonical(runs) && n > 0 && Taken(runs, at, n)
    ensures var runs' := FreePages(runs, at, n);
            && Canonical(runs') && runs' != [] && runs'[0].page == (if runs != [] && runs[0].page < at then runs[0].page else at)
            && forall p :: IsFree(runs', p) <==> IsFree(runs, p) || InRange(at, n, p)
    decreases |runs|
  {
    var runs' := FreePages(runs, at, n);
    if runs == [] {
      assert runs'[1..] == [];
      forall p: nat { IsFreeFirst(runs', p); }
      assert Canonical(runs');
    } else {
      var b, rest := runs[0], runs[1..];
      CanonicalRest(runs);
      BesideRun(runs, at, n);
      if b.page + b.count == at {
        if |runs| > 1 && at + n == runs[1].page {
          CanonicalRest(rest);
          assert runs[2..] == rest[1..];
          CanonicalFirst(runs'[0], rest[1..]);
          forall p: nat ensures IsFree(runs', p) <==> IsFree(runs, p) || InRange(at, n, p) {
            IsFreeFirst(runs, p);
            IsFreeFirst(rest, p);
            IsFreeFirst(runs', p);
          }
        } else {
          if |runs| > 1 { NextRun(runs, at, n); }
          CanonicalFirst(runs'[0], rest);
          FreeAtFront(runs, runs', at, n);
        }
      } else if b.page == at + n {
        CanonicalFirst(runs'[0], rest);
        FreeAtFront(runs, runs', at, n);
      } else if b.page > at + n {
        CanonicalFirst(Run(at, n), runs);
        forall p: nat { IsFreeFirst(runs', p); }
        assert runs'[1..] == runs;
      } else {
        forall p: nat | InRange(at, n, p) ensures !IsFree(rest, p) { IsFreeFirst(runs, p); }
        FreeKeeps(rest, at, n);
        CanonicalFirst(b, FreePages(rest, at, n));
        assert runs'[1..] == FreePages(rest, at, n);
        forall p: nat ensures IsFree(runs', p) <==> IsFree(runs, p) || InRange(at, n, p) {
          IsFreeFirst(runs, p);
          IsFreeFirst(runs', p);
        }
      }
    }
  }

  /** Freed pages lie before or after the first run. */
  lemma BesideRun(runs: seq<Run>, at: nat, n: nat)
    requires Canonical(runs) && runs != [] && n > 0 && Taken(runs, at, n)
    ensures at + n <= runs[0].page || runs[0].page + runs[0].count <= at
  {
    FirstPage(runs);
    assert !InRange(at, n, runs[0].page);
    if runs[0].page < at < runs[0].page + runs[0].count {
      assert Covers(runs[0], at) && InRange(at, n, at);
    }
  }

  lemma NextRun(runs: seq<Run>, at: nat, n: nat)
    requires Canonical(runs) && |runs| > 1 && n > 0 && Taken(runs, at, n) && at <= runs[1].page
    ensures at + n <= runs[1].page
  {
    assert Isolated(runs, 1);
    assert Covers(runs[1], runs[1].page);
    assert !InRange(at, n, runs[1].page);
  }

  lemma FreeAtFront(runs: seq<Run>, runs': seq<Run>, at: nat, n: nat)
    requires runs != [] && runs' != [] && runs'[1..] == runs[1..]
    requires forall p :: Covers(runs'[0], p) <==> Covers(runs[0], p) || InRange(at, n, p)
    ensures forall p :: IsFree(runs', p) <==> IsFree(runs, p) || InRange(at, n, p)
  {
    forall p: nat ensures IsFree(runs', p) <==> IsFree(runs, p) || InRange(at, n, p) {
      IsFreeFirst(runs, p);
      IsFreeFirst(runs', p);
    }
  }

  /** Freeing what an allocation returned restores the identical list. */
  lemma AllocThenFree(runs: seq<Run>, n: nat)
    requires Canonical(runs) && AllocPages(runs, n).1.Some?
    ensures FreePages(AllocPages(runs, n).0, AllocPages(runs, n).1.value, n) == runs
  {
    var (runs', r) := AllocPages(runs, n);
    AllocKeeps(runs, n);
    FreeKeeps(runs', r.value, n);
    CanonicalUnique(FreePages(runs', r.value, n), runs);
  }

  // ----- in place -----

  const NULL := -1

  /** The head stored in the first page of a run. */
  datatype Head = Head(next: int, page: nat)

  function PageAt(runs: seq<Run>, i: nat): int {
    if i < |runs| then runs[i].page else NULL
  }

  ghost predicate HeadAt(heads: map<int, Head>, runs: seq<Run>, i: nat)
    requires i < |runs|
  {
    runs[i].page in heads && heads[runs[i].page] == Head(PageAt(runs, i + 1), runs[i].count)
  }

  ghost predicate Linked(heads: map<int, Head>, runs: seq<Run>) {
    forall i :: 0 <= i < |runs| ==> HeadAt(heads, runs, i)
  }

  lemma {:induction false} RunsApart(runs: seq<Run>, i: nat, j: nat)
    requires Canonical(runs) && i < j < |runs|
    ensures runs[i].page + runs[i].count < runs[j].page && runs[i].count > 0
    decreases j - i
  {
    assert Isolated(runs, i);
    if i + 1 < j { RunsApart(runs, i + 1, j); }
    assert i + 1 < j ==> Isolated(runs, i + 1);
  }

  function Replace(runs: seq<Run>, k: nat, mid: seq<Run>, m: nat): seq<Run>
    requires k <= m <= |runs|
  {
    runs[..k] + mid + runs[m..]
  }

  /** Relinking: one new head in place of the runs `k..m`, linked from the run before. */
  lemma Relinked(heads: map<int, Head>, heads': map<int, Head>, runs: seq<Run>, k: nat, mid: seq<Run>, m: nat)
    requires Canonical(runs) && Linked(heads, runs) && k <= m <= |runs| && |mid| <= 1
    requires mid != [] ==> HeadAt(heads', Replace(runs, k, mid, m), k)
    requires k > 0 ==> HeadAt(heads', Replace(runs, k, mid, m), k - 1)
    requires forall x :: x in heads && (k > 0 ==> x != runs[k - 1].page) && (mid != [] ==> x != mid[0].page) ==>
               x in heads' && heads'[x] == heads[x]
    requires mid != [] ==> (k > 0 ==> runs[k - 1].page < mid[0].page) && (m < |runs| ==> mid[0].page < runs[m].page)
    ensures Linked(heads', Replace(runs, k, mid, m))
  {
    var runs' := Replace(runs, k, mid, m);
    forall i | 0 <= i < |runs'| ensures HeadAt(heads', runs', i) {
      if i + 1 < k {
        assert HeadAt(heads, runs, i);
        RunsApart(runs, i, k - 1);
      } else if i >= k + |mid| {
        var j := i - k - |mid| + m;
        assert runs'[i] == runs[j] && HeadAt(heads, runs, j);
        if m < j { RunsApart(runs, m, j); }
        if 0 < k { RunsApart(runs, k - 1, j); }
      }
    }
  }

  lemma Splice(runs: seq<Run>, k: nat, mid: seq<Run>, m: nat)
    requires k <= m <= |runs|
    ensures runs[..k] + (mid + runs[k..][m - k..]) == Replace(runs, k, mid, m) && runs[k..][0..] == runs[k..]
    ensures mid == [] ==> mid + runs[k..][m - k..] == runs[k..][m - k..]
    ensures m > k + 1 ==> runs[k..][1] == runs[k + 1]
  {
  }

  lemma Turn(runs: seq<Run>, k: nat, rest: seq<Run>)
    requires k < |runs|
    ensures runs[k..][1..] == runs[k + 1..] && runs[k..][0] == runs[k] && |runs[k..]| == |runs| - k
    ensures k + 1 < |runs| ==> runs[k..][1] == runs[k + 1]
    ensures runs[..k] + ([runs[k]] + rest) == runs[..k + 1] + rest
  {
  }

  /** The outcome of the search from run `k` on. */
  function AllocFrom(runs: seq<Run>, k: nat, n: nat): (seq<Run>, Option<nat>)
    requires k <= |runs|
  {
    (runs[..k] + AllocRun(runs[k..], n).0, AllocRun(runs[k..], n).1)
  }

  lemma AllocFromIs(runs: seq<Run>, k: nat, n: nat)
    requires k <= |runs|
    ensures k == 0 ==> AllocFrom(runs, k, n) == AllocRun(runs, n)
    ensures k == |runs| ==> AllocFrom(runs, k, n) == (runs, None)
    ensures k < |runs| ==> AllocFrom(runs, k, n) == AllocAt(runs, k, n)
  {
    if k < |runs| {
      Turn(runs, k, AllocRun(runs[k + 1..], n).0);
      if runs[k].count > n { Splice(runs, k, [Run(runs[k].page + n, runs[k].count - n)], k + 1); }
      Splice(runs, k, [], k + 1);
    } else {
      assert runs[k..] == [] && runs[..k] + [] == runs;
    }
    if k == 0 {
      assert runs[0..] == runs;
      assert runs[..0] + AllocRun(runs, n).0 == AllocRun(runs, n).0;
    }
  }

  /** One turn of the search. */
  function AllocAt(runs: seq<Run>, k: nat, n: nat): (seq<Run>, Option<nat>)
    requires k < |runs|
  {
    var b := runs[k];
    if b.count > n then (Replace(runs, k, [Run(b.page + n, b.count - n)], k + 1), Some(b.page))
    else if b.count == n then (Replace(runs, k, [], k + 1), Some(b.page))
    else AllocFrom(runs, k + 1, n)
  }

  /** The outcome of the search for the place of freed pages from run `k` on. */
  function FreeFrom(runs: seq<Run>, k: nat, at: nat, n: nat): seq<Run>
    requires k <= |runs|
  {
    runs[..k] + FreePages(runs[k..], at, n)
  }

  /** One turn of that search. */
  function FreeAt(runs: seq<Run>, k: nat, at: nat, n: nat): seq<Run>
    requires k < |runs|
  {
    var b := runs[k];
    if b.page + b.count == at then
      if k + 1 < |runs| && at + n == runs[k + 1].page then
        Replace(runs, k, [Run(b.page, b.count + n + runs[k + 1].count)], k + 2)
      else Replace(runs, k, [Run(b.page, b.count + n)], k + 1)
    else if b.page == at + n then Replace(runs, k, [Run(at, n + b.count)], k + 1)
    else if b.page > at + n then Replace(runs, k, [Run(at, n)], k)
    else FreeFrom(runs, k + 1, at, n)
  }

  lemma FreeFromIs(runs: seq<Run>, k: nat, at: nat, n: nat)
    requires k < |runs|
    ensures FreeFrom(runs, k, at, n) == FreeAt(runs, k, at, n)
  {
    hide Replace;
    var b := runs[k];
    Turn(runs, k, FreePages(runs[k + 1..], at, n));
    if b.page + b.count == at {
      if k + 1 < |runs| { Splice(runs, k, [Run(b.page, b.count + n + runs[k + 1].count)], k + 2); }
      Splice(runs, k, [Run(b.page, b.count + n)], k + 1);
    } else if b.page == at + n {
      Splice(runs, k, [Run(at, n + b.count)], k + 1);
    } else if b.page > at + n {
      Splice(runs, k, [Run(at, n)], k);
    }
  }

  lemma FreeFromEnds(runs: seq<Run>, at: nat, n: nat)
    ensures FreeFrom(runs, 0, at, n) == FreePages(runs, at, n)
    ensures FreeFrom(runs, |runs|, at, n) == Replace(runs, |runs|, [Run(at, n)], |runs|)
  {
    assert runs[0..] == runs && runs[|runs|..] == [];
    assert runs[..0] + FreePages(runs, at, n) == FreePages(runs, at, n);
    assert runs[..|runs|] + [Run(at, n)] + [] == runs[..|runs|] + [Run(at, n)];
  }

  class PageList {
    var list: int
    var heads: map<int, Head>
    ghost var runs: seq<Run>

    ghost predicate Ok()
      reads this
    {
      Canonical(runs) && Linked(heads, runs) && list == PageAt(runs, 0)
    }

    /** `rt_page_init`. */
    constructor (at: nat, n: nat)
      requires n > 0
      ensures Ok() && runs == [Run(at, n)]
    {
      list, heads := at, map[at as int := Head(NULL, n)];
      runs := [Run(at, n)];
    }

    /** `*prev = x`, where `prev` is the list head or the `next` of a run. */
    method SetPrev(prev: int, x: int)
      requires prev == NULL || prev in heads
      modifies this`list, this`heads
      ensures if prev == NULL then list == x && heads == old(heads)
              else list == old(list) && heads == old(heads)[prev := old(heads)[prev].(next := x)]
    {
      if prev == NULL { list := x; } else { heads := heads[prev := heads[prev].(next := x)]; }
    }

    ghost predicate Before(prev: int, k: nat)
      reads this
    {
      k <= |runs| && prev == if k == 0 then NULL else runs[k - 1].page
    }

    /** A head at `n` takes the place of the runs `k..m`. */
    method PutRun(prev: int, n: nat, next: int, count: nat, ghost k: nat, ghost m: nat)
      requires Ok() && Before(prev, k) && k <= m <= |runs| && next == PageAt(runs, m)
      requires (k > 0 ==> runs[k - 1].page < n) && (m < |runs| ==> n < runs[m].page)
      modifies this
      ensures Linked(heads, runs) && list == PageAt(runs, 0) && runs == Replace(old(runs), k, [Run(n, count)], m)
    {
      ghost var mid := [Run(n, count)];
      assert k > 0 ==> HeadAt(heads, runs, k - 1);
      heads := heads[n := Head(next, count)];
      SetPrev(prev, n);
      Relinked(old(heads), heads, runs, k, mid, m);
      runs := Replace(runs, k, mid, m);
    }

    /** Run `k` leaves the list. */
    method DropRun(prev: int, b: nat, ghost k: nat)
      requires Ok() && Before(prev, k) && k < |runs| && b == runs[k].page && b in heads
      modifies this
      ensures Linked(heads, runs) && list == PageAt(runs, 0) && runs == Replace(old(runs), k, [], k + 1)
    {
      assert k > 0 ==> HeadAt(heads, runs, k - 1);
      assert HeadAt(heads, runs, k);
      SetPrev(prev, heads[b].next);
      Relinked(old(heads), heads, runs, k, [], k + 1);
      runs := Replace(runs, k, [], k + 1);
    }

    /** Run `k` grows by `npages`, and by the next run if it now touches it. */
    method GrowRun(b: nat, npages: nat, ghost k: nat)
      requires Ok() && k < |runs| && b == runs[k].page
      modifies this
      ensures Linked(heads, runs) && list == PageAt(runs, 0)
      ensures runs == if k + 1 < |old(runs)| && b + old(runs)[k].count + npages == old(runs)[k + 1].page
                      then Replace(old(runs), k, [Run(b, old(runs)[k].count + npages + old(runs)[k + 1].count)], k + 2)
                      else Replace(old(runs), k, [Run(b, old(runs)[k].count + npages)], k + 1)
    {
      assert HeadAt(heads, runs, k) && (k + 1 < |runs| ==> HeadAt(heads, runs, k + 1));
      assert k > 0 ==> HeadAt(heads, runs, k - 1);
      assert Isolated(runs, k) && (k > 0 ==> Isolated(runs, k - 1)) && (k + 1 < |runs| ==> Isolated(runs, k + 1));
      ghost var m := k + 1;
      heads := heads[b := heads[b].(page := heads[b].page + npages)];
      if b + heads[b].page == heads[b].next {
        heads := heads[b := heads[b].(page := heads[b].page + heads[heads[b].next].page)];
        heads := heads[b := heads[b].(next := heads[heads[b].next].next)];
        m := k + 2;
      }
      Relinked(old(heads), heads, runs, k, [Run(b, heads[b].page)], m);
      runs := Replace(runs, k, [Run(b, heads[b].page)], m);
    }

    /** `rt_page_alloc`. */
    method Alloc(npages: nat) returns (r: Option<nat>)
      requires Ok()
      modifies this
      ensures Ok() && (runs, r) == AllocPages(old(runs), npages)
    {
      hide Linked; hide AllocFrom; hide AllocRun;
      if npages == 0 { return None; }
      AllocKeeps(runs, npages);
      AllocFromIs(runs, 0, npages);
      var prev, b := NULL, list;
      ghost var k := 0;
      while b != NULL
        invariant k <= |runs| && b == PageAt(runs, k) && Before(prev, k)
        invariant runs == old(runs) && heads == old(heads) && list == old(list)
        invariant AllocRun(runs, npages) == AllocFrom(runs, k, npages)
        decreases |runs| - k
      {
        RunFacts(k);
        AllocFromIs(runs, k, npages);
        if heads[b].page > npages {
          PutRun(prev, b + npages, heads[b].next, heads[b].page - npages, k, k + 1);
          return Some(b);
        }
        if heads[b].page == npages {
          DropRun(prev, b, k);
          return Some(b);
        }
        prev := b;
        b := heads[b].next;
        k := k + 1;
      }
      AllocFromIs(runs, k, npages);
      return None;
    }

    lemma RunFacts(k: nat)
      requires Ok() && k < |runs|
      ensures HeadAt(heads, runs, k) && Isolated(runs, k) && (k > 0 ==> Isolated(runs, k - 1))
    {
    }

    /** `rt_page_free`. */
    method Free(n: nat, npages: nat)
      requires Ok() && npages > 0 && Taken(runs, n, npages)
      modifies this
      ensures Ok() && runs == FreePages(old(runs), n, npages)
    {
      hide Linked; hide FreeFrom; hide FreePages; hide Taken;
      FreeKeeps(runs, n, npages);
      FreeFromEnds(runs, n, npages);
      var prev, b := NULL, list;
      ghost var k := 0;
      while b != NULL
        invariant k <= |runs| && b == PageAt(runs, k) && Before(prev, k)
        invariant runs == old(runs) && heads == old(heads) && list == old(list)
        invariant FreePages(runs, n, npages) == FreeFrom(runs, k, n, npages)
        invariant k > 0 ==> runs[k - 1].page + runs[k - 1].count < n
        decreases |runs| - k
      {
        RunFacts(k);
        FreeFromIs(runs, k, n, npages);
        BesideEach(runs, k, n, npages);
        assert heads[b].page > 0 && (b > n || b + heads[b].page <= n);
        if b + heads[b].page == n {
          GrowRun(b, npages, k);
          return;
        }
        if b == n + npages {
          PutRun(prev, n, heads[b].next, heads[b].page + npages, k, k + 1);
          return;
        }
        if b > n + npages { break; }
        prev := b;
        b := heads[b].next;
        k := k + 1;
      }
      PutRun(prev, n, b, npages, k, k);
    }
  }

  lemma BesideEach(runs: seq<Run>, k: nat, at: nat, n: nat)
    requires Canonical(runs) && k < |runs| && n > 0 && Taken(runs, at, n)
    ensures at + n <= runs[k].page || runs[k].page + runs[k].count <= at
  {
    assert Isolated(runs, k);
    assert Covers(runs[k], runs[k].page) && !InRange(at, n, runs[k].page);
    assert InRange(at, n, at);
    assert Covers(runs[k], at) ==> IsFree(runs, at);
  }
}
