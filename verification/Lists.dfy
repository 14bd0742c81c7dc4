/** Lists without repetitions, as the source keeps blocks, zones, timers and waiting threads. */
module Lists {

  datatype Option<+T> = None | Some(value: T)

  function Position<T(==)>(s: seq<T>, x: T): (k: nat)
    ensures k <= |s| && (k < |s| ==> s[k] == x)
    ensures forall j :: 0 <= j < k ==> s[j] != x
  {
    if s == [] || s[0] == x then 0 else 1 + Position(s[1..], x)
  }

  lemma PositionFound<T>(s: seq<T>, x: T)
    ensures Position(s, x) < |s| <==> x in s
  {
  }

  function Without<T(==)>(s: seq<T>, x: T): seq<T> {
    var k := Position(s, x);
    if k < |s| then s[..k] + s[k + 1..] else s
  }

  ghost predicate NoDuplicates<T>(s: seq<T>) {
    forall i, j :: 0 <= i < j < |s| ==> s[i] != s[j]
  }

  lemma WithoutIs<T>(s: seq<T>, x: T)
    requires NoDuplicates(s)
    ensures NoDuplicates(Without(s, x)) && forall y :: y in Without(s, x) <==> y in s && y != x
    ensures |Without(s, x)| == |s| - (if x in s then 1 else 0)
  {
    var k, w := Position(s, x), Without(s, x);
    if k < |s| {
      forall y | y in s && y != x ensures y in w {
        var j :| 0 <= j < |s| && s[j] == y;
        assert w[if j < k then j else j - 1] == y;
      }
    }
  }

  lemma WithoutAt<T>(s: seq<T>, x: T, i: nat)
    requires x in s && i < |s| - 1
    ensures |Without(s, x)| == |s| - 1 && Without(s, x)[i] == s[if i < Position(s, x) then i else i + 1]
  {
    PositionFound(s, x);
  }

  lemma PushFront<T>(x: T, rest: seq<T>)
    requires NoDuplicates(rest) && x !in rest
    ensures NoDuplicates([x] + rest) && forall y :: y in [x] + rest <==> y == x || y in rest
  {
  }

  /** The first element leaves. */
  lemma PopFront<T>(s: seq<T>)
    requires NoDuplicates(s) && s != []
    ensures NoDuplicates(s[1..]) && s[0] in s && forall x :: x in s[1..] <==> x in s && x != s[0]
  {
    assert s == [s[0]] + s[1..];
  }

  lemma SingletonList<T>(s: seq<T>, x: T)
    requires NoDuplicates(s) && forall y :: y in s <==> y == x
    ensures s == [x]
  {
    assert x in s;
    FirstTwoDiffer(s);
    forall k | 0 <= k < |s| ensures s[k] == x { assert s[k] in s; }
  }

  lemma FirstTwoDiffer<T>(s: seq<T>)
    requires NoDuplicates(s)
    ensures |s| > 1 ==> s[0] != s[1]
  {
  }

  /** A list without repetitions has as many elements as entries. */
  lemma {:induction false} Cardinality<T>(s: seq<T>)
    requires NoDuplicates(s)
    ensures |set x | x in s| == |s|
  {
    if s == [] {
      assert (set x | x in s) == {};
    } else {
      var n := |s| - 1;
      Cardinality(s[..n]);
      assert s == s[..n] + [s[n]];
      assert (set x | x in s) == (set x | x in s[..n]) + {s[n]};
      assert s[n] !in s[..n];
    }
  }

  lemma SubsetOfSameSize<T>(a: set<T>, b: set<T>)
    requires a <= b && |a| == |b|
    ensures a == b
  {
    assert b == a + (b - a);
  }

  function Count(b: bool): nat { if b then 1 else 0 }

  /** Two sets that differ in one element at most. */
  lemma OneElement<T>(a: set<T>, b: set<T>, t: T)
    requires forall x :: x != t ==> (x in a <==> x in b)
    ensures |b| == |a| - Count(t in a) + Count(t in b)
  {
    assert a - {t} == b - {t};
    assert a == if t in a then (a - {t}) + {t} else a - {t};
    assert b == if t in b then (b - {t}) + {t} else b - {t};
  }
}
