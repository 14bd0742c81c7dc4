/** The timer skip list of src/timer.c, for any number of rows: row 0 is the sparsest, the last row
    holds every active timer.  Rows are kept as sequences. */
module SkipList {
  import opened Lists

  type Timer = nat

  /** Insert before the first timer of `later`, as a plain linear list would. */
  function Insert(row: seq<Timer>, t: Timer, later: set<Timer>): seq<Timer>
    decreases |row|
  {
    if row == [] then [t] else if row[0] in later then [t] + row else [row[0]] + Insert(row[1..], t, later)
  }

  /** How far the inner search loop moves on from position `i`. */
  function Advance(row: seq<Timer>, i: nat, later: set<Timer>): (k: nat)
    requires i <= |row|
    ensures i <= k <= |row|
    decreases |row| - i
  {
    if i == |row| || row[i] in later then i else Advance(row, i + 1, later)
  }

  /** The timers of `a` in the order `b` has them. */
  predicate Sub(a: seq<Timer>, b: seq<Timer>)
    decreases |b|
  {
    a == [] || (b != [] && if a[0] == b[0] then Sub(a[1..], b[1..]) else Sub(a, b[1..]))
  }

  /** Once a timer of the row is in `later`, all that follow are. */
  ghost predicate UpClosed(row: seq<Timer>, later: set<Timer>) {
    forall i, j :: 0 <= i < j < |row| && row[i] in later ==> row[j] in later
  }

  /** What the rows keep: each is an ordered part of the next, and the last has no repetitions. */
  ghost predicate RowsOk(rows: seq<seq<Timer>>) {
    && rows != [] && NoDuplicates(rows[|rows| - 1])
    && forall r :: 0 <= r < |rows| - 1 ==> SubAt(rows, r)
  }

  ghost predicate SubAt(rows: seq<seq<Timer>>, r: nat)
    requires r + 1 < |rows|
  {
    Sub(rows[r], rows[r + 1])
  }

  // ----- ordered parts -----

  lemma {:induction false} SubRefl(a: seq<Timer>)
    ensures Sub(a, a)
  {
    if a != [] { SubRefl(a[1..]); }
  }

  lemma {:induction false} SubMember(a: seq<Timer>, b: seq<Timer>, x: Timer)
    requires Sub(a, b) && x in a
    ensures x in b
    decreases |b|
  {
    if a[0] == b[0] {
      if x != a[0] { SubMember(a[1..], b[1..], x); }
    } else {
      SubMember(a, b[1..], x);
    }
  }

  lemma {:induction false} SubKeeps(a: seq<Timer>, b: seq<Timer>, later: set<Timer>)
    requires Sub(a, b) && NoDuplicates(b) && UpClosed(b, later)
    ensures NoDuplicates(a) && UpClosed(a, later)
    decreases |b|
  {
    if a != [] {
      UpClosedRest(b, later);
      PopFront(b);
      if a[0] == b[0] {
        SubKeeps(a[1..], b[1..], later);
        assert a == [a[0]] + a[1..];
        forall x | x in a[1..] ensures x != a[0] && (a[0] in later ==> x in later) {
          SubMember(a[1..], b[1..], x);
          var j :| 0 <= j < |b[1..]| && b[1..][j] == x;
          assert b[j + 1] == x;
        }
        PushFront(a[0], a[1..]);
        forall i, j | 0 <= i < j < |a| && a[i] in later ensures a[j] in later {
          assert a[j] == a[1..][j - 1] && a[j] in a[1..];
          if i > 0 { assert a[i] == a[1..][i - 1]; }
        }
      } else {
        SubKeeps(a, b[1..], later);
      }
    }
  }

  lemma UpClosedRest(row: seq<Timer>, later: set<Timer>)
    requires UpClosed(row, later) && row != []
    ensures UpClosed(row[1..], later)
    ensures row[0] in later ==> forall x :: x in row ==> x in later
  {
  }

  /** Inserting in both rows, or in the lower only, keeps the upper an ordered part of it. */
  lemma {:induction false} SubInsertBoth(a: seq<Timer>, b: seq<Timer>, t: Timer, later: set<Timer>)
    requires Sub(a, b) && UpClosed(b, later) && t !in b
    ensures Sub(Insert(a, t, later), Insert(b, t, later))
    decreases |b|
  {
    if a == [] {
      SubSingle(b, t, later);
    } else {
      UpClosedRest(b, later);
      assert b == [b[0]] + b[1..];
      if b[0] in later {
        SubMember(a, b, a[0]);
      } else if a[0] == b[0] {
        SubInsertBoth(a[1..], b[1..], t, later);
      } else {
        SubInsertBoth(a, b[1..], t, later);
        assert Insert(a, t, later)[0] in {t, a[0]};
      }
    }
  }

  lemma {:induction false} SubSingle(b: seq<Timer>, t: Timer, later: set<Timer>)
    requires t !in b
    ensures Sub([t], Insert(b, t, later))
  {
    if b != [] && b[0] !in later {
      assert b == [b[0]] + b[1..];
      SubSingle(b[1..], t, later);
    }
  }

  lemma {:induction false} SubInsertLower(a: seq<Timer>, b: seq<Timer>, t: Timer, later: set<Timer>)
    requires Sub(a, b) && t !in a
    ensures Sub(a, Insert(b, t, later))
    decreases |b|
  {
    if a != [] {
      var c := Insert(b, t, later);
      if b[0] in later {
        assert a[0] in a && c[1..] == b;
      } else {
        assert c[1..] == Insert(b[1..], t, later);
        if a[0] == b[0] { SubInsertLower(a[1..], b[1..], t, later); } else { SubInsertLower(a, b[1..], t, later); }
      }
    }
  }

  lemma {:induction false} SubRemove(a: seq<Timer>, b: seq<Timer>, t: Timer)
    requires Sub(a, b) && NoDuplicates(a) && NoDuplicates(b)
    ensures Sub(Without(a, t), Without(b, t))
    decreases |b|
  {
    if a == [] {
    } else {
      PopFront(a);
      PopFront(b);
      WithoutHead(a, t);
      WithoutHead(b, t);
      if a[0] == b[0] {
        SubRemove(a[1..], b[1..], t);
        if a[0] != t {
          assert ([a[0]] + Without(a[1..], t))[1..] == Without(a[1..], t);
          assert ([b[0]] + Without(b[1..], t))[1..] == Without(b[1..], t);
        } else {
          WithoutAbsent(a[1..], t);
          WithoutAbsent(b[1..], t);
        }
      } else {
        SubRemove(a, b[1..], t);
        if b[0] == t {
          WithoutAbsent(b[1..], t);
        } else {
          SkipFirst(Without(a, t), b[0], Without(b[1..], t), a, b);
        }
      }
    }
  }

  lemma SkipFirst(x: seq<Timer>, y: Timer, ys: seq<Timer>, a: seq<Timer>, b: seq<Timer>)
    requires b != [] && Sub(x, ys) && y == b[0] && NoDuplicates(b) && Sub(a, b[1..])
    requires forall z :: z in x ==> z in a
    ensures Sub(x, [y] + ys)
  {
    assert ([y] + ys)[1..] == ys;
    if x != [] {
      assert x[0] in a;
      SubMember(a, b[1..], x[0]);
      PopFront(b);
    }
  }

  lemma WithoutHead(s: seq<Timer>, t: Timer)
    requires s != []
    ensures Without(s, t) == if s[0] == t then s[1..] else [s[0]] + Without(s[1..], t)
    ensures forall z :: z in Without(s, t) ==> z in s
  {
    var k := Position(s, t);
    if s[0] == t {
      assert k == 0 && s[..0] + s[1..] == s[1..];
    } else if k < |s| {
      RemoveLater(s, k);
    } else {
      assert s == [s[0]] + s[1..];
    }
    WithoutMember(s, t);
  }

  lemma WithoutMember(s: seq<Timer>, t: Timer)
    ensures forall z :: z in Without(s, t) ==> z in s
  {
    hide Position;
  }

  lemma RemoveLater(s: seq<Timer>, k: nat)
    requires 0 < k < |s|
    ensures s[..k] + s[k + 1..] == [s[0]] + (s[1..][..k - 1] + s[1..][k..])
  {
    assert s[..k] == [s[0]] + s[1..][..k - 1] && s[k + 1..] == s[1..][k..];
  }

  lemma WithoutAbsent(s: seq<Timer>, t: Timer)
    requires t !in s
    ensures Without(s, t) == s
  {
    PositionFound(s, t);
  }

  // ----- the search -----

  /** The search loop goes to the place of the linear insertion. */
  lemma {:induction false} AdvanceIs(row: seq<Timer>, i: nat, t: Timer, later: set<Timer>)
    requires i <= |row| && forall j :: 0 <= j < i ==> row[j] !in later
    ensures var k := Advance(row, i, later);
            && (forall j :: 0 <= j < k ==> row[j] !in later) && (k < |row| ==> row[k] in later)
            && row[..k] + [t] + row[k..] == Insert(row, t, later)
    decreases |row| - i
  {
    if i == |row| || row[i] in later { InsertAt(row, i, t, later); } else { AdvanceIs(row, i + 1, t, later); }
  }

  lemma {:induction false} InsertAt(row: seq<Timer>, k: nat, t: Timer, later: set<Timer>)
    requires k <= |row| && (forall j :: 0 <= j < k ==> row[j] !in later) && (k < |row| ==> row[k] in later)
    ensures row[..k] + [t] + row[k..] == Insert(row, t, later)
    decreases |row|
  {
    if k == 0 {
      assert row[..0] + [t] + row[0..] == [t] + row;
    } else {
      InsertAt(row[1..], k - 1, t, later);
      assert row[1..][..k - 1] == row[1..k] && row[1..][k - 1..] == row[k..];
      assert row[..k] == [row[0]] + row[1..k];
    }
  }

  /** Where the search enters the next row: behind the timer it stands on in this one. */
  function Below(upper: seq<Timer>, k: nat, lower: seq<Timer>): nat
    requires k <= |upper|
  {
    if k == 0 then 0 else Position(lower, upper[k - 1]) + 1
  }

  /** Nothing the descent skips is later than the new timer. */
  lemma BelowIs(upper: seq<Timer>, k: nat, lower: seq<Timer>, later: set<Timer>)
    requires Sub(upper, lower) && k <= |upper| && UpClosed(lower, later)
    requires forall j :: 0 <= j < k ==> upper[j] !in later
    ensures Below(upper, k, lower) <= |lower| && forall j :: 0 <= j < Below(upper, k, lower) ==> lower[j] !in later
  {
    if k > 0 {
      var p := Position(lower, upper[k - 1]);
      SubMember(upper, lower, upper[k - 1]);
      var j :| 0 <= j < |lower| && lower[j] == upper[k - 1];
      assert lower[p] == upper[k - 1];
    }
  }

  // ----- rows -----

  /** The rows after a start that reaches the lowest `height` rows. */
  function InsertRows(rows: seq<seq<Timer>>, t: Timer, later: set<Timer>, height: nat): seq<seq<Timer>> {
    seq(|rows|, r requires 0 <= r < |rows| => if r + height >= |rows| then Insert(rows[r], t, later) else rows[r])
  }

  function RemoveRows(rows: seq<seq<Timer>>, t: Timer): seq<seq<Timer>> {
    seq(|rows|, r requires 0 <= r < |rows| => Without(rows[r], t))
  }

  /** Every row has no repetitions and is part of the last. */
  lemma {:induction false} RowFacts(rows: seq<seq<Timer>>, r: nat, later: set<Timer>)
    requires RowsOk(rows) && r < |rows| && UpClosed(rows[|rows| - 1], later)
    ensures NoDuplicates(rows[r]) && UpClosed(rows[r], later) && forall x :: x in rows[r] ==> x in rows[|rows| - 1]
    decreases |rows| - r
  {
    if r + 1 < |rows| {
      RowFacts(rows, r + 1, later);
      assert SubAt(rows, r);
      SubKeeps(rows[r], rows[r + 1], later);
      forall x | x in rows[r] ensures x in rows[|rows| - 1] { SubMember(rows[r], rows[r + 1], x); }
    }
  }

  /** A start keeps every upper row an ordered part of the row below, for any number of rows and any
      height. */
  lemma InsertRowsKeeps(rows: seq<seq<Timer>>, t: Timer, later: set<Timer>, height: nat)
    requires RowsOk(rows) && height > 0 && UpClosed(rows[|rows| - 1], later) && t !in rows[|rows| - 1]
    ensures RowsOk(InsertRows(rows, t, later, height))
  {
    var rows', n := InsertRows(rows, t, later, height), |rows| - 1;
    InsertNew(rows[n], t, later);
    forall r | 0 <= r < n ensures SubAt(rows', r) {
      assert SubAt(rows, r);
      RowFacts(rows, r, later);
      RowFacts(rows, r + 1, later);
      if r + height >= |rows| {
        SubInsertBoth(rows[r], rows[r + 1], t, later);
      } else if r + 1 + height >= |rows| {
        SubInsertLower(rows[r], rows[r + 1], t, later);
      }
    }
  }

  lemma {:induction false} InsertNew(row: seq<Timer>, t: Timer, later: set<Timer>)
    requires NoDuplicates(row) && t !in row
    ensures var l := Insert(row, t, later); NoDuplicates(l) && forall x :: x in l <==> x in row || x == t
    decreases |row|
  {
    if row == [] {
    } else if row[0] in later {
      PushFront(t, row);
    } else {
      PopFront(row);
      InsertNew(row[1..], t, later);
      PushFront(row[0], Insert(row[1..], t, later));
    }
  }

  /** So does a removal. */
  lemma RemoveRowsKeeps(rows: seq<seq<Timer>>, t: Timer)
    requires RowsOk(rows)
    ensures RowsOk(RemoveRows(rows, t))
  {
    hide Sub; hide Without; hide NoDuplicates;
    var rows', n := RemoveRows(rows, t), |rows| - 1;
    WithoutIs(rows[n], t);
    forall r | 0 <= r < n ensures SubAt(rows', r) {
      assert SubAt(rows, r);
      RowFacts(rows, r, {});
      RowFacts(rows, r + 1, {});
      SubRemove(rows[r], rows[r + 1], t);
    }
  }
}
