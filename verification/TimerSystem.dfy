/** src/timer.c in place: the rows of the skip list, searched and relinked step by step. */
module TimerSystem {
  import opened Lists
  import opened SkipList
  import opened Timers
  import opened Words

  /** The later timers stand at the end of the list. */
  lemma LaterUpClosed(s: State, due: nat, slack: nat)
    requires Base(s, slack) && s.now <= due + slack && due + slack < s.now + HALF
    ensures UpClosed(s.row, LaterThan(s, Tick(due)))
    ensures forall t :: t in s.row ==> t in s.timers
  {
    RowHistory(s, slack);
    LaterThanIs(s, due, slack);
    hide LaterThan; hide Tick; hide Later;
    forall i, j | 0 <= i < j < |s.row| && s.row[i] in LaterThan(s, Tick(due)) ensures s.row[j] in LaterThan(s, Tick(due)) {
      assert s.row[i] in s.row && s.row[j] in s.row;
      assert Before(s.timers[s.row[i]].due, s.timers[s.row[i]].stamp, s.timers[s.row[j]].due, s.timers[s.row[j]].stamp);
    }
  }

  /** The fields of a timer; ACTIVATED and PERIODIC are flags. */
  datatype TimerFields = TimerFields(init: nat, periodic: bool, active: bool, timeout: nat)

  function FieldsOf(rec: Rec): TimerFields { TimerFields(rec.init, rec.periodic, rec.active, rec.timeout) }

  /** `slack` says by how many ticks a start may link too late. */
  class TimerList {
    ghost const slack: nat
    var tick: nat
    var rows: seq<seq<Timer>>
    var timers: map<Timer, TimerFields>
    var randomNr: nat
    ghost var history: map<Timer, Rec>
    ghost var now: nat
    ghost var stamps: nat
    ghost var log: seq<Entry>

    ghost function S(): State
      reads this
    {
      State(now, if rows == [] then [] else rows[|rows| - 1], history, stamps, log)
    }

    ghost predicate Shape()
      reads this
    {
      && rows != [] && RowsOk(rows) && tick == Tick(now) && timers.Keys == history.Keys
      && forall t :: t in timers ==> timers[t] == FieldsOf(history[t])
    }

    /** Any number of rows from one on. */
    constructor (levels: nat, ghost slack: nat)
      requires levels > 0
      ensures Shape() && |rows| == levels && this.slack == slack && Valid(S(), slack) && S() == Timers.Init(0)
    {
      this.slack := slack;
      rows := seq(levels, _ => []);
      tick, timers, randomNr, history, now, stamps, log := 0, map[], 0, map[], 0, 0, [];
    }

    /** `_rt_timer_remove`. */
    method RemoveTimer(t: Timer)
      requires RowsOk(rows)
      modifies this`rows
      ensures RowsOk(rows) && rows == RemoveRows(old(rows), t)
    {
      RemoveRowsKeeps(rows, t);
      hide Sub; hide Without;
      for i := 0 to |rows|
        invariant |rows| == |old(rows)|
        invariant forall r :: 0 <= r < |rows| ==> rows[r] == if r < i then Without(old(rows)[r], t) else old(rows)[r]
      {
        rows := rows[i := Without(rows[i], t)];
      }
      assert rows == RemoveRows(old(rows), t);
    }

    /** The inner loop: along one row up to the first later timer. */
    method Scan(row: seq<Timer>, start: nat, timeout: nat, ghost later: set<Timer>) returns (i: nat)
      requires start <= |row| && forall j :: 0 <= j < start ==> row[j] !in later
      requires forall x :: x in row ==> x in timers && (x in later <==> Later(timers[x].timeout, timeout))
      ensures i <= |row| && (forall j :: 0 <= j < i ==> row[j] !in later) && (i < |row| ==> row[i] in later)
    {
      hide Later;
      i := start;
      while i < |row|
        invariant i <= |row| && forall j :: 0 <= j < i ==> row[j] !in later
      {
        var x := row[i];
        assert x in row;
        if Later(timers[x].timeout, timeout) { break; }
        i := i + 1;
      }
    }

    /** `t` at this place of the row is where a linear insertion puts it. */
    ghost predicate PlaceOk(row: seq<Timer>, place: nat, t: Timer, later: set<Timer>) {
      place <= |row| && row[..place] + [t] + row[place..] == SkipList.Insert(row, t, later)
    }

    /** The descent: in every row, the place behind the last timer that is not later. */
    method Search(timeout: nat, ghost t: Timer, ghost later: set<Timer>) returns (places: seq<nat>)
      requires RowsOk(rows) && UpClosed(rows[|rows| - 1], later)
      requires forall x :: x in rows[|rows| - 1] ==> x in timers && (x in later <==> Later(timers[x].timeout, timeout))
      ensures |places| == |rows| && forall r :: 0 <= r < |rows| ==> PlaceOk(rows[r], places[r], t, later)
    {
      hide Sub; hide Later; hide PlaceOk; hide NoDuplicates;
      places := [];
      var start: nat := 0;
      for r := 0 to |rows|
        invariant |places| == r && forall q :: 0 <= q < r ==> PlaceOk(rows[q], places[q], t, later)
        invariant r < |rows| ==> start <= |rows[r]| && forall j :: 0 <= j < start ==> rows[r][j] !in later
      {
        RowFacts(rows, r, later);
        var i := Scan(rows[r], start, timeout, later);
        FoundPlace(rows[r], i, t, later);
        if r + 1 < |rows| {
          assert SubAt(rows, r);
          RowFacts(rows, r + 1, later);
          BelowIs(rows[r], i, rows[r + 1], later);
          start := Below(rows[r], i, rows[r + 1]);
        }
        places := places + [i];
      }
    }

    lemma FoundPlace(row: seq<Timer>, i: nat, t: Timer, later: set<Timer>)
      requires i <= |row| && (forall j :: 0 <= j < i ==> row[j] !in later) && (i < |row| ==> row[i] in later)
      ensures PlaceOk(row, i, t, later)
    {
      InsertAt(row, i, t, later);
    }

    /** Insert in the last row, and in further rows upwards while the counter's bits say so. */
    method InsertUp(t: Timer, places: seq<nat>, counter: nat, ghost later: set<Timer>) returns (ghost height: nat)
      requires rows != [] && |places| == |rows| && forall r :: 0 <= r < |rows| ==> PlaceOk(rows[r], places[r], t, later)
      modifies this`rows
      ensures 0 < height <= |rows| && rows == InsertRows(old(rows), t, later, height)
    {
      hide PlaceOk; hide SkipList.Insert;
      ghost var was := rows;
      var tst := counter;
      var r := |rows| - 1;
      InsertedRow(rows[r], places[r], t, later);
      rows := rows[r := rows[r][..places[r]] + [t] + rows[r][places[r]..]];
      // RT_TIMER_SKIP_LIST_MASK is 3: two bits of the counter decide on each further row.
      while r > 0 && tst % 4 == 0
        invariant 0 <= r < |rows| == |was|
        invariant forall q :: 0 <= q < |rows| ==> rows[q] == if q >= r then SkipList.Insert(was[q], t, later) else was[q]
      {
        r := r - 1;
        InsertedRow(rows[r], places[r], t, later);
        rows := rows[r := rows[r][..places[r]] + [t] + rows[r][places[r]..]];
        tst := tst / 4;
      }
      height := |rows| - r;
      assert rows == InsertRows(was, t, later, height);
    }

    lemma InsertedRow(row: seq<Timer>, place: nat, t: Timer, later: set<Timer>)
      requires PlaceOk(row, place, t, later)
      ensures place <= |row| && row[..place] + [t] + row[place..] == SkipList.Insert(row, t, later)
    {
    }

    lemma EveryFields()
      requires Shape()
      ensures forall t :: t in timers ==> t in history && timers[t].timeout == history[t].timeout
    {
    }

    /** Search and insertion in `rt_timer_start`, for a timer that is off the rows: whatever the counter's bits,
        the last row is the plain list. */
    method EnterRows(t: Timer, timeout: nat, ghost later: set<Timer>)
      requires rows != [] && RowsOk(rows) && UpClosed(rows[|rows| - 1], later) && t !in rows[|rows| - 1]
      requires forall x :: x in rows[|rows| - 1] ==> x in timers && (x in later <==> Later(timers[x].timeout, timeout))
      modifies this`rows, this`randomNr
      ensures RowsOk(rows) && |rows| == |old(rows)|
      ensures rows[|rows| - 1] == SkipList.Insert(old(rows)[|rows| - 1], t, later)
    {
      hide RowsOk; hide SkipList.Insert; hide Later; hide PlaceOk;
      var places := Search(timeout, t, later);
      randomNr := (randomNr + 1) % WRAP;
      ghost var was := rows;
      ghost var height := InsertUp(t, places, randomNr, later);
      InsertRowsKeeps(was, t, later, height);
    }

    /** The second section of `rt_timer_start`. */
    method Enter(t: Timer, timeout: nat, ghost rec: Rec)
      requires Shape() && Base(S(), slack) && t in timers && t !in S().row
      requires now <= rec.due + slack && rec.due + slack < now + HALF && timeout == rec.timeout == Tick(rec.due)
      requires rec.init == timers[t].init && rec.periodic == timers[t].periodic
      modifies this
      ensures Shape() && |rows| == |old(rows)| && S() == Enlist(old(S()), t, rec)
    {
      hide Base; hide RowsOk; hide SkipList.Insert; hide Later; hide LaterThan; hide Tick; hide FieldsOf; hide Listed;
      EveryFields();
      ListedFields(rec, stamps);
      LinkFacts(S(), rec.due, slack);
      EnterRows(t, timeout, LaterThan(S(), timeout));
      timers := timers[t := timers[t].(active := true, timeout := timeout)];
      history := history[t := Listed(rec, stamps)];
      stamps := stamps + 1;
    }

    /** Take the timer off the list; the caller says what becomes of its fields. */
    method Unlink(t: Timer, fields: TimerFields, ghost rec: Rec)
      requires Shape() && fields == FieldsOf(rec)
      modifies this`rows, this`timers, this`history
      ensures Shape() && |rows| == |old(rows)|
      ensures S() == old(S()).(row := Without(old(S()).row, t), timers := old(history)[t := rec])
    {
      hide RowsOk; hide Without; hide Tick;
      RemoveTimer(t);
      timers := timers[t := fields];
      history := history[t := rec];
    }

    /** The first section of `rt_timer_start` with this delay and kind, and the clock reading behind it. */
    method BeginStart(t: Timer, init: nat, periodic: bool)
      requires Shape() && Valid(S(), slack) && init + slack < HALF && (periodic ==> init >= 1)
      modifies this
      ensures Shape() && |rows| == |old(rows)| && Valid(S(), slack) && S() == Begin(old(S()), t, init, periodic)
    {
      hide Valid; hide RowsOk; hide Without; hide Tick;
      BeginKeeps(S(), t, init, periodic, slack);
      WrapSum(now, init);
      Unlink(t, TimerFields(init, periodic, false, (tick + init) % WRAP), Begun(init, periodic, now));
    }

    /** The second section. */
    method LinkStart(t: Timer)
      requires Shape() && Valid(S(), slack) && Enabled(S(), LinkStep(t), slack)
      modifies this
      ensures Shape() && |rows| == |old(rows)| && Valid(S(), slack) && S() == Link(old(S()), t)
    {
      hide Base; hide RowsOk; hide Without; hide Tick; hide Enlist; hide History;
      LinkKeeps(S(), t, slack);
      StartingFacts(S(), t, slack);
      Enter(t, timers[t].timeout, Arrived(history[t], now));
    }

    /** `rt_timer_start` with nothing in between. */
    method StartTimer(t: Timer, init: nat, periodic: bool)
      requires Shape() && Valid(S(), slack) && init + slack < HALF && init + slack >= 1 && (periodic ==> init >= 1)
      modifies this
      ensures Shape() && |rows| == |old(rows)| && Valid(S(), slack) && S() == Start(old(S()), t, init, periodic)
    {
      hide Valid; hide RowsOk; hide Without; hide Link; hide Tick;
      BeginStart(t, init, periodic);
      LinkStart(t);
    }

    /** The section of `rt_timer_stop`. */
    method RemoveSection(t: Timer)
      requires Shape() && Valid(S(), slack) && Enabled(S(), RemoveStep(t), slack)
      modifies this
      ensures Shape() && |rows| == |old(rows)| && Valid(S(), slack) && S() == Remove(old(S()), t)
    {
      hide Valid; hide RowsOk; hide Without; hide Tick;
      RemoveKeeps(S(), t, slack);
      Unlink(t, timers[t], Off(history[t]));
    }

    /** What follows it. */
    method ClearFlag(t: Timer)
      requires Shape() && Valid(S(), slack) && Enabled(S(), ClearStep(t), slack)
      modifies this
      ensures Shape() && rows == old(rows) && Valid(S(), slack) && S() == Clear(old(S()), t)
    {
      hide Valid; hide RowsOk; hide Tick;
      ClearKeeps(S(), t, slack);
      timers := timers[t := timers[t].(active := false)];
      history := history[t := history[t].(active := false, phase := Idle)];
    }

    /** `rt_timer_stop` with nothing in between. */
    method StopTimer(t: Timer) returns (ok: bool)
      requires Shape() && Valid(S(), slack) && (t in timers ==> history[t].phase.Idle?)
      modifies this
      ensures Shape() && |rows| == |old(rows)| && Valid(S(), slack) && S() == Stop(old(S()), t)
      ensures ok == (t in old(timers) && old(timers)[t].active)
    {
      hide Valid; hide RowsOk; hide Without; hide Tick;
      if t !in timers || !timers[t].active { return false; }
      RemoveSection(t);
      ClearFlag(t);
      return true;
    }

    /** `rt_timer_check` with callbacks that leave the timers alone. */
    method CheckTimers()
      requires Shape() && Sound(S(), slack) && Complete(history)
      modifies this
      ensures Shape() && |rows| == |old(rows)| && Valid(S(), slack) && S() == Check(old(S()))
    {
      hide Sound; hide RowsOk; hide Tick; hide Fire; hide HeadExpired; hide DueCount; hide Valid; hide Expired;
      ghost var n: nat := |S().row|;
      CheckKeeps(S(), n, slack);
      DueAtMost(S());
      ghost var goal := CheckN(S(), n);
      while rows[|rows| - 1] != []
        invariant Shape() && |rows| == |old(rows)| && Sound(S(), slack) && Complete(history)
        invariant CheckN(S(), n) == goal && DueCount(S().row, history, now) <= n
        decreases n
      {
        HeadFacts();
        var t := rows[|rows| - 1][0];
        if !Expired(tick, timers[t].timeout) { break; }
        FireKeeps(S(), slack);
        n := n - 1;
        FireFirst(t);
      }
      HeadFacts();
    }

    lemma HeadFacts()
      requires Shape() && Sound(S(), slack)
      ensures S().row != [] ==> S().row[0] in timers && timers[S().row[0]].active
      ensures HeadExpired(S()) <==> S().row != [] && Expired(tick, timers[S().row[0]].timeout)
      ensures HeadExpired(S()) ==> DueCount(S().row, history, now) > 0
    {
      if S().row != [] { assert S().row[0] in S().row; }
      HeadIs(S(), slack);
    }

    /** One firing. */
    method FireFirst(t: Timer)
      requires Shape() && Sound(S(), slack) && HeadExpired(S()) && t == S().row[0]
      modifies this
      ensures Shape() && |rows| == |old(rows)| && S() == Fire(old(S()))
    {
      hide Sound; hide Base; hide RowsOk; hide Tick; hide Without; hide DueCount; hide Lapsed; hide History; hide Enlist;
      ghost var s := S();
      HeadFacts();
      ghost var rec := history[t];
      Timers.HeadFacts(s, slack);
      PopKeeps(s, slack);
      SoundBase(Pop(s), slack);
      FirstOff(s.row, t);
      LapsedFields(rec, now);
      log := log + [Entry(now, rec.due, rec.stamp, t)];
      var periodic := timers[t].periodic && timers[t].active;
      Unlink(t, timers[t].(active := false), Lapsed(rec, now));
      assert S() == Pop(s);
      if periodic {
        AgainNear(rec, now, slack);
        WrapSum(now, rec.init);
        Enter(t, (tick + timers[t].init) % WRAP, Again(Lapsed(rec, now), now));
      }
    }

    /** The clock part of `rt_tick_increase`. */
    method TickIncrease()
      requires Shape() && Valid(S(), slack)
      modifies this
      ensures Shape() && |rows| == |old(rows)| && Valid(S(), slack) && S() == Advance1(old(S()))
    {
      hide RowsOk; hide Sound; hide Tick; hide Check;
      TickSound(S(), slack);
      WrapOne(now);
      tick := (tick + 1) % WRAP;
      now := now + 1;
      CheckTimers();
    }

    lemma WrapOne(n: nat)
      ensures (Tick(n) + 1) % WRAP == Tick(n + 1)
    {
      WrapSum(n, 1);
    }

    /** `rt_timer_next_timeout_tick`: no deadline is before the first timer's. */
    method NextTimeout() returns (r: nat)
      requires Shape() && Valid(S(), slack)
      ensures S().row == [] ==> r == 0xffff_ffff
      ensures S().row != [] ==> r == Tick(history[S().row[0]].due)
      ensures S().row != [] ==> forall t :: t in S().row ==> history[S().row[0]].due <= history[t].due
    {
      if rows[|rows| - 1] == [] { return 0xffff_ffff; }
      var first := rows[|rows| - 1][0];
      assert first in S().row;
      RowHistory(S(), slack);
      FirstBefore(S(), slack);
      r := timers[first].timeout;
    }
  }

  lemma FirstOff(row: seq<Timer>, t: Timer)
    requires row != [] && row[0] == t
    ensures Without(row, t) == row[1..]
  {
    WithoutHead(row, t);
  }

  lemma LapsedFields(rec: Rec, now: nat)
    ensures FieldsOf(Lapsed(rec, now)) == FieldsOf(rec).(active := false)
  {
  }

  lemma ListedFields(rec: Rec, stamp: nat)
    ensures FieldsOf(Listed(rec, stamp)) == TimerFields(rec.init, rec.periodic, true, rec.timeout)
  {
  }

  lemma SoundBase(s: State, slack: nat)
    requires Sound(s, slack)
    ensures Base(s, slack)
  {
  }

  /** A timer between the sections of its start. */
  lemma StartingFacts(s: State, t: Timer, slack: nat)
    requires Base(s, slack) && t in s.timers && s.timers[t].phase.Starting?
    ensures t !in s.row && s.timers[t].timeout == Tick(s.timers[t].due) && s.timers[t].due + slack < s.now + HALF
  {
    hide Near; hide Ordered; hide LogOk; hide NoDuplicates; hide Tick;
    assert History(s.timers[t], s.now, slack);
  }

  /** What an insertion may rely on. */
  lemma LinkFacts(s: State, due: nat, slack: nat)
    requires Base(s, slack) && s.now <= due + slack && due + slack < s.now + HALF
    ensures UpClosed(s.row, LaterThan(s, Tick(due)))
    ensures forall x :: x in s.row ==>
              x in s.timers && (x in LaterThan(s, Tick(due)) <==> Later(s.timers[x].timeout, Tick(due)))
  {
    hide Later; hide Tick;
    LaterUpClosed(s, due, slack);
  }

  lemma WrapSum(a: nat, b: nat)
    ensures (Tick(a) + b) % WRAP == Tick(a + b)
  {
    var q := a / WRAP;
    assert a + b == q * WRAP + (Tick(a) + b);
  }
}
