/** Timers of src/timer.c against an unbounded clock: the source compares 32-bit ticks, and every
    firing still comes at exactly the tick that was asked for. */
module Timers {
  import opened Lists
  import opened SkipList
  import opened Words

  /** RT_TICK_MAX / 2. */
  const HALF: nat := 0x7fff_ffff

  function Tick(n: nat): nat { n % WRAP }

  /** The 32-bit tests of `rt_timer_start` and `rt_timer_check`. */
  predicate Later(a: nat, b: nat) { (a - b) % WRAP != 0 && (a - b) % WRAP < HALF }

  predicate Expired(current: nat, timeout: nat) { (current - timeout) % WRAP < HALF }

  /** Within half the range of each other, wrapped ticks compare like the clock. */
  lemma LaterIs(a: nat, b: nat)
    requires a < b + HALF && b < a + HALF
    ensures Later(Tick(a), Tick(b)) <==> a > b
    ensures Expired(Tick(a), Tick(b)) <==> a >= b
  {
    Difference(a, b);
  }

  lemma Difference(a: nat, b: nat)
    requires a < b + HALF && b < a + HALF
    ensures (Tick(a) - Tick(b)) % WRAP == if a >= b then a - b else a - b + WRAP
  {
    var (q, r) := (a / WRAP, b / WRAP);
    assert Tick(a) - Tick(b) == a - b - (q - r) * WRAP;
  }

  // ----- timers and their history -----

  /** Where an operation of a thread on a timer stands: a start has taken the timer off the list and read
      the clock, or a stop has taken it off the list and has not cleared its flag yet. */
  datatype Phase = Idle | Starting | Stopping

  /** A timer with its flag `active` and its 32-bit `timeout`.  The rest is history: whether it is on the
      list, the tick its start read the clock at (`began`) and the tick it was linked at, the tick it waits
      for (`due`), when it fired since, `stamp`, its place in the order of linking, and whether a stop took
      it off the list. */
  datatype Rec = Rec(init: nat, periodic: bool, active: bool, timeout: nat, listed: bool, phase: Phase,
                     began: nat, linked: nat, due: nat, fired: seq<nat>, stamp: nat, stopped: bool)

  datatype Entry = Entry(time: nat, due: nat, stamp: nat, timer: Timer)

  /** `row` is the last row of the skip list, which holds every linked timer; `log` is the history of
      firings. */
  datatype State = State(now: nat, row: seq<Timer>, timers: map<Timer, Rec>, stamps: nat, log: seq<Entry>)

  // ----- operations -----

  function LaterThan(s: State, timeout: nat): set<Timer> {
    set t | t in s.row && t in s.timers && Later(s.timers[t].timeout, timeout)
  }

  function Begun(init: nat, periodic: bool, now: nat): Rec {
    Rec(init, periodic, false, Tick(now + init), false, Starting, now, 0, now + init, [], 0, false)
  }

  /** `rt_timer_start` up to the reading of the clock: the timer is off the list.  Ticks before that reading
      change nothing, since a timer off the list is left alone. */
  function Begin(s: State, t: Timer, init: nat, periodic: bool): State {
    s.(row := Without(s.row, t), timers := s.timers[t := Begun(init, periodic, s.now)])
  }

  function Listed(rec: Rec, stamp: nat): Rec { rec.(active := true, listed := true, stamp := stamp) }

  /** Insertion behind every timer that is not later. */
  function Enlist(s: State, t: Timer, rec: Rec): State {
    s.(row := Insert(s.row, t, LaterThan(s, rec.timeout)), timers := s.timers[t := Listed(rec, s.stamps)],
       stamps := s.stamps + 1)
  }

  function Arrived(rec: Rec, now: nat): Rec { rec.(phase := Idle, linked := now) }

  /** The second section of `rt_timer_start`. */
  function Link(s: State, t: Timer): State
    requires t in s.timers
  {
    Enlist(s, t, Arrived(s.timers[t], s.now))
  }

  /** A start that nothing comes between, as those made with interrupts disabled are. */
  function Start(s: State, t: Timer, init: nat, periodic: bool): State { Link(Begin(s, t, init, periodic), t) }

  function Off(rec: Rec): Rec { rec.(listed := false, phase := Stopping, stopped := rec.stopped || rec.listed) }

  /** The section of `rt_timer_stop`, after the flag was found set, which it may not be any more. */
  function Remove(s: State, t: Timer): State
    requires t in s.timers
  {
    s.(row := Without(s.row, t), timers := s.timers[t := Off(s.timers[t])])
  }

  /** The end of `rt_timer_stop`: the flag is cleared. */
  function Clear(s: State, t: Timer): State
    requires t in s.timers
  {
    s.(timers := s.timers[t := s.timers[t].(active := false, phase := Idle)])
  }

  /** A stop that nothing comes between. */
  function Stop(s: State, t: Timer): State {
    if t !in s.timers || !s.timers[t].active then s else Clear(Remove(s, t), t)
  }

  /** A timer that just fired. */
  function Lapsed(rec: Rec, now: nat): Rec {
    rec.(fired := rec.fired + [now], active := false, listed := false)
  }

  function Again(rec: Rec, now: nat): Rec { rec.(timeout := Tick(now + rec.init), due := now + rec.init) }

  /** `rt_timer_check` takes an expired first timer off the list and calls back ... */
  function Pop(s: State): State
    requires s.row != [] && s.row[0] in s.timers
  {
    var t, rec := s.row[0], s.timers[s.row[0]];
    s.(row := s.row[1..], timers := s.timers[t := Lapsed(rec, s.now)], log := s.log + [Entry(s.now, rec.due, rec.stamp, t)])
  }

  /** ... and starts it again if it is periodic; the callback leaves the list alone. */
  function Fire(s: State): State
    requires s.row != [] && s.row[0] in s.timers
  {
    var t, rec := s.row[0], s.timers[s.row[0]];
    if rec.periodic && rec.active then Enlist(Pop(s), t, Again(Lapsed(rec, s.now), s.now)) else Pop(s)
  }

  predicate HeadExpired(s: State) {
    s.row != [] && s.row[0] in s.timers && Expired(Tick(s.now), s.timers[s.row[0]].timeout)
  }

  /** At most `n` firings. */
  function CheckN(s: State, n: nat): State
    decreases n
  {
    if n == 0 || !HeadExpired(s) then s else CheckN(Fire(s), n - 1)
  }

  function Check(s: State): State { CheckN(s, |s.row|) }

  /** One tick of the clock. */
  function Advance1(s: State): State { Check(s.(now := s.now + 1)) }

  // ----- what every run keeps -----

  ghost predicate Before(d: nat, n: nat, d': nat, n': nat) { d < d' || (d == d' && n < n') }

  /** The list is ordered by deadline, and among equal deadlines by linking. */
  ghost predicate Ordered(row: seq<Timer>, timers: map<Timer, Rec>) {
    forall i, j :: 0 <= i < j < |row| && row[i] in timers && row[j] in timers ==>
      Before(timers[row[i]].due, timers[row[i]].stamp, timers[row[j]].due, timers[row[j]].stamp)
  }

  /** When the timer fires first: at its deadline if it was linked before that, else at the next tick. */
  function First(rec: Rec): nat {
    if rec.linked < rec.began + rec.init then rec.began + rec.init else rec.linked + 1
  }

  /** The tick the timer waits for next. */
  function Deadline(rec: Rec): nat {
    if rec.fired == [] then rec.began + rec.init else First(rec) + |rec.fired| * rec.init
  }

  /** The timer fired first at `First` and then after every delay, and waits for the next. */
  ghost predicate History(rec: Rec, now: nat, slack: nat) {
    && rec.init + slack < HALF && (rec.periodic ==> rec.init >= 1)
    && rec.began <= now && (!rec.phase.Starting? ==> rec.began <= rec.linked <= now)
    && (forall k :: 0 <= k < |rec.fired| ==> rec.fired[k] == First(rec) + k * rec.init)
    && (rec.listed || rec.phase.Starting? ==> rec.due == Deadline(rec) && rec.timeout == Tick(rec.due))
    && (rec.listed ==> rec.active && rec.phase.Idle?) && (rec.active ==> rec.listed || rec.phase.Stopping?)
    && (rec.phase.Starting? ==> rec.fired == [])
    && (!rec.periodic ==> |rec.fired| <= if rec.listed || rec.phase.Starting? then 0 else 1)
    && (rec.fired != [] ==> rec.fired[|rec.fired| - 1] <= now)
  }

  /** A timer that no stop took off is on the list, between the sections of its start, or a one-shot one that
      fired. */
  ghost predicate Present(rec: Rec) { rec.listed || rec.phase.Starting? || rec.stopped || (!rec.periodic && |rec.fired| == 1) }

  ghost predicate Complete(timers: map<Timer, Rec>) { forall t :: t in timers ==> Present(timers[t]) }

  ghost predicate LogOrdered(log: seq<Entry>) {
    forall i, j :: 0 <= i < j < |log| ==> Follows(log[i], log[j])
  }

  /** Firings come in order of time, in one check in order of deadline, and for one deadline in order of
      linking, at whatever time they come. */
  ghost predicate Follows(e: Entry, f: Entry) {
    && (e.time < f.time || (e.time == f.time && Before(e.due, e.stamp, f.due, f.stamp)))
    && (e.due == f.due ==> e.stamp < f.stamp)
  }

  /** Deadlines lie at most `slack` ticks back and less than half the range of ticks apart. */
  ghost predicate Near(s: State, slack: nat) {
    forall t :: t in s.row ==>
      t in s.timers && s.now <= s.timers[t].due + slack && s.timers[t].due + slack < s.now + HALF && s.timers[t].stamp < s.stamps
  }

  ghost predicate LogOk(s: State, slack: nat) {
    && LogOrdered(s.log)
    && (forall e :: e in s.log ==> e.due <= e.time <= s.now && e.stamp < s.stamps && (slack == 0 ==> e.due == e.time))
    && (forall e, t :: e in s.log && t in s.row && t in s.timers && e.due == s.timers[t].due ==> e.stamp < s.timers[t].stamp)
  }

  ghost predicate Base(s: State, slack: nat) {
    && NoDuplicates(s.row) && (forall t :: t in s.row <==> t in s.timers && s.timers[t].listed)
    && (forall t :: t in s.timers ==> History(s.timers[t], s.now, slack))
    && Near(s, slack) && Ordered(s.row, s.timers) && LogOk(s, slack)
  }

  /** During a check a deadline that is overdue is that of a timer linked too late, since the last tick. */
  ghost predicate DueOk(rec: Rec, now: nat) {
    (rec.fired == [] ==> rec.linked < now) && (rec.due < now ==> rec.fired == [] && rec.linked + 1 == now)
  }

  /** What holds during a check. */
  ghost predicate Sound(s: State, slack: nat) {
    && Base(s, slack) && (forall t :: t in s.row ==> DueOk(s.timers[t], s.now))
    && forall e, t :: e in s.log && t in s.row ==>
         e.time < s.now || Before(e.due, e.stamp, s.timers[t].due, s.timers[t].stamp)
  }

  ghost predicate Ahead(rec: Rec, now: nat, slack: nat) {
    now < rec.due + slack && (now < rec.due || (rec.fired == [] && rec.linked == now))
  }

  /** Between checks every deadline lies ahead, or the timer was linked too late since the last tick. */
  ghost predicate Valid(s: State, slack: nat) {
    Base(s, slack) && Complete(s.timers) && forall t :: t in s.row ==> Ahead(s.timers[t], s.now, slack)
  }

  /** No timer but `t` changes. */
  ghost predicate OthersSame(s: State, s': State, t: Timer) {
    && (forall u :: u != t ==> (u in s'.row <==> u in s.row) && (u in s'.timers <==> u in s.timers))
    && forall u :: u != t && u in s.timers && u in s'.timers ==> s'.timers[u] == s.timers[u]
  }

  /** The set that stops the insertion search holds exactly the timers with a later deadline. */
  lemma LaterThanIs(s: State, due: nat, slack: nat)
    requires Near(s, slack) && forall t :: t in s.row ==> s.timers[t].timeout == Tick(s.timers[t].due)
    requires s.now <= due + slack && due + slack < s.now + HALF
    ensures forall t :: t in LaterThan(s, Tick(due)) <==> t in s.row && s.timers[t].due > due
  {
    hide Later; hide Tick;
    forall t | t in s.row ensures Later(s.timers[t].timeout, Tick(due)) <==> s.timers[t].due > due {
      LaterIs(s.timers[t].due, due);
    }
  }

  /** Insertion behind all that are due no later keeps the order. */
  lemma {:induction false} InsertOrdered(row: seq<Timer>, timers: map<Timer, Rec>, t: Timer, later: set<Timer>)
    requires Ordered(row, timers) && t in timers && t !in row && forall x :: x in row ==> x in timers
    requires forall x :: x in row ==> (x in later <==> timers[x].due > timers[t].due)
    requires forall x :: x in row ==> timers[x].stamp < timers[t].stamp
    ensures Ordered(Insert(row, t, later), timers)
    decreases |row|
  {
    if row != [] {
      var rest := row[1..];
      assert row == [row[0]] + rest;
      if row[0] in later {
        OrderedFront(t, row, timers);
      } else {
        InsertOrdered(rest, timers, t, later);
        InsertMembers(rest, t, later);
        OrderedFront(row[0], Insert(rest, t, later), timers);
      }
    }
  }

  lemma {:induction false} InsertMembers(row: seq<Timer>, t: Timer, later: set<Timer>)
    ensures forall x :: x in Insert(row, t, later) <==> x in row || x == t
    decreases |row|
  {
    if row != [] {
      assert row == [row[0]] + row[1..];
      InsertMembers(row[1..], t, later);
    }
  }

  lemma OrderedFront(x: Timer, row: seq<Timer>, timers: map<Timer, Rec>)
    requires Ordered(row, timers) && x in timers
    requires forall y :: y in row && y in timers ==> Before(timers[x].due, timers[x].stamp, timers[y].due, timers[y].stamp)
    ensures Ordered([x] + row, timers)
  {
  }

  /** Linking a timer whose deadline is near. */
  lemma EnlistKeeps(s: State, t: Timer, rec: Rec, slack: nat)
    requires Base(s, slack) && t !in s.row && History(Listed(rec, s.stamps), s.now, slack)
    requires s.now <= rec.due + slack && rec.due + slack < s.now + HALF
    ensures Base(Enlist(s, t, rec), slack) && (forall u :: u in Enlist(s, t, rec).row <==> u in s.row || u == t)
    ensures forall u :: u in s.timers && u != t ==> Enlist(s, t, rec).timers[u] == s.timers[u]
  {
    hide Tick; hide LaterThan; hide LogOrdered; hide History; hide Ordered; hide NoDuplicates; hide Insert;
    var s' := Enlist(s, t, rec);
    var later := LaterThan(s, rec.timeout);
    RowHistory(s, slack);
    ListedTimeout(rec, s.stamps, s.now, slack);
    LaterThanIs(s, rec.due, slack);
    InsertMembers(s.row, t, later);
    InsertNew(s.row, t, later);
    OrderedFrame(s.row, s.timers, s'.timers);
    InsertOrdered(s.row, s'.timers, t, later);
  }

  lemma ListedTimeout(rec: Rec, stamp: nat, now: nat, slack: nat)
    requires History(Listed(rec, stamp), now, slack)
    ensures rec.timeout == Tick(rec.due)
  {
  }

  lemma RowHistory(s: State, slack: nat)
    requires Base(s, slack)
    ensures forall t :: t in s.row ==> t in s.timers && s.timers[t].timeout == Tick(s.timers[t].due)
  {
    hide Tick;
    forall t | t in s.row ensures t in s.timers && s.timers[t].timeout == Tick(s.timers[t].due) {
      assert History(s.timers[t], s.now, slack);
    }
  }

  /** The list keeps its order when none of its timers changes. */
  lemma OrderedFrame(row: seq<Timer>, timers: map<Timer, Rec>, timers': map<Timer, Rec>)
    requires Ordered(row, timers) && forall t :: t in row ==> t in timers && t in timers' && timers'[t] == timers[t]
    ensures Ordered(row, timers')
  {
    forall i, j | 0 <= i < j < |row|
      ensures Before(timers'[row[i]].due, timers'[row[i]].stamp, timers'[row[j]].due, timers'[row[j]].stamp)
    {
      assert row[i] in row && row[j] in row;
    }
  }

  /** Taking a timer off the list. */
  lemma DropKeeps(s: State, t: Timer, rec: Rec, slack: nat)
    requires Base(s, slack) && History(rec, s.now, slack) && !rec.listed
    ensures var s' := s.(row := Without(s.row, t), timers := s.timers[t := rec]);
            && Base(s', slack) && (forall u :: u in s'.row <==> u in s.row && u != t)
  {
    hide Without; hide History; hide LogOrdered; hide NoDuplicates; hide Ordered;
    WithoutIs(s.row, t);
    OrderedWithout(s.row, s.timers, t);
    OrderedFrame(Without(s.row, t), s.timers, s.timers[t := rec]);
  }

  lemma OrderedWithout(row: seq<Timer>, timers: map<Timer, Rec>, t: Timer)
    requires Ordered(row, timers)
    ensures Ordered(Without(row, t), timers)
  {
    var w := Without(row, t);
    PositionFound(row, t);
    if t in row {
      forall i, j | 0 <= i < j < |w| && w[i] in timers && w[j] in timers
        ensures Before(timers[w[i]].due, timers[w[i]].stamp, timers[w[j]].due, timers[w[j]].stamp)
      {
        WithoutAt(row, t, i);
        WithoutAt(row, t, j);
      }
    }
  }

  lemma BegunIs(init: nat, periodic: bool, now: nat, slack: nat)
    requires init + slack < HALF && (periodic ==> init >= 1)
    ensures History(Begun(init, periodic, now), now, slack)
  {
    hide Tick;
  }

  lemma BeginKeeps(s: State, t: Timer, init: nat, periodic: bool, slack: nat)
    requires Valid(s, slack) && init + slack < HALF && (periodic ==> init >= 1)
    ensures Valid(Begin(s, t, init, periodic), slack)
  {
    hide Present;
    hide Base; hide History; hide Without; hide Begun;
    BegunIs(init, periodic, s.now, slack);
    BegunListed(init, periodic, s.now);
    DropKeeps(s, t, Begun(init, periodic, s.now), slack);
  }

  lemma BegunListed(init: nat, periodic: bool, now: nat)
    ensures !Begun(init, periodic, now).listed && Present(Begun(init, periodic, now))
  {
  }

  /** What linking does to the fields. */
  lemma ArrivedIs(rec: Rec, stamp: nat, now: nat, slack: nat)
    requires History(rec, now, slack) && rec.phase.Starting?
    ensures var rec' := Listed(Arrived(rec, now), stamp);
            && History(rec', now, slack) && rec'.due == rec.due == rec.began + rec.init && rec'.fired == []
            && Present(rec') && rec'.linked == now && rec.due + slack < now + HALF && !rec.listed && Arrived(rec, now).due == rec.due
  {
    hide Tick;
  }

  /** The second section of a start, in whatever state it finds the list, as long as the deadline is not
      further back than `slack`. */
  lemma LinkKeeps(s: State, t: Timer, slack: nat)
    requires Valid(s, slack) && t in s.timers && s.timers[t].phase.Starting? && s.now < s.timers[t].due + slack
    ensures Valid(Link(s, t), slack)
  {
    hide Present;
    hide Base; hide History; hide Listed; hide Arrived; hide Enlist;
    var rec := s.timers[t];
    var arrived := Arrived(rec, s.now);
    StartingAlone(s, t, slack);
    ArrivedIs(rec, s.stamps, s.now, slack);
    EnlistKeeps(s, t, arrived, slack);
    EnlistRec(s, t, arrived);
  }

  lemma StartingAlone(s: State, t: Timer, slack: nat)
    requires Base(s, slack) && t in s.timers && s.timers[t].phase.Starting?
    ensures t !in s.row && History(s.timers[t], s.now, slack)
    ensures forall u :: u in s.row ==> u in s.timers
  {
    hide Near; hide Ordered; hide LogOk; hide NoDuplicates; hide Tick;
    assert History(s.timers[t], s.now, slack);
  }

  lemma EnlistRec(s: State, t: Timer, rec: Rec)
    ensures var s' := Enlist(s, t, rec);
            && s'.timers == s.timers[t := Listed(rec, s.stamps)] && s'.now == s.now && s'.log == s.log
            && s'.stamps == s.stamps + 1
  {
  }

  lemma RemoveKeeps(s: State, t: Timer, slack: nat)
    requires Valid(s, slack) && t in s.timers && s.timers[t].phase.Idle?
    ensures Valid(Remove(s, t), slack)
  {
    hide Present;
    hide Base; hide History; hide Without; hide Off;
    OffIs(s, t, slack);
    DropKeeps(s, t, Off(s.timers[t]), slack);
  }

  lemma OffIs(s: State, t: Timer, slack: nat)
    requires Base(s, slack) && Complete(s.timers) && t in s.timers && s.timers[t].phase.Idle?
    ensures History(Off(s.timers[t]), s.now, slack) && !Off(s.timers[t]).listed && Present(Off(s.timers[t]))
  {
    hide Near; hide Ordered; hide LogOk; hide NoDuplicates; hide Tick;
    assert History(s.timers[t], s.now, slack);
  }

  lemma ClearKeeps(s: State, t: Timer, slack: nat)
    requires Valid(s, slack) && t in s.timers && s.timers[t].phase.Stopping?
    ensures Valid(Clear(s, t), slack)
  {
    hide Near; hide Ordered; hide LogOk; hide NoDuplicates; hide History;
    ClearIs(s.timers[t], s.now, slack);
    assert t !in s.row;
    ClearFrame(s, t, slack);
  }

  lemma ClearIs(rec: Rec, now: nat, slack: nat)
    requires History(rec, now, slack) && rec.phase.Stopping?
    ensures !rec.listed && History(rec.(active := false, phase := Idle), now, slack)
  {
    hide Tick;
  }

  lemma ClearFrame(s: State, t: Timer, slack: nat)
    requires Near(s, slack) && Ordered(s.row, s.timers) && LogOk(s, slack) && t in s.timers && t !in s.row
    ensures var s' := Clear(s, t); Near(s', slack) && Ordered(s'.row, s'.timers) && LogOk(s', slack)
  {
    hide LogOrdered; hide Ordered;
    OrderedFrame(s.row, s.timers, Clear(s, t).timers);
  }

  /** A start that nothing comes between links its timer at the tick it read the clock at: with a delay
      from one on no slack is needed. */
  lemma StartKeeps(s: State, t: Timer, init: nat, periodic: bool, slack: nat)
    requires Valid(s, slack) && init + slack < HALF && init + slack >= 1 && (periodic ==> init >= 1)
    ensures Valid(Start(s, t, init, periodic), slack)
    ensures var rec := Start(s, t, init, periodic).timers[t];
            rec.began == rec.linked == s.now && (First(rec) == s.now + init <==> init >= 1)
  {
    hide Valid; hide Enlist;
    BeginKeeps(s, t, init, periodic, slack);
    LinkKeeps(Begin(s, t, init, periodic), t, slack);
    EnlistRec(Begin(s, t, init, periodic), t, Arrived(Begun(init, periodic, s.now), s.now));
  }

  lemma StopKeeps(s: State, t: Timer, slack: nat)
    requires Valid(s, slack) && (t in s.timers ==> s.timers[t].phase.Idle?)
    ensures Valid(Stop(s, t), slack)
    ensures var s' := Stop(s, t);
            && t !in s'.row && (t in s'.timers ==> !s'.timers[t].active)
            && OthersSame(s, s', t)
  {
    if t in s.timers && s.timers[t].active {
      RemoveKeeps(s, t, slack);
      ClearKeeps(Remove(s, t), t, slack);
    }
    hide Near; hide Ordered; hide LogOk; hide NoDuplicates; hide Ahead; hide Tick; hide Without;
    if t in s.row { assert History(s.timers[t], s.now, slack); }
    WithoutIs(s.row, t);
  }

  // ----- the check -----

  /** How many timers at the front of the list are due. */
  function DueCount(row: seq<Timer>, timers: map<Timer, Rec>, now: nat): (n: nat)
    ensures n <= |row|
    decreases |row|
  {
    if row == [] || row[0] !in timers || timers[row[0]].due > now then 0 else 1 + DueCount(row[1..], timers, now)
  }

  lemma {:induction false} InsertDue(row: seq<Timer>, timers: map<Timer, Rec>, now: nat, t: Timer, later: set<Timer>)
    requires t in timers && timers[t].due > now && forall x :: x in row ==> x in timers
    requires forall x :: x in row ==> (x in later <==> timers[x].due > timers[t].due)
    ensures DueCount(Insert(row, t, later), timers, now) == DueCount(row, timers, now)
    decreases |row|
  {
    if row != [] && row[0] !in later {
      assert row == [row[0]] + row[1..];
      InsertDue(row[1..], timers, now, t, later);
    }
  }

  lemma {:induction false} DueFrame(row: seq<Timer>, timers: map<Timer, Rec>, timers': map<Timer, Rec>, now: nat)
    requires forall x :: x in row ==> x in timers && x in timers' && timers'[x] == timers[x]
    ensures DueCount(row, timers', now) == DueCount(row, timers, now)
    decreases |row|
  {
    if row != [] {
      assert row == [row[0]] + row[1..];
      DueFrame(row[1..], timers, timers', now);
    }
  }

  /** The first timer has expired exactly when it is due. */
  lemma HeadIs(s: State, slack: nat)
    requires Base(s, slack)
    ensures HeadExpired(s) <==> s.row != [] && s.row[0] in s.timers && s.timers[s.row[0]].due <= s.now
  {
    hide Tick; hide Expired; hide History; hide Ordered; hide LogOk;
    if s.row != [] {
      var rec := s.timers[s.row[0]];
      assert s.row[0] in s.row;
      RowHistory(s, slack);
      SlackBelow(s, s.row[0], slack);
      LaterIs(s.now, rec.due);
    }
  }

  lemma SlackBelow(s: State, t: Timer, slack: nat)
    requires Base(s, slack) && t in s.timers
    ensures slack < HALF
  {
    assert History(s.timers[t], s.now, slack);
  }

  lemma LapsedIs(rec: Rec, stamp: nat, now: nat, slack: nat)
    requires History(rec, now, slack) && rec.listed && rec.due <= now && DueOk(rec, now)
    ensures var rec' := Lapsed(rec, now);
            && History(rec', now, slack) && !rec'.listed && rec'.fired == rec.fired + [now]
            && (rec.periodic ==> rec.active && History(Listed(Again(rec', now), stamp), now, slack))
            && now == First(rec) + |rec.fired| * rec.init
  {
    hide Tick;
    var n := |rec.fired|;
    OneMore(n, rec.init);
    var rec' := Lapsed(rec, now);
    assert First(rec') == First(rec);
    assert now == First(rec) + n * rec.init;
    forall k | 0 <= k < n + 1 ensures rec'.fired[k] == First(rec') + k * rec.init {
      if k < n { assert rec.fired[k] == First(rec) + k * rec.init; }
    }
  }

  lemma OneMore(n: nat, c: nat)
    ensures (n + 1) * c == n * c + c
  {
  }

  /** Taking the first timer off at its tick. */
  lemma PopKeeps(s: State, slack: nat)
    requires Sound(s, slack) && HeadExpired(s)
    ensures Sound(Pop(s), slack) && s.row[0] !in Pop(s).row
    ensures DueCount(Pop(s).row, Pop(s).timers, s.now) == DueCount(s.row, s.timers, s.now) - 1
  {
    hide Lapsed; hide History; hide NoDuplicates; hide Tick; hide Without; hide LogOrdered; hide LogOk; hide DueOk; hide Ordered;
    var t, rec := s.row[0], s.timers[s.row[0]];
    assert t in s.row && History(rec, s.now, slack) && DueOk(rec, s.now);
    HeadIs(s, slack);
    LapsedIs(rec, 0, s.now, slack);
    WithoutHead(s.row, t);
    DropKeeps(s, t, Lapsed(rec, s.now), slack);
    DueFrameRest(s, Lapsed(rec, s.now), slack);
    PopLog(s, slack);
    PopFields(s);
  }

  /** In the rest of the list everything is due later than what was just logged, or linked after it. */
  lemma PopLog(s: State, slack: nat)
    requires Sound(s, slack) && HeadExpired(s)
    ensures LogOk(Pop(s), slack)
    ensures forall e, u :: e in Pop(s).log && u in Pop(s).row ==>
              u in s.timers && (e.time < s.now || Before(e.due, e.stamp, s.timers[u].due, s.timers[u].stamp))
  {
    hide History; hide NoDuplicates; hide Tick; hide Ordered; hide LogOrdered; hide Expired; hide Near; hide Lapsed;
    EntryKeeps(s, slack);
    FirstBefore(s, slack);
    HeadFacts(s, slack);
    PopFront(s.row);
    PopFields(s);
  }

  lemma DueFrameRest(s: State, rec: Rec, slack: nat)
    requires Base(s, slack) && s.row != []
    ensures DueCount(s.row[1..], s.timers[s.row[0] := rec], s.now) == DueCount(s.row[1..], s.timers, s.now)
  {
    hide History; hide Near; hide Ordered; hide LogOk;
    PopFront(s.row);
    DueFrame(s.row[1..], s.timers, s.timers[s.row[0] := rec], s.now);
  }

  /** The entry of the first timer belongs at the end of the log. */
  lemma EntryKeeps(s: State, slack: nat)
    requires Sound(s, slack) && HeadExpired(s)
    ensures var rec := s.timers[s.row[0]];
            var e := Entry(s.now, rec.due, rec.stamp, s.row[0]);
            && LogOrdered(s.log + [e]) && e.due <= e.time && e.stamp < s.stamps && (slack == 0 ==> e.due == e.time)
  {
    hide History; hide NoDuplicates; hide Tick; hide Ordered;
    HeadIs(s, slack);
    var rec := s.timers[s.row[0]];
    var e := Entry(s.now, rec.due, rec.stamp, s.row[0]);
    assert s.row[0] in s.row;
    LogAppend(s.log, e);
  }

  lemma FirstBefore(s: State, slack: nat)
    requires Base(s, slack) && s.row != []
    ensures s.row[0] in s.timers
    ensures forall u :: u in s.row[1..] ==>
              u in s.timers && Before(s.timers[s.row[0]].due, s.timers[s.row[0]].stamp, s.timers[u].due, s.timers[u].stamp)
  {
    hide History; hide LogOk; hide NoDuplicates; hide Near;
    assert s.row[0] in s.row;
    forall u | u in s.row[1..]
      ensures u in s.timers && Before(s.timers[s.row[0]].due, s.timers[s.row[0]].stamp, s.timers[u].due, s.timers[u].stamp)
    {
      var j :| 0 <= j < |s.row[1..]| && s.row[1..][j] == u;
      assert s.row[j + 1] == u && u in s.row;
    }
  }

  lemma LogAppend(log: seq<Entry>, e: Entry)
    requires LogOrdered(log) && forall x :: x in log ==> Follows(x, e)
    ensures LogOrdered(log + [e])
  {
    hide Follows;
    var log' := log + [e];
    forall i, j | 0 <= i < j < |log'| ensures Follows(log'[i], log'[j]) {
      assert log'[i] in log;
    }
  }

  /** One firing: the first timer, and one due timer less. */
  lemma FireKeeps(s: State, slack: nat)
    requires Sound(s, slack) && Complete(s.timers) && HeadExpired(s)
    ensures Sound(Fire(s), slack) && DueCount(Fire(s).row, Fire(s).timers, s.now) == DueCount(s.row, s.timers, s.now) - 1
    ensures Complete(Fire(s).timers) && Fire(s).now == s.now
  {
    hide History; hide NoDuplicates; hide Tick; hide Ordered; hide LogOk; hide DueCount; hide Enlist; hide Base; hide Expired;
    hide Pop;
    var t, rec := s.row[0], s.timers[s.row[0]];
    HeadFacts(s, slack);
    PopKeeps(s, slack);
    PopFields(s);
    LapsedIs(rec, s.stamps, s.now, slack);
    if rec.periodic {
      var again := Again(Lapsed(rec, s.now), s.now);
      AgainNear(rec, s.now, slack);
      EnlistKeeps(Pop(s), t, again, slack);
      EnlistRec(Pop(s), t, again);
      EnlistDue(Pop(s), t, again, slack);
      AgainAfter(s, t, rec, slack);
    }
    FiredPresent(s, slack);
  }

  lemma FiredPresent(s: State, slack: nat)
    requires Base(s, slack) && Complete(s.timers) && s.row != [] && s.row[0] in s.timers
    ensures Complete(Fire(s).timers)
  {
    hide NoDuplicates; hide Tick; hide Ordered; hide LogOk; hide Near;
    assert s.row[0] in s.row && History(s.timers[s.row[0]], s.now, slack);
  }

  /** What one firing does to its timer: it is called once, at this tick; a periodic one is on the list again, for
      its delay from now on, and a one-shot one is off.  No other timer changes. */
  lemma FiringIs(s: State, slack: nat)
    requires Sound(s, slack) && HeadExpired(s)
    ensures var (t, rec, s') := (s.row[0], s.timers[s.row[0]], Fire(s));
            && t in s'.timers && s'.timers[t].fired == rec.fired + [s.now]
            && s'.log == s.log + [Entry(s.now, rec.due, rec.stamp, t)]
            && (t in s'.row <==> rec.periodic) && s'.timers[t].active == rec.periodic
            && (rec.periodic ==> s'.timers[t].due == s.now + rec.init && s'.timers[t].timeout == Tick(s.now + rec.init))
            && OthersSame(s, s', t)
  {
    hide NoDuplicates; hide Tick; hide Ordered; hide LogOk; hide Near; hide History; hide Insert; hide LaterThan; hide Expired;
    HeadFacts(s, slack);
    HeadActive(s, slack);
    var rec := s.timers[s.row[0]];
    PopFront(s.row);
    if rec.periodic {
      InsertMembers(Pop(s).row, s.row[0], LaterThan(Pop(s), Again(Lapsed(rec, s.now), s.now).timeout));
    }
  }

  lemma HeadActive(s: State, slack: nat)
    requires Base(s, slack) && s.row != []
    ensures s.row[0] in s.timers && s.timers[s.row[0]].active
  {
    hide NoDuplicates; hide Tick; hide Ordered; hide LogOk; hide Near;
    assert s.row[0] in s.row && History(s.timers[s.row[0]], s.now, slack);
  }

  lemma HeadFacts(s: State, slack: nat)
    requires Sound(s, slack) && HeadExpired(s)
    ensures var rec := s.timers[s.row[0]];
            History(rec, s.now, slack) && rec.listed && rec.due <= s.now && DueOk(rec, s.now) && s.row[0] in s.row
  {
    hide History; hide NoDuplicates; hide Tick; hide Ordered; hide LogOk;
    assert s.row[0] in s.row;
    HeadIs(s, slack);
  }

  lemma PopFields(s: State)
    requires s.row != [] && s.row[0] in s.timers
    ensures var t, rec := s.row[0], s.timers[s.row[0]];
            && Pop(s).timers == s.timers[t := Lapsed(rec, s.now)] && Pop(s).now == s.now && Pop(s).stamps == s.stamps
            && Pop(s).log == s.log + [Entry(s.now, rec.due, rec.stamp, t)]
  {
  }

  lemma AgainNear(rec: Rec, now: nat, slack: nat)
    requires History(rec, now, slack) && rec.periodic
    ensures var again := Again(Lapsed(rec, now), now);
            now < again.due && again.due + slack < now + HALF && again.fired != []
  {
  }

  /** The restarted timer waits for a tick after every firing so far. */
  lemma AgainAfter(s: State, t: Timer, rec: Rec, slack: nat)
    requires s.row != [] && s.row[0] == t && t in s.timers && rec == s.timers[t] && Sound(Pop(s), slack)
    requires History(rec, s.now, slack) && rec.periodic && t !in Pop(s).row
    requires var again := Again(Lapsed(rec, s.now), s.now);
             && Base(Enlist(Pop(s), t, again), slack)
             && (forall u :: u in Enlist(Pop(s), t, again).row <==> u in Pop(s).row || u == t)
    ensures Sound(Enlist(Pop(s), t, Again(Lapsed(rec, s.now), s.now)), slack)
  {
    hide History; hide NoDuplicates; hide Tick; hide Ordered; hide Pop; hide Enlist; hide LogOrdered; hide Near;
    var again := Again(Lapsed(rec, s.now), s.now);
    AgainNear(rec, s.now, slack);
    PopFields(s);
    EnlistRec(Pop(s), t, again);
    var s' := Enlist(Pop(s), t, again);
    forall e, u | e in s'.log && u in s'.row
      ensures e.time < s'.now || Before(e.due, e.stamp, s'.timers[u].due, s'.timers[u].stamp)
    {
      assert e in Pop(s).log;
      if u != t { assert u in Pop(s).row; }
    }
    forall u | u in s'.row ensures DueOk(s'.timers[u], s'.now) { if u != t { assert u in Pop(s).row; } }
  }

  lemma EnlistDue(s: State, t: Timer, rec: Rec, slack: nat)
    requires Base(s, slack) && t !in s.row && History(Listed(rec, s.stamps), s.now, slack)
    requires s.now < rec.due && rec.due + slack < s.now + HALF
    ensures DueCount(Enlist(s, t, rec).row, Enlist(s, t, rec).timers, s.now) == DueCount(s.row, s.timers, s.now)
  {
    hide NoDuplicates; hide Tick; hide Ordered; hide LogOk; hide LaterThan; hide History;
    var s' := Enlist(s, t, rec);
    RowHistory(s, slack);
    ListedTimeout(rec, s.stamps, s.now, slack);
    LaterThanIs(s, rec.due, slack);
    DueFrame(s.row, s.timers, s'.timers, s.now);
    InsertDue(s.row, s'.timers, s.now, t, LaterThan(s, rec.timeout));
  }

  /** A check fires every timer that is due, and leaves all deadlines ahead. */
  lemma {:induction false} CheckKeeps(s: State, n: nat, slack: nat)
    requires Sound(s, slack) && Complete(s.timers) && DueCount(s.row, s.timers, s.now) <= n
    ensures Valid(CheckN(s, n), slack) && CheckN(s, n).now == s.now
    decreases n
  {
    hide Base; hide Valid; hide Fire; hide Expired; hide Tick;
    HeadIs(s, slack);
    if HeadExpired(s) {
      FireKeeps(s, slack);
      CheckKeeps(Fire(s), n - 1, slack);
    } else {
      AllAhead(s, slack);
    }
  }

  lemma AllAhead(s: State, slack: nat)
    requires Sound(s, slack) && Complete(s.timers) && !HeadExpired(s)
    ensures Valid(s, slack)
  {
    hide History; hide NoDuplicates; hide Tick; hide Ordered; hide LogOk; hide Expired;
    HeadIs(s, slack);
    if s.row != [] {
      assert s.row[0] in s.row;
      FirstBefore(s, slack);
      forall t | t in s.row ensures s.now < s.timers[t].due {
        var i :| 0 <= i < |s.row| && s.row[i] == t;
        if i > 0 { assert s.row[1..][i - 1] == t; }
      }
    }
  }

  /** A tick: every deadline that comes is met in this very check, and every one that was linked too late. */
  lemma TickKeeps(s: State, slack: nat)
    requires Valid(s, slack)
    ensures Valid(Advance1(s), slack) && Advance1(s).now == s.now + 1
  {
    hide Sound; hide Valid; hide CheckN; hide DueCount;
    TickSound(s, slack);
    var s1 := s.(now := s.now + 1);
    DueAtMost(s1);
    CheckKeeps(s1, |s1.row|, slack);
  }

  lemma DueAtMost(s: State)
    ensures DueCount(s.row, s.timers, s.now) <= |s.row|
  {
  }

  lemma TickSound(s: State, slack: nat)
    requires Valid(s, slack)
    ensures Sound(s.(now := s.now + 1), slack) && Complete(s.timers)
  {
    hide History; hide NoDuplicates; hide Ordered; hide LogOrdered;
    var s1 := s.(now := s.now + 1);
    forall t | t in s.timers ensures History(s1.timers[t], s1.now, slack) { HistoryLater(s.timers[t], s.now, slack); }
    forall t | t in s.row ensures DueOk(s.timers[t], s1.now) && s1.now <= s.timers[t].due + slack {
      LinkedPast(s.timers[t], s.now, slack);
      assert Ahead(s.timers[t], s.now, slack);
    }
  }

  lemma LinkedPast(rec: Rec, now: nat, slack: nat)
    requires History(rec, now, slack) && rec.listed
    ensures rec.linked <= now
  {
  }

  lemma HistoryLater(rec: Rec, now: nat, slack: nat)
    requires History(rec, now, slack)
    ensures History(rec, now + 1, slack)
  {
    hide Tick;
  }

  // ----- runs -----

  datatype Step =
    | BeginStep(t: Timer, init: nat, periodic: bool)
    | LinkStep(t: Timer)
    | RemoveStep(t: Timer)
    | ClearStep(t: Timer)
    | TickStep

  /** One thread at a time operates on a timer, and no start is so late that the deadline lies `slack` ticks
      or more back when it links; with no slack, none links after its deadline came. */
  ghost predicate Enabled(s: State, step: Step, slack: nat) {
    match step
    case BeginStep(t, init, periodic) =>
      (t in s.timers ==> s.timers[t].phase.Idle?) && init + slack < HALF && (periodic ==> init >= 1)
    case LinkStep(t) => t in s.timers && s.timers[t].phase.Starting? && s.now < s.timers[t].due + slack
    case RemoveStep(t) => t in s.timers && s.timers[t].phase.Idle?
    case ClearStep(t) => t in s.timers && s.timers[t].phase.Stopping?
    case TickStep => true
  }

  function Next(s: State, step: Step): State
    requires !step.BeginStep? && !step.TickStep? ==> step.t in s.timers
  {
    match step
    case BeginStep(t, init, periodic) => Begin(s, t, init, periodic)
    case LinkStep(t) => Link(s, t)
    case RemoveStep(t) => Remove(s, t)
    case ClearStep(t) => Clear(s, t)
    case TickStep => Advance1(s)
  }

  ghost predicate Reaches(s: State, steps: seq<Step>, slack: nat, s': State)
    decreases |steps|
  {
    if steps == [] then s' == s else Enabled(s, steps[0], slack) && Reaches(Next(s, steps[0]), steps[1..], slack, s')
  }

  function Init(now: nat): State { State(now, [], map[], 0, []) }

  lemma InitValid(now: nat, slack: nat)
    ensures Valid(Init(now), slack)
  {
  }

  lemma StepKeeps(s: State, step: Step, slack: nat)
    requires Valid(s, slack) && Enabled(s, step, slack)
    ensures Valid(Next(s, step), slack)
  {
    hide Valid; hide Begin; hide Link; hide Remove; hide Clear; hide Advance1;
    match step
    case BeginStep(t, init, periodic) => BeginKeeps(s, t, init, periodic, slack);
    case LinkStep(t) => LinkKeeps(s, t, slack);
    case RemoveStep(t) => RemoveKeeps(s, t, slack);
    case ClearStep(t) => ClearKeeps(s, t, slack);
    case TickStep => TickKeeps(s, slack);
  }

  /** Every run from any clock value, with ticks and other timers' operations between the sections of each
      start and stop, keeps the list ordered and the history exact. */
  lemma {:induction false} RunKeeps(s: State, steps: seq<Step>, slack: nat, s': State)
    requires Valid(s, slack) && Reaches(s, steps, slack, s')
    ensures Valid(s', slack)
    decreases |steps|
  {
    hide Valid; hide Next; hide Enabled;
    if steps != [] {
      EnabledIn(s, steps[0], slack);
      StepKeeps(s, steps[0], slack);
      RunKeeps(Next(s, steps[0]), steps[1..], slack, s');
    }
  }

  lemma EnabledIn(s: State, step: Step, slack: nat)
    requires Enabled(s, step, slack)
    ensures !step.BeginStep? && !step.TickStep? ==> step.t in s.timers
  {
  }

  /** What every run leaves of a timer. */
  lemma RunHistory(now: nat, steps: seq<Step>, slack: nat, s: State, t: Timer)
    requires Reaches(Init(now), steps, slack, s) && t in s.timers
    ensures History(s.timers[t], s.now, slack) && Present(s.timers[t])
    ensures s.timers[t].listed <==> t in s.row
    ensures s.timers[t].listed ==> Ahead(s.timers[t], s.now, slack)
  {
    hide History; hide NoDuplicates; hide Ordered; hide LogOk; hide Init; hide Reaches;
    InitValid(now, slack);
    RunKeeps(Init(now), steps, slack, s);
  }

  /** In every run, despite 32-bit ticks: a one-shot timer that was started and not stopped fires exactly
      once, as soon as the clock gets there: at its start plus its delay if and only if it was linked
      before that tick, and at the tick after its linking otherwise. */
  lemma OneShotExact(now: nat, steps: seq<Step>, slack: nat, s: State, t: Timer)
    requires Reaches(Init(now), steps, slack, s) && t in s.timers
    requires var rec := s.timers[t]; !rec.periodic && !rec.stopped && !rec.phase.Starting?
    ensures var rec := s.timers[t];
            && (if s.now < First(rec) then rec.listed && rec.fired == [] else !rec.listed && rec.fired == [First(rec)])
            && (First(rec) == rec.began + rec.init <==> rec.linked < rec.began + rec.init)
            && (rec.linked >= rec.began + rec.init ==> First(rec) == rec.linked + 1)
  {
    hide History; hide Reaches;
    RunHistory(now, steps, slack, s, t);
    OneShotHistory(s.timers[t], s.now, slack);
  }

  lemma OneShotHistory(rec: Rec, now: nat, slack: nat)
    requires History(rec, now, slack) && !rec.periodic && !rec.stopped && !rec.phase.Starting?
    requires Present(rec) && (rec.listed ==> Ahead(rec, now, slack))
    ensures if now < First(rec) then rec.listed && rec.fired == [] else !rec.listed && rec.fired == [First(rec)]
  {
    hide Tick;
    if !rec.listed { assert rec.fired[0] == First(rec) + 0 * rec.init; }
  }

  /** A periodic timer that is not stopped has fired at `First` and every multiple of its delay after that up
      to now, and at no other tick. */
  lemma PeriodicExact(now: nat, steps: seq<Step>, slack: nat, s: State, t: Timer, k: nat)
    requires Reaches(Init(now), steps, slack, s) && t in s.timers
    requires var rec := s.timers[t]; rec.periodic && !rec.stopped && !rec.phase.Starting?
    ensures var rec := s.timers[t];
            && (First(rec) + k * rec.init <= s.now <==> k < |rec.fired|)
            && (k < |rec.fired| ==> rec.fired[k] == First(rec) + k * rec.init)
            && (First(rec) == rec.began + rec.init <==> rec.linked < rec.began + rec.init)
  {
    hide History; hide Reaches;
    RunHistory(now, steps, slack, s, t);
    PeriodicHistory(s.timers[t], s.now, slack, k);
  }

  lemma PeriodicHistory(rec: Rec, now: nat, slack: nat, k: nat)
    requires History(rec, now, slack) && rec.periodic && !rec.stopped && !rec.phase.Starting?
    requires Present(rec) && (rec.listed ==> Ahead(rec, now, slack))
    ensures First(rec) + k * rec.init <= now <==> k < |rec.fired|
    ensures k < |rec.fired| ==> rec.fired[k] == First(rec) + k * rec.init
  {
    hide Tick;
    var n := |rec.fired|;
    if k < n { Multiple(k, n - 1, rec.init); } else { Multiple(n, k, rec.init); }
  }

  lemma Multiple(a: nat, b: nat, c: nat)
    requires a <= b
    ensures a * c <= b * c
  {
    assert (b - a) * c >= 0 && b * c == a * c + (b - a) * c;
  }

  /** Started with nothing in between, or in any way linked at the tick the clock was read at, a timer with a
      delay from one on fires at the start plus the delay, and at its multiples when periodic. */
  lemma PromptExact(now: nat, steps: seq<Step>, slack: nat, s: State, t: Timer, k: nat)
    requires Reaches(Init(now), steps, slack, s) && t in s.timers
    requires var rec := s.timers[t]; !rec.stopped && !rec.phase.Starting? && rec.linked == rec.began && rec.init >= 1
    ensures var rec := s.timers[t];
            var tick := rec.began + (k + 1) * rec.init;
            && (tick <= s.now && (rec.periodic || k == 0) <==> k < |rec.fired|)
            && (k < |rec.fired| ==> rec.fired[k] == tick)
  {
    hide History; hide Reaches;
    var rec := s.timers[t];
    OneMore(k, rec.init);
    if rec.periodic { PeriodicExact(now, steps, slack, s, t, k); } else { OneShotExact(now, steps, slack, s, t); }
  }

  /** Over every run firings come in order of time, those of one check in order of deadline and those of one
      deadline in order of linking; and when no start links late, each comes at its deadline. */
  lemma EqualDeadlinesInOrder(now: nat, steps: seq<Step>, slack: nat, s: State, i: nat, j: nat)
    requires Reaches(Init(now), steps, slack, s) && i < j < |s.log|
    ensures Follows(s.log[i], s.log[j]) && s.log[j].due <= s.log[j].time && (slack == 0 ==> s.log[j].due == s.log[j].time)
  {
    hide History; hide NoDuplicates; hide Ordered; hide Reaches; hide Init; hide Near;
    InitValid(now, slack);
    RunKeeps(Init(now), steps, slack, s);
    assert s.log[j] in s.log;
  }

  // ----- what the steps of a run say of a timer -----

  predicate About(step: Step, t: Timer) { !step.TickStep? && step.t == t }

  /** No operation on this timer. */
  ghost predicate Apart(steps: seq<Step>, t: Timer) { forall i :: 0 <= i < |steps| ==> !About(steps[i], t) }

  function Ticks(steps: seq<Step>): nat
    decreases |steps|
  {
    if steps == [] then 0 else (if steps[0].TickStep? then 1 else 0) + Ticks(steps[1..])
  }

  lemma {:induction false} Midway(s: State, a: seq<Step>, b: seq<Step>, slack: nat, s': State) returns (m: State)
    requires Reaches(s, a + b, slack, s')
    ensures Reaches(s, a, slack, m) && Reaches(m, b, slack, s')
    decreases |a|
  {
    if a == [] {
      assert a + b == b;
      m := s;
    } else {
      assert (a + b)[1..] == a[1..] + b;
      m := Midway(Next(s, a[0]), a[1..], b, slack, s');
    }
  }

  lemma {:induction false} CheckNow(s: State, n: nat)
    ensures CheckN(s, n).now == s.now
    decreases n
  {
    if n > 0 && HeadExpired(s) { CheckNow(Fire(s), n - 1); }
  }

  /** The clock counts the ticks. */
  lemma {:induction false} ClockIs(s: State, steps: seq<Step>, slack: nat, s': State)
    requires Reaches(s, steps, slack, s')
    ensures s'.now == s.now + Ticks(steps)
    decreases |steps|
  {
    if steps != [] {
      if steps[0].TickStep? {
        var s1 := s.(now := s.now + 1);
        CheckNow(s1, |s1.row|);
      }
      ClockIs(Next(s, steps[0]), steps[1..], slack, s');
    }
  }

  /** The same start of the same timer. */
  predicate SameStart(a: Rec, b: Rec) {
    && a.init == b.init && a.periodic == b.periodic && a.began == b.began && a.linked == b.linked
    && a.phase == b.phase && a.stopped == b.stopped
  }

  lemma {:induction false} CheckSame(s: State, n: nat, t: Timer)
    requires t in s.timers
    ensures t in CheckN(s, n).timers && SameStart(s.timers[t], CheckN(s, n).timers[t])
    decreases n
  {
    if n > 0 && HeadExpired(s) { CheckSame(Fire(s), n - 1, t); }
  }

  lemma {:induction false} RunSame(s: State, steps: seq<Step>, slack: nat, s': State, t: Timer)
    requires Reaches(s, steps, slack, s') && t in s.timers && Apart(steps, t)
    ensures t in s'.timers && SameStart(s.timers[t], s'.timers[t])
    decreases |steps|
  {
    hide CheckN;
    if steps != [] {
      if steps[0].TickStep? {
        var s1 := s.(now := s.now + 1);
        CheckSame(s1, |s1.row|, t);
      }
      RunSame(Next(s, steps[0]), steps[1..], slack, s', t);
    }
  }

  /** What the run says of a timer whose last start has linked it. */
  lemma StartedIs(now: nat, before: seq<Step>, t: Timer, init: nat, periodic: bool, between: seq<Step>, after: seq<Step>,
                  slack: nat, s: State)
    requires Reaches(Init(now), before + ([BeginStep(t, init, periodic)] + (between + ([LinkStep(t)] + after))), slack, s)
    requires Apart(between, t) && Apart(after, t)
    ensures t in s.timers
    ensures var rec := s.timers[t];
            && rec.init == init && rec.periodic == periodic && rec.phase.Idle? && !rec.stopped
            && rec.began == now + Ticks(before) && rec.linked == rec.began + Ticks(between)
  {
    hide Reaches; hide Next; hide Apart; hide Ticks; hide Init;
    var last, tail := [LinkStep(t)] + after, between + ([LinkStep(t)] + after);
    var s1 := Midway(Init(now), before, [BeginStep(t, init, periodic)] + tail, slack, s);
    var s2 := Midway(s1, [BeginStep(t, init, periodic)], tail, slack, s);
    var s3 := Midway(s2, between, last, slack, s);
    var s4 := Midway(s3, [LinkStep(t)], after, slack, s);
    ClockIs(Init(now), before, slack, s1);
    InitNow(now);
    OneStep(s1, BeginStep(t, init, periodic), slack, s2);
    BeginIs(s1, t, init, periodic);
    ClockIs(s2, between, slack, s3);
    RunSame(s2, between, slack, s3, t);
    OneStep(s3, LinkStep(t), slack, s4);
    LinkIs(s3, t);
    RunSame(s4, after, slack, s, t);
  }

  lemma InitNow(now: nat)
    ensures Init(now).now == now
  {
  }

  lemma OneStep(s: State, step: Step, slack: nat, s': State)
    requires Reaches(s, [step], slack, s')
    ensures Enabled(s, step, slack) && s' == Next(s, step)
  {
    assert [step][1..] == [];
  }

  lemma BeginIs(s: State, t: Timer, init: nat, periodic: bool)
    ensures var s' := Next(s, BeginStep(t, init, periodic));
            s'.now == s.now && t in s'.timers && s'.timers[t] == Begun(init, periodic, s.now)
  {
  }

  lemma LinkIs(s: State, t: Timer)
    requires t in s.timers
    ensures var s' := Next(s, LinkStep(t));
            s'.now == s.now && t in s'.timers && s'.timers[t] == Listed(Arrived(s.timers[t], s.now), s.stamps)
  {
  }

  /** Over every run and stated on its steps alone: from the linking of its last start on, with whatever steps in
      between and after that are not about it, a periodic timer is on the list, and a one-shot one until it fires.
      It fires first at its start plus its delay if it was linked before that tick, and at the tick after its
      linking otherwise; a periodic one again after every delay, up to now, and neither at any other tick. */
  lemma StartedExact(now: nat, before: seq<Step>, t: Timer, init: nat, periodic: bool, between: seq<Step>, after: seq<Step>,
                     slack: nat, s: State, k: nat)
    requires Reaches(Init(now), before + ([BeginStep(t, init, periodic)] + (between + ([LinkStep(t)] + after))), slack, s)
    requires Apart(between, t) && Apart(after, t)
    ensures t in s.timers
    ensures var began, fired := now + Ticks(before), s.timers[t].fired;
            var linked := began + Ticks(between);
            var first := if linked < began + init then began + init else linked + 1;
            && (t in s.row <==> periodic || s.now < first)
            && (k < |fired| <==> first + k * init <= s.now && (periodic || k == 0))
            && (k < |fired| ==> fired[k] == first + k * init)
  {
    hide Reaches; hide History; hide Apart; hide Ticks; hide Init;
    var steps := before + ([BeginStep(t, init, periodic)] + (between + ([LinkStep(t)] + after)));
    StartedIs(now, before, t, init, periodic, between, after, slack, s);
    RunHistory(now, steps, slack, s, t);
    var rec := s.timers[t];
    if periodic {
      PeriodicHistory(rec, s.now, slack, k);
    } else {
      OneShotHistory(rec, s.now, slack);
      FirstOnly(rec.fired, First(rec), k, init, s.now);
    }
  }

  lemma FirstOnly(fired: seq<nat>, first: nat, k: nat, init: nat, now: nat)
    requires fired == if now < first then [] else [first]
    ensures k < |fired| <==> first + k * init <= now && k == 0
    ensures k < |fired| ==> fired[k] == first + k * init
  {
    if k == 0 { assert k * init == 0; }
  }

  /** A timer that is off the list fires no more until it is linked again. */
  lemma {:induction false} OffStaysSilent(s: State, steps: seq<Step>, slack: nat, s': State, t: Timer)
    requires Valid(s, slack) && Reaches(s, steps, slack, s') && t !in s.row
    requires forall i :: 0 <= i < |steps| ==> steps[i] != LinkStep(t)
    ensures t !in s'.row && |s.log| <= |s'.log| && s'.log[..|s.log|] == s.log
    ensures forall i :: |s.log| <= i < |s'.log| ==> s'.log[i].timer != t
    decreases |steps|
  {
    hide Valid; hide Next; hide Enabled;
    if steps != [] {
      EnabledIn(s, steps[0], slack);
      var s1 := Next(s, steps[0]);
      StepKeeps(s, steps[0], slack);
      StepSilent(s, steps[0], slack, t);
      OffStaysSilent(s1, steps[1..], slack, s', t);
    }
  }

  lemma StepSilent(s: State, step: Step, slack: nat, t: Timer)
    requires Valid(s, slack) && Enabled(s, step, slack) && t !in s.row && step != LinkStep(t)
    ensures !step.BeginStep? && !step.TickStep? ==> step.t in s.timers
    ensures var s' := Next(s, step);
            && t !in s'.row && |s.log| <= |s'.log| && s'.log[..|s.log|] == s.log
            && forall i :: |s.log| <= i < |s'.log| ==> s'.log[i].timer != t
  {
    hide Sound; hide CheckN; hide History; hide Insert; hide LaterThan; hide Without; hide DueCount; hide Near; hide LogOk; hide Ordered;
    match step
    case TickStep =>
      TickSound(s, slack);
      CheckSilent(s.(now := s.now + 1), |s.row|, slack, t);
    case LinkStep(u) => InsertMembers(s.row, u, LaterThan(s, Arrived(s.timers[u], s.now).timeout));
    case _ => WithoutIs(s.row, step.t);
  }

  lemma {:induction false} CheckSilent(s: State, n: nat, slack: nat, t: Timer)
    requires Sound(s, slack) && Complete(s.timers) && t !in s.row
    ensures var s' := CheckN(s, n);
            && t !in s'.row && |s.log| <= |s'.log| && s'.log[..|s.log|] == s.log
            && forall i :: |s.log| <= i < |s'.log| ==> s'.log[i].timer != t
    decreases n
  {
    hide Sound; hide Fire;
    if n > 0 && HeadExpired(s) {
      FireKeeps(s, slack);
      FiringIs(s, slack);
      assert s.row[0] in s.row;
      CheckSilent(Fire(s), n - 1, slack, t);
    }
  }

  // ----- where the code falls short, from the initial state -----

  /** A start whose clock reading and linking have a tick between them: the timer with delay one fires two
      ticks after the reading. */
  lemma LateLinkFiresLate(t: Timer)
    ensures var s := Advance1(Link(Advance1(Begin(Init(0), t, 1, false)), t));
            && Reaches(Init(0), [BeginStep(t, 1, false), TickStep, LinkStep(t), TickStep], 1, s)
            && t in s.timers && s.timers[t].began + s.timers[t].init == 1 && s.timers[t].fired == [2]
  {
    var s1 := Begin(Init(0), t, 1, false);
    var s2 := s1.(now := 1);
    assert s1.row == [] && Advance1(s1) == s2;
    var s3 := Link(s2, t);
    assert s3.row == [t];
    var s4 := s3.(now := 2);
    assert HeadExpired(s4);
    var s5 := Pop(s4);
    assert s5.row == [] && CheckN(s4, 1) == s5 && Advance1(s3) == s5;
    LateSteps(t, s1, s2, s3, s5);
  }

  lemma LateSteps(t: Timer, s1: State, s2: State, s3: State, s5: State)
    requires s1 == Begin(Init(0), t, 1, false) && s2 == Advance1(s1) && t in s2.timers
    requires s2.timers == s1.timers && s2.now == 1 && s3 == Link(s2, t) && s5 == Advance1(s3)
    ensures Reaches(Init(0), [BeginStep(t, 1, false), TickStep, LinkStep(t), TickStep], 1, s5)
  {
    hide Begin; hide Link; hide Advance1; hide Init;
    BeginFields(t);
    var a, b, c, d := BeginStep(t, 1, false), TickStep, LinkStep(t), TickStep;
    assert [a, b, c, d][1..] == [b, c, d] && [b, c, d][1..] == [c, d] && [c, d][1..] == [d] && [d][1..] == [];
    assert Reaches(s5, [], 1, s5);
    assert Reaches(s3, [d], 1, s5);
    assert Reaches(s2, [c, d], 1, s5);
    assert Reaches(s1, [b, c, d], 1, s5);
  }

  lemma BeginFields(t: Timer)
    ensures t !in Init(0).timers
    ensures var s := Begin(Init(0), t, 1, false);
            t in s.timers && s.timers[t].phase.Starting? && s.timers[t].due == 1
  {
  }

  /** Why one thread at a time: a stop that clears the flag after another start linked the timer leaves a
      periodic timer on the list that fires once and no more, although nobody stopped that start. */
  lemma OverlapLosesTimer(t: Timer)
    ensures var s1 := Remove(Start(Init(0), t, 1, true), t);
            var s2 := Clear(Start(s1, t, 1, true), t);
            var s3 := Advance1(s2);
            t in s3.timers && s3.timers[t].fired == [1] && s3.row == []
  {
    var s1 := Remove(Start(Init(0), t, 1, true), t);
    assert Start(Init(0), t, 1, true).row == [t];
    assert s1.row == [];
    var s2 := Clear(Start(s1, t, 1, true), t);
    assert s2.row == [t];
    var s := s2.(now := 1);
    assert HeadExpired(s);
    assert Pop(s).row == [] && CheckN(s, 1) == Pop(s);
  }

  /** A periodic timer with delay zero: the check fires it again and again and never ends. */
  lemma {:induction false} ZeroPeriodSpins(t: Timer, n: nat)
    ensures var s := Start(Init(0), t, 0, true).(now := 1);
            HeadExpired(CheckN(s, n)) && |CheckN(s, n).log| == n
  {
    var s := Start(Init(0), t, 0, true).(now := 1);
    assert s.row == [t];
    SpinsFrom(s, t, n);
  }

  lemma {:induction false} SpinsFrom(s: State, t: Timer, n: nat)
    requires s.row == [t] && t in s.timers && s.timers[t].periodic && s.timers[t].active && s.timers[t].init == 0
    requires s.now == 1 && s.timers[t].timeout in {0, 1}
    ensures HeadExpired(CheckN(s, n)) && |CheckN(s, n).log| == |s.log| + n
    decreases n
  {
    if n > 0 {
      assert s.row[1..] == [];
      SpinsFrom(Fire(s), t, n - 1);
    }
  }
}
