/** The scheduler of src/scheduler.c and the thread transitions of src/thread.c: queues by priority,
    the ready bitmap that indexes them in its 32-level and its 256-level form, and the choice of
    `rt_schedule`. */
module Scheduler {
  import opened Lists
  import opened ReadyBits

  type Thread = nat

  datatype Stat = Initial | Ready | Suspended | Closed

  /** Priorities count from 0, the most urgent, up to 31 or, when `wide`, to 255. */
  datatype ThreadInfo = ThreadInfo(stat: Stat, prio: nat)

  type Queues = map<nat, seq<Thread>>

  /** `rt_thread_ready_priority_group` and `rt_thread_ready_table`. */
  datatype Bits = Bits(group: bv32, table: seq<bv8>)

  datatype State = State(queues: Queues, bits: Bits, threads: map<Thread, ThreadInfo>, current: Option<Thread>, lockNest: int)

  function QueueOf(queues: Queues, p: nat): seq<Thread> { if p in queues then queues[p] else [] }

  /** `wide` is RT_THREAD_PRIORITY_MAX > 32. */
  predicate InRange(wide: bool, p: nat) { p < if wide then 256 else 32 }

  // ----- the bitmap -----

  predicate Shape(bits: Bits) { |bits.table| == 32 }

  function Mark(wide: bool, bits: Bits, p: nat): Bits
    requires InRange(wide, p) && Shape(bits)
  {
    if wide then Bits(GroupSet(bits.group, Row(p)), bits.table[Row(p) := RowSet(bits.table[Row(p)], Column(p))])
    else bits.(group := GroupSet(bits.group, p))
  }

  function Unmark(wide: bool, bits: Bits, p: nat): Bits
    requires InRange(wide, p) && Shape(bits)
  {
    if wide then
      var row := RowClear(bits.table[Row(p)], Column(p));
      Bits(if row == 0 then GroupClear(bits.group, Row(p)) else bits.group, bits.table[Row(p) := row])
    else bits.(group := GroupClear(bits.group, p))
  }

  predicate HasBit(wide: bool, bits: Bits, p: nat)
    requires Shape(bits)
  {
    InRange(wide, p) && if wide then RowBit(bits.table[Row(p)], Column(p)) else GroupBit(bits.group, p)
  }

  /** The word says which rows of the table are not zero. */
  ghost predicate Indexed(wide: bool, bits: Bits) {
    Shape(bits) && (wide ==> forall row: nat :: row < 32 ==> (GroupBit(bits.group, row) <==> bits.table[row] != 0))
  }

  lemma MarkIs(wide: bool, bits: Bits, p: nat)
    requires Indexed(wide, bits) && InRange(wide, p)
    ensures Indexed(wide, Mark(wide, bits, p))
    ensures forall q :: HasBit(wide, Mark(wide, bits, p), q) <==> q == p || HasBit(wide, bits, q)
  {
    hide GroupBit; hide GroupSet; hide RowBit; hide RowSet;
    var bits' := Mark(wide, bits, p);
    forall q: nat ensures HasBit(wide, bits', q) <==> q == p || HasBit(wide, bits, q) {
      if wide { RowBits(bits.table[p / 8], p % 8, q % 8); } else if q < 32 { GroupBits(bits.group, p, q); }
    }
    if wide {
      RowBits(bits.table[p / 8], p % 8, p % 8);
      forall row: nat | row < 32 ensures GroupBit(bits'.group, row) <==> bits'.table[row] != 0 { GroupBits(bits.group, p / 8, row); }
    }
  }

  lemma UnmarkIs(wide: bool, bits: Bits, p: nat)
    requires Indexed(wide, bits) && InRange(wide, p)
    ensures Indexed(wide, Unmark(wide, bits, p))
    ensures forall q :: HasBit(wide, Unmark(wide, bits, p), q) <==> q != p && HasBit(wide, bits, q)
  {
    hide GroupBit; hide GroupClear; hide RowBit; hide RowClear;
    var bits' := Unmark(wide, bits, p);
    forall q: nat ensures HasBit(wide, bits', q) <==> q != p && HasBit(wide, bits, q) {
      if wide { RowBits(bits.table[p / 8], p % 8, q % 8); } else if q < 32 { GroupBits(bits.group, p, q); }
    }
    if wide {
      RowBits(bits.table[p / 8], p % 8, p % 8);
      forall row: nat | row < 32 ensures GroupBit(bits'.group, row) <==> bits'.table[row] != 0 { GroupBits(bits.group, p / 8, row); }
    }
  }

  /** The most urgent priority with its bit set, as each form finds it. */
  function Highest(wide: bool, bits: Bits): int
    requires Shape(bits)
  {
    var number := FirstBit(bits.group) - 1;
    if wide && 0 <= number < 32 then number * 8 + FirstBit(bits.table[number] as bv32) - 1 else number
  }

  /** In either form the search returns the least priority whose bit is set. */
  lemma HighestIs(wide: bool, bits: Bits)
    requires Indexed(wide, bits) && exists p: nat :: HasBit(wide, bits, p)
    ensures var h := Highest(wide, bits); h >= 0 && HasBit(wide, bits, h) && forall q: nat :: q < h ==> !HasBit(wide, bits, q)
  {
    hide GroupBit; hide RowBit; hide FirstBit;
    GroupNotZero(wide, bits);
    FirstInGroup(bits.group);
    var number := FirstBit(bits.group) - 1;
    if wide {
      FirstInRow(bits.table[number]);
      forall q: nat | q < Highest(wide, bits) ensures !HasBit(wide, bits, q) {
        if q / 8 < number { RowBits(0, 0, q % 8); }
      }
    }
  }

  lemma GroupNotZero(wide: bool, bits: Bits)
    requires Indexed(wide, bits) && exists p: nat :: HasBit(wide, bits, p)
    ensures bits.group != 0
  {
    hide GroupBit; hide RowBit;
    var p: nat :| HasBit(wide, bits, p);
    if wide {
      RowBits(0, 0, p % 8);
      GroupBits(0, 0, p / 8);
    } else {
      GroupBits(0, 0, p);
    }
  }

  // ----- rt_schedule_insert_thread, rt_schedule_remove_thread -----

  function PrioOf(s: State, t: Thread): nat { if t in s.threads then s.threads[t].prio else 0 }

  function StatOf(s: State, t: Thread): Stat { if t in s.threads then s.threads[t].stat else Closed }

  function WithStat(s: State, t: Thread, stat: Stat): State {
    s.(threads := s.threads[t := ThreadInfo(stat, PrioOf(s, t))])
  }

  /** Priorities and the bitmap have their range. */
  ghost predicate Fits(wide: bool, s: State) { Shape(s.bits) && forall t :: InRange(wide, PrioOf(s, t)) }

  function InsertThread(wide: bool, s: State, t: Thread): State
    requires InRange(wide, PrioOf(s, t)) && Shape(s.bits)
  {
    var p := PrioOf(s, t);
    WithStat(s, t, Ready).(queues := s.queues[p := QueueOf(s.queues, p) + [t]], bits := Mark(wide, s.bits, p))
  }

  function RemoveThread(wide: bool, s: State, t: Thread): State
    requires InRange(wide, PrioOf(s, t)) && Shape(s.bits)
  {
    var p := PrioOf(s, t);
    var q := Without(QueueOf(s.queues, p), t);
    s.(queues := s.queues[p := q], bits := if q == [] then Unmark(wide, s.bits, p) else s.bits)
  }

  // ----- thread transitions -----

  /** `rt_thread_startup` up to its resume. */
  function Prepare(s: State, t: Thread, prio: nat): State { s.(threads := s.threads[t := ThreadInfo(Suspended, prio)]) }

  /** The first section of `rt_thread_resume`: the thread leaves whatever list it is on, and no bit changes. */
  function Detach(s: State, t: Thread): State {
    var p := PrioOf(s, t);
    var q := QueueOf(s.queues, p);
    if t in q then s.(queues := s.queues[p := Without(q, t)]) else s
  }

  /** `rt_thread_resume` with nothing between its test and its two sections. */
  function Resume(wide: bool, s: State, t: Thread): State
    requires Fits(wide, s)
  {
    if StatOf(s, t) != Suspended then s else InsertThread(wide, Detach(s, t), t)
  }

  /** The section of `rt_thread_suspend`, whatever became of the status since its test. */
  function Park(wide: bool, s: State, t: Thread): State
    requires Fits(wide, s)
  {
    RemoveThread(wide, WithStat(s, t, Suspended), t)
  }

  /** `rt_thread_suspend` with nothing between its test and its section. */
  function Suspend(wide: bool, s: State, t: Thread): State
    requires Fits(wide, s)
  {
    if StatOf(s, t) != Ready then s else Park(wide, s, t)
  }

  datatype Step =
    | StartStep(t: Thread, prio: nat)
    | DetachStep(t: Thread)
    | InsertStep(t: Thread)
    | ParkStep(t: Thread)
    | ChangePriority(t: Thread, prio: nat)
    | ExitThread
    | Yield
    | Schedule
    | EnterCritical
    | ExitCritical

  /** What callers must see to: priorities in range, and a running thread that is ready. */
  ghost predicate Enabled(wide: bool, s: State, step: Step) {
    match step
    case StartStep(t, prio) => (t !in s.threads || s.threads[t].stat == Initial) && InRange(wide, prio)
    case ChangePriority(t, prio) => t in s.threads && InRange(wide, prio)
    case DetachStep(t) => t in s.threads
    case InsertStep(t) => t in s.threads
    case ParkStep(t) => t in s.threads
    case ExitThread => s.current.Some? && StatOf(s, s.current.value) == Ready
    case _ => true
  }

  /** The current thread goes to the end of its queue. */
  function Rotate(s: State, t: Thread): State {
    var p := PrioOf(s, t);
    s.(queues := s.queues[p := Without(QueueOf(s.queues, p), t) + [t]])
  }

  /** `rt_schedule` when the scheduler is not locked and some thread is ready. */
  function Choose(wide: bool, s: State): State
    requires Shape(s.bits)
  {
    var h := Highest(wide, s.bits);
    if s.lockNest == 0 && h >= 0 && QueueOf(s.queues, h) != [] then s.(current := Some(QueueOf(s.queues, h)[0])) else s
  }

  /** A 16-bit counter. */
  function Int16(n: int): int { (n + 0x8000) % 0x1_0000 - 0x8000 }

  function Enter(s: State): State { s.(lockNest := Int16(s.lockNest + 1)) }

  function Leave(wide: bool, s: State): State
    requires Shape(s.bits)
  {
    var nest := Int16(s.lockNest - 1);
    if nest <= 0 then Choose(wide, s.(lockNest := 0)) else s.(lockNest := nest)
  }

  /** `rt_exit_critical` undoes `rt_enter_critical` exactly while the counter is not negative. */
  lemma LeaveUndoesEnter(wide: bool, s: State)
    requires -0x8000 <= s.lockNest < 0x8000 && Shape(s.bits)
    ensures Leave(wide, Enter(s)).lockNest == s.lockNest <==> s.lockNest >= 0
  {
    hide Highest;
  }

  /** `n` nested enters, and `n` leaves. */
  function Enters(s: State, n: nat): State { if n == 0 then s else Enter(Enters(s, n - 1)) }

  function Leaves(wide: bool, s: State, n: nat): (s': State)
    requires Shape(s.bits)
    ensures Shape(s'.bits)
  {
    if n == 0 then s else Leave(wide, Leaves(wide, s, n - 1))
  }

  /** Nested enters wrap the counter around. */
  lemma {:induction false} EntersIs(s: State, n: nat)
    requires s.lockNest == 0
    ensures Enters(s, n) == s.(lockNest := Int16(n))
  {
    if n > 0 { EntersIs(s, n - 1); }
  }

  /** Leaves from a positive counter, and the one from below zero that may wrap it to the top. */
  lemma {:induction false} LeavesIs(wide: bool, s: State, n: nat, k: nat)
    requires Shape(s.bits) && s.lockNest == Int16(n) && 0 < n <= 0x8000 && 0 < k <= n
    ensures Leaves(wide, s, k).lockNest == n - k
    decreases k
  {
    hide Highest;
    if k > 1 { LeavesIs(wide, s, n, k - 1); } else { assert Leaves(wide, s, 0) == s; }
  }

  /** The source's comment allows 65535 nested enters.  For `n` of them, the scheduler stays locked
      until the last of `n` leaves if and only if `n` is at most 32768; beyond, the first one unlocks. */
  lemma NestingIff(wide: bool, s: State, n: nat)
    requires Shape(s.bits) && s.lockNest == 0 && 0 < n <= 0xffff
    ensures Shape(Enters(s, n).bits)
    ensures (forall k :: 0 < k <= n ==> (Leaves(wide, Enters(s, n), k).lockNest == 0 <==> k == n)) <==> n <= 0x8000
    ensures n > 0x8000 ==> Leaves(wide, Enters(s, n), 1).lockNest == 0
  {
    hide Highest; hide Enters;
    EntersIs(s, n);
    var s1 := Enters(s, n);
    if n <= 0x8000 {
      forall k | 0 < k <= n ensures Leaves(wide, s1, k).lockNest == 0 <==> k == n { LeavesIs(wide, s1, n, k); }
    } else {
      assert Leaves(wide, s1, 0) == s1 && Leaves(wide, s1, 1) == Leave(wide, s1);
      assert !(Leaves(wide, s1, 1).lockNest == 0 <==> 1 == n);
    }
  }

  /** The test of `rt_thread_yield`: the current thread is ready and its queue holds another one. */
  predicate CanYield(s: State) {
    && s.current.Some? && StatOf(s, s.current.value) == Ready
    && |QueueOf(s.queues, PrioOf(s, s.current.value))| > 1
  }

  function Next(wide: bool, s: State, step: Step): State
    requires Enabled(wide, s, step) && Fits(wide, s)
  {
    match step
    case StartStep(t, prio) => Prepare(s, t, prio)
    case DetachStep(t) => Detach(s, t)
    case InsertStep(t) => InsertThread(wide, s, t)
    case ParkStep(t) => Park(wide, s, t)
    case ChangePriority(t, prio) =>
      if StatOf(s, t) == Ready then
        var s1 := RemoveThread(wide, s, t);
        InsertThread(wide, s1.(threads := s1.threads[t := ThreadInfo(Ready, prio)]), t)
      else s.(threads := s.threads[t := ThreadInfo(StatOf(s, t), prio)])
    case ExitThread => WithStat(RemoveThread(wide, s, s.current.value), s.current.value, Closed)
    case Yield => if CanYield(s) then Choose(wide, Rotate(s, s.current.value)) else s
    case Schedule => Choose(wide, s)
    case EnterCritical => Enter(s)
    case ExitCritical => Leave(wide, s)
  }

  // ----- what every run keeps -----

  /** The bitmap shows exactly the queues that are not empty. */
  ghost predicate Shown(wide: bool, queues: Queues, bits: Bits) {
    Indexed(wide, bits) && forall p: nat :: HasBit(wide, bits, p) <==> QueueOf(queues, p) != []
  }

  /** A thread is in the queue of its own priority exactly when it is ready, and in no list twice. */
  ghost predicate Queued(wide: bool, queues: Queues, threads: map<Thread, ThreadInfo>) {
    && (forall p: nat :: NoDuplicates(QueueOf(queues, p)))
    && (forall p: nat, t: Thread :: t in QueueOf(queues, p) <==> t in threads && threads[t] == ThreadInfo(Ready, p))
    && (forall t :: t in threads ==> InRange(wide, threads[t].prio))
  }

  ghost predicate Valid(wide: bool, s: State) {
    Shown(wide, s.queues, s.bits) && Queued(wide, s.queues, s.threads)
  }

  /** A thread outside the queues, marked ready, joins the queue of its priority. */
  lemma InsertKeeps(wide: bool, s: State, t: Thread)
    requires Shown(wide, s.queues, s.bits) && Queued(wide, s.queues, s.threads - {t}) && InRange(wide, PrioOf(s, t))
    ensures Valid(wide, InsertThread(wide, s, t))
  {
    hide Mark; hide HasBit; hide GroupBit; hide NoDuplicates;
    var p := PrioOf(s, t);
    var q, s' := QueueOf(s.queues, p), InsertThread(wide, s, t);
    MarkIs(wide, s.bits, p);
    var others := s.threads - {t};
    assert t !in others;
    forall r: nat, u: Thread
      ensures u in QueueOf(s'.queues, r) <==> u in s'.threads && s'.threads[u] == ThreadInfo(Ready, r)
    {
      assert u in QueueOf(s.queues, r) <==> u in others && others[u] == ThreadInfo(Ready, r);
    }
    forall r: nat ensures NoDuplicates(QueueOf(s'.queues, r)) {
      assert NoDuplicates(QueueOf(s.queues, r));
      if r == p { AppendNew(q, t); }
    }
    forall r: nat ensures HasBit(wide, s'.bits, r) <==> QueueOf(s'.queues, r) != [] { }
    forall u | u in s'.threads ensures InRange(wide, s'.threads[u].prio) {
      if u != t { assert u in others && others[u] == s'.threads[u]; }
    }
  }

  lemma AppendNew(q: seq<Thread>, t: Thread)
    requires NoDuplicates(q) && t !in q
    ensures NoDuplicates(q + [t])
  {
  }

  /** A ready thread leaves its queue, and is outside the queues then. */
  lemma RemoveKeeps(wide: bool, s: State, t: Thread)
    requires t in s.threads && Shown(wide, s.queues, s.bits)
    requires Queued(wide, s.queues, s.threads[t := ThreadInfo(Ready, PrioOf(s, t))])
    ensures InRange(wide, PrioOf(s, t)) && Shape(s.bits)
    ensures var s' := RemoveThread(wide, s, t); Shown(wide, s'.queues, s'.bits) && Queued(wide, s'.queues, s.threads - {t})
  {
    hide Unmark; hide HasBit; hide GroupBit; hide Without; hide NoDuplicates;
    var all := s.threads[t := ThreadInfo(Ready, PrioOf(s, t))];
    assert t in all && InRange(wide, all[t].prio);
    var p := PrioOf(s, t);
    var q, s', others := QueueOf(s.queues, p), RemoveThread(wide, s, t), s.threads - {t};
    assert t in q;
    UnmarkIs(wide, s.bits, p);
    WithoutIs(q, t);
    forall r: nat, u: Thread ensures u in QueueOf(s'.queues, r) <==> u in others && others[u] == ThreadInfo(Ready, r) {
      assert u in QueueOf(s.queues, r) <==> u in all && all[u] == ThreadInfo(Ready, r);
      assert u in others ==> others[u] == all[u];
    }
    forall r: nat ensures NoDuplicates(QueueOf(s'.queues, r)) { assert NoDuplicates(QueueOf(s.queues, r)); }
    forall r: nat ensures HasBit(wide, s'.bits, r) <==> QueueOf(s'.queues, r) != [] { }
    forall u | u in others ensures InRange(wide, others[u].prio) { assert u in all && others[u] == all[u]; }
  }

  /** A thread that is not ready may change in any way that leaves it so. */
  lemma NotReadyFrame(wide: bool, queues: Queues, threads: map<Thread, ThreadInfo>, t: Thread, info: ThreadInfo)
    requires Queued(wide, queues, threads - {t}) && info.stat != Ready && InRange(wide, info.prio)
    ensures Queued(wide, queues, threads[t := info])
  {
    hide NoDuplicates;
    var threads', others := threads[t := info], threads - {t};
    forall p: nat, u: Thread ensures u in QueueOf(queues, p) <==> u in threads' && threads'[u] == ThreadInfo(Ready, p) {
      assert u in QueueOf(queues, p) <==> u in others && others[u] == ThreadInfo(Ready, p);
      assert u in others ==> others[u] == threads'[u];
    }
    forall u | u in threads' ensures InRange(wide, threads'[u].prio) {
      if u != t { assert u in others && others[u] == threads'[u]; }
    }
  }

  lemma WithoutNotReady(wide: bool, queues: Queues, threads: map<Thread, ThreadInfo>, t: Thread)
    requires Queued(wide, queues, threads) && (t !in threads || threads[t].stat != Ready)
    ensures Queued(wide, queues, threads - {t})
  {
    hide NoDuplicates;
    var others := threads - {t};
    forall p: nat, u: Thread ensures u in QueueOf(queues, p) <==> u in others && others[u] == ThreadInfo(Ready, p) {
      assert u in QueueOf(queues, p) <==> u in threads && threads[u] == ThreadInfo(Ready, p);
      assert u in others ==> others[u] == threads[u];
    }
    forall u | u in others ensures InRange(wide, others[u].prio) { assert others[u] == threads[u]; }
  }

  lemma PriorityRange(wide: bool, s: State)
    requires Valid(wide, s)
    ensures Fits(wide, s)
  {
  }

  lemma SuspendKeeps(wide: bool, s: State, t: Thread, stat: Stat)
    requires Valid(wide, s) && StatOf(s, t) == Ready && stat != Ready
    ensures Shape(s.bits) && InRange(wide, PrioOf(s, t))
    ensures Valid(wide, RemoveThread(wide, WithStat(s, t, stat), t))
    ensures Valid(wide, WithStat(RemoveThread(wide, s, t), t, stat))
  {
    hide Shown; hide RemoveThread;
    var s1 := WithStat(s, t, stat);
    var info := ThreadInfo(stat, PrioOf(s, t));
    assert s.threads[t := ThreadInfo(Ready, PrioOf(s, t))] == s.threads;
    assert s1.threads[t := ThreadInfo(Ready, PrioOf(s, t))] == s.threads;
    RemoveKeeps(wide, s, t);
    RemoveKeeps(wide, s1, t);
    RemoveFrame(wide, s, t);
    RemoveFrame(wide, s1, t);
    NotReadyFrame(wide, RemoveThread(wide, s, t).queues, s.threads, t, info);
    assert s1.threads - {t} == s.threads - {t};
    NotReadyFrame(wide, RemoveThread(wide, s1, t).queues, s1.threads, t, info);
    assert s1.threads[t := info] == s1.threads;
  }

  lemma RemoveFrame(wide: bool, s: State, t: Thread)
    requires InRange(wide, PrioOf(s, t)) && Shape(s.bits)
    ensures var s' := RemoveThread(wide, s, t); s'.threads == s.threads && s'.current == s.current && s'.lockNest == s.lockNest
  {
  }

  lemma ChangeKeeps(wide: bool, s: State, t: Thread, prio: nat)
    requires Valid(wide, s) && StatOf(s, t) == Ready && InRange(wide, prio)
    ensures Shape(s.bits) && InRange(wide, PrioOf(s, t))
    ensures var s1 := RemoveThread(wide, s, t);
            var s2 := s1.(threads := s1.threads[t := ThreadInfo(Ready, prio)]);
            Shape(s2.bits) && Valid(wide, InsertThread(wide, s2, t))
  {
    hide RemoveThread; hide InsertThread; hide Indexed;
    assert s.threads[t := ThreadInfo(Ready, PrioOf(s, t))] == s.threads;
    RemoveKeeps(wide, s, t);
    RemoveFrame(wide, s, t);
    var s1 := RemoveThread(wide, s, t);
    var s2 := s1.(threads := s1.threads[t := ThreadInfo(Ready, prio)]);
    assert s2.threads - {t} == s.threads - {t};
    ShownShape(wide, s2.queues, s2.bits);
    InsertKeeps(wide, s2, t);
  }

  lemma ShownShape(wide: bool, queues: Queues, bits: Bits)
    requires Shown(wide, queues, bits)
    ensures Shape(bits)
  {
  }

  lemma RotateKeeps(wide: bool, s: State, t: Thread)
    requires Valid(wide, s) && StatOf(s, t) == Ready
    ensures Valid(wide, Rotate(s, t)) && Rotate(s, t).bits == s.bits
  {
    hide HasBit; hide GroupBit; hide Without; hide NoDuplicates;
    var p := PrioOf(s, t);
    var q, s' := QueueOf(s.queues, p), Rotate(s, t);
    assert t in q;
    WithoutIs(q, t);
    AppendNew(Without(q, t), t);
    forall r: nat, u: Thread ensures u in QueueOf(s'.queues, r) <==> u in QueueOf(s.queues, r) { }
    forall r: nat ensures NoDuplicates(QueueOf(s'.queues, r)) { assert NoDuplicates(QueueOf(s.queues, r)); }
    forall r: nat ensures HasBit(wide, s'.bits, r) <==> QueueOf(s'.queues, r) != [] {
      assert HasBit(wide, s.bits, r) <==> QueueOf(s.queues, r) != [];
    }
  }

  /** A stale suspension: a thread outside the queues is removed, and no queue and no bit changes. */
  lemma ParkIdle(wide: bool, s: State, t: Thread)
    requires Valid(wide, s) && t in s.threads && StatOf(s, t) != Ready
    ensures Fits(wide, s) && Valid(wide, Park(wide, s, t))
  {
    hide Unmark; hide HasBit; hide GroupBit; hide NoDuplicates;
    PriorityRange(wide, s);
    var p := PrioOf(s, t);
    var q := QueueOf(s.queues, p);
    assert t !in q;
    PositionFound(q, t);
    UnmarkIs(wide, s.bits, p);
    WithoutNotReady(wide, s.queues, s.threads, t);
    NotReadyFrame(wide, s.queues, s.threads, t, ThreadInfo(Suspended, p));
    var s' := Park(wide, s, t);
    assert Shape(s'.bits);
    forall r: nat ensures QueueOf(s'.queues, r) == QueueOf(s.queues, r) && (HasBit(wide, s'.bits, r) <==> HasBit(wide, s.bits, r)) {
      assert HasBit(wide, s.bits, r) <==> QueueOf(s.queues, r) != [];
    }
    SameQueues(wide, s.queues, s'.queues, s'.threads);
  }

  lemma SameQueues(wide: bool, queues: Queues, queues': Queues, threads: map<Thread, ThreadInfo>)
    requires Queued(wide, queues, threads) && forall p: nat :: QueueOf(queues', p) == QueueOf(queues, p)
    ensures Queued(wide, queues', threads)
  {
    hide NoDuplicates; hide QueueOf;
  }

  /** A ready thread that is detached is in no queue; one that is inserted is in its queue twice. */
  lemma ReadyBreaks(wide: bool, s: State, t: Thread)
    requires Valid(wide, s) && StatOf(s, t) == Ready
    ensures Fits(wide, s) && !Valid(wide, Detach(s, t)) && !Valid(wide, InsertThread(wide, s, t))
  {
    hide Shown; hide Mark;
    PriorityRange(wide, s);
    var p := PrioOf(s, t);
    var q := QueueOf(s.queues, p);
    assert t in q;
    WithoutIs(q, t);
    assert t !in QueueOf(Detach(s, t).queues, p);
    var twice := QueueOf(InsertThread(wide, s, t).queues, p);
    var k :| 0 <= k < |q| && q[k] == t;
    assert twice == q + [t] && twice[k] == twice[|q|];
  }

  /** The sections of a resume must not find their thread ready. */
  predicate Harmless(s: State, step: Step) { step.DetachStep? || step.InsertStep? ==> StatOf(s, step.t) != Ready }

  lemma OutsideKeeps(wide: bool, s: State, t: Thread)
    requires Valid(wide, s) && t in s.threads && StatOf(s, t) != Ready
    ensures Fits(wide, s) && Detach(s, t) == s && Valid(wide, InsertThread(wide, s, t))
  {
    hide Shown; hide InsertThread;
    PriorityRange(wide, s);
    WithoutNotReady(wide, s.queues, s.threads, t);
    InsertKeeps(wide, s, t);
    assert t !in QueueOf(s.queues, PrioOf(s, t));
  }

  lemma StartKeeps(wide: bool, s: State, t: Thread, prio: nat)
    requires Valid(wide, s) && Enabled(wide, s, StartStep(t, prio))
    ensures Valid(wide, Prepare(s, t, prio))
  {
    hide Shown;
    WithoutNotReady(wide, s.queues, s.threads, t);
    NotReadyFrame(wide, s.queues, s.threads, t, ThreadInfo(Suspended, prio));
  }

  /** Exactly when a step keeps the queues, the bitmap and the thread states in agreement: a section of a resume
      does if and only if its thread is not ready, and every other step does. */
  lemma StepValidIff(wide: bool, s: State, step: Step)
    requires Valid(wide, s) && Enabled(wide, s, step)
    ensures Fits(wide, s) && (Valid(wide, Next(wide, s, step)) <==> Harmless(s, step))
  {
    hide Valid; hide Fits; hide RemoveThread; hide InsertThread; hide Rotate; hide Highest; hide Detach; hide Park; hide Prepare;
    PriorityRange(wide, s);
    match step
    case StartStep(t, prio) => StartKeeps(wide, s, t, prio);
    case DetachStep(t) => if StatOf(s, t) == Ready { ReadyBreaks(wide, s, t); } else { OutsideKeeps(wide, s, t); }
    case InsertStep(t) => if StatOf(s, t) == Ready { ReadyBreaks(wide, s, t); } else { OutsideKeeps(wide, s, t); }
    case ParkStep(t) => if StatOf(s, t) == Ready { ParkKeeps(wide, s, t); } else { ParkIdle(wide, s, t); }
    case ChangePriority(t, prio) => PriorityKeeps(wide, s, t, prio);
    case ExitThread => SuspendKeeps(wide, s, s.current.value, Closed);
    case Yield =>
      if CanYield(s) {
        RotateKeeps(wide, s, s.current.value);
        ChooseFrame(wide, Rotate(s, s.current.value));
      }
    case Schedule => ChooseFrame(wide, s);
    case EnterCritical => LockFrame(wide, s);
    case ExitCritical => LockFrame(wide, s);
  }

  lemma ParkKeeps(wide: bool, s: State, t: Thread)
    requires Valid(wide, s) && StatOf(s, t) == Ready && Fits(wide, s)
    ensures Valid(wide, Park(wide, s, t))
  {
    hide Valid; hide RemoveThread;
    SuspendKeeps(wide, s, t, Suspended);
  }

  lemma PriorityKeeps(wide: bool, s: State, t: Thread, prio: nat)
    requires Valid(wide, s) && Fits(wide, s) && Enabled(wide, s, ChangePriority(t, prio))
    ensures Valid(wide, Next(wide, s, ChangePriority(t, prio)))
  {
    hide Shown; hide RemoveThread; hide InsertThread; hide QueueOf;
    if StatOf(s, t) == Ready {
      ChangeKeeps(wide, s, t, prio);
    } else {
      WithoutNotReady(wide, s.queues, s.threads, t);
      NotReadyFrame(wide, s.queues, s.threads, t, ThreadInfo(StatOf(s, t), prio));
    }
  }

  lemma ChooseFrame(wide: bool, s: State)
    requires Valid(wide, s) && Shape(s.bits)
    ensures Valid(wide, Choose(wide, s))
  {
    hide Shown; hide Queued; hide Highest;
  }

  lemma LockFrame(wide: bool, s: State)
    requires Valid(wide, s) && Shape(s.bits)
    ensures Valid(wide, Enter(s)) && Valid(wide, Leave(wide, s))
  {
    hide Shown; hide Queued; hide Highest;
  }

  /** Runs of steps from any contexts, in which no section of a resume finds its thread ready. */
  ghost predicate Reaches(wide: bool, s: State, steps: seq<Step>, s': State)
    decreases |steps|
  {
    if steps == [] then s' == s
    else
      && Fits(wide, s) && Enabled(wide, s, steps[0]) && Harmless(s, steps[0])
      && Reaches(wide, Next(wide, s, steps[0]), steps[1..], s')
  }

  function Init(): State { State(map[], Bits(0, seq(32, _ => 0)), map[], None, 0) }

  lemma InitValid(wide: bool)
    ensures Valid(wide, Init())
  {
    hide GroupBit; hide RowBit;
    forall p: nat ensures !HasBit(wide, Init().bits, p) {
      if wide { RowBits(0, 0, p % 8); } else if p < 32 { GroupBits(0, 0, p); }
    }
    forall row: nat | row < 32 ensures !GroupBit(0, row) { GroupBits(0, 0, row); }
  }

  /** In every run in which no section of a resume finds its thread ready, the bitmap shows exactly the queues
      that are not empty, and each thread is in its own priority's queue exactly when it is ready, once. */
  lemma {:induction false} RunKeeps(wide: bool, s: State, steps: seq<Step>, s': State)
    requires Valid(wide, s) && Reaches(wide, s, steps, s')
    ensures Valid(wide, s')
    decreases |steps|
  {
    hide Valid; hide Next; hide Fits; hide Enabled; hide Harmless;
    if steps != [] {
      StepValidIff(wide, s, steps[0]);
      RunKeeps(wide, Next(wide, s, steps[0]), steps[1..], s');
    }
  }

  /** A resume that nothing comes between puts a suspended thread, and no other, behind those of its priority. */
  lemma ResumeKeeps(wide: bool, s: State, t: Thread)
    requires Valid(wide, s) && t in s.threads
    ensures Fits(wide, s) && Valid(wide, Resume(wide, s, t))
    ensures var (s', p) := (Resume(wide, s, t), PrioOf(s, t));
            forall r: nat :: QueueOf(s'.queues, r) ==
              QueueOf(s.queues, r) + if r == p && StatOf(s, t) == Suspended then [t] else []
  {
    hide Valid; hide Detach; hide Fits; hide Mark;
    PriorityRange(wide, s);
    if StatOf(s, t) == Suspended { OutsideKeeps(wide, s, t); }
  }

  /** A suspension that nothing comes between takes a ready thread, and no other, out of the queues. */
  lemma SuspensionKeeps(wide: bool, s: State, t: Thread)
    requires Valid(wide, s) && t in s.threads
    ensures Fits(wide, s) && Valid(wide, Suspend(wide, s, t))
    ensures var (s', p) := (Suspend(wide, s, t), PrioOf(s, t));
            && (StatOf(s, t) == Ready ==> StatOf(s', t) == Suspended && t !in QueueOf(s'.queues, p))
            && forall r: nat :: QueueOf(s'.queues, r) ==
                 if r == p && StatOf(s, t) == Ready then Without(QueueOf(s.queues, r), t) else QueueOf(s.queues, r)
  {
    hide Fits; hide Unmark; hide Shown; hide Without;
    PriorityRange(wide, s);
    if StatOf(s, t) == Ready {
      ParkKeeps(wide, s, t);
      WithoutIs(QueueOf(s.queues, PrioOf(s, t)), t);
    }
  }

  /** Suspending a thread that was just resumed restores every queue and every thread. */
  lemma SuspendUndoesResume(wide: bool, s: State, t: Thread)
    requires Valid(wide, s) && StatOf(s, t) == Suspended
    ensures Fits(wide, s) && Fits(wide, Resume(wide, s, t))
    ensures var s' := Suspend(wide, Resume(wide, s, t), t);
            s'.threads == s.threads && forall r: nat :: QueueOf(s'.queues, r) == QueueOf(s.queues, r)
  {
    hide Fits; hide Mark; hide Unmark; hide Shown; hide Without; hide Detach;
    ResumeKeeps(wide, s, t);
    OutsideKeeps(wide, s, t);
    var s1, q := Resume(wide, s, t), QueueOf(s.queues, PrioOf(s, t));
    SuspensionKeeps(wide, s1, t);
    assert t !in q;
    LastOff(q, t);
    assert s.threads[t := ThreadInfo(Suspended, PrioOf(s, t))] == s.threads;
  }

  lemma LastOff(q: seq<Thread>, t: Thread)
    requires t !in q
    ensures Without(q + [t], t) == q
  {
    PositionFound(q + [t], t);
    var k := Position(q + [t], t);
    assert (q + [t])[|q|] == t;
  }

  /** Two contexts resume the same thread, and both find it suspended: the second insertion puts it in its queue
      twice. */
  lemma DoubleResume(wide: bool, t: Thread) returns (s: State)
    ensures Reaches(wide, Init(), [StartStep(t, 5), DetachStep(t), DetachStep(t), InsertStep(t)], s)
    ensures Fits(wide, s) && Enabled(wide, s, InsertStep(t)) && !Valid(wide, Next(wide, s, InsertStep(t)))
    ensures QueueOf(Next(wide, s, InsertStep(t)).queues, 5) == [t, t]
  {
    hide Valid; hide Fits; hide Mark;
    InitValid(wide);
    PriorityRange(wide, Init());
    var s1 := Prepare(Init(), t, 5);
    StepValidIff(wide, Init(), StartStep(t, 5));
    StepValidIff(wide, s1, DetachStep(t));
    StepValidIff(wide, s1, InsertStep(t));
    s := InsertThread(wide, s1, t);
    ReadyBreaks(wide, s, t);
    assert QueueOf(s.queues, 5) == [t];
    var a, b, c, d := StartStep(t, 5), DetachStep(t), DetachStep(t), InsertStep(t);
    assert [a, b, c, d][1..] == [b, c, d] && [b, c, d][1..] == [c, d] && [c, d][1..] == [d] && [d][1..] == [];
    assert Reaches(wide, s, [], s);
    assert Reaches(wide, s1, [d], s);
    assert Reaches(wide, s1, [c, d], s);
    assert Reaches(wide, s1, [b, c, d], s);
  }

  /** An unlocked `rt_schedule` makes current the first thread of the most urgent queue that is not
      empty: a ready thread, and none is more urgent. */
  lemma ScheduleIs(wide: bool, s: State, t: Thread)
    requires Valid(wide, s) && s.lockNest == 0 && StatOf(s, t) == Ready
    ensures Shape(s.bits)
    ensures var s' := Choose(wide, s);
            && s'.current.Some? && StatOf(s', s'.current.value) == Ready
            && QueueOf(s.queues, PrioOf(s, s'.current.value))[..1] == [s'.current.value]
            && PrioOf(s', s'.current.value) <= PrioOf(s', t)
  {
    hide HasBit; hide GroupBit; hide Highest; hide NoDuplicates;
    assert t in QueueOf(s.queues, PrioOf(s, t));
    assert HasBit(wide, s.bits, PrioOf(s, t));
    HighestIs(wide, s.bits);
    var h: nat := Highest(wide, s.bits);
    assert QueueOf(s.queues, h) != [];
    assert QueueOf(s.queues, h)[0] in QueueOf(s.queues, h);
  }

  /** A locked scheduler does not switch: `rt_schedule` changes nothing, and a yield only the order of its queue. */
  lemma LockedIs(wide: bool, s: State)
    requires Shape(s.bits) && s.lockNest != 0
    ensures Choose(wide, s) == s
    ensures Fits(wide, s) ==> Next(wide, s, Schedule) == s && Next(wide, s, Yield).current == s.current
  {
    hide Highest;
  }

  /** The counter after these steps, as long as it does not wrap around. */
  function NestAfter(n: int, steps: seq<Step>): int
    decreases |steps|
  {
    if steps == [] then n
    else NestAfter(if steps[0].EnterCritical? then n + 1 else if steps[0].ExitCritical? then n - 1 else n, steps[1..])
  }

  /** After none of these steps is the counter back at 0, or above its range. */
  predicate StaysLocked(n: int, steps: seq<Step>)
    decreases |steps|
  {
    && 0 < n < 0x8000
    && (steps == [] ||
        StaysLocked(if steps[0].EnterCritical? then n + 1 else if steps[0].ExitCritical? then n - 1 else n, steps[1..]))
  }

  lemma LockedStep(wide: bool, s: State, step: Step)
    requires Fits(wide, s) && Enabled(wide, s, step) && 0 < s.lockNest < 0x8000
    requires step.EnterCritical? ==> s.lockNest < 0x7fff
    requires step.ExitCritical? ==> s.lockNest > 1
    ensures var s' := Next(wide, s, step);
            && s'.current == s.current
            && s'.lockNest == if step.EnterCritical? then s.lockNest + 1 else if step.ExitCritical? then s.lockNest - 1 else s.lockNest
  {
    hide Highest; hide Mark; hide Unmark; hide Without;
  }

  /** From an enter on and until the leave that brings the counter back to 0, no step of any kind changes the current
      thread. */
  lemma {:induction false} LockedRun(wide: bool, s: State, steps: seq<Step>, s': State)
    requires Reaches(wide, s, steps, s') && StaysLocked(s.lockNest, steps)
    ensures s'.current == s.current && s'.lockNest == NestAfter(s.lockNest, steps) > 0
    decreases |steps|
  {
    hide Next; hide Fits; hide Enabled; hide Harmless;
    if steps != [] {
      assert StaysLocked(if steps[0].EnterCritical? then s.lockNest + 1
                         else if steps[0].ExitCritical? then s.lockNest - 1 else s.lockNest, steps[1..]);
      LockedStep(wide, s, steps[0]);
      LockedRun(wide, Next(wide, s, steps[0]), steps[1..], s');
    }
  }

  /** A whole critical section: from `rt_enter_critical` on the current thread stays, and the leave that belongs to it
      makes the most urgent ready thread current. */
  lemma CriticalSection(wide: bool, s: State, inner: seq<Step>, s1: State, t: Thread)
    requires Valid(wide, s) && s.lockNest == 0 && Reaches(wide, Enter(s), inner, s1)
    requires StaysLocked(1, inner) && NestAfter(1, inner) == 1
    ensures s1.current == s.current && Shape(s1.bits) && Leave(wide, s1).lockNest == 0
    ensures StatOf(s1, t) == Ready ==>
              var s' := Leave(wide, s1);
              && s'.current.Some? && StatOf(s', s'.current.value) == Ready
              && PrioOf(s', s'.current.value) <= PrioOf(s', t)
  {
    hide Valid; hide Reaches; hide StaysLocked; hide NestAfter; hide Highest;
    PriorityRange(wide, s);
    LockFrame(wide, s);
    LockedRun(wide, Enter(s), inner, s1);
    RunKeeps(wide, Enter(s), inner, s1);
    PriorityRange(wide, s1);
    if StatOf(s1, t) == Ready { ReadyAfterLeave(wide, s1, t); }
  }

  lemma ReadyAfterLeave(wide: bool, s: State, t: Thread)
    requires Valid(wide, s) && s.lockNest == 1 && StatOf(s, t) == Ready
    ensures Shape(s.bits)
    ensures var s' := Leave(wide, s);
            && s'.current.Some? && StatOf(s', s'.current.value) == Ready
            && PrioOf(s', s'.current.value) <= PrioOf(s', t)
  {
    hide Valid; hide Highest;
    UnlockedValid(wide, s);
    ScheduleIs(wide, s.(lockNest := 0), t);
  }

  lemma UnlockedValid(wide: bool, s: State)
    requires Valid(wide, s)
    ensures Valid(wide, s.(lockNest := 0))
  {
    hide Shown; hide Queued;
  }

  /** A change of priority is seen at once: a ready thread stands at the end of the queue of its new priority, and in no
      other; no other thread's state or order changes. */
  lemma ChangeIs(wide: bool, s: State, t: Thread, prio: nat)
    requires Valid(wide, s) && Enabled(wide, s, ChangePriority(t, prio))
    ensures Fits(wide, s)
    ensures var s' := Next(wide, s, ChangePriority(t, prio));
            && s'.threads == s.threads[t := ThreadInfo(StatOf(s, t), prio)] && s'.current == s.current && s'.lockNest == s.lockNest
            && forall r: nat :: QueueOf(s'.queues, r) ==
                 if StatOf(s, t) != Ready then QueueOf(s.queues, r)
                 else Without(QueueOf(s.queues, r), t) + if r == prio then [t] else []
  {
    hide Valid; hide RemoveThread; hide InsertThread; hide Without;
    PriorityRange(wide, s);
    if StatOf(s, t) == Ready {
      RemovedQueues(wide, s, t);
      RemoveFrame(wide, s, t);
      var s1 := RemoveThread(wide, s, t);
      InsertedQueues(wide, s1.(threads := s1.threads[t := ThreadInfo(Ready, prio)]), t);
    }
  }

  lemma RemovedQueues(wide: bool, s: State, t: Thread)
    requires Valid(wide, s) && StatOf(s, t) == Ready
    ensures Fits(wide, s) && Shape(RemoveThread(wide, s, t).bits)
    ensures forall r: nat :: QueueOf(RemoveThread(wide, s, t).queues, r) == Without(QueueOf(s.queues, r), t)
  {
    hide Shown; hide Mark; hide Unmark; hide Without; hide NoDuplicates;
    PriorityRange(wide, s);
    UnmarkShape(wide, s.bits, PrioOf(s, t));
    forall r: nat | r != PrioOf(s, t) ensures Without(QueueOf(s.queues, r), t) == QueueOf(s.queues, r) {
      assert t !in QueueOf(s.queues, r);
      NotThere(QueueOf(s.queues, r), t);
    }
  }

  lemma UnmarkShape(wide: bool, bits: Bits, p: nat)
    requires InRange(wide, p) && Shape(bits)
    ensures Shape(Unmark(wide, bits, p))
  {
  }

  lemma NotThere(q: seq<Thread>, t: Thread)
    requires t !in q
    ensures Without(q, t) == q
  {
    PositionFound(q, t);
  }

  lemma InsertedQueues(wide: bool, s: State, t: Thread)
    requires InRange(wide, PrioOf(s, t)) && Shape(s.bits)
    ensures var s' := InsertThread(wide, s, t);
            && s'.threads == s.threads[t := ThreadInfo(Ready, PrioOf(s, t))] && s'.current == s.current && s'.lockNest == s.lockNest
            && forall r: nat :: QueueOf(s'.queues, r) == QueueOf(s.queues, r) + if r == PrioOf(s, t) then [t] else []
  {
    hide Mark;
  }

  /** The thread that ends is closed and in no queue; nobody else is touched. */
  lemma ExitIs(wide: bool, s: State)
    requires Valid(wide, s) && Enabled(wide, s, ExitThread)
    ensures Fits(wide, s)
    ensures var (t, s') := (s.current.value, Next(wide, s, ExitThread));
            && s'.threads == s.threads[t := ThreadInfo(Closed, PrioOf(s, t))] && s'.current == s.current
            && forall r: nat :: t !in QueueOf(s'.queues, r) && QueueOf(s'.queues, r) == Without(QueueOf(s.queues, r), t)
  {
    hide Shown; hide RemoveThread; hide Without; hide NoDuplicates;
    PriorityRange(wide, s);
    var t := s.current.value;
    RemovedQueues(wide, s, t);
    RemoveFrame(wide, s, t);
    forall r: nat ensures t !in Without(QueueOf(s.queues, r), t) {
      assert NoDuplicates(QueueOf(s.queues, r));
      WithoutIs(QueueOf(s.queues, r), t);
    }
  }

  /** A yield puts the current thread behind the others of its priority, if it is ready and there are any, and changes no
      other queue. */
  lemma YieldIs(wide: bool, s: State)
    requires Valid(wide, s)
    ensures Fits(wide, s)
    ensures var s' := Next(wide, s, Yield);
            && s'.threads == s.threads && s'.lockNest == s.lockNest
            && (if s.current.Some? && StatOf(s, s.current.value) == Ready
                   && |QueueOf(s.queues, PrioOf(s, s.current.value))| > 1 then
                  var t := s.current.value;
                  forall r: nat :: QueueOf(s'.queues, r) ==
                    if r == PrioOf(s, t) then Without(QueueOf(s.queues, r), t) + [t] else QueueOf(s.queues, r)
                else s' == s)
  {
    hide Valid; hide Highest;
    PriorityRange(wide, s);
  }

  /** The two forms of the bitmap find the same priority whenever they show the same queues. */
  lemma FormsAgree(queues: Queues, narrow: Bits, wide: Bits)
    requires Shown(false, queues, narrow) && Shown(true, queues, wide) && exists p: nat :: QueueOf(queues, p) != []
    ensures Highest(false, narrow) == Highest(true, wide)
  {
    hide HasBit; hide GroupBit; hide Highest;
    var p: nat :| QueueOf(queues, p) != [];
    assert HasBit(false, narrow, p) && HasBit(true, wide, p);
    HighestIs(false, narrow);
    HighestIs(true, wide);
    var a: nat, b: nat := Highest(false, narrow), Highest(true, wide);
    assert HasBit(true, wide, a) && HasBit(false, narrow, b);
  }

  // ----- in place -----

  class Kernel {
    /** RT_THREAD_PRIORITY_MAX > 32. */
    const wide: bool
    var priorityTable: Queues
    var readyGroup: bv32
    var readyTable: seq<bv8>
    var threads: map<Thread, ThreadInfo>
    var current: Option<Thread>
    var lockNest: int

    ghost function S(): State
      reads this
    {
      State(priorityTable, Bits(readyGroup, readyTable), threads, current, lockNest)
    }

    constructor (wide: bool)
      ensures Valid(wide, S()) && S() == Init() && this.wide == wide
    {
      this.wide := wide;
      priorityTable, readyGroup, readyTable := map[], 0, seq(32, _ => 0);
      threads, current, lockNest := map[], None, 0;
      new;
      InitValid(wide);
    }

    /** `rt_schedule_insert_thread`. */
    method Insert(t: Thread)
      requires t in threads && InRange(wide, threads[t].prio) && |readyTable| == 32
      modifies this`threads, this`priorityTable, this`readyGroup, this`readyTable
      ensures S() == InsertThread(wide, old(S()), t)
    {
      var p := threads[t].prio;
      threads := threads[t := ThreadInfo(Ready, p)];
      priorityTable := priorityTable[p := QueueOf(priorityTable, p) + [t]];
      if wide {
        readyTable := readyTable[Row(p) := RowSet(readyTable[Row(p)], Column(p))];
        readyGroup := GroupSet(readyGroup, Row(p));
      } else {
        readyGroup := GroupSet(readyGroup, p);
      }
    }

    /** `rt_schedule_remove_thread`. */
    method Remove(t: Thread)
      requires t in threads && InRange(wide, threads[t].prio) && |readyTable| == 32
      modifies this`priorityTable, this`readyGroup, this`readyTable
      ensures S() == RemoveThread(wide, old(S()), t)
    {
      var p := threads[t].prio;
      priorityTable := priorityTable[p := Without(QueueOf(priorityTable, p), t)];
      if priorityTable[p] == [] {
        if wide {
          readyTable := readyTable[Row(p) := RowClear(readyTable[Row(p)], Column(p))];
          if readyTable[Row(p)] == 0 { readyGroup := GroupClear(readyGroup, Row(p)); }
        } else {
          readyGroup := GroupClear(readyGroup, p);
        }
      }
    }

    /** `rt_schedule`; the source relies on the idle thread always being ready. */
    method Reschedule()
      requires Valid(wide, S()) && exists t :: StatOf(S(), t) == Ready
      modifies this`current
      ensures Valid(wide, S()) && |readyTable| == 32 && S() == Choose(wide, old(S()))
    {
      hide Shown; hide Queued; hide FirstBit; hide QueueOf;
      HeadOfHighest();
      if lockNest == 0 {
        var highest;
        if wide {
          var number := FirstBit(readyGroup) - 1;
          highest := number * 8 + FirstBit(readyTable[number] as bv32) - 1;
        } else {
          highest := FirstBit(readyGroup) - 1;
        }
        var to := QueueOf(priorityTable, highest)[0];
        if current != Some(to) { current := Some(to); }
      }
    }

    lemma HeadOfHighest()
      requires Valid(wide, S()) && exists t :: StatOf(S(), t) == Ready
      ensures Shape(S().bits) && FirstBit(readyGroup) >= 1 && (wide ==> FirstBit(readyGroup) - 1 < 32)
      ensures Highest(wide, S().bits) >= 0 && QueueOf(priorityTable, Highest(wide, S().bits)) != []
    {
      hide HasBit; hide GroupBit; hide Highest; hide FirstBit;
      var t :| StatOf(S(), t) == Ready;
      assert t in QueueOf(priorityTable, PrioOf(S(), t));
      assert HasBit(wide, S().bits, PrioOf(S(), t));
      HighestIs(wide, S().bits);
      GroupNotZero(wide, S().bits);
      FirstInGroup(readyGroup);
    }

    /** The first section of `rt_thread_resume`. */
    method LeaveList(t: Thread)
      requires t in threads
      modifies this`priorityTable
      ensures S() == Detach(old(S()), t)
    {
      var p := threads[t].prio;
      var q := QueueOf(priorityTable, p);
      if t in q { priorityTable := priorityTable[p := Without(q, t)]; }
    }

    /** `rt_thread_resume`, and what `rt_thread_timeout` does to the ready queues. */
    method ResumeThread(t: Thread) returns (ok: bool)
      requires Valid(wide, S()) && t in threads
      modifies this
      ensures ok == (old(threads)[t].stat == Suspended)
      ensures Fits(wide, old(S())) && Valid(wide, S()) && S() == Resume(wide, old(S()), t)
    {
      hide Valid; hide InsertThread;
      ResumeKeeps(wide, S(), t);
      if threads[t].stat != Suspended { return false; }
      LeaveList(t);
      Insert(t);
      return true;
    }

    /** `rt_thread_startup` up to its `rt_schedule`. */
    method StartupThread(t: Thread, prio: nat)
      requires Valid(wide, S()) && Enabled(wide, S(), StartStep(t, prio))
      modifies this
      ensures Fits(wide, Prepare(old(S()), t, prio)) && Valid(wide, S())
      ensures S() == Resume(wide, Prepare(old(S()), t, prio), t)
    {
      hide Valid; hide Resume;
      StartKeeps(wide, S(), t, prio);
      threads := threads[t := ThreadInfo(Suspended, prio)];
      var _ := ResumeThread(t);
    }

    /** The section of `rt_thread_suspend`. */
    method ParkThread(t: Thread)
      requires Valid(wide, S()) && t in threads
      modifies this
      ensures Fits(wide, old(S())) && Valid(wide, S()) && S() == Park(wide, old(S()), t)
    {
      hide Valid; hide RemoveThread;
      StepValidIff(wide, S(), ParkStep(t));
      threads := threads[t := threads[t].(stat := Suspended)];
      Remove(t);
    }

    /** `rt_thread_suspend`. */
    method SuspendThread(t: Thread) returns (ok: bool)
      requires Valid(wide, S()) && t in threads
      modifies this
      ensures ok == (old(threads)[t].stat == Ready)
      ensures Fits(wide, old(S())) && Valid(wide, S()) && S() == Suspend(wide, old(S()), t)
    {
      hide Valid; hide Park;
      PriorityRange(wide, S());
      if threads[t].stat != Ready { return false; }
      ParkThread(t);
      return true;
    }

    /** `rt_thread_control` with RT_THREAD_CTRL_CHANGE_PRIORITY. */
    method ControlPriority(t: Thread, prio: nat)
      requires Valid(wide, S()) && Enabled(wide, S(), ChangePriority(t, prio))
      modifies this
      ensures Fits(wide, old(S())) && Valid(wide, S()) && S() == Next(wide, old(S()), ChangePriority(t, prio))
    {
      StepValidIff(wide, S(), ChangePriority(t, prio));
      if threads[t].stat == Ready {
        ChangeKeeps(wide, S(), t, prio);
        Remove(t);
        threads := threads[t := threads[t].(prio := prio)];
        assert S() == RemoveThread(wide, old(S()), t).(threads := old(threads)[t := ThreadInfo(Ready, prio)]);
        Insert(t);
      } else {
        threads := threads[t := threads[t].(prio := prio)];
      }
    }

    /** `rt_thread_yield`. */
    method YieldNow()
      requires Valid(wide, S()) && exists t :: StatOf(S(), t) == Ready
      modifies this
      ensures Valid(wide, S()) && |old(readyTable)| == 32
      ensures S() == if CanYield(old(S())) then Choose(wide, Rotate(old(S()), old(current.value))) else old(S())
    {
      hide Shown; hide Queued;
      HeadOfHighest();
      if current.Some? {
        var t := current.value;
        if t in threads && threads[t].stat == Ready && |QueueOf(priorityTable, threads[t].prio)| > 1 {
          RotateKeeps(wide, S(), t);
          var p := threads[t].prio;
          priorityTable := priorityTable[p := Without(QueueOf(priorityTable, p), t) + [t]];
          assert StatOf(S(), t) == Ready;
          Reschedule();
        }
      }
    }

    /** `rt_thread_exit` up to its `rt_schedule`. */
    method ExitCurrent()
      requires Valid(wide, S()) && Enabled(wide, S(), ExitThread)
      modifies this
      ensures Fits(wide, old(S())) && Valid(wide, S()) && S() == Next(wide, old(S()), ExitThread)
    {
      StepValidIff(wide, S(), ExitThread);
      var t := current.value;
      Remove(t);
      threads := threads[t := threads[t].(stat := Closed)];
    }

    /** `rt_enter_critical`. */
    method EnterCritical()
      modifies this`lockNest
      ensures S() == Enter(old(S()))
    {
      lockNest := Int16(lockNest + 1);
    }

    /** `rt_exit_critical`. */
    method ExitCritical()
      requires Valid(wide, S()) && exists t :: StatOf(S(), t) == Ready
      modifies this`lockNest, this`current
      ensures Valid(wide, S()) && |old(readyTable)| == 32 && S() == Leave(wide, old(S()))
    {
      hide Shown; hide Queued;
      HeadOfHighest();
      ghost var t :| StatOf(S(), t) == Ready;
      lockNest := Int16(lockNest - 1);
      if lockNest <= 0 {
        lockNest := 0;
        assert StatOf(S(), t) == Ready;
        Reschedule();
      }
    }
  }
}
