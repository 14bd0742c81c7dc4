/** The mutex of src/ipc.c with priority inheritance, as a step system over any number of mutexes and
    the current priorities of the threads. */
module Mutex {
  import opened Lists
  import opened Waiting

  type Thread = nat

  datatype Result = Done | Blocked | Timeout | Error

  datatype Mutex = Mutex(value: nat, owner: Option<Thread>, original: nat, hold: nat, waiters: seq<Thread>)

  function Init(): Mutex { Mutex(1, None, 0xff, 0, []) }

  // ----- the atomic sections -----

  /** `rt_mutex_take` by `t`; the hold count is one byte. */
  function Take(m: Mutex, prio: Priorities, t: Thread, time: int, flag: Flag): (Mutex, Priorities, Result) {
    if m.owner == Some(t) then (m.(hold := (m.hold + 1) % 256), prio, Done)
    else if m.value > 0 then
      (m.(value := m.value - 1, owner := Some(t), original := PriorityOf(prio, t), hold := (m.hold + 1) % 256), prio, Done)
    else if time == 0 || m.owner.None? then (m, prio, Timeout)
    else
      var o := m.owner.value;
      var prio' := if PriorityOf(prio, t) < PriorityOf(prio, o) then prio[o := PriorityOf(prio, t)] else prio;
      (m.(waiters := Suspend(m.waiters, t, flag, prio')), prio', Blocked)
  }

  /** `rt_mutex_release` by `t`. */
  function Release(m: Mutex, prio: Priorities, t: Thread): (Mutex, Priorities, Result) {
    if m.owner != Some(t) then (m, prio, Error)
    else
      var hold := (m.hold + 255) % 256;
      if hold != 0 then (m.(hold := hold), prio, Done)
      else
        var prio' := if m.original != PriorityOf(prio, t) then prio[t := m.original] else prio;
        if m.waiters != [] then
          (m.(owner := Some(m.waiters[0]), original := PriorityOf(prio', m.waiters[0]), hold := 1, waiters := m.waiters[1..]),
           prio', Done)
        else (m.(value := m.value + 1, owner := None, original := 0xff, hold := 0), prio', Done)
  }

  /** `rt_thread_timeout` on a waiter. */
  function Expire(m: Mutex, t: Thread): Mutex { m.(waiters := Without(m.waiters, t)) }

  // ----- one mutex -----

  /** Value, owner and hold count say the same; the owner is at least as urgent as every waiter; the
      waiters stand in order of urgency; and the owner's priority before its boost is kept. */
  ghost predicate Consistent(m: Mutex, prio: Priorities, base: Priorities) {
    match m.owner
    case None => m == Init()
    case Some(o) =>
      && m.value == 0 && 0 < m.hold < 256 && m.original == PriorityOf(base, o)
      && o !in m.waiters && NoDuplicates(m.waiters) && Sorted(m.waiters, prio)
      && (forall w :: w in m.waiters ==> PriorityOf(prio, o) <= PriorityOf(prio, w))
  }

  ghost predicate Engaged(m: Mutex, t: Thread) { m.owner == Some(t) || t in m.waiters }

  /** Only owners run at a priority that is not their own. */
  ghost predicate OthersAtBase(m: Mutex, prio: Priorities, base: Priorities) {
    forall t :: t in m.waiters ==> PriorityOf(prio, t) == PriorityOf(base, t)
  }

  /** All threads but `o` keep their priority. */
  ghost predicate SameBut(prio: Priorities, prio': Priorities, o: Thread) {
    forall t :: t != o ==> PriorityOf(prio', t) == PriorityOf(prio, t)
  }

  lemma SortedFrame(list: seq<Thread>, prio: Priorities, prio': Priorities)
    requires Sorted(list, prio) && forall t :: t in list ==> PriorityOf(prio', t) == PriorityOf(prio, t)
    ensures Sorted(list, prio')
  {
    forall i, j | 0 <= i < j < |list| ensures PriorityOf(prio', list[i]) <= PriorityOf(prio', list[j]) {
      assert list[i] in list && list[j] in list;
    }
  }

  /** A take keeps the mutex consistent exactly unless it is the owner's 256th nested one. */
  lemma TakeKeeps(m: Mutex, prio: Priorities, base: Priorities, t: Thread, time: int)
    requires Consistent(m, prio, base) && OthersAtBase(m, prio, base) && t !in m.waiters
    requires m.owner != Some(t) ==> PriorityOf(prio, t) == PriorityOf(base, t)
    ensures var (m', prio', r) := Take(m, prio, t, time, Prio);
            && (Consistent(m', prio', base) <==> !(m.owner == Some(t) && m.hold == 255))
            && OthersAtBase(m', prio', base)
            && (if m.owner.Some? then SameBut(prio, prio', m.owner.value) else prio' == prio)
            && (forall u :: Engaged(m', u) ==> Engaged(m, u) || u == t)
            && (r.Timeout? ==> m' == m && prio' == prio)
  {
    hide Sorted; hide NoDuplicates; hide Suspend;
    NobodyWaits(prio);
    if m.owner.Some? && m.owner != Some(t) && m.value == 0 && time != 0 { BlockKeeps(m, prio, base, t, time); }
  }

  lemma NobodyWaits(prio: Priorities)
    ensures NoDuplicates<Thread>([]) && Sorted([], prio)
  {
  }

  /** When a take answers: the owner holds the mutex once more; a free mutex is held once by the thread that takes it; of
      one that another thread holds, a thread without a timeout is refused and nothing changes, and any other one waits
      and leaves the owner at the more urgent of both priorities.  No other priority changes. */
  lemma TakeIs(m: Mutex, prio: Priorities, base: Priorities, t: Thread, time: int, flag: Flag)
    requires Consistent(m, prio, base) && t !in m.waiters && !(m.owner == Some(t) && m.hold == 255)
    ensures var (m', prio', r) := Take(m, prio, t, time, flag);
            if m.owner == Some(t) then r == Done && prio' == prio && m' == m.(hold := m.hold + 1)
            else if m.owner.None? then r == Done && prio' == prio && m' == Mutex(0, Some(t), PriorityOf(prio, t), 1, [])
            else if time == 0 then r == Timeout && m' == m && prio' == prio
            else
              var o := m.owner.value;
              && r == Blocked && m'.owner == m.owner && m'.hold == m.hold && m'.value == 0 && m'.original == m.original
              && (forall u :: u in m'.waiters <==> u in m.waiters || u == t) && SameBut(prio, prio', o)
              && PriorityOf(prio', o) == if PriorityOf(prio, t) < PriorityOf(prio, o) then PriorityOf(prio, t) else PriorityOf(prio, o)
  {
    hide Sorted; hide Suspend; hide NoDuplicates;
    if m.owner.Some? && m.owner != Some(t) && time != 0 { SuspendIs(m.waiters, t, flag, Take(m, prio, t, time, flag).1); }
  }

  /** A release: refused to all but the owner; a nested one only counts; the last one hands the mutex, held once, to the
      first waiter, or leaves it as it was in the beginning. */
  lemma ReleaseIs(m: Mutex, prio: Priorities, base: Priorities, t: Thread)
    requires Consistent(m, prio, base)
    ensures var (m', prio', r) := Release(m, prio, t);
            if m.owner != Some(t) then r == Error && m' == m && prio' == prio
            else if m.hold > 1 then r == Done && m' == m.(hold := m.hold - 1) && prio' == prio
            else
              && r == Done && SameBut(prio, prio', t) && PriorityOf(prio', t) == m.original
              && m' == if m.waiters == [] then Init()
                       else Mutex(0, Some(m.waiters[0]), PriorityOf(prio', m.waiters[0]), 1, m.waiters[1..])
  {
    hide Sorted; hide NoDuplicates;
  }

  /** A release undoes a take that did not wait. */
  lemma ReleaseUndoesTake(m: Mutex, prio: Priorities, base: Priorities, t: Thread, time: int, flag: Flag)
    requires Consistent(m, prio, base) && (m.owner == Some(t) || m.owner.None?) && m.hold < 255
    ensures var (m1, prio1, _) := Take(m, prio, t, time, flag);
            var (m2, prio2, r) := Release(m1, prio1, t);
            m2 == m && prio2 == prio && r == Done
  {
    hide Sorted; hide NoDuplicates;
  }

  /** A waiter joins, and lends the owner its priority. */
  lemma BlockKeeps(m: Mutex, prio: Priorities, base: Priorities, t: Thread, time: int)
    requires Consistent(m, prio, base) && OthersAtBase(m, prio, base) && t !in m.waiters
    requires m.owner.Some? && m.owner != Some(t) && time != 0 && PriorityOf(prio, t) == PriorityOf(base, t)
    ensures var (m', prio', _) := Take(m, prio, t, time, Prio);
            && Consistent(m', prio', base) && OthersAtBase(m', prio', base)
            && (forall u :: u in m'.waiters <==> u in m.waiters || u == t)
  {
    hide Sorted; hide NoDuplicates; hide InsertByPriority;
    var o := m.owner.value;
    var prio' := if PriorityOf(prio, t) < PriorityOf(prio, o) then prio[o := PriorityOf(prio, t)] else prio;
    SortedFrame(m.waiters, prio, prio');
    InsertIs(m.waiters, t, prio');
    InsertSorted(m.waiters, t, prio');
  }

  /** A release by the owner keeps the mutex consistent; the last one gives the owner its own
      priority back and hands the mutex to the most urgent waiter. */
  lemma ReleaseKeeps(m: Mutex, prio: Priorities, base: Priorities, t: Thread)
    requires Consistent(m, prio, base) && OthersAtBase(m, prio, base)
    ensures var (m', prio', r) := Release(m, prio, t);
            && Consistent(m', prio', base) && OthersAtBase(m', prio', base) && SameBut(prio, prio', t)
            && (forall u :: Engaged(m', u) ==> Engaged(m, u))
            && (m.owner != Some(t) ==> m' == m && prio' == prio)
            && (m.owner == Some(t) && m'.owner != Some(t) ==>
                  && PriorityOf(prio', t) == PriorityOf(base, t) && !Engaged(m', t)
                  && (m'.owner.None? <==> m.waiters == [])
                  && forall w :: w in m.waiters ==> PriorityOf(prio', m'.owner.value) <= PriorityOf(prio', w))
  {
    hide Sorted; hide NoDuplicates;
    if m.owner == Some(t) && m.hold == 1 && m.waiters != [] { HandoverKeeps(m, prio, base, t); }
  }

  lemma HandoverKeeps(m: Mutex, prio: Priorities, base: Priorities, t: Thread)
    requires Consistent(m, prio, base) && OthersAtBase(m, prio, base) && m.owner == Some(t) && m.hold == 1 && m.waiters != []
    ensures var (m', prio', r) := Release(m, prio, t);
            && Consistent(m', prio', base) && m'.owner == Some(m.waiters[0])
            && (forall u :: u in m'.waiters ==> u in m.waiters) && m.waiters[0] in m.waiters
            && forall w :: w in m.waiters ==> PriorityOf(prio', m.waiters[0]) <= PriorityOf(prio', w)
  {
    var (m', prio', r) := Release(m, prio, t);
    PopFront(m.waiters);
    SortedFrame(m.waiters, prio, prio');
    forall w | w in m.waiters ensures PriorityOf(prio', m.waiters[0]) <= PriorityOf(prio', w) {
      var i :| 0 <= i < |m.waiters| && m.waiters[i] == w;
    }
    forall i, j | 0 <= i < j < |m'.waiters| ensures PriorityOf(prio', m'.waiters[i]) <= PriorityOf(prio', m'.waiters[j]) {
      assert m'.waiters[i] == m.waiters[i + 1] && m'.waiters[j] == m.waiters[j + 1];
    }
  }

  lemma ExpireKeeps(m: Mutex, prio: Priorities, base: Priorities, t: Thread)
    requires Consistent(m, prio, base) && OthersAtBase(m, prio, base) && t in m.waiters
    ensures Consistent(Expire(m, t), prio, base) && OthersAtBase(Expire(m, t), prio, base)
    ensures forall u :: Engaged(Expire(m, t), u) <==> Engaged(m, u) && u != t
    ensures Expire(m, t) == m.(waiters := Expire(m, t).waiters)
  {
    hide Sorted; hide NoDuplicates; hide Without;
    WithoutIs(m.waiters, t);
    SortedWithout(m.waiters, t, prio);
  }

  lemma SortedWithout(list: seq<Thread>, t: Thread, prio: Priorities)
    requires Sorted(list, prio) && t in list
    ensures Sorted(Without(list, t), prio)
  {
    var w := Without(list, t);
    PositionFound(list, t);
    forall i, j | 0 <= i < j < |w| ensures PriorityOf(prio, w[i]) <= PriorityOf(prio, w[j]) {
      WithoutAt(list, t, i);
      WithoutAt(list, t, j);
    }
  }

  // ----- hand-overs to the end of the wait list -----

  /** Hand over by hand over, until nobody waits, each new owner is at least as urgent as those who
      still wait. */
  ghost predicate HandoversUrgent(m: Mutex, prio: Priorities)
    requires m.owner.Some? && m.hold == 1
    decreases |m.waiters|
  {
    m.waiters == [] ||
    var (m', prio', _) := Release(m, prio, m.owner.value);
    (forall w :: w in m'.waiters ==> PriorityOf(prio', m'.owner.value) <= PriorityOf(prio', w)) && HandoversUrgent(m', prio')
  }

  /** That is so exactly when the threads wait in order of urgency. */
  lemma {:induction false} HandoversUrgentIff(m: Mutex, prio: Priorities)
    requires m.owner.Some? && m.hold == 1 && m.owner.value !in m.waiters && NoDuplicates(m.waiters)
    ensures HandoversUrgent(m, prio) <==> Sorted(m.waiters, prio)
    decreases |m.waiters|
  {
    hide Sorted; hide NoDuplicates;
    if m.waiters == [] {
      NobodyWaits(prio);
    } else {
      var (m', prio', _) := Release(m, prio, m.owner.value);
      PopFront(m.waiters);
      HandoversUrgentIff(m', prio');
      SortedFirst(m.waiters, prio, prio');
    }
  }

  lemma SortedFirst(list: seq<Thread>, prio: Priorities, prio': Priorities)
    requires list != [] && forall t :: t in list ==> PriorityOf(prio', t) == PriorityOf(prio, t)
    ensures Sorted(list, prio) <==>
            (forall w :: w in list[1..] ==> PriorityOf(prio', list[0]) <= PriorityOf(prio', w)) && Sorted(list[1..], prio')
  {
    hide Sorted;
    var rest := list[1..];
    if Sorted(list, prio) {
      SortedFrame(list, prio, prio');
      SortedTail(list, prio');
    }
    if (forall w :: w in rest ==> PriorityOf(prio', list[0]) <= PriorityOf(prio', w)) && Sorted(rest, prio') {
      SortedCons(list, prio');
      SortedFrame(list, prio', prio);
    }
  }

  lemma SortedTail(list: seq<Thread>, prio: Priorities)
    requires list != [] && Sorted(list, prio)
    ensures (forall w :: w in list[1..] ==> PriorityOf(prio, list[0]) <= PriorityOf(prio, w)) && Sorted(list[1..], prio)
  {
    var rest := list[1..];
    assert forall i :: 0 <= i < |rest| ==> rest[i] == list[i + 1];
  }

  lemma SortedCons(list: seq<Thread>, prio: Priorities)
    requires list != [] && Sorted(list[1..], prio)
    requires forall w :: w in list[1..] ==> PriorityOf(prio, list[0]) <= PriorityOf(prio, w)
    ensures Sorted(list, prio)
  {
    var rest := list[1..];
    forall i, j | 0 <= i < j < |list| ensures PriorityOf(prio, list[i]) <= PriorityOf(prio, list[j]) {
      assert list[j] == rest[j - 1] && rest[j - 1] in rest;
      if i > 0 { assert list[i] == rest[i - 1]; }
    }
  }

  /** With RT_IPC_FLAG_PRIO every hand-over is urgent. */
  lemma PrioHandovers(m: Mutex, prio: Priorities, base: Priorities)
    requires Consistent(m, prio, base) && m.owner.Some? && m.hold == 1
    ensures HandoversUrgent(m, prio)
  {
    hide HandoversUrgent;
    HandoversUrgentIff(m, prio);
  }

  /** With RT_IPC_FLAG_FIFO a take that has to wait keeps the order exactly when the thread is no more
      urgent than the last one in the list. */
  lemma FifoTakeSorted(m: Mutex, prio: Priorities, t: Thread, time: int)
    requires m.owner.Some? && m.owner != Some(t) && m.owner.value !in m.waiters && m.value == 0 && time != 0
    ensures var (m', prio', _) := Take(m, prio, t, time, Fifo);
            Sorted(m'.waiters, prio') <==>
            Sorted(m.waiters, prio) &&
            (m.waiters == [] || PriorityOf(prio, m.waiters[|m.waiters| - 1]) <= PriorityOf(prio, t))
  {
    var (m', prio', _) := Take(m, prio, t, time, Fifo);
    var n := |m.waiters|;
    assert forall i :: 0 <= i < n ==> m'.waiters[i] == m.waiters[i] && m.waiters[i] in m.waiters;
    assert forall i :: 0 <= i < n ==> PriorityOf(prio', m.waiters[i]) == PriorityOf(prio, m.waiters[i]);
    assert m'.waiters[n] == t && PriorityOf(prio', t) == PriorityOf(prio, t);
    if Sorted(m'.waiters, prio') {
      forall i, j | 0 <= i < j < n ensures PriorityOf(prio, m.waiters[i]) <= PriorityOf(prio, m.waiters[j]) {
        assert PriorityOf(prio', m'.waiters[i]) <= PriorityOf(prio', m'.waiters[j]);
      }
      if n > 0 { assert PriorityOf(prio', m'.waiters[n - 1]) <= PriorityOf(prio', m'.waiters[n]); }
    }
  }

  /** The threads `ts` take the mutex one after the other. */
  function TakeAll(m: Mutex, prio: Priorities, ts: seq<Thread>, flag: Flag): (Mutex, Priorities)
    decreases |ts|
  {
    if ts == [] then (m, prio)
    else
      var (m', prio', _) := Take(m, prio, ts[0], -1, flag);
      TakeAll(m', prio', ts[1..], flag)
  }

  lemma {:induction false} TakeAllIs(m: Mutex, prio: Priorities, ts: seq<Thread>)
    requires m.owner.Some? && m.value == 0 && m.owner.value !in ts
    ensures var (m', prio') := TakeAll(m, prio, ts, Fifo);
            m' == m.(waiters := m.waiters + ts) && SameBut(prio, prio', m.owner.value)
    decreases |ts|
  {
    if ts == [] {
      assert m.waiters + ts == m.waiters;
    } else {
      var (m1, prio1, _) := Take(m, prio, ts[0], -1, Fifo);
      assert ts == [ts[0]] + ts[1..];
      TakeAllIs(m1, prio1, ts[1..]);
      assert m.waiters + ts == m.waiters + [ts[0]] + ts[1..];
    }
  }

  /** With RT_IPC_FLAG_FIFO, when `ts` take a mutex that is held, all hand-overs are urgent if and only
      if each of them was no more urgent than the one before it. */
  lemma FifoUrgentIff(m: Mutex, prio: Priorities, ts: seq<Thread>)
    requires m.owner.Some? && m.hold == 1 && m.value == 0 && m.waiters == []
    requires m.owner.value !in ts && NoDuplicates(ts)
    ensures var (m', prio') := TakeAll(m, prio, ts, Fifo);
            && m'.owner == m.owner && m'.hold == 1
            && (HandoversUrgent(m', prio') <==>
                forall i :: 0 < i < |ts| ==> PriorityOf(prio, ts[i - 1]) <= PriorityOf(prio, ts[i]))
  {
    hide HandoversUrgent; hide Sorted; hide TakeAll;
    TakeAllIs(m, prio, ts);
    var (m', prio') := TakeAll(m, prio, ts, Fifo);
    assert m'.waiters == ts;
    HandoversUrgentIff(m', prio');
    if Sorted(ts, prio') { SortedFrame(ts, prio', prio); }
    if Sorted(ts, prio) { SortedFrame(ts, prio, prio'); }
    AdjacentSorted(ts, prio);
  }

  lemma AdjacentSorted(ts: seq<Thread>, prio: Priorities)
    ensures Sorted(ts, prio) <==> forall i :: 0 < i < |ts| ==> PriorityOf(prio, ts[i - 1]) <= PriorityOf(prio, ts[i])
  {
    if forall i :: 0 < i < |ts| ==> PriorityOf(prio, ts[i - 1]) <= PriorityOf(prio, ts[i]) {
      forall i, j | 0 <= i < j < |ts| ensures PriorityOf(prio, ts[i]) <= PriorityOf(prio, ts[j]) { Ascending(ts, prio, i, j); }
    }
  }

  lemma {:induction false} Ascending(ts: seq<Thread>, prio: Priorities, i: nat, j: nat)
    requires i < j < |ts| && forall i :: 0 < i < |ts| ==> PriorityOf(prio, ts[i - 1]) <= PriorityOf(prio, ts[i])
    ensures PriorityOf(prio, ts[i]) <= PriorityOf(prio, ts[j])
    decreases j - i
  {
    assert PriorityOf(prio, ts[j - 1]) <= PriorityOf(prio, ts[j]);
    if i < j - 1 { Ascending(ts, prio, i, j - 1); }
  }

  /** RT_IPC_FLAG_FIFO does not: a hand-over can leave the owner less urgent than a waiter. */
  lemma FifoInverts()
    ensures var prio: Priorities := map[0 := 10, 1 := 20, 2 := 5];
            var (m1, p1, _) := Take(Init(), prio, 0, -1, Fifo);
            var (m2, p2, _) := Take(m1, p1, 1, -1, Fifo);
            var (m3, p3, _) := Take(m2, p2, 2, -1, Fifo);
            var (m4, p4, _) := Release(m3, p3, 0);
            m4.owner == Some(1) && 2 in m4.waiters && PriorityOf(p4, 2) < PriorityOf(p4, 1)
  {
    var prio: Priorities := map[0 := 10, 1 := 20, 2 := 5];
    var (m1, p1, _) := Take(Init(), prio, 0, -1, Fifo);
    var (m2, p2, _) := Take(m1, p1, 1, -1, Fifo);
    assert m2.waiters == [1];
    var (m3, p3, _) := Take(m2, p2, 2, -1, Fifo);
    assert m3.waiters == [1, 2];
  }

  /** `n` nested takes of a free mutex by one thread. */
  function Nested(prio: Priorities, t: Thread, n: nat): Mutex {
    if n == 0 then Init() else Take(Nested(prio, t, n - 1), prio, t, -1, Prio).0
  }

  /** They leave it consistent exactly unless their number is a multiple of 256. */
  lemma {:induction false} NestedIff(prio: Priorities, t: Thread, n: nat)
    requires n > 0
    ensures var m := Nested(prio, t, n);
            && m == Mutex(0, Some(t), PriorityOf(prio, t), n % 256, [])
            && (Consistent(m, prio, prio) <==> n % 256 != 0)
  {
    hide Sorted; hide NoDuplicates; hide Nested;
    NestedIs(prio, t, n);
    NobodyWaits(prio);
  }

  lemma {:induction false} NestedIs(prio: Priorities, t: Thread, n: nat)
    requires n > 0
    ensures Nested(prio, t, n) == Mutex(0, Some(t), PriorityOf(prio, t), n % 256, [])
    decreases n
  {
    hide Suspend;
    if n > 1 { NestedIs(prio, t, n - 1); }
  }

  // ----- any number of mutexes -----

  datatype State = State(mutexes: seq<Mutex>, prio: Priorities)

  datatype Step = TakeStep(i: nat, t: Thread, time: int) | ReleaseStep(i: nat, t: Thread) | ExpireStep(i: nat, t: Thread)

  ghost predicate EngagedAt(ms: seq<Mutex>, i: nat, t: Thread) { i < |ms| && Engaged(ms[i], t) }

  ghost predicate OwnerAt(ms: seq<Mutex>, i: nat, t: Thread) { i < |ms| && ms[i].owner == Some(t) }

  /** `t` has to do with no mutex but `i`. */
  ghost predicate OnlyAt(ms: seq<Mutex>, i: nat, t: Thread) { forall j: nat :: EngagedAt(ms, j, t) ==> j == i }

  /** A running thread waits for no mutex; one that owns a mutex takes no other; and nobody nests 256
      takes. */
  ghost predicate Enabled(s: State, step: Step) {
    && step.i < |s.mutexes|
    && var m := s.mutexes[step.i];
       match step
       case TakeStep(i, t, _) => OnlyAt(s.mutexes, i, t) && t !in m.waiters && (m.owner == Some(t) ==> m.hold < 255)
       case ReleaseStep(i, t) => t !in m.waiters
       case ExpireStep(i, t) => t in m.waiters
  }

  function Next(s: State, step: Step): State
    requires step.i < |s.mutexes|
  {
    var m := s.mutexes[step.i];
    match step
    case TakeStep(i, t, time) => var r := Take(m, s.prio, t, time, Prio); State(s.mutexes[i := r.0], r.1)
    case ReleaseStep(i, t) => var r := Release(m, s.prio, t); State(s.mutexes[i := r.0], r.1)
    case ExpireStep(i, t) => s.(mutexes := s.mutexes[i := Expire(m, t)])
  }

  ghost predicate AllConsistent(ms: seq<Mutex>, prio: Priorities, base: Priorities) {
    forall i :: 0 <= i < |ms| ==> Consistent(ms[i], prio, base)
  }

  ghost predicate OneEach(ms: seq<Mutex>) {
    forall i: nat, t: Thread :: EngagedAt(ms, i, t) ==> OnlyAt(ms, i, t)
  }

  /** A thread runs at its own priority, or owns a mutex. */
  ghost predicate BaseOrOwner(ms: seq<Mutex>, prio: Priorities, base: Priorities, t: Thread) {
    PriorityOf(prio, t) == PriorityOf(base, t) || exists i: nat :: OwnerAt(ms, i, t)
  }

  /** What every run keeps: each mutex consistent, each thread with one mutex at most, and every thread
      that owns none at its own priority. */
  ghost predicate Valid(s: State, base: Priorities) {
    AllConsistent(s.mutexes, s.prio, base) && OneEach(s.mutexes) && forall t :: BaseOrOwner(s.mutexes, s.prio, base, t)
  }

  /** A thread that owns no mutex runs at its own priority. */
  lemma AtBase(s: State, base: Priorities, i: nat, t: Thread)
    requires Valid(s, base) && i < |s.mutexes| && OnlyAt(s.mutexes, i, t) && s.mutexes[i].owner != Some(t)
    ensures PriorityOf(s.prio, t) == PriorityOf(base, t)
  {
    assert BaseOrOwner(s.mutexes, s.prio, base, t);
    forall j: nat | OwnerAt(s.mutexes, j, t) ensures false { assert EngagedAt(s.mutexes, j, t); }
  }

  lemma WaitersAtBase(s: State, base: Priorities, i: nat)
    requires Valid(s, base) && i < |s.mutexes|
    ensures OthersAtBase(s.mutexes[i], s.prio, base)
  {
    forall t | t in s.mutexes[i].waiters ensures PriorityOf(s.prio, t) == PriorityOf(base, t) {
      assert EngagedAt(s.mutexes, i, t);
      assert s.mutexes[i].owner.Some? ==> s.mutexes[i].owner.value !in s.mutexes[i].waiters;
      AtBase(s, base, i, t);
    }
  }

  /** A mutex none of whose threads changes priority. */
  lemma ConsistentFrame(m: Mutex, prio: Priorities, prio': Priorities, base: Priorities)
    requires Consistent(m, prio, base) && forall t :: Engaged(m, t) ==> PriorityOf(prio', t) == PriorityOf(prio, t)
    ensures Consistent(m, prio', base)
  {
    hide Sorted; hide NoDuplicates;
    if m.owner.Some? {
      forall t | t in m.waiters ensures PriorityOf(prio', t) == PriorityOf(prio, t) { assert Engaged(m, t); }
      assert Engaged(m, m.owner.value);
      SortedFrame(m.waiters, prio, prio');
    }
  }

  /** Mutex `i` changes, with the priority of thread `o`; `t` may join it. */
  lemma ReplaceKeeps(s: State, base: Priorities, i: nat, m: Mutex, prio: Priorities, o: Thread, t: Thread)
    requires Valid(s, base) && i < |s.mutexes| && Consistent(m, prio, base) && SameBut(s.prio, prio, o)
    requires OnlyAt(s.mutexes, i, o) && OnlyAt(s.mutexes, i, t)
    requires forall u :: Engaged(m, u) ==> Engaged(s.mutexes[i], u) || u == t
    requires PriorityOf(prio, o) == PriorityOf(base, o) || m.owner == Some(o)
    requires s.mutexes[i].owner in {None, Some(o)}
    ensures Valid(State(s.mutexes[i := m], prio), base)
  {
    hide Consistent; hide Engaged;
    var ms, ms' := s.mutexes, s.mutexes[i := m];
    forall j | 0 <= j < |ms| ensures Consistent(ms'[j], prio, base) {
      if j != i { FrameAt(s, base, i, j, prio, o); }
    }
    forall j: nat, u: Thread | EngagedAt(ms', j, u) ensures OnlyAt(ms', j, u) {
      assert (j != i ==> EngagedAt(ms, j, u)) && (j == i ==> EngagedAt(ms, i, u) || u == t);
      forall k: nat | EngagedAt(ms', k, u) ensures k == j {
        assert (k != i ==> EngagedAt(ms, k, u)) && (k == i ==> EngagedAt(ms, i, u) || u == t);
      }
    }
    forall u: Thread ensures BaseOrOwner(ms', prio, base, u) {
      assert BaseOrOwner(ms, s.prio, base, u);
      if j: nat :| OwnerAt(ms, j, u) && j != i { assert OwnerAt(ms', j, u); }
      if m.owner == Some(u) { assert OwnerAt(ms', i, u); }
    }
  }

  lemma FrameAt(s: State, base: Priorities, i: nat, j: nat, prio: Priorities, o: Thread)
    requires Valid(s, base) && i < |s.mutexes| && j < |s.mutexes| && i != j && OnlyAt(s.mutexes, i, o) && SameBut(s.prio, prio, o)
    ensures Consistent(s.mutexes[j], prio, base)
  {
    hide Consistent;
    forall u | Engaged(s.mutexes[j], u) ensures u != o { assert EngagedAt(s.mutexes, j, u); }
    ConsistentFrame(s.mutexes[j], s.prio, prio, base);
  }

  /** The owner of a mutex, or else `t`. */
  function OwnerOr(m: Mutex, t: Thread): Thread { if m.owner.Some? then m.owner.value else t }

  lemma OwnerOnly(s: State, base: Priorities, i: nat, t: Thread)
    requires Valid(s, base) && i < |s.mutexes| && (OnlyAt(s.mutexes, i, t) || Engaged(s.mutexes[i], t))
    ensures OnlyAt(s.mutexes, i, OwnerOr(s.mutexes[i], t)) && OnlyAt(s.mutexes, i, t)
    ensures Consistent(s.mutexes[i], s.prio, base) && OthersAtBase(s.mutexes[i], s.prio, base)
  {
    WaitersAtBase(s, base, i);
    assert s.mutexes[i].owner.Some? ==> EngagedAt(s.mutexes, i, s.mutexes[i].owner.value);
    assert Engaged(s.mutexes[i], t) ==> EngagedAt(s.mutexes, i, t);
  }

  lemma StepKeeps(s: State, base: Priorities, step: Step)
    requires Valid(s, base) && Enabled(s, step)
    ensures Valid(Next(s, step), base)
  {
    hide Valid; hide Consistent; hide Take; hide Release; hide OnlyAt; hide OthersAtBase; hide Expire;
    var i, t := step.i, step.t;
    var m := s.mutexes[i];
    match step
    case TakeStep(_, _, time) =>
      OwnerOnly(s, base, i, t);
      if m.owner != Some(t) { AtBase(s, base, i, t); }
      TakeKeeps(m, s.prio, base, t, time);
      TakeOwner(m, s.prio, base, t, time);
      var r := Take(m, s.prio, t, time, Prio);
      ReplaceKeeps(s, base, i, r.0, r.1, OwnerOr(m, t), t);
    case ReleaseStep(_, _) =>
      if m.owner == Some(t) {
        OwnerOnly(s, base, i, t);
        ReleaseKeeps(m, s.prio, base, t);
        var r := Release(m, s.prio, t);
        ReplaceKeeps(s, base, i, r.0, r.1, t, t);
      } else {
        assert s.mutexes[i := m] == s.mutexes;
        NotOwner(m, s.prio, t);
      }
    case ExpireStep(_, _) =>
      OwnerOnly(s, base, i, t);
      ExpireKeeps(m, s.prio, base, t);
      ExpireOwner(m, t);
      OwnPriority(s, base, i, t);
      ReplaceKeeps(s, base, i, Expire(m, t), s.prio, OwnerOr(m, t), t);
  }

  lemma TakeOwner(m: Mutex, prio: Priorities, base: Priorities, t: Thread, time: int)
    requires Consistent(m, prio, base) && (m.owner != Some(t) ==> PriorityOf(prio, t) == PriorityOf(base, t))
    ensures var (m', prio', _) := Take(m, prio, t, time, Prio);
            m'.owner == Some(OwnerOr(m, t)) && SameBut(prio, prio', OwnerOr(m, t))
  {
  }

  lemma NotOwner(m: Mutex, prio: Priorities, t: Thread)
    requires m.owner != Some(t)
    ensures Release(m, prio, t).0 == m && Release(m, prio, t).1 == prio
  {
  }

  lemma ExpireOwner(m: Mutex, t: Thread)
    ensures Expire(m, t).owner == m.owner
  {
  }

  lemma OwnPriority(s: State, base: Priorities, i: nat, t: Thread)
    requires Valid(s, base) && i < |s.mutexes| && Consistent(s.mutexes[i], s.prio, base) && t in s.mutexes[i].waiters
    ensures s.mutexes[i].owner == Some(OwnerOr(s.mutexes[i], t))
  {
  }

  // ----- runs -----

  ghost predicate Reaches(s: State, steps: seq<Step>, s': State)
    decreases |steps|
  {
    if steps == [] then s' == s
    else Enabled(s, steps[0]) && Reaches(Next(s, steps[0]), steps[1..], s')
  }

  lemma InitValid(n: nat, base: Priorities)
    ensures Valid(State(seq(n, _ => Init()), base), base)
  {
  }

  /** In every such run each owner is at least as urgent as its waiters, the waiters stand sorted, and a
      thread that owns no mutex has its own priority. */
  lemma {:induction false} RunKeeps(s: State, base: Priorities, steps: seq<Step>, s': State)
    requires Valid(s, base) && Reaches(s, steps, s')
    ensures Valid(s', base)
    decreases |steps|
  {
    if steps != [] {
      StepKeeps(s, base, steps[0]);
      RunKeeps(Next(s, steps[0]), base, steps[1..], s');
    }
  }

  // ----- in place -----

  /** The current priorities, which the source keeps in the threads. */
  class Threads {
    var prio: Priorities

    constructor (prio: Priorities)
      ensures this.prio == prio
    {
      this.prio := prio;
    }

    /** `rt_thread_control` with RT_THREAD_CTRL_CHANGE_PRIORITY. */
    method ChangePriority(t: Thread, priority: nat)
      modifies this
      ensures prio == old(prio)[t := priority]
    {
      prio := prio[t := priority];
    }
  }

  class MutexObject {
    const threads: Threads
    const flag: Flag
    var value: nat
    var owner: Option<Thread>
    var originalPriority: nat
    var hold: nat
    var suspendThread: seq<Thread>

    ghost function S(): Mutex
      reads this
    {
      Mutex(value, owner, originalPriority, hold, suspendThread)
    }

    constructor (threads: Threads, flag: Flag)
      ensures S() == Init() && this.threads == threads && this.flag == flag
    {
      this.threads, this.flag := threads, flag;
      value, owner, originalPriority, hold, suspendThread := 1, None, 0xff, 0, [];
    }

    /** `rt_mutex_take` by the running thread `t`. */
    method TakeBy(t: Thread, time: int) returns (r: Result)
      requires value > 0 || owner.Some?
      modifies this, threads
      ensures (S(), threads.prio, r) == Take(old(S()), old(threads.prio), t, time, flag)
    {
      if owner == Some(t) {
        hold := (hold + 1) % 256;
        return Done;
      }
      if value > 0 {
        value := value - 1;
        owner := Some(t);
        originalPriority := PriorityOf(threads.prio, t);
        hold := (hold + 1) % 256;
        return Done;
      }
      if time == 0 { return Timeout; }
      if PriorityOf(threads.prio, t) < PriorityOf(threads.prio, owner.value) {
        threads.ChangePriority(owner.value, PriorityOf(threads.prio, t));
      }
      suspendThread := SuspendOn(suspendThread, t, flag, threads.prio);
      return Blocked;
    }

    /** `rt_mutex_release` by the running thread `t`. */
    method ReleaseBy(t: Thread) returns (r: Result)
      modifies this, threads
      ensures (S(), threads.prio, r) == Release(old(S()), old(threads.prio), t)
    {
      if owner != Some(t) { return Error; }
      hold := (hold + 255) % 256;
      if hold == 0 {
        if originalPriority != PriorityOf(threads.prio, t) { threads.ChangePriority(t, originalPriority); }
        if suspendThread != [] {
          var thread := suspendThread[0];
          owner := Some(thread);
          originalPriority := PriorityOf(threads.prio, thread);
          hold := hold + 1;
          suspendThread := suspendThread[1..];
        } else {
          value := value + 1;
          owner := None;
          originalPriority := 0xff;
        }
      }
      return Done;
    }

    /** `rt_thread_timeout` on a thread that waits here. */
    method TimeOut(t: Thread)
      modifies this
      ensures S() == Expire(old(S()), t)
    {
      suspendThread := Without(suspendThread, t);
    }
  }
}
