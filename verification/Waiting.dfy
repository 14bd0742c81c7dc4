/** Lists of threads suspended on an IPC object, as `rt_ipc_list_suspend` keeps them. */
module Waiting {
  import opened Lists

  datatype Flag = Fifo | Prio

  /** Current priorities; a lower number is more urgent. */
  type Priorities = map<nat, nat>

  function PriorityOf(prio: Priorities, t: nat): nat { if t in prio then prio[t] else 255 }

  /** Insert before the first thread that is less urgent. */
  function InsertByPriority(list: seq<nat>, t: nat, prio: Priorities): seq<nat>
    decreases |list|
  {
    if list == [] then [t]
    else if PriorityOf(prio, t) < PriorityOf(prio, list[0]) then [t] + list
    else [list[0]] + InsertByPriority(list[1..], t, prio)
  }

  function Suspend(list: seq<nat>, t: nat, flag: Flag, prio: Priorities): seq<nat> {
    match flag
    case Fifo => list + [t]
    case Prio => InsertByPriority(list, t, prio)
  }

  /** What is left of a timeout after `elapsed` ticks of the 32-bit tick counter. */
  function Remaining(timeout: int, elapsed: nat): int {
    if timeout > 0 then
      var n := (timeout - elapsed) % 0x1_0000_0000;
      if n >= 0x8000_0000 then 0 else n
    else timeout
  }

  /** Most urgent first. */
  ghost predicate Sorted(list: seq<nat>, prio: Priorities) {
    forall i, j :: 0 <= i < j < |list| ==> PriorityOf(prio, list[i]) <= PriorityOf(prio, list[j])
  }

  lemma {:induction false} InsertIs(list: seq<nat>, t: nat, prio: Priorities)
    requires NoDuplicates(list) && t !in list
    ensures var l := InsertByPriority(list, t, prio);
            && NoDuplicates(l) && |l| == |list| + 1 && forall x :: x in l <==> x in list || x == t
    decreases |list|
  {
    if list == [] {
    } else if PriorityOf(prio, t) < PriorityOf(prio, list[0]) {
      PushFront(t, list);
    } else {
      PopFront(list);
      InsertIs(list[1..], t, prio);
      PushFront(list[0], InsertByPriority(list[1..], t, prio));
    }
  }

  lemma SuspendIs(list: seq<nat>, t: nat, flag: Flag, prio: Priorities)
    requires NoDuplicates(list) && t !in list
    ensures var l := Suspend(list, t, flag, prio);
            && NoDuplicates(l) && |l| == |list| + 1 && forall x :: x in l <==> x in list || x == t
  {
    if flag.Prio? { InsertIs(list, t, prio); }
  }

  /** A sorted list stays sorted, and the new thread stands behind those as urgent as itself. */
  lemma {:induction false} InsertSorted(list: seq<nat>, t: nat, prio: Priorities)
    requires Sorted(list, prio)
    ensures Sorted(InsertByPriority(list, t, prio), prio)
    ensures var l := InsertByPriority(list, t, prio);
            l[0] == t || (list != [] && l[0] == list[0] && PriorityOf(prio, list[0]) <= PriorityOf(prio, t))
    decreases |list|
  {
    if list != [] && PriorityOf(prio, t) >= PriorityOf(prio, list[0]) {
      var rest := list[1..];
      InsertSorted(rest, t, prio);
      var l := InsertByPriority(rest, t, prio);
      forall i | 0 <= i < |l| ensures PriorityOf(prio, list[0]) <= PriorityOf(prio, l[i]) {
        if rest != [] { assert PriorityOf(prio, list[0]) <= PriorityOf(prio, list[1]); }
        assert PriorityOf(prio, l[0]) <= PriorityOf(prio, l[i]);
      }
    }
  }

  /** The place of the new thread: behind all that are at least as urgent as itself up to there, and right before one
      that is less urgent, or at the end; the others keep their order. */
  lemma {:induction false} InsertPlace(list: seq<nat>, t: nat, prio: Priorities) returns (k: nat)
    ensures k <= |list| && InsertByPriority(list, t, prio) == list[..k] + [t] + list[k..]
    ensures forall j :: 0 <= j < k ==> PriorityOf(prio, list[j]) <= PriorityOf(prio, t)
    ensures k < |list| ==> PriorityOf(prio, t) < PriorityOf(prio, list[k])
    decreases |list|
  {
    if list == [] || PriorityOf(prio, t) < PriorityOf(prio, list[0]) {
      k := 0;
    } else {
      var i := InsertPlace(list[1..], t, prio);
      k := i + 1;
      assert list[..k] == [list[0]] + list[1..][..i] && list[k..] == list[1..][i..];
    }
  }

  /** With RT_IPC_FLAG_FIFO threads wait in order of arrival, with RT_IPC_FLAG_PRIO behind those at least as urgent. */
  lemma SuspendPlace(list: seq<nat>, t: nat, flag: Flag, prio: Priorities) returns (k: nat)
    ensures k <= |list| && Suspend(list, t, flag, prio) == list[..k] + [t] + list[k..]
    ensures flag.Fifo? ==> k == |list|
    ensures flag.Prio? ==> forall j :: 0 <= j < k ==> PriorityOf(prio, list[j]) <= PriorityOf(prio, t)
    ensures flag.Prio? && k < |list| ==> PriorityOf(prio, t) < PriorityOf(prio, list[k])
  {
    if flag.Prio? { k := InsertPlace(list, t, prio); } else { k := |list|; }
  }

  /** For a 32-bit signed timeout: no wait and an endless one stay what they are, and of any other exactly the ticks
      not yet elapsed are left, none if it is over, if and only if the thread looks again within half the range of
      ticks after that. */
  lemma RemainingIs(timeout: int, elapsed: nat)
    requires -0x8000_0000 <= timeout < 0x8000_0000 && elapsed < 0x1_0000_0000
    ensures timeout <= 0 ==> Remaining(timeout, elapsed) == timeout
    ensures timeout > 0 ==> Remaining(timeout, elapsed) >= 0
    ensures timeout > 0 ==>
              (Remaining(timeout, elapsed) == (if elapsed < timeout then timeout - elapsed else 0) <==>
               elapsed <= timeout + 0x8000_0000)
  {
  }

  /** A thread with a timeout of one tick that looks again half the range and a tick later has nearly half the range
      left. */
  lemma LateLook()
    ensures Remaining(1, 0x8000_0002) == 0x7fff_ffff
  {
    assert (1 - 0x8000_0002) % 0x1_0000_0000 == 0x7fff_ffff;
  }

  /** `rt_ipc_list_resume_all`: every thread of the list is taken off it with the same verdict. */
  function FailAll<P>(phase: map<nat, P>, list: seq<nat>, verdict: P): map<nat, P>
    decreases |list|
  {
    if list == [] then phase else FailAll(phase[list[0] := verdict], list[1..], verdict)
  }

  lemma {:induction false} FailAllIs<P>(phase: map<nat, P>, list: seq<nat>, verdict: P)
    ensures var p := FailAll(phase, list, verdict);
            forall t :: if t in list then t in p && p[t] == verdict else t in p <==> t in phase
    ensures var p := FailAll(phase, list, verdict);
            forall t :: t !in list && t in phase ==> p[t] == phase[t]
    decreases |list|
  {
    if list != [] {
      FailAllIs(phase[list[0] := verdict], list[1..], verdict);
      assert forall t :: t in list <==> t == list[0] || t in list[1..];
    }
  }

  /** `rt_ipc_list_suspend`: the thread joins the list at the place its flag says. */
  method SuspendOn(list: seq<nat>, t: nat, flag: Flag, prio: Priorities) returns (l: seq<nat>)
    ensures l == Suspend(list, t, flag, prio)
  {
    if flag.Fifo? { return list + [t]; }
    hide InsertByPriority;
    ghost var k := InsertPlace(list, t, prio);
    var n := 0;
    while n < |list| && PriorityOf(prio, t) >= PriorityOf(prio, list[n])
      invariant n <= |list| && forall j :: 0 <= j < n ==> PriorityOf(prio, list[j]) <= PriorityOf(prio, t)
    {
      n := n + 1;
    }
    assert n == k;
    l := list[..n] + [t] + list[n..];
  }
}
