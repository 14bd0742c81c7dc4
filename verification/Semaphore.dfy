/** The counting semaphore of src/ipc.c as a step system. */
module Semaphore {
  import opened Lists
  import opened Waiting

  type Thread = nat

  /** What a thread is doing with the semaphore; a woken thread has been handed a unit. */
  datatype Phase = Idle | Waiting(stamp: nat) | Woken | Failed(error: Error)

  datatype Error = Timeout | Reset

  datatype Result = Done | Blocked | Error(error: Error)

  /** `arrivals` numbers the suspensions and `grants` lists the numbers that were handed a unit; both
      are history only. */
  datatype State = State(value: nat, waiters: seq<Thread>, phase: map<Thread, Phase>, arrivals: nat, grants: seq<nat>)

  function PhaseOf(s: State, t: Thread): Phase { if t in s.phase then s.phase[t] else Idle }

  function StampOf(s: State, t: Thread): nat {
    match PhaseOf(s, t)
    case Waiting(stamp) => stamp
    case _ => 0
  }

  // ----- the atomic sections -----

  /** `rt_sem_take` up to a suspension. */
  function Take(s: State, t: Thread, time: int, flag: Flag, prio: Priorities): (State, Result) {
    if s.value > 0 then (s.(value := s.value - 1), Done)
    else if time == 0 then (s, Error(Timeout))
    else
      (s.(waiters := Suspend(s.waiters, t, flag, prio), phase := s.phase[t := Waiting(s.arrivals)], arrivals := s.arrivals + 1),
       Blocked)
  }

  /** `rt_sem_release`; the value has 16 bits. */
  function Release(s: State): State {
    if s.waiters == [] then s.(value := (s.value + 1) % 0x1_0000)
    else
      var t := s.waiters[0];
      s.(waiters := s.waiters[1..], phase := s.phase[t := Woken], grants := s.grants + [StampOf(s, t)])
  }

  /** `rt_thread_timeout` on a waiter. */
  function Expire(s: State, t: Thread): State {
    s.(waiters := Without(s.waiters, t), phase := s.phase[t := Failed(Timeout)])
  }

  /** `rt_sem_control` with RT_IPC_CMD_RESET; the new value is cut to 16 bits. */
  function ResetTo(s: State, value: nat): State {
    s.(value := value % 0x1_0000, waiters := [], phase := FailAll(s.phase, s.waiters, Failed(Reset)))
  }

  function Rerun(s: State, t: Thread): (State, Result) {
    (s.(phase := s.phase[t := Idle]),
     match PhaseOf(s, t) case Failed(error) => Error(error) case _ => Done)
  }

  datatype Step =
    | TakeStep(t: Thread, time: int, prio: Priorities)
    | ReleaseStep
    | ExpireStep(t: Thread)
    | RerunStep(t: Thread)
    | ResetStep(value: nat)

  ghost predicate Enabled(s: State, step: Step) {
    match step
    case TakeStep(t, _, _) => PhaseOf(s, t).Idle?
    case ReleaseStep => true
    case ExpireStep(t) => t in s.waiters
    case RerunStep(t) => PhaseOf(s, t).Woken? || PhaseOf(s, t).Failed?
    case ResetStep(_) => true
  }

  function Next(s: State, step: Step, flag: Flag): State {
    match step
    case TakeStep(t, time, prio) => Take(s, t, time, flag, prio).0
    case ReleaseStep => Release(s)
    case ExpireStep(t) => Expire(s, t)
    case RerunStep(t) => Rerun(s, t).0
    case ResetStep(value) => ResetTo(s, value)
  }

  // ----- what every run keeps -----

  ghost predicate Increasing(stamps: seq<nat>) {
    forall i, j :: 0 <= i < j < |stamps| ==> stamps[i] < stamps[j]
  }

  /** The arrival numbers of the waiters, as they stand. */
  ghost function WaitStamps(s: State): seq<nat> {
    seq(|s.waiters|, i requires 0 <= i < |s.waiters| => StampOf(s, s.waiters[i]))
  }

  /** The granted numbers, then those of the waiters, are in order of arrival. */
  ghost predicate InOrder(s: State) {
    var all := s.grants + WaitStamps(s);
    Increasing(all) && forall i :: 0 <= i < |all| ==> all[i] < s.arrivals
  }

  ghost predicate Valid(s: State, flag: Flag) {
    && NoDuplicates(s.waiters) && (forall t :: t in s.waiters <==> PhaseOf(s, t).Waiting?)
    && (s.value > 0 ==> s.waiters == []) && s.value < 0x1_0000
    && (flag.Fifo? ==> InOrder(s))
  }

  lemma StepKeeps(s: State, step: Step, flag: Flag)
    requires Valid(s, flag) && Enabled(s, step)
    ensures Valid(Next(s, step, flag), flag)
  {
    hide NoDuplicates; hide Without; hide InOrder;
    match step
    case TakeStep(t, time, prio) =>
      if s.value == 0 && time != 0 {
        SuspendIs(s.waiters, t, flag, prio);
        if flag.Fifo? { ArriveInOrder(s, t); }
      } else if flag.Fifo? {
        OrderFrame(s, Next(s, step, flag));
      }
    case ReleaseStep =>
      if s.waiters != [] {
        PopFront(s.waiters);
        if flag.Fifo? { GrantInOrder(s); }
      } else if flag.Fifo? {
        OrderFrame(s, Next(s, step, flag));
      }
    case ExpireStep(t) =>
      WithoutIs(s.waiters, t);
      if flag.Fifo? { ExpireInOrder(s, t); }
    case RerunStep(t) => if flag.Fifo? { OrderFrame(s, Next(s, step, flag)); }
    case ResetStep(value) => ResetKeeps(s, value, flag);
  }

  /** When a take answers: a unit that is there is taken; without one a thread without a timeout is refused and nothing
      changes, and any other one waits. */
  lemma TakeIs(s: State, t: Thread, time: int, flag: Flag, prio: Priorities)
    requires Valid(s, flag) && PhaseOf(s, t).Idle?
    ensures var (s', r) := Take(s, t, time, flag, prio);
            if s.value > 0 then r == Done && s' == s.(value := s.value - 1)
            else if time == 0 then r == Error(Timeout) && s' == s
            else
              && r == Blocked && s'.value == 0 && s'.grants == s.grants && PhaseOf(s', t) == Waiting(s.arrivals)
              && (forall u :: u in s'.waiters <==> u in s.waiters || u == t)
              && forall u :: u != t ==> PhaseOf(s', u) == PhaseOf(s, u)
  {
    hide Suspend; hide InOrder; hide NoDuplicates;
    SuspendIs(s.waiters, t, flag, prio);
  }

  /** A release hands the unit to the first waiter, and adds it to the value if nobody waits. */
  lemma ReleaseIs(s: State, flag: Flag)
    requires Valid(s, flag)
    ensures var s' := Release(s);
            if s.waiters == [] then s' == s.(value := if s.value == 0xffff then 0 else s.value + 1)
            else
              var t := s.waiters[0];
              && s'.value == 0 && s'.waiters == s.waiters[1..] && PhaseOf(s', t).Woken?
              && Rerun(s', t).1 == Done && s'.grants == s.grants + [StampOf(s, t)]
              && forall u :: u != t ==> PhaseOf(s', u) == PhaseOf(s, u)
  {
    hide InOrder; hide NoDuplicates;
  }

  /** A reset fails every waiter, and nobody else. */
  lemma ResetKeeps(s: State, value: nat, flag: Flag)
    requires Valid(s, flag)
    ensures var s' := ResetTo(s, value);
            && Valid(s', flag) && s'.waiters == [] && s'.grants == s.grants
            && forall t :: PhaseOf(s', t) == if t in s.waiters then Failed(Reset) else PhaseOf(s, t)
  {
    FailAllIs(s.phase, s.waiters, Failed(Reset));
    var s' := ResetTo(s, value);
    forall t ensures PhaseOf(s', t) == if t in s.waiters then Failed(Reset) else PhaseOf(s, t) {
      assert t in s.waiters ==> t in s'.phase;
    }
    if flag.Fifo? {
      var all := s.grants + WaitStamps(s);
      assert WaitStamps(s') == [] && s'.grants + WaitStamps(s') == s.grants;
      forall i | 0 <= i < |s.grants| ensures s.grants[i] == all[i] { }
    }
  }

  lemma OrderFrame(s: State, s': State)
    requires InOrder(s) && s'.waiters == s.waiters && s'.grants == s.grants && s'.arrivals == s.arrivals
    requires forall t :: t in s.waiters ==> PhaseOf(s', t) == PhaseOf(s, t)
    ensures InOrder(s')
  {
    forall i | 0 <= i < |s.waiters| ensures StampOf(s', s.waiters[i]) == StampOf(s, s.waiters[i]) {
      assert s.waiters[i] in s.waiters;
    }
    assert WaitStamps(s') == WaitStamps(s);
  }

  lemma ArriveInOrder(s: State, t: Thread)
    requires InOrder(s) && t !in s.waiters
    ensures InOrder(s.(waiters := s.waiters + [t], phase := s.phase[t := Waiting(s.arrivals)], arrivals := s.arrivals + 1))
  {
    var s' := s.(waiters := s.waiters + [t], phase := s.phase[t := Waiting(s.arrivals)], arrivals := s.arrivals + 1);
    forall i | 0 <= i < |s.waiters| ensures StampOf(s', s.waiters[i]) == StampOf(s, s.waiters[i]) {
      assert s.waiters[i] in s.waiters;
    }
    assert WaitStamps(s') == WaitStamps(s) + [s.arrivals];
    assert s'.grants + WaitStamps(s') == (s.grants + WaitStamps(s)) + [s.arrivals];
  }

  /** A grant moves the first waiter's number to the end of the granted ones. */
  lemma GrantInOrder(s: State)
    requires InOrder(s) && s.waiters != [] && NoDuplicates(s.waiters)
    ensures InOrder(Release(s))
  {
    var t, s' := s.waiters[0], Release(s);
    forall i | 0 <= i < |s'.waiters| ensures StampOf(s', s'.waiters[i]) == StampOf(s, s.waiters[i + 1]) {
      assert s'.waiters[i] == s.waiters[i + 1] != t;
    }
    assert WaitStamps(s) == [StampOf(s, t)] + WaitStamps(s');
    assert s.grants + WaitStamps(s) == s'.grants + WaitStamps(s');
  }

  lemma ExpireInOrder(s: State, t: Thread)
    requires InOrder(s) && NoDuplicates(s.waiters) && t in s.waiters
    ensures InOrder(Expire(s, t))
  {
    hide Position; hide Without; hide NoDuplicates; hide StampOf;
    var s', k := Expire(s, t), Position(s.waiters, t);
    PositionFound(s.waiters, t);
    WithoutIs(s.waiters, t);
    var before, after := WaitStamps(s), WaitStamps(s');
    forall i | 0 <= i < |after| ensures after[i] == before[if i < k then i else i + 1] {
      WithoutAt(s.waiters, t, i);
      StampKept(s, t, s'.waiters[i]);
    }
    var g := |s.grants|;
    forall i | 0 <= i < g + |after| ensures (s.grants + after)[i] == (s.grants + before)[if i < g + k then i else i + 1] { }
    IncreasingWithout(s.grants + before, s.grants + after, g + k);
  }

  lemma StampKept(s: State, t: Thread, u: Thread)
    requires u != t
    ensures StampOf(Expire(s, t), u) == StampOf(s, u)
  {
  }

  /** One number drops out. */
  lemma IncreasingWithout(all: seq<nat>, all': seq<nat>, k: nat)
    requires Increasing(all) && |all'| == |all| - 1
    requires forall i :: 0 <= i < |all'| ==> all'[i] == all[if i < k then i else i + 1]
    ensures Increasing(all') && forall i :: 0 <= i < |all'| ==> all'[i] in all
  {
  }

  /** A timed-out waiter consumes nothing: no unit, nobody's place, no grant. */
  lemma TimeoutConsumesNothing(s: State, t: Thread, flag: Flag)
    requires Valid(s, flag) && t in s.waiters
    ensures var (s', r) := Rerun(Expire(s, t), t);
            && r == Error(Timeout) && s'.value == s.value && s'.grants == s.grants
            && (forall u :: u != t ==> (u in s'.waiters <==> u in s.waiters) && PhaseOf(s', u) == PhaseOf(s, u))
            && t !in s'.waiters
  {
    WithoutIs(s.waiters, t);
  }

  // ----- conservation -----

  /** Units that a step hands out: a take that finds one, or a release that meets a waiter. */
  function Taken(s: State, step: Step): nat {
    match step
    case TakeStep(_, _, _) => Count(s.value > 0)
    case ReleaseStep => Count(s.waiters != [])
    case _ => 0
  }

  /** Units that a step brings: a release one, a reset its new value. */
  function Released(step: Step): nat {
    match step
    case ReleaseStep => 1
    case ResetStep(value) => value % 0x1_0000
    case _ => 0
  }

  /** Units that a step loses: a release at the top of the 16 bits with nobody waiting takes the value
      back to zero, and a reset drops the old value. */
  function Lost(s: State, step: Step): nat {
    match step
    case ReleaseStep => if s.waiters == [] && s.value == 0xffff then 0x1_0000 else 0
    case ResetStep(_) => s.value
    case _ => 0
  }

  /** A release keeps the balance exactly unless it overflows the value with nobody waiting. */
  lemma ReleaseBalance(s: State)
    requires s.value < 0x1_0000
    ensures s.value + 1 == Release(s).value + Taken(s, ReleaseStep) <==> !(s.waiters == [] && s.value == 0xffff)
  {
  }

  function AllTaken(s: State, steps: seq<Step>, flag: Flag): nat
    decreases |steps|
  {
    if steps == [] then 0 else Taken(s, steps[0]) + AllTaken(Next(s, steps[0], flag), steps[1..], flag)
  }

  function AllLost(s: State, steps: seq<Step>, flag: Flag): nat
    decreases |steps|
  {
    if steps == [] then 0 else Lost(s, steps[0]) + AllLost(Next(s, steps[0], flag), steps[1..], flag)
  }

  function AllReleased(steps: seq<Step>): nat
    decreases |steps|
  {
    if steps == [] then 0 else Released(steps[0]) + AllReleased(steps[1..])
  }

  function Run(s: State, steps: seq<Step>, flag: Flag): State
    decreases |steps|
  {
    if steps == [] then s else Run(Next(s, steps[0], flag), steps[1..], flag)
  }

  ghost predicate LegalRun(s: State, steps: seq<Step>, flag: Flag)
    decreases |steps|
  {
    steps == [] || (Enabled(s, steps[0]) && LegalRun(Next(s, steps[0], flag), steps[1..], flag))
  }

  lemma StepBalance(s: State, step: Step, flag: Flag)
    requires Valid(s, flag) && Enabled(s, step)
    ensures s.value + Released(step) == Next(s, step, flag).value + Taken(s, step) + Lost(s, step)
  {
  }

  /** In every run a positive value means no waiter, units are conserved but for those lost to an
      overflow or a reset, and FIFO waiters are granted in the order they arrived. */
  lemma {:induction false} RunKeeps(s: State, steps: seq<Step>, flag: Flag)
    requires Valid(s, flag) && LegalRun(s, steps, flag)
    ensures var s' := Run(s, steps, flag);
            && Valid(s', flag) && s.value + AllReleased(steps) == s'.value + AllTaken(s, steps, flag) + AllLost(s, steps, flag)
            && (flag.Fifo? ==> Increasing(s'.grants))
    decreases |steps|
  {
    hide Next; hide Enabled; hide Taken; hide Released; hide Lost; hide Valid;
    if steps == [] {
      if flag.Fifo? { GrantsIncrease(s, flag); }
    } else {
      StepKeeps(s, steps[0], flag);
      StepBalance(s, steps[0], flag);
      RunKeeps(Next(s, steps[0], flag), steps[1..], flag);
    }
  }

  lemma GrantsIncrease(s: State, flag: Flag)
    requires Valid(s, flag) && flag.Fifo?
    ensures Increasing(s.grants)
  {
    var all := s.grants + WaitStamps(s);
    forall i, j | 0 <= i < j < |s.grants| ensures s.grants[i] < s.grants[j] { assert all[i] < all[j]; }
  }

  /** `rt_sem_init`; the value is cut to 16 bits. */
  function Init(value: nat): State { State(value % 0x1_0000, [], map[], 0, []) }

  lemma InitValid(value: nat, flag: Flag)
    ensures Valid(Init(value), flag)
  {
  }

  /** `n` releases of a fresh semaphore leave `n` modulo 65536; the 65536th loses all of them. */
  lemma {:induction false} ReleasesOverflow(n: nat, flag: Flag)
    ensures var steps := seq(n, _ => ReleaseStep);
            && LegalRun(Init(0), steps, flag) && Run(Init(0), steps, flag) == Init(n)
    decreases n
  {
    var steps := seq(n, _ => ReleaseStep);
    ReleasesFrom(0, n, flag);
  }

  lemma {:induction false} ReleasesFrom(value: nat, n: nat, flag: Flag)
    ensures var steps := seq(n, _ => ReleaseStep);
            && LegalRun(Init(value), steps, flag) && Run(Init(value), steps, flag) == Init(value + n)
    decreases n
  {
    var steps := seq(n, _ => ReleaseStep);
    if n > 0 {
      assert steps[1..] == seq(n - 1, _ => ReleaseStep);
      assert Next(Init(value), ReleaseStep, flag) == Init(value + 1);
      ReleasesFrom(value + 1, n - 1, flag);
    }
  }

  // ----- in place -----

  class SemaphoreObject {
    const flag: Flag
    var value: nat
    var suspendThread: seq<Thread>
    /** Whether each thread waits here, was woken or failed, which the source keeps in the threads. */
    var phase: map<Thread, Phase>
    var arrivals: nat
    ghost var grants: seq<nat>

    ghost function S(): State
      reads this
    {
      State(value, suspendThread, phase, arrivals, grants)
    }

    constructor (value: nat, flag: Flag)
      ensures Valid(S(), flag) && S() == Init(value) && this.flag == flag
    {
      this.flag, this.value := flag, value % 0x1_0000;
      suspendThread, phase, arrivals, grants := [], map[], 0, [];
    }

    /** `rt_sem_take` up to a suspension. */
    method TakeBy(t: Thread, time: int, prio: Priorities) returns (r: Result)
      requires Valid(S(), flag) && PhaseOf(S(), t).Idle?
      modifies this
      ensures Valid(S(), flag) && (S(), r) == Take(old(S()), t, time, flag, prio)
    {
      hide Valid; hide Suspend;
      StepKeeps(S(), TakeStep(t, time, prio), flag);
      if value > 0 {
        value := value - 1;
        return Done;
      }
      if time == 0 { return Error(Timeout); }
      suspendThread := SuspendOn(suspendThread, t, flag, prio);
      phase := phase[t := Waiting(arrivals)];
      arrivals := arrivals + 1;
      return Blocked;
    }

    /** `rt_sem_release`. */
    method ReleaseOne()
      requires Valid(S(), flag)
      modifies this
      ensures Valid(S(), flag) && S() == Release(old(S()))
    {
      hide Valid;
      StepKeeps(S(), ReleaseStep, flag);
      if suspendThread != [] {
        var t := suspendThread[0];
        grants := grants + [StampOf(S(), t)];
        suspendThread := suspendThread[1..];
        phase := phase[t := Woken];
      } else {
        value := (value + 1) % 0x1_0000;
      }
    }

    /** `rt_thread_timeout` on a thread that waits here. */
    method TimeOut(t: Thread)
      requires Valid(S(), flag) && t in suspendThread
      modifies this
      ensures Valid(S(), flag) && S() == Expire(old(S()), t)
    {
      hide Valid;
      StepKeeps(S(), ExpireStep(t), flag);
      suspendThread := Without(suspendThread, t);
      phase := phase[t := Failed(Timeout)];
    }

    /** `rt_sem_control` with RT_IPC_CMD_RESET. */
    method Control(value: nat)
      requires Valid(S(), flag)
      modifies this
      ensures Valid(S(), flag) && S() == ResetTo(old(S()), value)
    {
      hide Valid;
      ResetKeeps(S(), value, flag);
      ghost var p := phase;
      while suspendThread != []
        invariant FailAll(phase, suspendThread, Failed(Reset)) == FailAll(p, old(suspendThread), Failed(Reset))
        invariant this.value == old(this.value) && arrivals == old(arrivals) && grants == old(grants)
        decreases |suspendThread|
      {
        phase := phase[suspendThread[0] := Failed(Reset)];
        suspendThread := suspendThread[1..];
      }
      this.value := value % 0x1_0000;
    }
  }
}
