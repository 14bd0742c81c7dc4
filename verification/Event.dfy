/** The event object of src/ipc.c as a step system over 32-bit event sets. */
module Event {
  import opened Lists
  import opened Waiting

  type Thread = nat

  const AND: bv8 := 0x01
  const OR: bv8 := 0x02
  const CLEAR: bv8 := 0x04

  /** What a thread is doing with the event object; a woken thread carries its received set. */
  datatype Phase = Idle | Waiting(want: bv32, option: bv8) | Woken(received: bv32) | Failed(error: Error)

  datatype Error = Timeout | Reset | Empty

  datatype Result = Done | Got(received: bv32) | Blocked | Error(error: Error)

  datatype State = State(events: bv32, waiters: seq<Thread>, phase: map<Thread, Phase>)

  function PhaseOf(phase: map<Thread, Phase>, t: Thread): Phase { if t in phase then phase[t] else Idle }

  // ----- conditions on event sets -----

  predicate Has(option: bv8, flag: bv8) { option & flag != 0 }

  predicate AllOf(events: bv32, want: bv32) { want & events == want }

  predicate AnyOf(events: bv32, want: bv32) { want & events != 0 }

  function Minus(events: bv32, bits: bv32): bv32 { events & !bits }

  function Union(events: bv32, bits: bv32): bv32 { events | bits }

  /** AND takes priority over OR. */
  predicate Satisfied(events: bv32, want: bv32, option: bv8) {
    if Has(option, AND) then AllOf(events, want) else Has(option, OR) && AnyOf(events, want)
  }

  function Clear(events: bv32, bits: bv32, option: bv8): bv32 { if Has(option, CLEAR) then Minus(events, bits) else events }

  /** The set `rt_event_send` leaves in a woken thread. */
  function Granted(events: bv32, want: bv32, option: bv8): bv32 { if Has(option, AND) then want else want & events }

  /** Every bit of `a` is one of `b`. */
  predicate Within(a: bv32, b: bv32) { a & b == a }

  /** With AND all the bits wanted must be there, with OR alone at least one of them. */
  lemma ConditionIs(events: bv32, want: bv32, option: bv8)
    ensures Has(option, AND) ==> (Satisfied(events, want, option) <==> forall b :: Within(b, want) ==> Within(b, events))
    ensures !Has(option, AND) && Has(option, OR) ==>
              (Satisfied(events, want, option) <==> exists b :: b != 0 && Within(b, want) && Within(b, events))
  {
    hide Has;
    forall b | Within(b, want) && AllOf(events, want) ensures Within(b, events) { WithinAll(b, want, events); }
    forall b | b != 0 && Within(b, want) && Within(b, events) ensures AnyOf(events, want) { WithinAny(b, want, events); }
    WithinBoth(want, events);
  }

  lemma WithinAll(b: bv32, want: bv32, events: bv32)
    requires Within(b, want) && AllOf(events, want)
    ensures Within(b, events)
  {
  }

  lemma WithinAny(b: bv32, want: bv32, events: bv32)
    requires b != 0 && Within(b, want) && Within(b, events)
    ensures AnyOf(events, want)
  {
  }

  lemma WithinBoth(want: bv32, events: bv32)
    ensures Within(want, want) && (Within(want, events) <==> AllOf(events, want))
    ensures Within(want & events, want) && Within(want & events, events)
  {
  }

  /** A send leaves the least set with its bits and those before. */
  lemma UnionIs(events: bv32, bits: bv32, b: bv32)
    ensures Within(Union(events, bits), b) <==> Within(events, b) && Within(bits, b)
  {
    hide Within; hide Union;
    if Within(Union(events, bits), b) { UnionHas(events, bits, b); }
    if Within(events, b) && Within(bits, b) { UnionLeast(events, bits, b); }
  }

  lemma UnionHas(events: bv32, bits: bv32, b: bv32)
    requires Within(Union(events, bits), b)
    ensures Within(events, b) && Within(bits, b)
  {
  }

  lemma UnionLeast(events: bv32, bits: bv32, b: bv32)
    requires Within(events, b) && Within(bits, b)
    ensures Within(Union(events, bits), b)
  {
  }

  predicate Apart(a: bv32, b: bv32) { a & b == 0 }

  /** Clearing takes exactly these bits out. */
  lemma MinusIs(events: bv32, bits: bv32, b: bv32)
    ensures Within(b, Minus(events, bits)) <==> Within(b, events) && Apart(b, bits)
  {
    hide Within; hide Minus; hide Apart;
    if Within(b, Minus(events, bits)) { MinusHas(events, bits, b); }
    if Within(b, events) && Apart(b, bits) { MinusMost(events, bits, b); }
  }

  lemma MinusHas(events: bv32, bits: bv32, b: bv32)
    requires Within(b, Minus(events, bits))
    ensures Within(b, events) && Apart(b, bits)
  {
  }

  lemma MinusMost(events: bv32, bits: bv32, b: bv32)
    requires Within(b, events) && Apart(b, bits)
    ensures Within(b, Minus(events, bits))
  {
  }

  lemma ClearIs(events: bv32, bits: bv32, option: bv8)
    ensures Clear(events, bits, option) == if option & 0x04 == 0 then events else Minus(events, bits)
  {
  }

  /** A grant by `rt_event_send` is what an immediate receive returns, and clears the same bits. */
  lemma GrantIsReceive(events: bv32, want: bv32, option: bv8)
    requires Satisfied(events, want, option)
    ensures Granted(events, want, option) == events & want
    ensures Clear(events, Granted(events, want, option), option) == Clear(events, want, option)
  {
  }

  /** Clearing bits satisfies nobody. */
  lemma ClearSatisfiesNone(events: bv32, bits: bv32, option: bv8, want: bv32, other: bv8)
    requires !Satisfied(events, want, other)
    ensures !Satisfied(Clear(events, bits, option), want, other)
  {
    hide Has; hide AllOf; hide AnyOf; hide Minus;
    FewerBits(events, bits, want);
  }

  lemma FewerBits(events: bv32, bits: bv32, want: bv32)
    ensures AllOf(Minus(events, bits), want) ==> AllOf(events, want)
    ensures AnyOf(Minus(events, bits), want) ==> AnyOf(events, want)
  {
  }

  // ----- the atomic sections -----

  /** The scan of `rt_event_send`: who stays, and the set and phases it leaves. */
  function Scan(events: bv32, list: seq<Thread>, phase: map<Thread, Phase>): (bv32, seq<Thread>, map<Thread, Phase>)
    decreases |list|
  {
    if list == [] then (events, [], phase)
    else
      match PhaseOf(phase, list[0])
      case Waiting(want, option) =>
        if Satisfied(events, want, option) then
          var granted := Granted(events, want, option);
          Scan(Clear(events, granted, option), list[1..], phase[list[0] := Woken(granted)])
        else
          var (events', rest, phase') := Scan(events, list[1..], phase);
          (events', [list[0]] + rest, phase')
      case _ =>
        var (events', rest, phase') := Scan(events, list[1..], phase);
        (events', [list[0]] + rest, phase')
  }

  function Send(s: State, bits: bv32): (State, Result) {
    if bits == 0 then (s, Error(Empty))
    else
      var (events, waiters, phase) := Scan(Union(s.events, bits), s.waiters, s.phase);
      (State(events, waiters, phase), Done)
  }

  function Recv(s: State, t: Thread, want: bv32, option: bv8, timeout: int, flag: Flag, prio: Priorities): (State, Result) {
    if want == 0 then (s, Error(Empty))
    else if Satisfied(s.events, want, option) then (s.(events := Clear(s.events, want, option)), Got(s.events & want))
    else if timeout == 0 then (s, Error(Timeout))
    else (s.(waiters := Suspend(s.waiters, t, flag, prio), phase := s.phase[t := Waiting(want, option)]), Blocked)
  }

  /** A suspended receiver runs again. */
  function Rerun(s: State, t: Thread): (State, Result) {
    match PhaseOf(s.phase, t)
    case Woken(received) => (s.(phase := s.phase[t := Idle]), Got(received))
    case Failed(error) => (s.(phase := s.phase[t := Idle]), Error(error))
    case _ => (s, Blocked)
  }

  function Expire(s: State, t: Thread): State {
    s.(waiters := Without(s.waiters, t), phase := s.phase[t := Failed(Timeout)])
  }

  function ResetAll(s: State): State { State(0, [], FailAll(s.phase, s.waiters, Failed(Reset))) }

  // ----- a send is every waiter trying to receive once -----

  /** Waiter `t` tries an immediate `rt_event_recv`; when that fails it keeps waiting. */
  function Retry(s: State, t: Thread): State {
    match PhaseOf(s.phase, t)
    case Waiting(want, option) =>
      var (s1, r) := Recv(s, t, want, option, 0, Fifo, map[]);
      if r.Got? then s1.(waiters := Without(s1.waiters, t), phase := s1.phase[t := Woken(r.received)]) else s1
    case _ => s
  }

  /** Every waiter in turn tries once. */
  function RetryAll(s: State, list: seq<Thread>): State
    decreases |list|
  {
    if list == [] then s else RetryAll(Retry(s, list[0]), list[1..])
  }

  /** The waiters of this state are threads that wait, each for something. */
  ghost predicate ListOk(s: State) {
    && NoDuplicates(s.waiters)
    && (forall t :: t in s.waiters <==> PhaseOf(s.phase, t).Waiting?)
    && (forall t :: t in s.waiters ==> PhaseOf(s.phase, t).want != 0)
  }

  /** `rt_event_send` hands out exactly what the waiters would have received themselves. */
  lemma SendIsRetryAll(s: State, bits: bv32)
    requires ListOk(s) && bits != 0
    ensures Send(s, bits).0 == RetryAll(s.(events := Union(s.events, bits)), s.waiters)
  {
    hide Scan; hide RetryAll; hide Union; hide NoDuplicates;
    ScanIsRetry(s.(events := Union(s.events, bits)), [], s.waiters);
    assert forall rest: seq<Thread> :: [] + rest == rest;
  }

  /** The scan past the threads `kept`, which keep waiting. */
  lemma {:induction false} ScanIsRetry(s: State, kept: seq<Thread>, list: seq<Thread>)
    requires s.waiters == kept + list && NoDuplicates(s.waiters)
    requires forall t :: t in list ==> PhaseOf(s.phase, t).Waiting? && PhaseOf(s.phase, t).want != 0
    ensures var (events, rest, phase) := Scan(s.events, list, s.phase);
            RetryAll(s, list) == State(events, kept + rest, phase)
    decreases |list|
  {
    hide Satisfied; hide Granted; hide Clear; hide Without; hide Retry; hide NoDuplicates;
    if list == [] {
      assert kept + [] == kept;
    } else {
      var t, rest := list[0], list[1..];
      var (want, option) := (PhaseOf(s.phase, t).want, PhaseOf(s.phase, t).option);
      NoTwice(s.waiters, kept, list);
      RetryIs(s, kept, list);
      if Satisfied(s.events, want, option) {
        ScanIsRetry(Retry(s, t), kept, rest);
      } else {
        assert kept + list == (kept + [t]) + rest;
        ScanIsRetry(s, kept + [t], rest);
        var stay := Scan(s.events, rest, s.phase).1;
        assert (kept + [t]) + stay == kept + ([t] + stay);
      }
    }
  }

  /** One waiter's turn, as the scan takes it. */
  lemma RetryIs(s: State, kept: seq<Thread>, list: seq<Thread>)
    requires s.waiters == kept + list && NoDuplicates(s.waiters) && list != []
    requires PhaseOf(s.phase, list[0]).Waiting? && PhaseOf(s.phase, list[0]).want != 0
    ensures var t, p := list[0], PhaseOf(s.phase, list[0]);
            if Satisfied(s.events, p.want, p.option) then
              var granted := Granted(s.events, p.want, p.option);
              && Retry(s, t) == State(Clear(s.events, granted, p.option), kept + list[1..], s.phase[t := Woken(granted)])
              && NoDuplicates(kept + list[1..])
            else Retry(s, t) == s
  {
    hide Satisfied; hide Granted; hide Clear; hide Without; hide NoDuplicates;
    var p := PhaseOf(s.phase, list[0]);
    WithoutMiddle(kept, list);
    if Satisfied(s.events, p.want, p.option) { GrantIsReceive(s.events, p.want, p.option); }
  }

  lemma NoTwice(all: seq<Thread>, kept: seq<Thread>, list: seq<Thread>)
    requires all == kept + list && NoDuplicates(all) && list != []
    ensures forall x :: x in list[1..] ==> x in list && x != list[0]
  {
    forall i | 0 < i < |list| ensures list[i] != list[0] { assert all[|kept| + i] == list[i] && all[|kept|] == list[0]; }
  }

  lemma WithoutMiddle(kept: seq<Thread>, list: seq<Thread>)
    requires NoDuplicates(kept + list) && list != []
    ensures Without(kept + list, list[0]) == kept + list[1..] && NoDuplicates(kept + list[1..])
  {
    var all, w := kept + list, kept + list[1..];
    var k := Position(all, list[0]);
    assert all[|kept|] == list[0];
    assert k == |kept|;
    assert all[..k] + all[k + 1..] == w;
    WithoutIs(all, list[0]);
  }

  // ----- what every run keeps -----

  /** No suspended thread's condition holds. */
  ghost predicate NoneSatisfied(s: State) {
    forall t :: t in s.waiters && PhaseOf(s.phase, t).Waiting? ==>
      !Satisfied(s.events, PhaseOf(s.phase, t).want, PhaseOf(s.phase, t).option)
  }

  ghost predicate Valid(s: State) { ListOk(s) && NoneSatisfied(s) }

  lemma {:induction false} ScanKeeps(events: bv32, list: seq<Thread>, phase: map<Thread, Phase>)
    requires NoDuplicates(list) && forall t :: t in list ==> PhaseOf(phase, t).Waiting?
    ensures var (events', rest, phase') := Scan(events, list, phase);
            && NoDuplicates(rest)
            && (forall t :: t in rest ==> t in list)
            && (forall t :: t in rest || t !in list ==> PhaseOf(phase', t) == PhaseOf(phase, t))
            && (forall t :: t in list && t !in rest ==> PhaseOf(phase', t).Woken?)
            && (forall t :: t in rest ==> !Satisfied(events', PhaseOf(phase, t).want, PhaseOf(phase, t).option))
            && forall want, option :: !Satisfied(events, want, option) ==> !Satisfied(events', want, option)
    decreases |list|
  {
    hide Satisfied; hide Granted; hide Clear;
    if list != [] {
      PopFront(list);
      var t := list[0];
      var (want, option) := (PhaseOf(phase, t).want, PhaseOf(phase, t).option);
      if Satisfied(events, want, option) {
        var granted := Granted(events, want, option);
        forall w, o | !Satisfied(events, w, o) ensures !Satisfied(Clear(events, granted, option), w, o) {
          ClearSatisfiesNone(events, granted, option, w, o);
        }
        ScanKeeps(Clear(events, granted, option), list[1..], phase[t := Woken(granted)]);
      } else {
        ScanKeeps(events, list[1..], phase);
        PushFront(t, Scan(events, list[1..], phase).1);
      }
    }
  }

  lemma SendKeeps(s: State, bits: bv32)
    requires Valid(s)
    ensures Valid(Send(s, bits).0)
  {
    hide Satisfied; hide NoDuplicates;
    if bits != 0 { ScanKeeps(Union(s.events, bits), s.waiters, s.phase); }
  }

  lemma RecvKeeps(s: State, t: Thread, want: bv32, option: bv8, timeout: int, flag: Flag, prio: Priorities)
    requires Valid(s) && PhaseOf(s.phase, t).Idle?
    ensures Valid(Recv(s, t, want, option, timeout, flag, prio).0)
  {
    hide Satisfied; hide Clear; hide NoDuplicates;
    if want != 0 {
      if Satisfied(s.events, want, option) {
        forall u | u in s.waiters ensures !Satisfied(Clear(s.events, want, option), PhaseOf(s.phase, u).want, PhaseOf(s.phase, u).option) {
          ClearSatisfiesNone(s.events, want, option, PhaseOf(s.phase, u).want, PhaseOf(s.phase, u).option);
        }
      } else {
        SuspendIs(s.waiters, t, flag, prio);
      }
    }
  }

  /** Only these threads change what they do. */
  ghost predicate OthersSame(s: State, s': State, t: Thread) {
    forall u :: u != t ==> PhaseOf(s'.phase, u) == PhaseOf(s.phase, u)
  }

  /** When a receive answers: never for no bits; at once with the bits that are set if its condition holds; otherwise a
      thread without a timeout is refused and nothing changes, and any other one waits for just that. */
  lemma RecvIs(s: State, t: Thread, want: bv32, option: bv8, timeout: int, flag: Flag, prio: Priorities)
    requires Valid(s) && PhaseOf(s.phase, t).Idle?
    ensures var (s', r) := Recv(s, t, want, option, timeout, flag, prio);
            if want == 0 then r == Error(Empty) && s' == s
            else if Satisfied(s.events, want, option) then
              && r == Got(s.events & want) && s'.waiters == s.waiters && s'.phase == s.phase
              && s'.events == if option & 0x04 == 0 then s.events else Minus(s.events, want)
            else if timeout == 0 then r == Error(Timeout) && s' == s
            else
              && r == Blocked && s'.events == s.events && PhaseOf(s'.phase, t) == Waiting(want, option)
              && (forall u :: u in s'.waiters <==> u in s.waiters || u == t) && OthersSame(s, s', t)
  {
    hide Satisfied; hide Minus; hide Suspend; hide NoDuplicates; hide NoneSatisfied;
    SuspendIs(s.waiters, t, flag, prio);
    ClearIs(s.events, want, option);
  }

  /** A thread that was woken answers with the set it was granted, and one that failed with its error. */
  lemma RerunIs(s: State, t: Thread)
    requires Enabled(s, RerunStep(t))
    ensures var (s', r) := Rerun(s, t);
            && s'.events == s.events && s'.waiters == s.waiters && PhaseOf(s'.phase, t).Idle? && OthersSame(s, s', t)
            && r == if PhaseOf(s.phase, t).Woken? then Got(PhaseOf(s.phase, t).received) else Error(PhaseOf(s.phase, t).error)
  {
    hide Has;
  }

  /** A send of no bits is refused and changes nothing. */
  lemma SendNothing(s: State)
    ensures Send(s, 0) == (s, Error(Empty)) && forall bits :: bits != 0 ==> Send(s, bits).1 == Done
  {
    hide Scan; hide Union;
  }

  /** A thread that times out leaves the list with an error, and nobody else does. */
  lemma ExpireIs(s: State, t: Thread)
    requires Valid(s) && t in s.waiters
    ensures var s' := Expire(s, t);
            && s'.events == s.events && PhaseOf(s'.phase, t) == Failed(Timeout) && OthersSame(s, s', t)
            && forall u :: u in s'.waiters <==> u in s.waiters && u != t
  {
    hide NoneSatisfied; hide Without; hide NoDuplicates;
    WithoutIs(s.waiters, t);
  }

  lemma ExpireKeeps(s: State, t: Thread)
    requires Valid(s) && t in s.waiters
    ensures Valid(Expire(s, t))
  {
    hide Satisfied; hide NoDuplicates; hide Without;
    WithoutIs(s.waiters, t);
  }

  lemma ResetKeeps(s: State)
    requires Valid(s)
    ensures Valid(ResetAll(s))
    ensures var s' := ResetAll(s);
            && s'.events == 0 && s'.waiters == []
            && forall t :: PhaseOf(s'.phase, t) == if t in s.waiters then Failed(Reset) else PhaseOf(s.phase, t)
  {
    FailAllIs(s.phase, s.waiters, Failed(Reset));
    forall t ensures !PhaseOf(ResetAll(s).phase, t).Waiting? {
      assert t in s.waiters <==> PhaseOf(s.phase, t).Waiting?;
    }
  }

  datatype Step =
    | SendStep(bits: bv32)
    | RecvStep(t: Thread, want: bv32, option: bv8, timeout: int, prio: Priorities)
    | RerunStep(t: Thread)
    | ExpireStep(t: Thread)
    | ResetStep

  ghost predicate Enabled(s: State, step: Step) {
    match step
    case SendStep(_) => true
    case RecvStep(t, _, option, _, _) => PhaseOf(s.phase, t).Idle? && (Has(option, AND) || Has(option, OR))
    case RerunStep(t) => PhaseOf(s.phase, t).Woken? || PhaseOf(s.phase, t).Failed?
    case ExpireStep(t) => t in s.waiters
    case ResetStep => true
  }

  function Next(s: State, step: Step, flag: Flag): (State, Result) {
    match step
    case SendStep(bits) => Send(s, bits)
    case RecvStep(t, want, option, timeout, prio) => Recv(s, t, want, option, timeout, flag, prio)
    case RerunStep(t) => Rerun(s, t)
    case ExpireStep(t) => (Expire(s, t), Done)
    case ResetStep => (ResetAll(s), Done)
  }

  lemma StepKeeps(s: State, step: Step, flag: Flag)
    requires Valid(s) && Enabled(s, step)
    ensures Valid(Next(s, step, flag).0)
  {
    hide Satisfied; hide Send; hide Recv; hide Expire; hide ResetAll; hide Has;
    match step
    case SendStep(bits) => SendKeeps(s, bits);
    case RecvStep(t, want, option, timeout, prio) => RecvKeeps(s, t, want, option, timeout, flag, prio);
    case RerunStep(t) =>
    case ExpireStep(t) => ExpireKeeps(s, t);
    case ResetStep => ResetKeeps(s);
  }

  ghost predicate Reaches(s: State, steps: seq<Step>, flag: Flag, s': State)
    decreases |steps|
  {
    if steps == [] then s' == s
    else Enabled(s, steps[0]) && Reaches(Next(s, steps[0], flag).0, steps[1..], flag, s')
  }

  /** In every run no suspended thread's AND or OR condition is satisfied by the current set. */
  lemma {:induction false} RunKeeps(s: State, steps: seq<Step>, flag: Flag, s': State)
    requires Valid(s) && Reaches(s, steps, flag, s')
    ensures Valid(s')
    decreases |steps|
  {
    hide Valid; hide Next; hide Enabled;
    if steps != [] {
      StepKeeps(s, steps[0], flag);
      RunKeeps(Next(s, steps[0], flag).0, steps[1..], flag, s');
    }
  }

  lemma InitValid()
    ensures Valid(State(0, [], map[]))
  {
  }

  // ----- in place -----

  /** The outcome of the scan when the first `n` threads of `list` stay and it goes on from there. */
  function ScanFrom(events: bv32, list: seq<Thread>, n: nat, phase: map<Thread, Phase>): (bv32, seq<Thread>, map<Thread, Phase>)
    requires n <= |list|
  {
    var r := Scan(events, list[n..], phase);
    (r.0, list[..n] + r.1, r.2)
  }

  lemma ScanFromEnds(events: bv32, list: seq<Thread>, phase: map<Thread, Phase>)
    ensures ScanFrom(events, list, 0, phase) == Scan(events, list, phase)
    ensures ScanFrom(events, list, |list|, phase) == (events, list, phase)
  {
    assert list[0..] == list && list[|list|..] == [] && list[..|list|] + [] == list;
    assert list[..0] + Scan(events, list, phase).1 == Scan(events, list, phase).1;
  }

  lemma ScanFromIs(events: bv32, list: seq<Thread>, n: nat, phase: map<Thread, Phase>)
    requires n < |list|
    ensures ScanFrom(events, list, n, phase) == ScanTurn(events, list, n, phase)
  {
    hide Satisfied; hide Granted; hide Clear;
    var tail, rest := list[n..], list[n + 1..];
    var shorter := list[..n] + rest;
    assert tail[0] == list[n] && tail[1..] == rest && shorter[n..] == rest && shorter[..n] == list[..n];
    var stay := Scan(events, rest, phase).1;
    assert list[..n] + ([list[n]] + stay) == list[..n + 1] + stay;
  }

  /** One turn of the scan. */
  function ScanTurn(events: bv32, list: seq<Thread>, n: nat, phase: map<Thread, Phase>): (bv32, seq<Thread>, map<Thread, Phase>)
    requires n < |list|
  {
    var p := PhaseOf(phase, list[n]);
    if p.Waiting? && Satisfied(events, p.want, p.option) then
      var granted := Granted(events, p.want, p.option);
      ScanFrom(Clear(events, granted, p.option), list[..n] + list[n + 1..], n, phase[list[n] := Woken(granted)])
    else ScanFrom(events, list, n + 1, phase)
  }

  class EventObject {
    const flag: Flag
    var events: bv32
    var suspendThread: seq<Thread>
    /** `event_set`, `event_info` and `error` of each thread. */
    var phase: map<Thread, Phase>

    ghost function S(): State
      reads this
    {
      State(events, suspendThread, phase)
    }

    constructor (flag: Flag)
      ensures Valid(S()) && S() == State(0, [], map[])
    {
      this.flag := flag;
      events, suspendThread, phase := 0, [], map[];
    }

    /** `rt_event_send`. */
    method EventSend(bits: bv32) returns (r: Result)
      requires Valid(S())
      modifies this
      ensures Valid(S()) && (S(), r) == Send(old(S()), bits)
    {
      hide Satisfied; hide Granted; hide Clear; hide Union; hide Valid; hide Scan; hide ScanFrom;
      SendKeeps(S(), bits);
      if bits == 0 { return Error(Empty); }
      events := Union(events, bits);
      var n := 0;
      ghost var goal := Scan(events, suspendThread, phase);
      ScanFromEnds(events, suspendThread, phase);
      while n < |suspendThread|
        invariant n <= |suspendThread| && ScanFrom(events, suspendThread, n, phase) == goal
        decreases |suspendThread| - n
      {
        ScanFromIs(events, suspendThread, n, phase);
        var t := suspendThread[n];
        var p := if t in phase then phase[t] else Idle;
        if p.Waiting? && Satisfied(events, p.want, p.option) {
          var granted := Granted(events, p.want, p.option);
          phase := phase[t := Woken(granted)];
          events := Clear(events, granted, p.option);
          suspendThread := suspendThread[..n] + suspendThread[n + 1..];
        } else {
          n := n + 1;
        }
      }
      ScanFromEnds(events, suspendThread, phase);
      return Done;
    }

    /** `rt_event_recv` up to its first section's end. */
    method EventRecv(t: Thread, want: bv32, option: bv8, timeout: int, prio: Priorities) returns (r: Result)
      requires Valid(S()) && PhaseOf(phase, t).Idle?
      modifies this
      ensures Valid(S()) && (S(), r) == Recv(old(S()), t, want, option, timeout, flag, prio)
    {
      hide Valid; hide Clear; hide Satisfied; hide Suspend;
      RecvKeeps(S(), t, want, option, timeout, flag, prio);
      if want == 0 { return Error(Empty); }
      if Satisfied(events, want, option) {
        r := Got(events & want);
        events := Clear(events, want, option);
      } else if timeout == 0 {
        r := Error(Timeout);
      } else {
        phase := phase[t := Waiting(want, option)];
        suspendThread := SuspendOn(suspendThread, t, flag, prio);
        r := Blocked;
      }
    }

    /** `rt_thread_timeout` on a thread that waits here. */
    method TimeOut(t: Thread)
      requires Valid(S()) && t in suspendThread
      modifies this
      ensures Valid(S()) && S() == Expire(old(S()), t)
    {
      ExpireKeeps(S(), t);
      suspendThread := Without(suspendThread, t);
      phase := phase[t := Failed(Timeout)];
    }

    /** `rt_event_control` with RT_IPC_CMD_RESET. */
    method Control()
      requires Valid(S())
      modifies this
      ensures Valid(S()) && S() == ResetAll(old(S()))
    {
      hide Valid;
      ResetKeeps(S());
      while suspendThread != []
        invariant FailAll(phase, suspendThread, Failed(Reset)) == FailAll(old(phase), old(suspendThread), Failed(Reset))
        decreases |suspendThread|
      {
        phase := phase[suspendThread[0] := Failed(Reset)];
        suspendThread := suspendThread[1..];
      }
      events := 0;
    }
  }
}
