/** The mailbox of src/ipc.c as a step system: each section with interrupts disabled is one step, and
    threads interleave between them. */
module Mailbox {
  import opened Lists
  import opened Waiting

  type Thread = nat

  /** What a thread is doing with the mailbox.  A woken thread is ready but has not looked again yet;
      a failed one is ready with `error` set by a timeout or a reset. */
  datatype Phase =
    | Idle
    | WaitRecv(timeout: int)
    | WokenRecv(timeout: int)
    | WaitSend(value: int, timeout: int)
    | WokenSend(value: int, timeout: int)
    | Failed(error: Error)

  datatype Error = Timeout | Full | Reset

  datatype Result = Done | Got(value: int) | Blocked | Error(error: Error)

  datatype State = State(size: nat, pool: seq<int>, entry: nat, inOffset: nat, outOffset: nat,
                         receivers: seq<Thread>, senders: seq<Thread>, phase: map<Thread, Phase>)

  // ----- the ring buffer -----

  /** An offset `n` places on, for `n` at most one turn. */
  function Wrap(offset: nat, size: nat): nat { if offset >= size then offset - size else offset }

  ghost predicate RingOk(s: State) {
    && |s.pool| == s.size && s.entry <= s.size
    && (s.size > 0 ==> s.outOffset < s.size && s.inOffset == Wrap(s.outOffset + s.entry, s.size))
  }

  /** The mails in the order they will be received. */
  ghost function Contents(s: State): seq<int>
    requires RingOk(s)
  {
    seq(s.entry, i requires 0 <= i < s.entry => s.pool[Wrap(s.outOffset + i, s.size)])
  }

  function Put(s: State, value: int): State
    requires s.inOffset < |s.pool|
  {
    s.(pool := s.pool[s.inOffset := value], inOffset := if s.inOffset + 1 >= s.size then 0 else s.inOffset + 1,
       entry := s.entry + 1)
  }

  function Take(s: State): State
    requires s.entry > 0
  {
    s.(outOffset := if s.outOffset + 1 >= s.size then 0 else s.outOffset + 1, entry := s.entry - 1)
  }

  /** The ring buffer is a bounded queue: a mail goes in at the end ... */
  lemma PutIsEnqueue(s: State, value: int)
    requires RingOk(s) && s.entry < s.size
    ensures s.inOffset < |s.pool| && RingOk(Put(s, value)) && Contents(Put(s, value)) == Contents(s) + [value]
  {
    var s' := Put(s, value);
    var before, after := Contents(s) + [value], Contents(s');
    forall i | 0 <= i <= s.entry ensures after[i] == before[i] {
      assert after[i] == s'.pool[Wrap(s'.outOffset + i, s'.size)];
      assert i < s.entry ==> before[i] == s.pool[Wrap(s.outOffset + i, s.size)];
    }
  }

  /** ... and comes out at the front. */
  lemma TakeIsDequeue(s: State)
    requires RingOk(s) && s.entry > 0
    ensures s.outOffset < |s.pool| && RingOk(Take(s)) && Contents(s) == [s.pool[s.outOffset]] + Contents(Take(s))
  {
    var s' := Take(s);
    var before, after := Contents(s), [s.pool[s.outOffset]] + Contents(s');
    forall i | 0 <= i < s.entry ensures after[i] == before[i] {
      assert before[i] == s.pool[Wrap(s.outOffset + i, s.size)];
      assert i > 0 ==> after[i] == s'.pool[Wrap(s'.outOffset + (i - 1), s'.size)];
    }
  }

  // ----- the atomic sections -----

  function PhaseOf(s: State, t: Thread): Phase { if t in s.phase then s.phase[t] else Idle }

  /** The first suspended receiver, or sender, becomes ready. */
  function WakeReceiver(s: State): State {
    if s.receivers == [] then s
    else
      var t := s.receivers[0];
      s.(receivers := s.receivers[1..],
         phase := s.phase[t := match PhaseOf(s, t) case WaitRecv(timeout) => WokenRecv(timeout) case p => p])
  }

  function WakeSender(s: State): State {
    if s.senders == [] then s
    else
      var t := s.senders[0];
      s.(senders := s.senders[1..],
         phase := s.phase[t := match PhaseOf(s, t) case WaitSend(value, timeout) => WokenSend(value, timeout) case p => p])
  }

  /** One pass of `rt_mb_send_wait`: send, give up, or suspend. */
  function Send(s: State, t: Thread, value: int, timeout: int, flag: Flag, prio: Priorities): (State, Result)
    requires s.entry != s.size ==> s.inOffset < |s.pool|
  {
    if s.entry == s.size then
      if timeout == 0 then (s.(phase := s.phase[t := Idle]), Error(Full))
      else (s.(senders := Suspend(s.senders, t, flag, prio), phase := s.phase[t := WaitSend(value, timeout)]), Blocked)
    else (WakeReceiver(Put(s, value).(phase := s.phase[t := Idle])), Done)
  }

  /** One pass of `rt_mb_recv`. */
  function Recv(s: State, t: Thread, timeout: int, flag: Flag, prio: Priorities): (State, Result)
    requires s.entry > 0 ==> s.outOffset < |s.pool|
  {
    if s.entry == 0 then
      if timeout == 0 then (s.(phase := s.phase[t := Idle]), Error(Timeout))
      else (s.(receivers := Suspend(s.receivers, t, flag, prio), phase := s.phase[t := WaitRecv(timeout)]), Blocked)
    else (WakeSender(Take(s).(phase := s.phase[t := Idle])), Got(s.pool[s.outOffset]))
  }

  /** A thread that was suspended runs again: it reports its error, or looks again. */
  function Rerun(s: State, t: Thread, elapsed: nat, flag: Flag, prio: Priorities): (State, Result)
    requires (s.entry != s.size ==> s.inOffset < |s.pool|) && (s.entry > 0 ==> s.outOffset < |s.pool|)
  {
    match PhaseOf(s, t)
    case WokenRecv(timeout) => Recv(s, t, Remaining(timeout, elapsed), flag, prio)
    case WokenSend(value, timeout) => Send(s, t, value, Remaining(timeout, elapsed), flag, prio)
    case Failed(error) => (s.(phase := s.phase[t := Idle]), Error(error))
    case _ => (s, Blocked)
  }

  /** `rt_thread_timeout` on a suspended thread. */
  function Expire(s: State, t: Thread): State {
    s.(receivers := Without(s.receivers, t), senders := Without(s.senders, t), phase := s.phase[t := Failed(Timeout)])
  }

  /** `rt_mb_control` with RT_IPC_CMD_RESET. */
  function ResetAll(s: State): State {
    s.(receivers := [], senders := [], phase := FailAll(FailAll(s.phase, s.receivers, Failed(Reset)), s.senders, Failed(Reset)),
       entry := 0, inOffset := 0, outOffset := 0)
  }

  // ----- steps -----

  datatype Step =
    | SendStep(t: Thread, value: int, timeout: int, prio: Priorities)
    | RecvStep(t: Thread, timeout: int, prio: Priorities)
    | RerunStep(t: Thread, elapsed: nat, prio: Priorities)
    | ExpireStep(t: Thread)
    | ResetStep

  ghost predicate Enabled(s: State, step: Step) {
    match step
    case SendStep(t, _, _, _) => PhaseOf(s, t).Idle?
    case RecvStep(t, _, _) => PhaseOf(s, t).Idle?
    case RerunStep(t, _, _) => PhaseOf(s, t).WokenRecv? || PhaseOf(s, t).WokenSend? || PhaseOf(s, t).Failed?
    case ExpireStep(t) => t in s.receivers || t in s.senders
    case ResetStep => true
  }

  function Next(s: State, step: Step, flag: Flag): (State, Result)
    requires (s.entry != s.size ==> s.inOffset < |s.pool|) && (s.entry > 0 ==> s.outOffset < |s.pool|)
  {
    match step
    case SendStep(t, value, timeout, prio) => Send(s, t, value, timeout, flag, prio)
    case RecvStep(t, timeout, prio) => Recv(s, t, timeout, flag, prio)
    case RerunStep(t, elapsed, prio) => Rerun(s, t, elapsed, flag, prio)
    case ExpireStep(t) => (Expire(s, t), Done)
    case ResetStep => (ResetAll(s), Done)
  }

  // ----- what every interleaving keeps -----

  ghost function WokenReceivers(phase: map<Thread, Phase>): set<Thread> {
    set t | t in phase && phase[t].WokenRecv?
  }

  ghost function WokenSenders(phase: map<Thread, Phase>): set<Thread> {
    set t | t in phase && phase[t].WokenSend?
  }

  /** The wait lists hold exactly the threads that wait. */
  ghost predicate ListsOk(s: State) {
    && NoDuplicates(s.receivers) && NoDuplicates(s.senders)
    && (forall t :: t in s.receivers <==> PhaseOf(s, t).WaitRecv?)
    && (forall t :: t in s.senders <==> PhaseOf(s, t).WaitSend?)
  }

  /** While receivers wait, every mail is covered by a receiver on its way to it; while senders wait,
      so is every free place by a sender. */
  ghost predicate NoLostWakeup(s: State) {
    && (s.receivers != [] ==> s.entry <= |WokenReceivers(s.phase)|)
    && (s.senders != [] ==> s.size - s.entry <= |WokenSenders(s.phase)|)
  }

  ghost predicate Valid(s: State) { RingOk(s) && ListsOk(s) && NoLostWakeup(s) }

  function Init(size: nat): State { State(size, seq(size, _ => 0), 0, 0, 0, [], [], map[]) }

  /** Changing one thread's phase changes the counts by that thread. */
  lemma Recount(phase: map<Thread, Phase>, t: Thread, p: Phase)
    ensures var was := if t in phase then phase[t] else Idle;
            && |WokenReceivers(phase[t := p])| == |WokenReceivers(phase)| - Count(was.WokenRecv?) + Count(p.WokenRecv?)
            && |WokenSenders(phase[t := p])| == |WokenSenders(phase)| - Count(was.WokenSend?) + Count(p.WokenSend?)
  {
    OneElement(WokenReceivers(phase), WokenReceivers(phase[t := p]), t);
    OneElement(WokenSenders(phase), WokenSenders(phase[t := p]), t);
  }

  /** A thread that is not waiting changes to a phase that is not waiting. */
  lemma ListsFrame(s: State, s': State, t: Thread)
    requires ListsOk(s) && s'.receivers == s.receivers && s'.senders == s.senders
    requires !PhaseOf(s, t).WaitRecv? && !PhaseOf(s, t).WaitSend? && !PhaseOf(s', t).WaitRecv? && !PhaseOf(s', t).WaitSend?
    requires forall x :: x != t ==> PhaseOf(s', x) == PhaseOf(s, x)
    ensures ListsOk(s')
  {
  }

  lemma WakeReceiverKeeps(s: State)
    requires ListsOk(s)
    ensures ListsOk(WakeReceiver(s))
    ensures var s', n := WakeReceiver(s), |WokenReceivers(s.phase)|;
            && s' == s.(receivers := s'.receivers, phase := s'.phase) && (s.receivers == [] ==> s'.receivers == [])
            && |WokenReceivers(s'.phase)| == n + Count(s.receivers != [])
            && |WokenSenders(s'.phase)| == |WokenSenders(s.phase)|
  {
    if s.receivers != [] {
      var t := s.receivers[0];
      PopFront(s.receivers);
      Recount(s.phase, t, WokenRecv(PhaseOf(s, t).timeout));
      forall x ensures x in s.receivers[1..] <==> PhaseOf(WakeReceiver(s), x).WaitRecv? { }
    }
  }

  lemma WakeSenderKeeps(s: State)
    requires ListsOk(s)
    ensures ListsOk(WakeSender(s))
    ensures var s', n := WakeSender(s), |WokenSenders(s.phase)|;
            && s' == s.(senders := s'.senders, phase := s'.phase) && (s.senders == [] ==> s'.senders == [])
            && |WokenSenders(s'.phase)| == n + Count(s.senders != [])
            && |WokenReceivers(s'.phase)| == |WokenReceivers(s.phase)|
  {
    if s.senders != [] {
      var t := s.senders[0];
      PopFront(s.senders);
      Recount(s.phase, t, WokenSend(PhaseOf(s, t).value, PhaseOf(s, t).timeout));
      forall x ensures x in s.senders[1..] <==> PhaseOf(WakeSender(s), x).WaitSend? { }
    }
  }

  /** A thread that does not wait joins one of the lists. */
  lemma ReceiverWaits(s: State, t: Thread, timeout: int, flag: Flag, prio: Priorities)
    requires ListsOk(s) && !PhaseOf(s, t).WaitRecv? && !PhaseOf(s, t).WaitSend?
    ensures ListsOk(s.(receivers := Suspend(s.receivers, t, flag, prio), phase := s.phase[t := WaitRecv(timeout)]))
  {
    hide NoDuplicates; hide Suspend;
    assert t !in s.receivers;
    SuspendIs(s.receivers, t, flag, prio);
  }

  lemma SenderWaits(s: State, t: Thread, value: int, timeout: int, flag: Flag, prio: Priorities)
    requires ListsOk(s) && !PhaseOf(s, t).WaitRecv? && !PhaseOf(s, t).WaitSend?
    ensures ListsOk(s.(senders := Suspend(s.senders, t, flag, prio), phase := s.phase[t := WaitSend(value, timeout)]))
  {
    hide NoDuplicates; hide Suspend;
    assert t !in s.senders;
    SuspendIs(s.senders, t, flag, prio);
  }

  /** A pass over the mailbox by a thread that does not wait: `t` is idle, or woken for this purpose. */
  lemma SendKeeps(s: State, t: Thread, value: int, timeout: int, flag: Flag, prio: Priorities)
    requires Valid(s) && (PhaseOf(s, t).Idle? || PhaseOf(s, t).WokenSend?)
    ensures Valid(Send(s, t, value, timeout, flag, prio).0)
  {
    hide ListsOk; hide WokenReceivers; hide WokenSenders; hide WakeReceiver; hide Suspend;
    if s.entry == s.size {
      if timeout == 0 {
        Recount(s.phase, t, Idle);
        ListsFrame(s, s.(phase := s.phase[t := Idle]), t);
      } else {
        Recount(s.phase, t, WaitSend(value, timeout));
        SenderWaits(s, t, value, timeout, flag, prio);
      }
    } else {
      PutIsEnqueue(s, value);
      Recount(s.phase, t, Idle);
      var s1 := Put(s, value).(phase := s.phase[t := Idle]);
      ListsFrame(s, s1, t);
      WakeReceiverKeeps(s1);
    }
  }

  lemma RecvKeeps(s: State, t: Thread, timeout: int, flag: Flag, prio: Priorities)
    requires Valid(s) && (PhaseOf(s, t).Idle? || PhaseOf(s, t).WokenRecv?)
    ensures Valid(Recv(s, t, timeout, flag, prio).0)
  {
    hide ListsOk; hide WokenReceivers; hide WokenSenders; hide WakeSender; hide Suspend;
    if s.entry == 0 {
      if timeout == 0 {
        Recount(s.phase, t, Idle);
        ListsFrame(s, s.(phase := s.phase[t := Idle]), t);
      } else {
        Recount(s.phase, t, WaitRecv(timeout));
        ReceiverWaits(s, t, timeout, flag, prio);
      }
    } else {
      TakeIsDequeue(s);
      Recount(s.phase, t, Idle);
      var s1 := Take(s).(phase := s.phase[t := Idle]);
      ListsFrame(s, s1, t);
      WakeSenderKeeps(s1);
    }
  }

  /** Only these threads change what they do. */
  ghost predicate OthersSame(s: State, s': State, ts: set<Thread>) {
    forall u :: u !in ts ==> PhaseOf(s', u) == PhaseOf(s, u)
  }

  /** When a pass of a send answers: a mailbox that is not full takes the mail and wakes the first receiver that
      waits; a full one refuses a sender without a timeout, and any other one waits. */
  lemma SendIs(s: State, t: Thread, value: int, timeout: int, flag: Flag, prio: Priorities)
    requires Valid(s) && (PhaseOf(s, t).Idle? || PhaseOf(s, t).WokenSend?)
    ensures s.entry != s.size ==> s.inOffset < |s.pool|
    ensures var (s', r) := Send(s, t, value, timeout, flag, prio);
            RingOk(s') &&
            if s.entry < s.size then
              && r == Done && Contents(s') == Contents(s) + [value] && PhaseOf(s', t).Idle? && s'.senders == s.senders
              && (if s.receivers == [] then s'.receivers == [] && OthersSame(s, s', {t})
                  else
                    var u := s.receivers[0];
                    && s'.receivers == s.receivers[1..] && PhaseOf(s', u) == WokenRecv(PhaseOf(s, u).timeout)
                    && OthersSame(s, s', {t, u}))
            else
              && Contents(s') == Contents(s) && s'.receivers == s.receivers && OthersSame(s, s', {t})
              && (if timeout == 0 then r == Error(Full) && s'.senders == s.senders && PhaseOf(s', t).Idle?
                  else
                    && r == Blocked && PhaseOf(s', t) == WaitSend(value, timeout)
                    && forall u :: u in s'.senders <==> u in s.senders || u == t)
  {
    hide NoLostWakeup; hide Contents; hide Suspend; hide NoDuplicates;
    SendIsFifo(s, t, value, timeout, flag, prio);
    if s.entry == s.size { SuspendIs(s.senders, t, flag, prio); } else if s.receivers != [] { assert s.receivers[0] in s.receivers; }
  }

  /** When a pass of a receive answers: a mail that is there is received, and the first sender that waits is woken; of
      an empty mailbox a receiver without a timeout is refused, and any other one waits. */
  lemma RecvIs(s: State, t: Thread, timeout: int, flag: Flag, prio: Priorities)
    requires Valid(s) && (PhaseOf(s, t).Idle? || PhaseOf(s, t).WokenRecv?)
    ensures s.entry > 0 ==> s.outOffset < |s.pool|
    ensures var (s', r) := Recv(s, t, timeout, flag, prio);
            RingOk(s') &&
            if s.entry > 0 then
              && r.Got? && Contents(s) == [r.value] + Contents(s') && PhaseOf(s', t).Idle? && s'.receivers == s.receivers
              && (if s.senders == [] then s'.senders == [] && OthersSame(s, s', {t})
                  else
                    var u := s.senders[0];
                    && s'.senders == s.senders[1..] && PhaseOf(s', u) == WokenSend(PhaseOf(s, u).value, PhaseOf(s, u).timeout)
                    && OthersSame(s, s', {t, u}))
            else
              && Contents(s') == Contents(s) && s'.senders == s.senders && OthersSame(s, s', {t})
              && (if timeout == 0 then r == Error(Timeout) && s'.receivers == s.receivers && PhaseOf(s', t).Idle?
                  else
                    && r == Blocked && PhaseOf(s', t) == WaitRecv(timeout)
                    && forall u :: u in s'.receivers <==> u in s.receivers || u == t)
  {
    hide NoLostWakeup; hide Contents; hide Suspend; hide NoDuplicates;
    RecvIsFifo(s, t, timeout, flag, prio);
    if s.entry == 0 { SuspendIs(s.receivers, t, flag, prio); } else if s.senders != [] { assert s.senders[0] in s.senders; }
  }

  /** A thread that was woken makes another pass with what is left of its timeout, and one that failed answers with its
      error and is idle. */
  lemma RerunIs(s: State, t: Thread, elapsed: nat, flag: Flag, prio: Priorities)
    requires Valid(s) && Enabled(s, RerunStep(t, elapsed, prio))
    ensures (s.entry != s.size ==> s.inOffset < |s.pool|) && (s.entry > 0 ==> s.outOffset < |s.pool|)
    ensures var (s', r) := Rerun(s, t, elapsed, flag, prio);
            match PhaseOf(s, t)
            case WokenRecv(timeout) =>
              if s.entry > 0 then r.Got? else if Remaining(timeout, elapsed) == 0 then r == Error(Timeout)
              else r == Blocked && PhaseOf(s', t) == WaitRecv(Remaining(timeout, elapsed))
            case WokenSend(value, timeout) =>
              if s.entry < s.size then r == Done && Contents(s') == Contents(s) + [value]
              else if Remaining(timeout, elapsed) == 0 then r == Error(Full)
              else r == Blocked && PhaseOf(s', t) == WaitSend(value, Remaining(timeout, elapsed))
            case _ => r == Error(PhaseOf(s, t).error) && PhaseOf(s', t).Idle? && OthersSame(s, s', {t})
  {
    hide Valid; hide Send; hide Recv; hide Remaining; hide Contents;
    OffsetsIn(s);
    match PhaseOf(s, t)
    case WokenRecv(timeout) => RecvIs(s, t, Remaining(timeout, elapsed), flag, prio);
    case WokenSend(value, timeout) => SendIs(s, t, value, Remaining(timeout, elapsed), flag, prio);
    case _ =>
  }

  /** A thread that times out leaves its list with an error, and nobody else's place changes. */
  lemma ExpireIs(s: State, t: Thread)
    requires Valid(s) && (t in s.receivers || t in s.senders)
    ensures var s' := Expire(s, t);
            && RingOk(s') && Contents(s') == Contents(s) && PhaseOf(s', t) == Failed(Timeout) && OthersSame(s, s', {t})
            && (forall u :: u in s'.receivers <==> u in s.receivers && u != t)
            && (forall u :: u in s'.senders <==> u in s.senders && u != t)
  {
    hide NoLostWakeup; hide Without;
    WithoutIs(s.receivers, t);
    WithoutIs(s.senders, t);
    SameContents(s, Expire(s, t));
  }

  lemma ExpireKeeps(s: State, t: Thread)
    requires Valid(s) && (t in s.receivers || t in s.senders)
    ensures Valid(Expire(s, t))
  {
    hide NoDuplicates; hide WokenReceivers; hide WokenSenders; hide Without;
    WithoutIs(s.receivers, t);
    WithoutIs(s.senders, t);
    Recount(s.phase, t, Failed(Timeout));
  }

  lemma ResetKeeps(s: State)
    requires Valid(s)
    ensures Valid(ResetAll(s)) && Contents(ResetAll(s)) == []
    ensures var s' := ResetAll(s);
            && s'.receivers == [] && s'.senders == []
            && forall t :: PhaseOf(s', t) == if t in s.receivers || t in s.senders then Failed(Reset) else PhaseOf(s, t)
  {
    FailAllIs(s.phase, s.receivers, Failed(Reset));
    FailAllIs(FailAll(s.phase, s.receivers, Failed(Reset)), s.senders, Failed(Reset));
    var s' := ResetAll(s);
    forall t ensures !PhaseOf(s', t).WaitRecv? && !PhaseOf(s', t).WaitSend? {
      assert PhaseOf(s, t).WaitRecv? ==> t in s.receivers;
      assert PhaseOf(s, t).WaitSend? ==> t in s.senders;
    }
  }

  lemma OffsetsIn(s: State)
    requires Valid(s)
    ensures (s.entry != s.size ==> s.inOffset < |s.pool|) && (s.entry > 0 ==> s.outOffset < |s.pool|)
  {
  }

  lemma StepKeeps(s: State, step: Step, flag: Flag)
    requires Valid(s) && Enabled(s, step)
    ensures (s.entry != s.size ==> s.inOffset < |s.pool|) && (s.entry > 0 ==> s.outOffset < |s.pool|)
    ensures Valid(Next(s, step, flag).0)
  {
    OffsetsIn(s);
    match step
    case SendStep(t, value, timeout, prio) => SendKeeps(s, t, value, timeout, flag, prio);
    case RecvStep(t, timeout, prio) => RecvKeeps(s, t, timeout, flag, prio);
    case RerunStep(t, elapsed, prio) =>
      if PhaseOf(s, t).WokenRecv? {
        RecvKeeps(s, t, Remaining(PhaseOf(s, t).timeout, elapsed), flag, prio);
      } else if PhaseOf(s, t).WokenSend? {
        SendKeeps(s, t, PhaseOf(s, t).value, Remaining(PhaseOf(s, t).timeout, elapsed), flag, prio);
      } else {
        Recount(s.phase, t, Idle);
        ListsFrame(s, s.(phase := s.phase[t := Idle]), t);
      }
    case ExpireStep(t) => ExpireKeeps(s, t);
    case ResetStep => ResetKeeps(s);
  }

  // ----- runs -----

  /** `steps` leads from `s` to `s'`, each step enabled where it is taken. */
  ghost predicate Reaches(s: State, steps: seq<Step>, flag: Flag, s': State)
    decreases |steps|
  {
    if steps == [] then s' == s
    else
      && Valid(s) && Enabled(s, steps[0])
      && (StepKeeps(s, steps[0], flag); Reaches(Next(s, steps[0], flag).0, steps[1..], flag, s'))
  }

  lemma {:induction false} RunKeeps(s: State, steps: seq<Step>, flag: Flag, s': State)
    requires Valid(s) && Reaches(s, steps, flag, s')
    ensures Valid(s')
    decreases |steps|
  {
    if steps != [] {
      StepKeeps(s, steps[0], flag);
      RunKeeps(Next(s, steps[0], flag).0, steps[1..], flag, s');
    }
  }

  /** In every interleaving: when no woken thread is still to run, waiting receivers mean an empty
      mailbox and waiting senders a full one. */
  lemma NobodyStranded(size: nat, steps: seq<Step>, flag: Flag, s: State)
    requires Reaches(Init(size), steps, flag, s) && forall t :: !PhaseOf(s, t).WokenRecv? && !PhaseOf(s, t).WokenSend?
    ensures (s.receivers != [] ==> s.entry == 0) && (s.senders != [] ==> s.entry == s.size)
  {
    assert Valid(Init(size)) by {
      assert WokenReceivers(map[]) == {} && WokenSenders(map[]) == {};
    }
    RunKeeps(Init(size), steps, flag, s);
    forall t ensures t !in WokenReceivers(s.phase) && t !in WokenSenders(s.phase) {
      assert !PhaseOf(s, t).WokenRecv? && !PhaseOf(s, t).WokenSend?;
    }
    assert WokenReceivers(s.phase) == {} && WokenSenders(s.phase) == {};
  }

  /** The mail a step puts in, and the mail it hands out. */
  ghost function Sent(s: State, step: Step): seq<int> {
    match step
    case SendStep(_, value, _, _) => if s.entry == s.size then [] else [value]
    case RerunStep(t, _, _) => if PhaseOf(s, t).WokenSend? && s.entry != s.size then [PhaseOf(s, t).value] else []
    case _ => []
  }

  ghost function Received(r: Result): seq<int> { if r.Got? then [r.value] else [] }

  lemma StepIsFifo(s: State, step: Step, flag: Flag)
    requires Valid(s) && Enabled(s, step) && !step.ResetStep?
    ensures (s.entry != s.size ==> s.inOffset < |s.pool|) && (s.entry > 0 ==> s.outOffset < |s.pool|)
    ensures var (s', r) := Next(s, step, flag);
            RingOk(s') && Contents(s) + Sent(s, step) == Received(r) + Contents(s')
  {
    hide Send; hide Recv; hide Contents; hide ListsOk; hide NoLostWakeup; hide Without;
    OffsetsIn(s);
    match step
    case SendStep(t, value, timeout, prio) => SendIsFifo(s, t, value, timeout, flag, prio);
    case RecvStep(t, timeout, prio) => RecvIsFifo(s, t, timeout, flag, prio);
    case RerunStep(t, elapsed, prio) =>
      if PhaseOf(s, t).WokenRecv? {
        RecvIsFifo(s, t, Remaining(PhaseOf(s, t).timeout, elapsed), flag, prio);
      } else if PhaseOf(s, t).WokenSend? {
        SendIsFifo(s, t, PhaseOf(s, t).value, Remaining(PhaseOf(s, t).timeout, elapsed), flag, prio);
      } else {
        SameContents(s, s.(phase := s.phase[t := Idle]));
      }
    case ExpireStep(t) => SameContents(s, Expire(s, t));
  }

  lemma SendIsFifo(s: State, t: Thread, value: int, timeout: int, flag: Flag, prio: Priorities)
    requires Valid(s)
    ensures s.entry != s.size ==> s.inOffset < |s.pool|
    ensures var (s', r) := Send(s, t, value, timeout, flag, prio);
            && RingOk(s') && !r.Got?
            && Contents(s') == Contents(s) + if s.entry == s.size then [] else [value]
  {
    hide ListsOk; hide NoLostWakeup; hide Suspend; hide Contents;
    OffsetsIn(s);
    var s' := Send(s, t, value, timeout, flag, prio).0;
    if s.entry == s.size {
      SameContents(s, s');
    } else {
      PutIsEnqueue(s, value);
      SameContents(Put(s, value), s');
    }
  }

  lemma RecvIsFifo(s: State, t: Thread, timeout: int, flag: Flag, prio: Priorities)
    requires Valid(s)
    ensures s.entry > 0 ==> s.outOffset < |s.pool|
    ensures var (s', r) := Recv(s, t, timeout, flag, prio);
            RingOk(s') && Contents(s) == Received(r) + Contents(s')
  {
    hide ListsOk; hide NoLostWakeup; hide Suspend; hide Contents;
    OffsetsIn(s);
    var s' := Recv(s, t, timeout, flag, prio).0;
    if s.entry == 0 {
      SameContents(s, s');
    } else {
      TakeIsDequeue(s);
      SameContents(Take(s), s');
    }
  }

  lemma SameContents(s: State, s': State)
    requires RingOk(s) && s'.pool == s.pool && s'.size == s.size && s'.entry == s.entry
    requires s'.inOffset == s.inOffset && s'.outOffset == s.outOffset
    ensures RingOk(s') && Contents(s') == Contents(s)
  {
  }

  ghost function AllSent(s: State, steps: seq<Step>, flag: Flag, s': State): seq<int>
    requires Valid(s) && Reaches(s, steps, flag, s')
    decreases |steps|
  {
    if steps == [] then []
    else
      StepKeeps(s, steps[0], flag);
      Sent(s, steps[0]) + AllSent(Next(s, steps[0], flag).0, steps[1..], flag, s')
  }

  ghost function AllReceived(s: State, steps: seq<Step>, flag: Flag, s': State): seq<int>
    requires Valid(s) && Reaches(s, steps, flag, s')
    decreases |steps|
  {
    if steps == [] then []
    else
      StepKeeps(s, steps[0], flag);
      Received(Next(s, steps[0], flag).1) + AllReceived(Next(s, steps[0], flag).0, steps[1..], flag, s')
  }

  /** Over any run without a reset, what was in the mailbox and was sent is what was received and is
      still there, in this order. */
  lemma {:induction false} RunIsFifo(s: State, steps: seq<Step>, flag: Flag, s': State)
    requires Valid(s) && Reaches(s, steps, flag, s')
    requires forall i :: 0 <= i < |steps| ==> !steps[i].ResetStep?
    ensures Valid(s') && Contents(s) + AllSent(s, steps, flag, s') == AllReceived(s, steps, flag, s') + Contents(s')
    decreases |steps|
  {
    hide Next; hide Contents; hide Sent; hide Received;
    RunKeeps(s, steps, flag, s');
    if steps != [] {
      StepKeeps(s, steps[0], flag);
      StepIsFifo(s, steps[0], flag);
      var (s1, r) := Next(s, steps[0], flag);
      RunIsFifo(s1, steps[1..], flag, s');
      var sent, got := AllSent(s1, steps[1..], flag, s'), AllReceived(s1, steps[1..], flag, s');
      calc {
        Contents(s) + (Sent(s, steps[0]) + sent);
        (Contents(s) + Sent(s, steps[0])) + sent;
        (Received(r) + Contents(s1)) + sent;
        Received(r) + (Contents(s1) + sent);
        Received(r) + (got + Contents(s'));
        (Received(r) + got) + Contents(s');
      }
    }
  }

  // ----- in place -----

  class MailBox {
    const size: nat
    const flag: Flag
    const msgPool: array<int>
    var entry: nat
    var inOffset: nat
    var outOffset: nat
    var suspendThread: seq<Thread>
    var suspendSenderThread: seq<Thread>
    /** What each thread is doing, which the source keeps in the threads. */
    var phase: map<Thread, Phase>

    ghost function S(): State
      reads this, msgPool
    {
      State(size, msgPool[..], entry, inOffset, outOffset, suspendThread, suspendSenderThread, phase)
    }

    constructor (msgPool: array<int>, flag: Flag)
      ensures Valid(S()) && S() == Init(msgPool.Length).(pool := msgPool[..])
    {
      this.msgPool, this.size, this.flag := msgPool, msgPool.Length, flag;
      entry, inOffset, outOffset, suspendThread, suspendSenderThread, phase := 0, 0, 0, [], [], map[];
    }

    method SendPass(t: Thread, value: int, timeout: int, prio: Priorities) returns (r: Result)
      requires Valid(S()) && (PhaseOf(S(), t).Idle? || PhaseOf(S(), t).WokenSend?)
      modifies this, msgPool
      ensures Valid(S()) && (S(), r) == Send(old(S()), t, value, timeout, flag, prio)
    {
      hide NoLostWakeup; hide ListsOk; hide Suspend;
      SendKeeps(S(), t, value, timeout, flag, prio);
      if entry == size {
        if timeout == 0 {
          phase := phase[t := Idle];
          return Error(Full);
        }
        suspendSenderThread := SuspendOn(suspendSenderThread, t, flag, prio);
        phase := phase[t := WaitSend(value, timeout)];
        return Blocked;
      }
      ghost var s := S();
      msgPool[inOffset] := value;
      inOffset := inOffset + 1;
      if inOffset >= size { inOffset := 0; }
      entry := entry + 1;
      phase := phase[t := Idle];
      assert S() == Put(s, value).(phase := S().phase);
      ResumeReceiver();
      return Done;
    }

    /** `rt_ipc_list_resume` on the receivers, if there are any. */
    method ResumeReceiver()
      modifies this`suspendThread, this`phase
      ensures S() == WakeReceiver(old(S()))
    {
      if suspendThread != [] {
        var t := suspendThread[0];
        suspendThread := suspendThread[1..];
        var p := if t in phase then phase[t] else Idle;
        phase := phase[t := match p case WaitRecv(timeout) => WokenRecv(timeout) case p => p];
      }
    }

    method ResumeSender()
      modifies this`suspendSenderThread, this`phase
      ensures S() == WakeSender(old(S()))
    {
      if suspendSenderThread != [] {
        var t := suspendSenderThread[0];
        suspendSenderThread := suspendSenderThread[1..];
        var p := if t in phase then phase[t] else Idle;
        phase := phase[t := match p case WaitSend(value, timeout) => WokenSend(value, timeout) case p => p];
      }
    }

    method RecvPass(t: Thread, timeout: int, prio: Priorities) returns (r: Result)
      requires Valid(S()) && (PhaseOf(S(), t).Idle? || PhaseOf(S(), t).WokenRecv?)
      modifies this
      ensures Valid(S()) && (S(), r) == Recv(old(S()), t, timeout, flag, prio)
    {
      hide NoLostWakeup; hide ListsOk; hide Suspend;
      RecvKeeps(S(), t, timeout, flag, prio);
      if entry == 0 {
        if timeout == 0 {
          phase := phase[t := Idle];
          return Error(Timeout);
        }
        suspendThread := SuspendOn(suspendThread, t, flag, prio);
        phase := phase[t := WaitRecv(timeout)];
        return Blocked;
      }
      var value := msgPool[outOffset];
      outOffset := outOffset + 1;
      if outOffset >= size { outOffset := 0; }
      entry := entry - 1;
      phase := phase[t := Idle];
      ResumeSender();
      return Got(value);
    }

    /** `rt_thread_timeout` on a thread that waits here. */
    method TimeOut(t: Thread)
      requires Valid(S()) && (t in suspendThread || t in suspendSenderThread)
      modifies this
      ensures Valid(S()) && S() == Expire(old(S()), t)
    {
      ExpireKeeps(S(), t);
      suspendThread, suspendSenderThread := Without(suspendThread, t), Without(suspendSenderThread, t);
      phase := phase[t := Failed(Timeout)];
    }

    /** `rt_mb_control` with RT_IPC_CMD_RESET. */
    method Control()
      requires Valid(S())
      modifies this
      ensures Valid(S()) && S() == ResetAll(old(S()))
    {
      ResetKeeps(S());
      ghost var p := phase;
      while suspendThread != []
        invariant FailAll(phase, suspendThread, Failed(Reset)) == FailAll(p, old(suspendThread), Failed(Reset))
        invariant suspendSenderThread == old(suspendSenderThread)
        decreases |suspendThread|
      {
        phase := phase[suspendThread[0] := Failed(Reset)];
        suspendThread := suspendThread[1..];
      }
      ghost var q := phase;
      while suspendSenderThread != []
        invariant FailAll(phase, suspendSenderThread, Failed(Reset)) == FailAll(q, old(suspendSenderThread), Failed(Reset))
        invariant suspendThread == []
        decreases |suspendSenderThread|
      {
        phase := phase[suspendSenderThread[0] := Failed(Reset)];
        suspendSenderThread := suspendSenderThread[1..];
      }
      entry, inOffset, outOffset := 0, 0, 0;
    }
  }
}
