/** The message queue of src/ipc.c as a step system.  A send takes a node in one section, fills it
    alone, and links it in another; a receive unlinks a node in one section, reads it alone, and
    returns it to the free list in another. */
module MsgQueue {
  import opened Lists
  import opened Waiting
  import opened Words

  type Thread = nat
  type Node = nat
  type Message = seq<int>

  /** What a thread is doing with the queue; it owns the node it fills or drains. */
  datatype Phase =
    | Idle
    | Filling(node: Node, bytes: Message, urgent: bool)
    | WaitRecv(timeout: int)
    | WokenRecv(timeout: int)
    | Draining(node: Node, message: Message)
    | Failed(error: Error)

  datatype Error = Timeout | Full | TooLong | Reset

  datatype Result = Done | Got(bytes: Message) | Holding | Blocked | Error(error: Error)

  datatype State = State(msgSize: nat, data: seq<Message>, queue: seq<Node>, free: seq<Node>, entry: int,
                         receivers: seq<Thread>, phase: map<Thread, Phase>)

  function PhaseOf(s: State, t: Thread): Phase { if t in s.phase then s.phase[t] else Idle }

  // ----- the atomic sections -----

  /** Take a free node. */
  function SendBegin(s: State, t: Thread, bytes: Message, urgent: bool): (State, Result) {
    if |bytes| > s.msgSize then (s, Error(TooLong))
    else if s.free == [] then (s, Error(Full))
    else (s.(free := s.free[1..], phase := s.phase[t := Filling(s.free[0], bytes, urgent)]), Holding)
  }

  /** Copying fewer bytes than the node holds leaves the rest. */
  function Overlay(was: Message, bytes: Message): Message {
    if |bytes| <= |was| then bytes + was[|bytes|..] else was
  }

  function WakeReceiver(s: State): State {
    if s.receivers == [] then s
    else
      var t := s.receivers[0];
      s.(receivers := s.receivers[1..],
         phase := s.phase[t := match PhaseOf(s, t) case WaitRecv(timeout) => WokenRecv(timeout) case p => p])
  }

  /** Link the filled node: at the end, or at the front when urgent. */
  function SendEnd(s: State, t: Thread): (State, Result) {
    match PhaseOf(s, t)
    case Filling(n, bytes, urgent) =>
      if n >= |s.data| then (s, Blocked)
      else
        (WakeReceiver(s.(data := s.data[n := Overlay(s.data[n], bytes)],
                         queue := if urgent then [n] + s.queue else s.queue + [n],
                         entry := s.entry + 1, phase := s.phase[t := Idle])), Done)
    case _ => (s, Blocked)
  }

  /** One pass of the receive loop: unlink the first node, give up, or suspend. */
  function Recv(s: State, t: Thread, timeout: int, flag: Flag, prio: Priorities): (State, Result) {
    if s.entry == 0 || s.queue == [] then
      if timeout == 0 then (s.(phase := s.phase[t := Idle]), Error(Timeout))
      else (s.(receivers := Suspend(s.receivers, t, flag, prio), phase := s.phase[t := WaitRecv(timeout)]), Blocked)
    else
      var n := s.queue[0];
      (s.(queue := s.queue[1..], entry := s.entry - 1,
          phase := s.phase[t := Draining(n, if n < |s.data| then s.data[n] else [])]), Holding)
  }

  /** Read the node, and return it to the free list. */
  function RecvEnd(s: State, t: Thread, size: nat): (State, Result) {
    match PhaseOf(s, t)
    case Draining(n, _) =>
      if n >= |s.data| then (s, Blocked)
      else
        (s.(free := [n] + s.free, phase := s.phase[t := Idle]), Got(s.data[n][..Min(Min(size, s.msgSize), |s.data[n]|)]))
    case _ => (s, Blocked)
  }

  /** A receiver that was suspended runs again. */
  function Rerun(s: State, t: Thread, elapsed: nat, flag: Flag, prio: Priorities): (State, Result) {
    match PhaseOf(s, t)
    case WokenRecv(timeout) => Recv(s, t, Remaining(timeout, elapsed), flag, prio)
    case Failed(error) => (s.(phase := s.phase[t := Idle]), Error(error))
    case _ => (s, Blocked)
  }

  function Expire(s: State, t: Thread): State {
    s.(receivers := Without(s.receivers, t), phase := s.phase[t := Failed(Timeout)])
  }

  /** Nodes pushed one by one. */
  function PushAll(free: seq<Node>, list: seq<Node>): seq<Node>
    decreases |list|
  {
    if list == [] then free else PushAll([list[0]] + free, list[1..])
  }

  /** `rt_mq_control` with RT_IPC_CMD_RESET: nodes held by an operation stay with it. */
  function ResetAll(s: State): State {
    s.(receivers := [], phase := FailAll(s.phase, s.receivers, Failed(Reset)), queue := [],
       free := PushAll(s.free, s.queue), entry := 0)
  }

  // ----- steps -----

  datatype Step =
    | SendBeginStep(t: Thread, bytes: Message, urgent: bool)
    | SendEndStep(t: Thread)
    | RecvStep(t: Thread, timeout: int, prio: Priorities)
    | RecvEndStep(t: Thread, size: nat)
    | RerunStep(t: Thread, elapsed: nat, prio: Priorities)
    | ExpireStep(t: Thread)
    | ResetStep

  ghost predicate Enabled(s: State, step: Step) {
    match step
    case SendBeginStep(t, _, _) => PhaseOf(s, t).Idle?
    case SendEndStep(t) => PhaseOf(s, t).Filling?
    case RecvStep(t, _, _) => PhaseOf(s, t).Idle?
    case RecvEndStep(t, _) => PhaseOf(s, t).Draining?
    case RerunStep(t, _, _) => PhaseOf(s, t).WokenRecv? || PhaseOf(s, t).Failed?
    case ExpireStep(t) => t in s.receivers
    case ResetStep => true
  }

  function Next(s: State, step: Step, flag: Flag): (State, Result) {
    match step
    case SendBeginStep(t, bytes, urgent) => SendBegin(s, t, bytes, urgent)
    case SendEndStep(t) => SendEnd(s, t)
    case RecvStep(t, timeout, prio) => Recv(s, t, timeout, flag, prio)
    case RecvEndStep(t, size) => RecvEnd(s, t, size)
    case RerunStep(t, elapsed, prio) => Rerun(s, t, elapsed, flag, prio)
    case ExpireStep(t) => (Expire(s, t), Done)
    case ResetStep => (ResetAll(s), Done)
  }

  // ----- what every interleaving keeps -----

  ghost predicate Holds(p: Phase, n: Node) { (p.Filling? || p.Draining?) && p.node == n }

  ghost predicate HeldBy(phase: map<Thread, Phase>, t: Thread, n: Node) { t in phase && Holds(phase[t], n) }

  ghost predicate Placed(queue: seq<Node>, free: seq<Node>, phase: map<Thread, Phase>, n: Node) {
    n in queue || n in free || exists t :: HeldBy(phase, t, n)
  }

  /** Every node is in exactly one place: the queue, the free list, or one operation's hands. */
  ghost predicate Partition(max: nat, queue: seq<Node>, free: seq<Node>, phase: map<Thread, Phase>) {
    && NoDuplicates(queue) && NoDuplicates(free)
    && (forall n :: n in queue ==> n < max && n !in free)
    && (forall n :: n in free ==> n < max)
    && (forall t: Thread, n: Node :: HeldBy(phase, t, n) ==> n < max && n !in queue && n !in free)
    && (forall t: Thread, u: Thread, n: Node :: HeldBy(phase, t, n) && HeldBy(phase, u, n) ==> t == u)
    && (forall n: nat :: n < max ==> Placed(queue, free, phase, n))
  }

  /** Nobody changes a node while it is drained, or before it is filled. */
  ghost predicate DataOk(s: State) {
    && (forall n :: 0 <= n < |s.data| ==> |s.data[n]| == s.msgSize)
    && (forall t :: t in s.phase && s.phase[t].Draining? ==> s.phase[t].node < |s.data| && s.data[s.phase[t].node] == s.phase[t].message)
    && (forall t :: t in s.phase && s.phase[t].Filling? ==> |s.phase[t].bytes| <= s.msgSize)
  }

  ghost function Woken(phase: map<Thread, Phase>): set<Thread> { set t | t in phase && phase[t].WokenRecv? }

  /** The wait list holds the waiting threads, and while there are any, every queued message is
      covered by a receiver on its way to it. */
  ghost predicate WaitOk(s: State) {
    && NoDuplicates(s.receivers)
    && (forall t :: t in s.receivers <==> PhaseOf(s, t).WaitRecv?)
    && (s.receivers != [] ==> s.entry <= |Woken(s.phase)|)
  }

  ghost predicate Valid(s: State) {
    Partition(|s.data|, s.queue, s.free, s.phase) && DataOk(s) && WaitOk(s) && s.entry == |s.queue|
  }

  // ----- the node partition -----

  /** A thread that holds nothing before and after. */
  lemma PartitionFrame(max: nat, queue: seq<Node>, free: seq<Node>, phase: map<Thread, Phase>, phase': map<Thread, Phase>)
    requires Partition(max, queue, free, phase)
    requires forall t, n :: HeldBy(phase', t, n) <==> HeldBy(phase, t, n)
    ensures Partition(max, queue, free, phase')
  {
    hide HeldBy;
    forall n: nat | n < max ensures Placed(queue, free, phase', n) {
      assert Placed(queue, free, phase, n);
      if t :| HeldBy(phase, t, n) { assert HeldBy(phase', t, n); }
    }
  }

  lemma HeldAfter(phase: map<Thread, Phase>, phase': map<Thread, Phase>, t: Thread, p: Phase)
    requires phase' == phase[t := p]
    ensures forall u, n :: HeldBy(phase', u, n) <==> if u == t then Holds(p, n) else HeldBy(phase, u, n)
  {
  }

  lemma OneNode(phase: map<Thread, Phase>, t: Thread, n: Node, x: Node)
    ensures HeldBy(phase, t, n) && HeldBy(phase, t, x) ==> n == x
  {
  }

  /** Thread `t`, which holds nothing, takes the first free node. */
  lemma TakeFree(max: nat, queue: seq<Node>, free: seq<Node>, phase: map<Thread, Phase>, t: Thread, p: Phase)
    requires Partition(max, queue, free, phase) && free != [] && (forall n :: !HeldBy(phase, t, n))
    requires forall n :: Holds(p, n) <==> n == free[0]
    ensures Partition(max, queue, free[1..], phase[t := p])
  {
    hide HeldBy;
    PopFront(free);
    var free', phase' := free[1..], phase[t := p];
    HeldAfter(phase, phase', t, p);
    forall n: nat | n < max ensures Placed(queue, free', phase', n) {
      assert Placed(queue, free, phase, n);
      if u :| HeldBy(phase, u, n) { assert HeldBy(phase', u, n); }
      assert HeldBy(phase', t, free[0]);
    }
  }

  /** Thread `t` takes the first queued node. */
  lemma TakeQueued(max: nat, queue: seq<Node>, free: seq<Node>, phase: map<Thread, Phase>, t: Thread, p: Phase)
    requires Partition(max, queue, free, phase) && queue != [] && (forall n :: !HeldBy(phase, t, n))
    requires forall n :: Holds(p, n) <==> n == queue[0]
    ensures Partition(max, queue[1..], free, phase[t := p])
  {
    hide HeldBy;
    PopFront(queue);
    var queue', phase' := queue[1..], phase[t := p];
    HeldAfter(phase, phase', t, p);
    forall n: nat | n < max ensures Placed(queue', free, phase', n) {
      assert Placed(queue, free, phase, n);
      if u :| HeldBy(phase, u, n) { assert HeldBy(phase', u, n); }
      assert HeldBy(phase', t, queue[0]);
    }
  }

  /** Thread `t` gives its node away, to one of the lists. */
  lemma Release(max: nat, queue: seq<Node>, free: seq<Node>, queue': seq<Node>, free': seq<Node>,
                phase: map<Thread, Phase>, t: Thread, n: Node)
    requires Partition(max, queue, free, phase) && HeldBy(phase, t, n)
    requires NoDuplicates(queue') && NoDuplicates(free')
    requires (free' == free && forall x :: x in queue' <==> x in queue || x == n) ||
             (queue' == queue && forall x :: x in free' <==> x in free || x == n)
    ensures Partition(max, queue', free', phase[t := Idle])
  {
    hide HeldBy;
    var phase' := phase[t := Idle];
    HeldAfter(phase, phase', t, Idle);
    forall x: nat | x < max ensures Placed(queue', free', phase', x) {
      assert Placed(queue, free, phase, x);
      if u :| HeldBy(phase, u, x) {
        OneNode(phase, t, n, x);
        assert u != t ==> HeldBy(phase', u, x);
      }
    }
  }

  lemma {:induction false} PushAllIs(free: seq<Node>, list: seq<Node>)
    requires NoDuplicates(free) && NoDuplicates(list) && forall n :: n in list ==> n !in free
    ensures var all := PushAll(free, list); NoDuplicates(all) && forall n :: n in all <==> n in free || n in list
    decreases |list|
  {
    if list != [] {
      PushFront(list[0], free);
      PopFront(list);
      PushAllIs([list[0]] + free, list[1..]);
    }
  }

  // ----- the counts -----

  lemma Recount(phase: map<Thread, Phase>, t: Thread, p: Phase)
    ensures var was := if t in phase then phase[t] else Idle;
            |Woken(phase[t := p])| == |Woken(phase)| - Count(was.WokenRecv?) + Count(p.WokenRecv?)
  {
    OneElement(Woken(phase), Woken(phase[t := p]), t);
  }

  lemma WakeReceiverKeeps(s: State)
    requires Partition(|s.data|, s.queue, s.free, s.phase) && DataOk(s) && NoDuplicates(s.receivers) && s.entry == |s.queue|
    requires forall t :: t in s.receivers <==> PhaseOf(s, t).WaitRecv?
    requires s.receivers != [] ==> s.entry <= |Woken(s.phase)| + 1
    ensures Valid(WakeReceiver(s))
  {
    hide NoDuplicates; hide Woken; hide Partition;
    if s.receivers != [] {
      var t := s.receivers[0];
      PopFront(s.receivers);
      var p := WokenRecv(PhaseOf(s, t).timeout);
      Recount(s.phase, t, p);
      PartitionFrame(|s.data|, s.queue, s.free, s.phase, s.phase[t := p]);
    }
  }

  // ----- each section -----

  lemma SendBeginKeeps(s: State, t: Thread, bytes: Message, urgent: bool)
    requires Valid(s) && PhaseOf(s, t).Idle?
    ensures Valid(SendBegin(s, t, bytes, urgent).0)
  {
    hide Partition; hide Woken; hide NoDuplicates;
    if |bytes| <= s.msgSize && s.free != [] {
      var p := Filling(s.free[0], bytes, urgent);
      TakeFree(|s.data|, s.queue, s.free, s.phase, t, p);
      Recount(s.phase, t, p);
    }
  }

  lemma SendEndKeeps(s: State, t: Thread)
    requires Valid(s) && PhaseOf(s, t).Filling?
    ensures PhaseOf(s, t).node < |s.data| && Valid(SendEnd(s, t).0)
  {
    var p := PhaseOf(s, t);
    HeldPlace(s, t, p.node);
    hide Partition; hide Woken;
    var queue := if p.urgent then [p.node] + s.queue else s.queue + [p.node];
    Release(|s.data|, s.queue, s.free, queue, s.free, s.phase, t, p.node);
    Recount(s.phase, t, Idle);
    WakeReceiverKeeps(s.(data := s.data[p.node := Overlay(s.data[p.node], p.bytes)], queue := queue,
                         entry := s.entry + 1, phase := s.phase[t := Idle]));
  }

  /** A held node is in no list, and nobody else drains it. */
  lemma HeldPlace(s: State, t: Thread, n: Node)
    requires Valid(s) && HeldBy(s.phase, t, n)
    ensures n < |s.data| && n !in s.queue && n !in s.free && NoDuplicates(s.queue) && NoDuplicates(s.free)
    ensures forall x :: x in s.queue ==> x !in s.free
    ensures forall u :: u in s.phase && s.phase[u].Draining? && s.phase[u].node == n ==> u == t
  {
    forall u | u in s.phase && s.phase[u].Draining? && s.phase[u].node == n ensures u == t {
      assert HeldBy(s.phase, u, n);
    }
  }

  lemma RecvKeeps(s: State, t: Thread, timeout: int, flag: Flag, prio: Priorities)
    requires Valid(s) && (PhaseOf(s, t).Idle? || PhaseOf(s, t).WokenRecv?)
    ensures Valid(Recv(s, t, timeout, flag, prio).0)
  {
    QueuedInRange(s);
    hide Partition; hide Woken; hide NoDuplicates;
    var (s', r) := Recv(s, t, timeout, flag, prio);
    Recount(s.phase, t, s'.phase[t]);
    if s.entry == 0 {
      PartitionFrame(|s.data|, s.queue, s.free, s.phase, s'.phase);
      if timeout != 0 { SuspendIs(s.receivers, t, flag, prio); }
    } else {
      TakeQueued(|s.data|, s.queue, s.free, s.phase, t, s'.phase[t]);
    }
  }

  lemma QueuedInRange(s: State)
    requires Valid(s)
    ensures s.queue != [] ==> s.queue[0] < |s.data|
    ensures NoDuplicates(s.receivers)
  {
    assert s.queue != [] ==> s.queue[0] in s.queue;
  }

  lemma RecvEndKeeps(s: State, t: Thread, size: nat)
    requires Valid(s) && PhaseOf(s, t).Draining?
    ensures PhaseOf(s, t).node < |s.data| && Valid(RecvEnd(s, t, size).0)
    ensures RecvEnd(s, t, size).0 == s.(free := [PhaseOf(s, t).node] + s.free, phase := s.phase[t := Idle])
    ensures RecvEnd(s, t, size).1 == Got(PhaseOf(s, t).message[..Min(Min(size, s.msgSize), |PhaseOf(s, t).message|)])
  {
    var n := PhaseOf(s, t).node;
    HeldPlace(s, t, n);
    hide Partition; hide Woken;
    PushFront(n, s.free);
    Release(|s.data|, s.queue, s.free, s.queue, [n] + s.free, s.phase, t, n);
    Recount(s.phase, t, Idle);
  }

  lemma ExpireKeeps(s: State, t: Thread)
    requires Valid(s) && t in s.receivers
    ensures Valid(Expire(s, t))
    ensures var s' := Expire(s, t);
            && s' == s.(receivers := s'.receivers, phase := s'.phase)
            && PhaseOf(s', t) == Failed(Timeout) && (forall u :: u != t ==> PhaseOf(s', u) == PhaseOf(s, u))
            && forall u :: u in s'.receivers <==> u in s.receivers && u != t
  {
    hide Partition; hide Woken; hide NoDuplicates; hide Without;
    WithoutIs(s.receivers, t);
    Recount(s.phase, t, Failed(Timeout));
    PartitionFrame(|s.data|, s.queue, s.free, s.phase, s.phase[t := Failed(Timeout)]);
  }

  lemma ResetKeeps(s: State)
    requires Valid(s)
    ensures Valid(ResetAll(s))
    ensures var s' := ResetAll(s);
            && s'.queue == [] && s'.receivers == []
            && (forall n :: n in s'.free <==> n in s.free || n in s.queue)
            && forall t :: PhaseOf(s', t) == if t in s.receivers then Failed(Reset) else PhaseOf(s, t)
  {
    hide Woken;
    FailAllIs(s.phase, s.receivers, Failed(Reset));
    PushAllIs(s.free, s.queue);
    var s' := ResetAll(s);
    forall t, n ensures HeldBy(s'.phase, t, n) <==> HeldBy(s.phase, t, n) {
      assert t in s.receivers <==> PhaseOf(s, t).WaitRecv?;
    }
    forall t
      ensures !PhaseOf(s', t).WaitRecv?
      ensures t in s'.phase ==> s'.phase[t] == Failed(Reset) || (t in s.phase && s'.phase[t] == s.phase[t])
    {
      assert t in s.receivers <==> PhaseOf(s, t).WaitRecv?;
    }
    ResetPartition(|s.data|, s.queue, s.free, s'.free, s.phase, s'.phase);
  }

  lemma ResetPartition(max: nat, queue: seq<Node>, free: seq<Node>, free': seq<Node>,
                       phase: map<Thread, Phase>, phase': map<Thread, Phase>)
    requires Partition(max, queue, free, phase) && NoDuplicates(free')
    requires forall n :: n in free' <==> n in free || n in queue
    requires forall t, n :: HeldBy(phase', t, n) <==> HeldBy(phase, t, n)
    ensures Partition(max, [], free', phase')
  {
    hide HeldBy;
    forall n: nat | n < max ensures Placed([], free', phase', n) {
      assert Placed(queue, free, phase, n);
      if t :| HeldBy(phase, t, n) { assert HeldBy(phase', t, n); }
    }
  }

  lemma StepKeeps(s: State, step: Step, flag: Flag)
    requires Valid(s) && Enabled(s, step)
    ensures Valid(Next(s, step, flag).0)
  {
    hide Valid; hide SendBegin; hide SendEnd; hide Recv; hide RecvEnd; hide Expire; hide ResetAll;
    match step
    case SendBeginStep(t, bytes, urgent) => SendBeginKeeps(s, t, bytes, urgent);
    case SendEndStep(t) => SendEndKeeps(s, t);
    case RecvStep(t, timeout, prio) => RecvKeeps(s, t, timeout, flag, prio);
    case RecvEndStep(t, size) => RecvEndKeeps(s, t, size);
    case RerunStep(t, elapsed, prio) =>
      if PhaseOf(s, t).WokenRecv? {
        RecvKeeps(s, t, Remaining(PhaseOf(s, t).timeout, elapsed), flag, prio);
      } else {
        RerunFailedKeeps(s, t);
      }
    case ExpireStep(t) => ExpireKeeps(s, t);
    case ResetStep => ResetKeeps(s);
  }

  /** Only these threads change what they do. */
  ghost predicate OthersSame(s: State, s': State, ts: set<Thread>) {
    forall u :: u !in ts ==> PhaseOf(s', u) == PhaseOf(s, u)
  }

  /** A send never waits: a message longer than the nodes is refused, and so is any when no node is free; otherwise the
      thread holds the first free node. */
  lemma SendBeginIs(s: State, t: Thread, bytes: Message, urgent: bool)
    ensures var (s', r) := SendBegin(s, t, bytes, urgent);
            if |bytes| > s.msgSize then r == Error(TooLong) && s' == s
            else if s.free == [] then r == Error(Full) && s' == s
            else
              && r == Holding && s'.free == s.free[1..] && PhaseOf(s', t) == Filling(s.free[0], bytes, urgent)
              && s'.queue == s.queue && s'.data == s.data && s'.entry == s.entry && s'.receivers == s.receivers
              && OthersSame(s, s', {t})
  {
  }

  /** The end of a send answers, and wakes the first receiver that waits. */
  lemma SendEndIs(s: State, t: Thread)
    requires Valid(s) && PhaseOf(s, t).Filling?
    ensures var (s', r) := SendEnd(s, t);
            && r == Done && PhaseOf(s', t).Idle? && s'.free == s.free && |s'.queue| == |s.queue| + 1
            && (if s.receivers == [] then s'.receivers == [] && OthersSame(s, s', {t})
                else
                  var u := s.receivers[0];
                  && s'.receivers == s.receivers[1..] && PhaseOf(s', u) == WokenRecv(PhaseOf(s, u).timeout)
                  && OthersSame(s, s', {t, u}))
  {
    HeldPlace(s, t, PhaseOf(s, t).node);
    hide Partition; hide Woken; hide NoDuplicates; hide Overlay;
    if s.receivers != [] { assert s.receivers[0] in s.receivers; }
  }

  /** When a pass of a receive answers: a queued message is taken; of an empty queue a thread without a timeout is
      refused, and any other one waits. */
  lemma RecvIs(s: State, t: Thread, timeout: int, flag: Flag, prio: Priorities)
    requires Valid(s) && (PhaseOf(s, t).Idle? || PhaseOf(s, t).WokenRecv?)
    ensures var (s', r) := Recv(s, t, timeout, flag, prio);
            && s'.free == s.free && s'.data == s.data && OthersSame(s, s', {t})
            && (if s.queue != [] then
                  && r == Holding && s'.queue == s.queue[1..] && s'.receivers == s.receivers
                  && s.queue[0] < |s.data| && PhaseOf(s', t) == Draining(s.queue[0], s.data[s.queue[0]])
                else
                  && s'.queue == []
                  && (if timeout == 0 then r == Error(Timeout) && s'.receivers == s.receivers && PhaseOf(s', t).Idle?
                      else
                        && r == Blocked && PhaseOf(s', t) == WaitRecv(timeout)
                        && forall u :: u in s'.receivers <==> u in s.receivers || u == t))
  {
    QueuedInRange(s);
    hide Partition; hide Woken; hide NoDuplicates; hide Suspend;
    SuspendIs(s.receivers, t, flag, prio);
  }

  /** A receiver that was woken makes another pass with what is left of its timeout, and one that failed answers with
      its error. */
  lemma RerunIs(s: State, t: Thread, elapsed: nat, flag: Flag, prio: Priorities)
    requires Valid(s) && Enabled(s, RerunStep(t, elapsed, prio))
    ensures var (s', r) := Rerun(s, t, elapsed, flag, prio);
            if PhaseOf(s, t).Failed? then r == Error(PhaseOf(s, t).error) && s' == s.(phase := s.phase[t := Idle])
            else
              var left := Remaining(PhaseOf(s, t).timeout, elapsed);
              if s.queue != [] then r == Holding else if left == 0 then r == Error(Timeout)
              else r == Blocked && PhaseOf(s', t) == WaitRecv(left)
  {
    hide Valid; hide Recv; hide Remaining;
    if PhaseOf(s, t).WokenRecv? { RecvIs(s, t, Remaining(PhaseOf(s, t).timeout, elapsed), flag, prio); }
  }

  lemma RerunFailedKeeps(s: State, t: Thread)
    requires Valid(s) && PhaseOf(s, t).Failed?
    ensures Valid(s.(phase := s.phase[t := Idle]))
  {
    hide Partition; hide Woken; hide NoDuplicates;
    Recount(s.phase, t, Idle);
    PartitionFrame(|s.data|, s.queue, s.free, s.phase, s.phase[t := Idle]);
  }

  // ----- order -----

  /** The queued messages in link order. */
  ghost function Messages(s: State): seq<Message>
  {
    seq(|s.queue|, i requires 0 <= i < |s.queue| => if s.queue[i] < |s.data| then s.data[s.queue[i]] else [])
  }

  /** What a step puts into the queue, and whether at the front. */
  ghost predicate Inserted(s: State, step: Step, s': State)
    requires Valid(s) && Valid(s')
  {
    if step.SendEndStep? then
      var p := PhaseOf(s, step.t);
      if !p.Filling? || p.node >= |s.data| then true
      else
        var m := Overlay(s.data[p.node], p.bytes);
        p.bytes <= m && Messages(s') == if p.urgent then [m] + Messages(s) else Messages(s) + [m]
    else if step.ResetStep? then Messages(s') == []
    else true
  }

  /** Messages leave only from the front, to the thread that asked, and are otherwise left alone. */
  ghost predicate Extracted(s: State, step: Step, s': State)
    requires Valid(s) && Valid(s')
  {
    if step.SendEndStep? || step.ResetStep? then true
    else if (step.RecvStep? || step.RerunStep?) && PhaseOf(s', step.t).Draining? then
      Messages(s) == [PhaseOf(s', step.t).message] + Messages(s')
    else Messages(s') == Messages(s)
  }

  /** Receives follow link order, urgent messages go to the front and others to the end. */
  lemma StepOrder(s: State, step: Step, flag: Flag)
    requires Valid(s) && Enabled(s, step)
    ensures var s' := Next(s, step, flag).0; Valid(s') && Inserted(s, step, s') && Extracted(s, step, s')
  {
    StepKeeps(s, step, flag);
    var s' := Next(s, step, flag).0;
    match step
    case SendEndStep(t) => SendEndOrder(s, t);
    case RecvStep(t, timeout, prio) => RecvOrder(s, t, timeout, flag, prio);
    case RerunStep(t, elapsed, prio) =>
      if PhaseOf(s, t).WokenRecv? {
        RecvOrder(s, t, Remaining(PhaseOf(s, t).timeout, elapsed), flag, prio);
      }
    case _ =>
  }

  lemma SendEndOrder(s: State, t: Thread)
    requires Valid(s) && PhaseOf(s, t).Filling?
    ensures Valid(SendEnd(s, t).0) && Inserted(s, SendEndStep(t), SendEnd(s, t).0)
  {
    SendEndKeeps(s, t);
    var p, s' := PhaseOf(s, t), SendEnd(s, t).0;
    HeldPlace(s, t, p.node);
    hide Valid;
    var m := Overlay(s.data[p.node], p.bytes);
    var before, after := if p.urgent then [m] + Messages(s) else Messages(s) + [m], Messages(s');
    forall i | 0 <= i < |s'.queue| ensures after[i] == before[i] {
      var j := if p.urgent then i - 1 else i;
      if 0 <= j < |s.queue| { assert s.queue[j] in s.queue && s'.queue[i] == s.queue[j]; }
    }
    assert after == before;
  }

  lemma RecvOrder(s: State, t: Thread, timeout: int, flag: Flag, prio: Priorities)
    requires Valid(s) && (PhaseOf(s, t).Idle? || PhaseOf(s, t).WokenRecv?)
    ensures var s' := Recv(s, t, timeout, flag, prio).0;
            && Valid(s')
            && if s'.phase[t].Draining? then Messages(s) == [s'.phase[t].message] + Messages(s') else Messages(s') == Messages(s)
  {
    RecvKeeps(s, t, timeout, flag, prio);
    QueuedInRange(s);
  }

  // ----- runs -----

  function Init(max: nat, msgSize: nat): State {
    State(msgSize, seq(max, _ => seq(msgSize, _ => 0)), [], seq(max, i => if i < max then max - 1 - i else 0), 0, [], map[])
  }

  lemma InitValid(max: nat, msgSize: nat)
    ensures Valid(Init(max, msgSize))
  {
    var s := Init(max, msgSize);
    forall n: nat | n < max ensures Placed(s.queue, s.free, s.phase, n) {
      assert s.free[max - 1 - n] == n;
    }
  }

  ghost predicate Reaches(s: State, steps: seq<Step>, flag: Flag, s': State)
    decreases |steps|
  {
    if steps == [] then s' == s
    else Enabled(s, steps[0]) && Reaches(Next(s, steps[0], flag).0, steps[1..], flag, s')
  }

  /** Every interleaving, resets included, keeps the node partition and the entry count, and strands
      no receiver. */
  lemma {:induction false} RunKeeps(s: State, steps: seq<Step>, flag: Flag, s': State)
    requires Valid(s) && Reaches(s, steps, flag, s')
    ensures Valid(s')
    decreases |steps|
  {
    if steps != [] {
      StepKeeps(s, steps[0], flag);
      RunKeeps(Next(s, steps[0], flag).0, steps[1..], flag, s');
    }
  }

  /** The message a step links to the queue, and the one it takes off to receive it. */
  ghost function Sent(s: State, step: Step): seq<Message> {
    if step.SendEndStep? && PhaseOf(s, step.t).Filling? && PhaseOf(s, step.t).node < |s.data| then
      [Overlay(s.data[PhaseOf(s, step.t).node], PhaseOf(s, step.t).bytes)]
    else []
  }

  ghost function Received(step: Step, s': State): seq<Message> {
    if (step.RecvStep? || step.RerunStep?) && PhaseOf(s', step.t).Draining? then [PhaseOf(s', step.t).message] else []
  }

  ghost function AllSent(s: State, steps: seq<Step>, flag: Flag): seq<Message>
    decreases |steps|
  {
    if steps == [] then [] else Sent(s, steps[0]) + AllSent(Next(s, steps[0], flag).0, steps[1..], flag)
  }

  ghost function AllReceived(s: State, steps: seq<Step>, flag: Flag): seq<Message>
    decreases |steps|
  {
    if steps == [] then []
    else Received(steps[0], Next(s, steps[0], flag).0) + AllReceived(Next(s, steps[0], flag).0, steps[1..], flag)
  }

  /** Nobody is about to link an urgent message. */
  ghost predicate NothingUrgent(s: State) {
    forall t :: t in s.phase && s.phase[t].Filling? ==> !s.phase[t].urgent
  }

  /** Neither an urgent send begins nor a reset happens. */
  predicate Plain(step: Step) { !step.ResetStep? && (step.SendBeginStep? ==> !step.urgent) }

  lemma StepIsPlain(s: State, step: Step, flag: Flag)
    requires Enabled(s, step) && NothingUrgent(s) && Plain(step)
    ensures NothingUrgent(Next(s, step, flag).0)
  {
    hide Suspend; hide Without; hide Overlay; hide Remaining;
  }

  lemma StepIsFifo(s: State, step: Step, flag: Flag)
    requires Valid(s) && Enabled(s, step) && NothingUrgent(s) && Plain(step)
    ensures var s' := Next(s, step, flag).0;
            Messages(s) + Sent(s, step) == Received(step, s') + Messages(s')
  {
    hide Messages; hide Next;
    StepOrder(s, step, flag);
    if step.SendEndStep? { SendEndKeeps(s, step.t); }
    hide Valid;
  }

  /** Over any run without urgent sends and resets, what was queued and was sent is what was received and
      is still queued, in this order: messages leave in the order they were linked. */
  lemma {:induction false} RunIsFifo(s: State, steps: seq<Step>, flag: Flag, s': State)
    requires Valid(s) && Reaches(s, steps, flag, s') && NothingUrgent(s)
    requires forall i :: 0 <= i < |steps| ==> Plain(steps[i])
    ensures Messages(s) + AllSent(s, steps, flag) == AllReceived(s, steps, flag) + Messages(s')
    decreases |steps|
  {
    hide Next; hide Messages; hide Sent; hide Received; hide Valid; hide NothingUrgent; hide Plain; hide Enabled;
    if steps != [] {
      var s1 := Next(s, steps[0], flag).0;
      StepKeeps(s, steps[0], flag);
      StepIsPlain(s, steps[0], flag);
      StepIsFifo(s, steps[0], flag);
      RunIsFifo(s1, steps[1..], flag, s');
      var sent, got := AllSent(s1, steps[1..], flag), AllReceived(s1, steps[1..], flag);
      calc {
        Messages(s) + (Sent(s, steps[0]) + sent);
        (Messages(s) + Sent(s, steps[0])) + sent;
        (Received(steps[0], s1) + Messages(s1)) + sent;
        Received(steps[0], s1) + (Messages(s1) + sent);
        Received(steps[0], s1) + (got + Messages(s'));
        (Received(steps[0], s1) + got) + Messages(s');
      }
    }
  }

  /** What a step does to the list of queued messages. */
  datatype Change = Linked(message: Message, urgent: bool) | Taken(message: Message) | Cleared

  ghost function Changes(s: State, step: Step, s': State): seq<Change> {
    if Sent(s, step) != [] then [Linked(Sent(s, step)[0], PhaseOf(s, step.t).urgent)]
    else if Received(step, s') != [] then [Taken(Received(step, s')[0])]
    else if step.ResetStep? then [Cleared]
    else []
  }

  ghost function AllChanges(s: State, steps: seq<Step>, flag: Flag): seq<Change>
    decreases |steps|
  {
    if steps == [] then []
    else
      var s1 := Next(s, steps[0], flag).0;
      Changes(s, steps[0], s1) + AllChanges(s1, steps[1..], flag)
  }

  /** A plain list goes through the changes: a message joins at the end, or at the front when urgent, only the
      first one leaves, and a reset drops them all. */
  ghost predicate Plays(list: seq<Message>, changes: seq<Change>, list': seq<Message>)
    decreases |changes|
  {
    if changes == [] then list' == list
    else
      match changes[0]
      case Linked(m, urgent) => Plays(if urgent then [m] + list else list + [m], changes[1..], list')
      case Taken(m) => list != [] && list[0] == m && Plays(list[1..], changes[1..], list')
      case Cleared => Plays([], changes[1..], list')
  }

  lemma PlaysFirst(list: seq<Message>, first: seq<Change>, middle: seq<Message>, rest: seq<Change>, list': seq<Message>)
    requires |first| <= 1 && Plays(list, first, middle) && Plays(middle, rest, list')
    ensures Plays(list, first + rest, list')
  {
    if first == [] {
      assert first + rest == rest;
    } else {
      assert (first + rest)[1..] == rest && first[1..] == [];
    }
  }

  lemma StepPlays(s: State, step: Step, flag: Flag)
    requires Valid(s) && Enabled(s, step)
    ensures var s' := Next(s, step, flag).0; Plays(Messages(s), Changes(s, step, s'), Messages(s'))
  {
    hide Messages; hide Next;
    StepOrder(s, step, flag);
    if step.SendEndStep? { SendEndKeeps(s, step.t); }
    hide Valid;
    var s' := Next(s, step, flag).0;
    var changes := Changes(s, step, s');
    if changes != [] {
      assert changes[1..] == [];
      if changes[0].Taken? {
        assert Messages(s)[1..] == Messages(s');
      }
    }
  }

  /** Over any run, with urgent sends, timeouts and resets, the queued messages go through the changes of a plain
      list. */
  lemma {:induction false} RunPlays(s: State, steps: seq<Step>, flag: Flag, s': State)
    requires Valid(s) && Reaches(s, steps, flag, s')
    ensures Plays(Messages(s), AllChanges(s, steps, flag), Messages(s'))
    decreases |steps|
  {
    hide Next; hide Messages; hide Changes; hide Valid; hide Enabled; hide Plays;
    if steps == [] {
      PlaysNone(Messages(s));
    } else {
      var s1 := Next(s, steps[0], flag).0;
      StepKeeps(s, steps[0], flag);
      StepPlays(s, steps[0], flag);
      RunPlays(s1, steps[1..], flag, s');
      OneChange(s, steps[0], s1);
      PlaysFirst(Messages(s), Changes(s, steps[0], s1), Messages(s1), AllChanges(s1, steps[1..], flag), Messages(s'));
    }
  }

  lemma PlaysNone(list: seq<Message>)
    ensures Plays(list, [], list)
  {
  }

  lemma OneChange(s: State, step: Step, s': State)
    ensures |Changes(s, step, s')| <= 1
  {
  }

  /** When every operation is over, the nodes that are not queued are free. */
  lemma QuietFree(max: nat, msgSize: nat, steps: seq<Step>, flag: Flag, s: State, n: Node)
    requires Reaches(Init(max, msgSize), steps, flag, s) && n < |s.data|
    requires forall t :: !PhaseOf(s, t).Filling? && !PhaseOf(s, t).Draining?
    ensures n in s.queue <==> n !in s.free
  {
    InitValid(max, msgSize);
    RunKeeps(Init(max, msgSize), steps, flag, s);
    assert Placed(s.queue, s.free, s.phase, n);
    forall t ensures !HeldBy(s.phase, t, n) {
      assert !PhaseOf(s, t).Filling? && !PhaseOf(s, t).Draining?;
    }
  }

  // ----- in place -----

  const NULL := -1

  /** `nodes` is the list that starts at `first`. */
  ghost predicate Chain(next: seq<int>, first: int, nodes: seq<Node>) {
    && first == (if nodes == [] then NULL else nodes[0])
    && forall i :: 0 <= i < |nodes| ==> LinkAt(next, nodes, i)
  }

  ghost predicate LinkAt(next: seq<int>, nodes: seq<Node>, i: nat)
    requires i < |nodes|
  {
    nodes[i] < |next| && next[nodes[i]] == if i + 1 < |nodes| then nodes[i + 1] else NULL
  }

  lemma ChainFrame(next: seq<int>, next': seq<int>, first: int, nodes: seq<Node>, n: Node)
    requires Chain(next, first, nodes) && n !in nodes && |next'| == |next|
    requires forall x :: 0 <= x < |next| && x != n ==> next'[x] == next[x]
    ensures Chain(next', first, nodes)
  {
    forall i | 0 <= i < |nodes| ensures LinkAt(next', nodes, i) {
      assert LinkAt(next, nodes, i) && nodes[i] in nodes;
    }
  }

  lemma ChainRest(next: seq<int>, first: int, nodes: seq<Node>)
    requires Chain(next, first, nodes) && nodes != []
    ensures first == nodes[0] < |next| && Chain(next, next[first], nodes[1..])
  {
    assert LinkAt(next, nodes, 0);
    forall i | 0 <= i < |nodes| - 1 ensures LinkAt(next, nodes[1..], i) { assert LinkAt(next, nodes, i + 1); }
  }

  lemma ChainPush(next: seq<int>, first: int, nodes: seq<Node>, n: Node)
    requires Chain(next, first, nodes) && n !in nodes && n < |next|
    ensures Chain(next[n := first], n, [n] + nodes)
  {
    ChainFrame(next, next[n := first], first, nodes, n);
    var next', nodes' := next[n := first], [n] + nodes;
    forall i | 0 <= i < |nodes'| ensures LinkAt(next', nodes', i) {
      if i > 0 { assert LinkAt(next', nodes, i - 1); }
    }
  }

  lemma ChainAppend(next: seq<int>, first: int, nodes: seq<Node>, n: Node)
    requires Chain(next, first, nodes) && NoDuplicates(nodes) && n !in nodes && n < |next| && next[n] == NULL
    requires nodes != [] ==> nodes[|nodes| - 1] < |next|
    ensures var next' := if nodes == [] then next else next[nodes[|nodes| - 1] := n];
            Chain(next', if nodes == [] then n else first, nodes + [n])
  {
    if nodes != [] { assert LinkAt(next, nodes, |nodes| - 1); }
    var next' := if nodes == [] then next else next[nodes[|nodes| - 1] := n];
    var nodes' := nodes + [n];
    forall i | 0 <= i < |nodes'| ensures LinkAt(next', nodes', i) {
      if i < |nodes| { assert LinkAt(next, nodes, i) && nodes[i] in nodes; }
    }
  }

  class MessageQueue {
    const msgSize: nat
    const flag: Flag
    var next: seq<int>
    var data: seq<Message>
    var head: int
    var tail: int
    var free: int
    var entry: int
    var suspendThread: seq<Thread>
    /** What each thread is doing, which the source keeps in the threads. */
    var phase: map<Thread, Phase>
    ghost var queue: seq<Node>
    ghost var freeList: seq<Node>

    ghost function S(): State
      reads this
    {
      State(msgSize, data, queue, freeList, entry, suspendThread, phase)
    }

    /** The links spell out the queue and the free list, and the tail is the last queued node. */
    ghost predicate Linked()
      reads this
    {
      && |next| == |data| && Chain(next, head, queue) && Chain(next, free, freeList)
      && tail == if queue == [] then NULL else queue[|queue| - 1]
    }

    ghost predicate Ok()
      reads this
    {
      Valid(S()) && Linked()
    }

    /** `rt_mq_init` over a pool of `maxMsgs` nodes. */
    constructor (maxMsgs: nat, msgSize: nat, flag: Flag)
      ensures Ok() && S() == Init(maxMsgs, msgSize)
    {
      this.msgSize, this.flag := msgSize, flag;
      next, data := seq(maxMsgs, _ => NULL), seq(maxMsgs, _ => seq(msgSize, _ => 0));
      head, tail, free := NULL, NULL, NULL;
      entry, suspendThread, phase, queue, freeList := 0, [], map[], [], [];
      new;
      for temp := 0 to maxMsgs
        invariant |next| == maxMsgs && Chain(next, free, freeList)
        invariant freeList == seq(temp, i => if i < temp then temp - 1 - i else 0)
        invariant S() == Init(maxMsgs, msgSize).(free := freeList) && head == tail == NULL
      {
        assert temp !in freeList;
        ChainPush(next, free, freeList, temp);
        next := next[temp := free];
        free := temp;
        freeList := [temp] + freeList;
      }
      InitValid(maxMsgs, msgSize);
    }

    /** First section of `rt_mq_send` and `rt_mq_urgent`. */
    method TakeNode(t: Thread, bytes: Message, urgent: bool) returns (r: Result)
      requires Ok() && PhaseOf(S(), t).Idle?
      modifies this
      ensures Ok() && (S(), r) == SendBegin(old(S()), t, bytes, urgent)
    {
      hide Valid; hide Chain;
      SendBeginKeeps(S(), t, bytes, urgent);
      if |bytes| > msgSize { return Error(TooLong); }
      var msg := free;
      FreeNode();
      if msg == NULL { return Error(Full); }
      free := next[msg];
      freeList := freeList[1..];
      phase := phase[t := Filling(msg, bytes, urgent)];
      return Holding;
    }

    lemma FreeNode()
      requires Linked()
      ensures free == NULL <==> freeList == []
      ensures free != NULL ==> free == freeList[0] && 0 <= free < |next| && Chain(next, next[free], freeList[1..])
    {
      if freeList != [] { ChainRest(next, free, freeList); }
    }

    /** Fill the node, then the second section of `rt_mq_send` or `rt_mq_urgent`. */
    method LinkNode(t: Thread)
      requires Ok() && PhaseOf(S(), t).Filling?
      modifies this
      ensures Ok() && (S(), Done) == SendEnd(old(S()), t)
    {
      hide Valid; hide Chain; hide WakeReceiver; hide Overlay; hide NoDuplicates;
      SendEndKeeps(S(), t);
      var msg, bytes, urgent := phase[t].node, phase[t].bytes, phase[t].urgent;
      HeldPlace(S(), t, msg);
      data := data[msg := Overlay(data[msg], bytes)];
      if urgent { LinkFirst(msg); } else { LinkLast(msg); }
      entry := entry + 1;
      phase := phase[t := Idle];
      Resume();
    }

    method LinkLast(msg: Node)
      requires Linked() && msg < |next| && msg !in queue && msg !in freeList && NoDuplicates(queue)
      requires forall n :: n in queue ==> n !in freeList
      modifies this`next, this`head, this`tail, this`queue
      ensures Linked() && queue == old(queue) + [msg]
    {
      ghost var n0 := next;
      next := next[msg := NULL];
      ghost var n1 := next;
      ChainFrame(n0, n1, head, queue, msg);
      ChainFrame(n0, n1, free, freeList, msg);
      LastInRange(n1, head, queue);
      ChainAppend(n1, head, queue, msg);
      if tail != NULL {
        next := next[tail := msg];
        assert tail in queue;
        ChainFrame(n1, next, free, freeList, tail);
      }
      tail := msg;
      if head == NULL { head := msg; }
      queue := queue + [msg];
    }

    method LinkFirst(msg: Node)
      requires Linked() && msg < |next| && msg !in queue && msg !in freeList
      modifies this`next, this`head, this`tail, this`queue
      ensures Linked() && queue == [msg] + old(queue)
    {
      ChainPush(next, head, queue, msg);
      ChainFrame(next, next[msg := head], free, freeList, msg);
      next := next[msg := head];
      head := msg;
      if tail == NULL { tail := msg; }
      queue := [msg] + queue;
    }

    /** `rt_ipc_list_resume`, if anyone waits. */
    method Resume()
      modifies this`suspendThread, this`phase
      ensures S() == WakeReceiver(old(S()))
    {
      if suspendThread != [] {
        var t := suspendThread[0];
        suspendThread := suspendThread[1..];
        var p := if t in phase then phase[t] else Idle;
        phase := phase[t := match p case WaitRecv(timeout) => WokenRecv(timeout) case p => p];
      }
    }

    /** One pass of `rt_mq_recv` up to the end of its first section. */
    method RecvPass(t: Thread, timeout: int, prio: Priorities) returns (r: Result)
      requires Ok() && (PhaseOf(S(), t).Idle? || PhaseOf(S(), t).WokenRecv?)
      modifies this
      ensures Ok() && (S(), r) == Recv(old(S()), t, timeout, flag, prio)
    {
      hide Valid; hide Chain; hide Suspend;
      RecvKeeps(S(), t, timeout, flag, prio);
      QueueFacts(S());
      if entry == 0 {
        if timeout == 0 {
          phase := phase[t := Idle];
          return Error(Timeout);
        }
        suspendThread := SuspendOn(suspendThread, t, flag, prio);
        phase := phase[t := WaitRecv(timeout)];
        return Blocked;
      }
      FirstNode();
      var msg := head;
      head := next[msg];
      if tail == msg { tail := NULL; }
      entry := entry - 1;
      queue := queue[1..];
      phase := phase[t := Draining(msg, data[msg])];
      return Holding;
    }

    lemma FirstNode()
      requires Linked() && queue != [] && NoDuplicates(queue)
      ensures head == queue[0] && 0 <= head < |next| && Chain(next, next[head], queue[1..])
      ensures tail == head <==> |queue| == 1
    {
      ChainRest(next, head, queue);
    }

    /** Read the node, then the last section of `rt_mq_recv`. */
    method ReturnNode(t: Thread, size: nat) returns (r: Result)
      requires Ok() && PhaseOf(S(), t).Draining?
      modifies this
      ensures Ok() && (S(), r) == RecvEnd(old(S()), t, size)
    {
      hide Valid; hide Chain;
      RecvEndKeeps(S(), t, size);
      var msg := phase[t].node;
      HeldPlace(S(), t, msg);
      r := Got(data[msg][..Min(Min(size, msgSize), |data[msg]|)]);
      ChainPush(next, free, freeList, msg);
      ChainFrame(next, next[msg := free], head, queue, msg);
      next := next[msg := free];
      free := msg;
      freeList := [msg] + freeList;
      phase := phase[t := Idle];
    }

    /** `rt_thread_timeout` on a thread that waits here. */
    method TimeOut(t: Thread)
      requires Ok() && t in suspendThread
      modifies this
      ensures Ok() && S() == Expire(old(S()), t)
    {
      ExpireKeeps(S(), t);
      suspendThread := Without(suspendThread, t);
      phase := phase[t := Failed(Timeout)];
    }

    /** The first queued node goes back to the free list. */
    method RecycleHead()
      requires Linked() && queue != [] && NoDuplicates(queue) && forall n :: n in queue ==> n !in freeList
      modifies this
      ensures Linked() && queue == old(queue)[1..] && freeList == [old(queue)[0]] + old(freeList)
      ensures S() == old(S()).(queue := queue, free := freeList)
    {
      hide Chain;
      FirstNode();
      PopFront(queue);
      var msg := head;
      head := next[msg];
      if tail == msg { tail := NULL; }
      ChainPush(next, free, freeList, msg);
      ChainFrame(next, next[msg := free], head, queue[1..], msg);
      next := next[msg := free];
      free := msg;
      freeList := [msg] + freeList;
      queue := queue[1..];
    }

    /** `rt_mq_control` with RT_IPC_CMD_RESET. */
    method Control()
      requires Ok()
      modifies this
      ensures Ok() && S() == ResetAll(old(S()))
    {
      hide Valid; hide Chain;
      ResetKeeps(S());
      QueueFacts(S());
      while suspendThread != []
        invariant FailAll(phase, suspendThread, Failed(Reset)) == FailAll(old(phase), old(suspendThread), Failed(Reset))
        invariant Linked() && S() == old(S()).(receivers := suspendThread, phase := phase)
        decreases |suspendThread|
      {
        phase := phase[suspendThread[0] := Failed(Reset)];
        suspendThread := suspendThread[1..];
      }
      while head != NULL
        invariant Linked() && S() == old(S()).(receivers := [], phase := phase, queue := queue, free := freeList)
        invariant phase == FailAll(old(phase), old(suspendThread), Failed(Reset))
        invariant NoDuplicates(queue) && forall n :: n in queue ==> n !in freeList
        invariant PushAll(freeList, queue) == PushAll(old(freeList), old(queue))
        decreases |queue|
      {
        HeadNull();
        PopFront(queue);
        RecycleHead();
      }
      HeadNull();
      entry := 0;
    }

    lemma HeadNull()
      requires Linked()
      ensures head == NULL <==> queue == []
    {
    }
  }

  lemma LastInRange(next: seq<int>, first: int, nodes: seq<Node>)
    requires Chain(next, first, nodes)
    ensures nodes != [] ==> nodes[|nodes| - 1] < |next|
  {
    assert nodes != [] ==> LinkAt(next, nodes, |nodes| - 1);
  }

  lemma QueueFacts(s: State)
    requires Valid(s)
    ensures NoDuplicates(s.queue) && (forall n :: n in s.queue ==> n < |s.data| && n !in s.free) && s.entry == |s.queue|
    ensures s.queue != [] ==> s.queue[0] < |s.data|
  {
    QueuedInRange(s);
  }
}
