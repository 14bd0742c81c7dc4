/** Time slices of src/clock.c on top of the scheduler: `rt_tick_increase` charges the running thread
    and yields when its slice is used up. */
module RoundRobin {
  import opened Lists
  import opened Scheduler
  import opened Words

  /** `remaining_tick` and `init_tick` of each thread. */
  datatype Slices = Slices(sched: State, remaining: map<Thread, nat>, init: map<Thread, nat>)

  function Of(ticks: map<Thread, nat>, t: Thread): nat { if t in ticks then ticks[t] else 0 }

  /** `rt_thread_yield` on the scheduler. */
  function Yielded(wide: bool, s: State): State
    requires Shape(s.bits)
  {
    if CanYield(s) then Choose(wide, Rotate(s, s.current.value)) else s
  }

  /** The slice part of `rt_tick_increase`; the counter has 32 bits. */
  function ChargeTick(wide: bool, s: Slices): Slices
    requires Shape(s.sched.bits)
  {
    if s.sched.current.None? then s
    else
      var t := s.sched.current.value;
      var left := (Of(s.remaining, t) + WRAP - 1) % WRAP;
      if left == 0 then s.(remaining := s.remaining[t := Of(s.init, t)], sched := Yielded(wide, s.sched))
      else s.(remaining := s.remaining[t := left])
  }

  /** A tick is charged to the current thread alone: it yields with a full slice at the last tick of its slice, and only
      then; a slice of zero has 2^32 ticks. */
  lemma ChargeIs(wide: bool, s: Slices, t: Thread)
    requires Shape(s.sched.bits) && s.sched.current == Some(t) && Of(s.remaining, t) < WRAP
    ensures var (s', left) := (ChargeTick(wide, s), Of(s.remaining, t));
            && s'.init == s.init && (forall u :: u != t ==> Of(s'.remaining, u) == Of(s.remaining, u))
            && Of(s'.remaining, t) == (if left == 1 then Of(s.init, t) else if left == 0 then WRAP - 1 else left - 1)
            && s'.sched == if left == 1 then Yielded(wide, s.sched) else s.sched
  {
    hide Yielded;
  }

  /** A thread that is alone at its priority keeps running through the end of its slice. */
  lemma AloneRuns(wide: bool, s: Slices, t: Thread)
    requires Valid(wide, s.sched) && s.sched.current == Some(t) && Of(s.remaining, t) < WRAP
    requires QueueOf(s.sched.queues, PrioOf(s.sched, t)) == [t]
    ensures Shape(s.sched.bits) && ChargeTick(wide, s).sched == s.sched
  {
    ShapeOf(wide, s.sched);
    hide Valid; hide Highest;
  }

  function Ticks(wide: bool, s: Slices, n: nat): Slices
    requires Shape(s.sched.bits)
    ensures Ticks(wide, s, n).sched.bits == s.sched.bits
    decreases n
  {
    if n == 0 then s else Ticks(wide, ChargeTick(wide, s), n - 1)
  }

  /** Which thread each of the next `n` ticks is charged to. */
  function Trace(wide: bool, s: Slices, n: nat): seq<Option<Thread>>
    requires Shape(s.sched.bits)
    decreases n
  {
    if n == 0 then [] else [s.sched.current] + Trace(wide, ChargeTick(wide, s), n - 1)
  }

  /** `q` is the queue of the most urgent ready threads, the scheduler is unlocked, and the first of
      them runs. */
  ghost predicate AtTop(wide: bool, s: State, p: nat, q: seq<Thread>) {
    && Valid(wide, s) && s.lockNest == 0 && QueueOf(s.queues, p) == q && |q| >= 2 && s.current == Some(q[0])
    && forall p': nat :: p' < p ==> QueueOf(s.queues, p') == []
  }

  /** Every thread of the queue has a whole slice of at least one tick. */
  ghost predicate FullSlices(s: Slices, q: seq<Thread>) {
    forall t :: t in q ==> t in s.remaining && 1 <= Of(s.init, t) < WRAP && s.remaining[t] == Of(s.init, t)
  }

  /** A yield at the top rotates the queue by one and runs the next thread. */
  lemma YieldRotates(wide: bool, s: State, p: nat, q: seq<Thread>)
    requires AtTop(wide, s, p, q)
    ensures Shape(s.bits)
    ensures var s' := Yielded(wide, s);
            && AtTop(wide, s', p, q[1..] + [q[0]])
            && s' == s.(queues := s.queues[p := q[1..] + [q[0]]], current := Some(q[1]))
  {
    hide HasBit; hide NoDuplicates; hide Highest; hide Indexed;
    var t := q[0];
    assert t in q && NoDuplicates(q);
    ShapeOf(wide, s);
    assert PrioOf(s, t) == p && StatOf(s, t) == Ready;
    RotateKeeps(wide, s, t);
    FirstOut(q);
    var s1 := Rotate(s, t);
    assert QueueOf(s1.queues, p) == q[1..] + [t];
    assert StatOf(s1, t) == Ready;
    TopChosen(wide, s1, p);
  }

  lemma ShapeOf(wide: bool, s: State)
    requires Valid(wide, s)
    ensures Shape(s.bits)
  {
  }

  lemma FirstOut(q: seq<Thread>)
    requires q != []
    ensures Without(q, q[0]) == q[1..]
  {
    assert Position(q, q[0]) == 0;
    assert q[..0] + q[1..] == q[1..];
  }

  /** The search of `rt_schedule` ends at the first queue that is not empty. */
  lemma TopChosen(wide: bool, s: State, p: nat)
    requires Valid(wide, s) && QueueOf(s.queues, p) != [] && forall p': nat :: p' < p ==> QueueOf(s.queues, p') == []
    ensures Shape(s.bits) && Highest(wide, s.bits) == p
  {
    hide HasBit; hide Highest; hide NoDuplicates;
    ShapeOf(wide, s);
    assert HasBit(wide, s.bits, p);
    HighestIs(wide, s.bits);
    var h: nat := Highest(wide, s.bits);
    assert HasBit(wide, s.bits, h) <==> QueueOf(s.queues, h) != [];
  }

  /** `n` ticks of one slice. */
  lemma {:induction false} WithinSlice(wide: bool, s: Slices, p: nat, q: seq<Thread>, n: nat)
    requires AtTop(wide, s.sched, p, q) && q[0] in s.remaining && n < s.remaining[q[0]] < WRAP
    ensures Shape(s.sched.bits)
    ensures Ticks(wide, s, n) == s.(remaining := s.remaining[q[0] := s.remaining[q[0]] - n])
    ensures Trace(wide, s, n) == seq(n, _ => Some(q[0]))
    decreases n
  {
    hide Valid;
    ShapeOf(wide, s.sched);
    if n > 0 {
      var s1 := ChargeTick(wide, s);
      assert s1 == s.(remaining := s.remaining[q[0] := s.remaining[q[0]] - 1]);
      WithinSlice(wide, s1, p, q, n - 1);
    } else {
      assert s.remaining == s.remaining[q[0] := s.remaining[q[0]] - n];
    }
  }

  /** A whole slice: the first thread runs its ticks, the queue turns by one, and all slices are full
      again. */
  lemma OneSlice(wide: bool, s: Slices, p: nat, q: seq<Thread>)
    requires AtTop(wide, s.sched, p, q) && FullSlices(s, q)
    ensures Shape(s.sched.bits)
    ensures var n, s' := Of(s.init, q[0]), Ticks(wide, s, Of(s.init, q[0]));
            && AtTop(wide, s'.sched, p, q[1..] + [q[0]]) && FullSlices(s', q[1..] + [q[0]])
            && s' == s.(sched := s.sched.(queues := s.sched.queues[p := q[1..] + [q[0]]], current := Some(q[1])))
            && Trace(wide, s, n) == seq(n, _ => Some(q[0]))
  {
    hide Valid; hide Yielded; hide AtTop; hide Ticks; hide Trace; hide ChargeTick;
    TopFacts(wide, s, p, q);
    var t, n := q[0], Of(s.init, q[0]);
    assert t in q;
    var s1 := s.(remaining := s.remaining[t := 1]);
    WithinSlice(wide, s, p, q, n - 1);
    TicksSplit(wide, s, n - 1, 1);
    LastTick(wide, s1, p, q);
    assert s1.remaining[t := n] == s.remaining;
    assert seq(n - 1, _ => Some(t)) + [Some(t)] == seq(n, _ => Some(t));
    forall u | u in q[1..] + [t] ensures u in q { }
  }

  /** The tick that uses a slice up. */
  lemma LastTick(wide: bool, s: Slices, p: nat, q: seq<Thread>)
    requires AtTop(wide, s.sched, p, q) && Of(s.remaining, q[0]) == 1
    ensures Shape(s.sched.bits) && Trace(wide, s, 1) == [Some(q[0])]
    ensures var s' := Ticks(wide, s, 1);
            && AtTop(wide, s'.sched, p, q[1..] + [q[0]])
            && s' == s.(remaining := s.remaining[q[0] := Of(s.init, q[0])],
                        sched := s.sched.(queues := s.sched.queues[p := q[1..] + [q[0]]], current := Some(q[1])))
  {
    hide Valid; hide Yielded;
    YieldRotates(wide, s.sched, p, q);
    assert Ticks(wide, s, 1) == Ticks(wide, ChargeTick(wide, s), 0);
    assert Trace(wide, s, 1) == [s.sched.current] + Trace(wide, ChargeTick(wide, s), 0);
  }

  lemma {:induction false} TicksSplit(wide: bool, s: Slices, m: nat, n: nat)
    requires Shape(s.sched.bits)
    ensures Shape(Ticks(wide, s, m).sched.bits)
    ensures Ticks(wide, s, m + n) == Ticks(wide, Ticks(wide, s, m), n)
    ensures Trace(wide, s, m + n) == Trace(wide, s, m) + Trace(wide, Ticks(wide, s, m), n)
    decreases m
  {
    if m > 0 {
      TicksSplit(wide, ChargeTick(wide, s), m - 1, n);
    }
  }

  function Total(init: map<Thread, nat>, q: seq<Thread>): nat
    decreases |q|
  {
    if q == [] then 0 else Of(init, q[0]) + Total(init, q[1..])
  }

  /** Each thread in turn for exactly its slice. */
  function Turns(init: map<Thread, nat>, q: seq<Thread>): seq<Option<Thread>>
    decreases |q|
  {
    if q == [] then [] else seq(Of(init, q[0]), _ => Some(q[0])) + Turns(init, q[1..])
  }

  /** The slices of the first threads `a` of the queue. */
  lemma {:induction false} SomeSlices(wide: bool, s: Slices, p: nat, a: seq<Thread>, b: seq<Thread>)
    requires AtTop(wide, s.sched, p, a + b) && FullSlices(s, a + b)
    ensures Shape(s.sched.bits)
    ensures var s' := Ticks(wide, s, Total(s.init, a));
            && AtTop(wide, s'.sched, p, b + a) && FullSlices(s', b + a)
            && s' == s.(sched := s.sched.(queues := s.sched.queues[p := b + a], current := Some((b + a)[0])))
            && Trace(wide, s, Total(s.init, a)) == Turns(s.init, a)
    decreases |a|
  {
    hide Valid; hide AtTop; hide FullSlices; hide Ticks; hide Trace; hide ChargeTick;
    TopFacts(wide, s, p, a + b);
    if a == [] {
      assert a + b == b && b + a == b;
      NoTicks(wide, s);
      assert s.sched.queues[p := b] == s.sched.queues;
    } else {
      var q, rest, next := a + b, a[1..], b + [a[0]];
      var n := Of(s.init, a[0]);
      assert q[1..] + [q[0]] == rest + next && next + rest == b + a;
      OneSlice(wide, s, p, q);
      var s1 := Ticks(wide, s, n);
      SomeSlices(wide, s1, p, rest, next);
      TicksSplit(wide, s, n, Total(s.init, rest));
    }
  }

  lemma NoTicks(wide: bool, s: Slices)
    requires Shape(s.sched.bits)
    ensures Ticks(wide, s, 0) == s && Trace(wide, s, 0) == []
  {
  }

  lemma TopFacts(wide: bool, s: Slices, p: nat, q: seq<Thread>)
    requires AtTop(wide, s.sched, p, q)
    ensures Shape(s.sched.bits) && |q| >= 2 && s.sched.current == Some(q[0])
    ensures p in s.sched.queues && s.sched.queues[p] == q
  {
  }

  lemma TopInMap(s: State, p: nat, q: seq<Thread>)
    requires QueueOf(s.queues, p) == q && q != []
    ensures p in s.queues && s.queues[p] == q
  {
  }

  /** Over the sum of the slices every thread of the top queue runs exactly its slice, in queue order,
      and everything is as before. */
  lemma FullCycle(wide: bool, s: Slices, p: nat, q: seq<Thread>)
    requires AtTop(wide, s.sched, p, q) && FullSlices(s, q)
    ensures Shape(s.sched.bits)
    ensures Ticks(wide, s, Total(s.init, q)) == s && Trace(wide, s, Total(s.init, q)) == Turns(s.init, q)
  {
    hide Valid;
    assert q + [] == q && [] + q == q;
    SomeSlices(wide, s, p, q, []);
    TopInMap(s.sched, p, q);
    assert s.sched.queues[p := q] == s.sched.queues;
  }

  // ----- in place -----

  class Clock {
    const kernel: Kernel
    var remaining: map<Thread, nat>
    var init: map<Thread, nat>

    ghost function S(): Slices
      reads this, kernel
    {
      Slices(kernel.S(), remaining, init)
    }

    constructor (kernel: Kernel, init: map<Thread, nat>)
      ensures this.kernel == kernel && S() == Slices(kernel.S(), init, init)
    {
      this.kernel, this.init, remaining := kernel, init, init;
    }

    /** The slice part of `rt_tick_increase`. */
    method TickIncrease()
      requires Valid(kernel.wide, kernel.S()) && exists t :: StatOf(kernel.S(), t) == Ready
      modifies this, kernel
      ensures |old(kernel.readyTable)| == 32 && Valid(kernel.wide, kernel.S())
      ensures S() == ChargeTick(kernel.wide, old(S()))
    {
      hide Valid; hide Highest;
      ShapeOf(kernel.wide, kernel.S());
      if kernel.current.Some? {
        var t := kernel.current.value;
        var left := (Of(remaining, t) + WRAP - 1) % WRAP;
        remaining := remaining[t := left];
        if remaining[t] == 0 {
          remaining := remaining[t := Of(init, t)];
          kernel.YieldNow();
        }
      }
    }
  }
}
