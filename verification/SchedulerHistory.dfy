/**
What becomes of a thread over a run of scheduling events: it moves only by its own calls, by being woken as
the first of its queue, or by being reaped; wait queues are first in, first out; and the zombie slot holds
whoever exited at the last scheduler call, and no one else.
*/
module SchedulerHistory {
  import opened Base
  import opened SchedulerSpec
  import opened SchedulerTheorems

  datatype Place<Q> = InRing | Waiting(q: Q) | Slot | Gone

  ghost predicate At<T, Q>(s: Sched<T, Q>, t: T, p: Place<Q>) {
    match p
    case InRing => t in s.ring
    case Waiting(q) => q in s.queues && t in s.queues[q]
    case Slot => s.zombie == Some(t)
    case Gone => t !in s.live
  }

  /** A thread is at one place at a time. */
  lemma OnePlace<T, Q>(s: Sched<T, Q>, t: T, p: Place<Q>, r: Place<Q>)
    requires Placed(s) && At(s, t, p) && At(s, t, r)
    ensures p == r
  {
  }

  /** The running thread leaves the ring by this event. */
  predicate Leaves<T, Q>(e: Event<T, Q>) { e.BlockOn? || e.Exit? || e.ExitNoZombie? }

  /** Where the thread at place `p` should be after event `e`. */
  function Destination<T(==), Q(==)>(s: Sched<T, Q>, e: Event<T, Q>, t: T, p: Place<Q>): Place<Q>
    requires Enabled(s, e)
  {
    match p
    case InRing =>
      if t != s.ring[0] then InRing
      else (match e case BlockOn(q) => Waiting(q) case Exit => Slot case ExitNoZombie => Gone case _ => InRing)
    case Waiting(q) => if e == UnblockFrom(q) && t == s.queues[q][0] then InRing else p
    case Slot => if CallsScheduler(e) then Gone else Slot
    case Gone => if e == NewThread(t) then InRing else Gone
  }

  /** The machine halts exactly when the only ready thread leaves. */
  lemma HaltsIff<T, Q>(s: Sched<T, Q>, e: Event<T, Q>)
    requires Enabled(s, e)
    ensures Step(s, e).halted <==> |s.ring| == 1 && Leaves(e)
  {
  }

  lemma RingMoves<T, Q>(s: Sched<T, Q>, e: Event<T, Q>, t: T)
    requires Inv(s) && Enabled(s, e) && !Step(s, e).halted && t in s.ring
    ensures At(Step(s, e), t, Destination(s, e, t, InRing))
  {
    HeadTail(s.ring);
    if t == s.ring[0] && e.BlockOn? { assert t in Step(s, e).queues[e.q]; }
  }

  lemma WaitingMoves<T, Q>(s: Sched<T, Q>, e: Event<T, Q>, t: T, q: Q)
    requires Inv(s) && Enabled(s, e) && !Step(s, e).halted && q in s.queues && t in s.queues[q]
    ensures At(Step(s, e), t, Destination(s, e, t, Waiting(q)))
  {
    HeadTail(s.queues[q]);
    if e == UnblockFrom(q) && t == s.queues[q][0] { assert Step(s, e).ring[1] == t; }
  }

  /** Every event takes every thread exactly where it should go. */
  lemma StepMoves<T, Q>(s: Sched<T, Q>, e: Event<T, Q>, t: T, p: Place<Q>)
    requires Inv(s) && Enabled(s, e) && !Step(s, e).halted && At(s, t, p)
    ensures At(Step(s, e), t, Destination(s, e, t, p))
  {
    match p
    case InRing => RingMoves(s, e, t);
    case Waiting(q) => WaitingMoves(s, e, t, q);
    case Slot => ZombieElsewhere(s, t);
    case Gone => GoneElsewhere(s, t);
  }

  lemma ZombieElsewhere<T, Q>(s: Sched<T, Q>, t: T)
    requires Placed(s) && s.ring != [] && s.zombie == Some(t)
    ensures t != s.ring[0]
  {
    assert s.ring[0] in s.ring;
  }

  lemma GoneElsewhere<T, Q>(s: Sched<T, Q>, t: T)
    requires Placed(s) && s.ring != [] && t !in s.live
    ensures t != s.ring[0] && s.zombie != Some(t)
  {
    assert s.ring[0] in s.ring;
  }

  /** So a thread leaves the ring only by its own doing, and a wait queue only when it is the first and is woken. */
  lemma MovesOnlyItself<T, Q>(ss: seq<Sched<T, Q>>, es: seq<Event<T, Q>>, i: nat, t: T)
    requires Run(ss, es) && i < |es| && !ss[i + 1].halted
    ensures t in ss[i].ring && t !in ss[i + 1].ring ==> t == ss[i].ring[0] && Leaves(es[i])
    ensures forall q | q in ss[i].queues && t in ss[i].queues[q] && !(q in ss[i + 1].queues && t in ss[i + 1].queues[q]) ::
              es[i] == UnblockFrom(q) && t == ss[i].queues[q][0] && t in ss[i + 1].ring
    ensures t in ss[i].live && t !in ss[i + 1].live ==>
              (CallsScheduler(es[i]) && ss[i].zombie == Some(t)) || (es[i].ExitNoZombie? && t == ss[i].ring[0])
  {
    RunInv(ss, es, i);
    RunInv(ss, es, i + 1);
    var s, s' := ss[i], ss[i + 1];
    if t in s.ring { StepMoves(s, es[i], t, InRing); }
    if s.zombie == Some(t) { StepMoves(s, es[i], t, Slot); }
    forall q | q in s.queues && t in s.queues[q]
      ensures At(s', t, Destination(s, es[i], t, Waiting(q)))
    {
      StepMoves(s, es[i], t, Waiting(q));
    }
  }

  /** Where a thread stands in the ring when it comes back to it: last after its turn or when new, next when woken. */
  lemma ComesIn<T, Q>(s: Sched<T, Q>, e: Event<T, Q>)
    requires Enabled(s, e)
    ensures var r := Step(s, e).ring;
            match e
            case Switch => |r| == |s.ring| && r[|r| - 1] == s.ring[0]
            case UnblockFrom(q) => |r| == |s.ring| + 1 && r[0] == s.ring[0] && r[1] == s.queues[q][0]
            case NewThread(t) => |r| == |s.ring| + 1 && r[|r| - 1] == t && r[0] == s.ring[0]
            case _ => !Step(s, e).halted ==> |r| == |s.ring| - 1
  {
  }

  /** A call of the scheduler in state RUNNING reaps and goes on with the same thread. */
  lemma RunningGoesOn<T, Q>(s: Sched<T, Q>, t: T)
    requires Placed(s) && s.ring != []
    ensures Dispatch(s, Running).ring == s.ring && Placed(Dispatch(s, Running)) && Dispatch(s, Running).zombie.None?
    ensures t in Dispatch(s, Running).live <==> t in s.live && s.zombie != Some(t)
  {
    if s.zombie.Some? { ReapKeepsPlaced(s); }
  }

  // ---------------------------------------------------------------- first in, first out

  /** Who went to sleep on `q` in the first `n` events, in order. */
  function Entered<T(==), Q(==)>(ss: seq<Sched<T, Q>>, es: seq<Event<T, Q>>, q: Q, n: nat): seq<T>
    requires |ss| == |es| + 1 && n <= |es|
  {
    if n == 0 then []
    else Entered(ss, es, q, n - 1) + if es[n - 1] == BlockOn(q) && ss[n - 1].ring != [] then [ss[n - 1].ring[0]] else []
  }

  /** Who came into the ring, right behind the running thread, at an unblock of `q`. */
  function Woken<T(==), Q(==)>(ss: seq<Sched<T, Q>>, es: seq<Event<T, Q>>, q: Q, n: nat): seq<T>
    requires |ss| == |es| + 1 && n <= |es|
  {
    if n == 0 then []
    else Woken(ss, es, q, n - 1) + if es[n - 1] == UnblockFrom(q) && 1 < |ss[n].ring| then [ss[n].ring[1]] else []
  }

  lemma StepFifo<T, Q>(s: Sched<T, Q>, e: Event<T, Q>, q: Q)
    requires Enabled(s, e) && q in s.queues
    ensures q in Step(s, e).queues
    ensures e == BlockOn(q) ==> Step(s, e).queues[q] == s.queues[q] + [s.ring[0]]
    ensures e == UnblockFrom(q) ==> 1 < |Step(s, e).ring| && s.queues[q] == [Step(s, e).ring[1]] + Step(s, e).queues[q]
    ensures e != BlockOn(q) && e != UnblockFrom(q) ==> Step(s, e).queues[q] == s.queues[q]
  {
  }

  /** Over every run a wait queue is first in, first out: those woken and those still asleep are those who slept, in order. */
  lemma {:induction false} QueueFifo<T, Q>(ss: seq<Sched<T, Q>>, es: seq<Event<T, Q>>, q: Q, n: nat)
    requires Run(ss, es) && n <= |es| && q in ss[0].queues
    ensures q in ss[n].queues && Woken(ss, es, q, n) + ss[n].queues[q] == ss[0].queues[q] + Entered(ss, es, q, n)
  {
    if n == 0 {
      assert [] + ss[0].queues[q] == ss[0].queues[q] + [];
    } else {
      QueueFifo(ss, es, q, n - 1);
      assert Step(ss[n - 1], es[n - 1]) == ss[n];
      StepFifo(ss[n - 1], es[n - 1], q);
      FifoStep(Woken(ss, es, q, n - 1), ss[n - 1].queues[q], ss[0].queues[q], Entered(ss, es, q, n - 1), ss[n].queues[q],
               if es[n - 1] == UnblockFrom(q) then [ss[n].ring[1]] else [], if es[n - 1] == BlockOn(q) then [ss[n - 1].ring[0]] else []);
    }
  }

  lemma FifoStep<T>(woken: seq<T>, queue: seq<T>, first: seq<T>, entered: seq<T>, queue': seq<T>, outgoing: seq<T>, incoming: seq<T>)
    requires woken + queue == first + entered && outgoing + queue' == queue + incoming
    ensures (woken + outgoing) + queue' == first + (entered + incoming)
  {
    calc {
      (woken + outgoing) + queue';
      woken + (outgoing + queue');
      woken + (queue + incoming);
      (woken + queue) + incoming;
      (first + entered) + incoming;
      first + (entered + incoming);
    }
  }

  // ---------------------------------------------------------------- the zombie slot

  /** The slot after event `e`: filled by an exit, emptied by any other call, kept otherwise. */
  lemma StepSlot<T, Q>(s: Sched<T, Q>, e: Event<T, Q>)
    requires Enabled(s, e) && !Step(s, e).halted
    ensures Step(s, e).zombie == if e.Exit? then Some(s.ring[0]) else if CallsScheduler(e) then None else s.zombie
  {
  }

  /** `i` is the last scheduler call before `j`. */
  ghost predicate LastCall<T, Q>(es: seq<Event<T, Q>>, i: nat, j: nat)
    requires j <= |es|
  {
    i < j && CallsScheduler(es[i]) && forall k | i < k < j :: !CallsScheduler(es[k])
  }

  /** The last scheduler call before `j` was the exit of `t`. */
  ghost predicate JustExited<T, Q>(ss: seq<Sched<T, Q>>, es: seq<Event<T, Q>>, j: nat, t: T)
    requires |ss| == |es| + 1 && j <= |es|
  {
    exists i: nat :: LastCall(es, i, j) && es[i].Exit? && ss[i].ring != [] && t == ss[i].ring[0]
  }

  ghost predicate NoCall<T, Q>(es: seq<Event<T, Q>>, j: nat)
    requires j <= |es|
  {
    forall k | 0 <= k < j :: !CallsScheduler(es[k])
  }

  lemma AfterCall<T, Q>(ss: seq<Sched<T, Q>>, es: seq<Event<T, Q>>, j: nat, t: T)
    requires |ss| == |es| + 1 && j < |es| && CallsScheduler(es[j]) && ss[j].ring != []
    ensures !NoCall(es, j + 1) && (JustExited(ss, es, j + 1, t) <==> es[j].Exit? && t == ss[j].ring[0])
  {
    assert LastCall(es, j, j + 1);
  }

  lemma AfterOther<T, Q>(ss: seq<Sched<T, Q>>, es: seq<Event<T, Q>>, j: nat, t: T)
    requires |ss| == |es| + 1 && j < |es| && !CallsScheduler(es[j])
    ensures (NoCall(es, j + 1) <==> NoCall(es, j)) && (JustExited(ss, es, j + 1, t) <==> JustExited(ss, es, j, t))
  {
    forall i: nat ensures LastCall(es, i, j + 1) <==> LastCall(es, i, j) {}
  }

  /**
  A thread is in the zombie slot if and only if the last scheduler call was its exit, or there was no call
  yet and it was there at the start. So an exit without a zombie never fills the slot.
  */
  lemma {:induction false} ZombieIff<T, Q>(ss: seq<Sched<T, Q>>, es: seq<Event<T, Q>>, j: nat, t: T)
    requires Run(ss, es) && j <= |es| && !ss[j].halted
    ensures ss[j].zombie == Some(t) <==> JustExited(ss, es, j, t) || (NoCall(es, j) && ss[0].zombie == Some(t))
  {
    if 0 < j {
      var e := es[j - 1];
      assert Enabled(ss[j - 1], e) && Step(ss[j - 1], e) == ss[j];
      StepSlot(ss[j - 1], e);
      if CallsScheduler(e) {
        AfterCall(ss, es, j - 1, t);
      } else {
        ZombieIff(ss, es, j - 1, t);
        AfterOther(ss, es, j - 1, t);
      }
    }
  }

  /**
  A thread that exits without becoming a zombie is out of existence from that call on: the slot is empty, and
  no later call finds it there, unless a new thread is created in its place.
  */
  lemma {:induction false} GoneForGood<T, Q>(ss: seq<Sched<T, Q>>, es: seq<Event<T, Q>>, i: nat, j: nat)
    requires Run(ss, es) && i < j <= |es| && es[i].ExitNoZombie? && !ss[i + 1].halted
    requires forall k | i < k < j :: es[k] != NewThread(ss[i].ring[0])
    ensures var t := ss[i].ring[0];
            ss[i + 1].zombie.None? && t !in ss[j].live && ss[j].zombie != Some(t) && (!ss[j].halted ==> t !in ss[j].ring)
    decreases j
  {
    var t := ss[i].ring[0];
    RunInv(ss, es, j - 1);
    RunInv(ss, es, j);
    assert Enabled(ss[j - 1], es[j - 1]) && Step(ss[j - 1], es[j - 1]) == ss[j];
    if i + 1 < j {
      GoneForGood(ss, es, i, j - 1);
      assert ss[j - 1].ring[0] in ss[j - 1].ring;
    }
  }
}
