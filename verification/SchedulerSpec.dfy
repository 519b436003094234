/**
Scheduling on values (kernel/scheduler.cpp): the ready ring with the running thread first, the wait
queues, the zombie slot and the threads that exist. Generic in what identifies a thread and a queue.
*/
module SchedulerSpec {
  import opened Base

  datatype Sched<T, Q> = Sched(ring: seq<T>, queues: map<Q, seq<T>>, zombie: Option<T>, live: set<T>, halted: bool)

  /** Why the running thread enters the scheduler, as its state tells. */
  datatype Cause = Ready | Running | Blocked | Exited | ExitedNoZombie

  /**
  `scheduler`: reap the thread that exited at the previous call, then move on. A thread that leaves
  the ring as its only member halts the machine.
  */
  function Dispatch<T, Q>(s: Sched<T, Q>, cause: Cause): (r: Sched<T, Q>)
    requires s.ring != []
  {
    var s1 := if s.zombie.Some? then s.(live := s.live - {s.zombie.value}, zombie := None) else s;
    if cause.Ready? then s1.(ring := s.ring[1..] + [s.ring[0]])
    else if cause.Running? then s1
    else if |s.ring| == 1 then s1.(halted := true)
    else s1.(ring := s.ring[1..],
             zombie := if cause.Exited? then Some(s.ring[0]) else None,
             live := if cause.ExitedNoZombie? then s1.live - {s.ring[0]} else s1.live)
  }

  /** `block`: the running thread goes to the end of the queue and the scheduler takes over. */
  function Block<T, Q>(s: Sched<T, Q>, q: Q): Sched<T, Q>
    requires s.ring != [] && q in s.queues
  {
    Dispatch(s.(queues := s.queues[q := s.queues[q] + [s.ring[0]]]), Blocked)
  }

  /** `unblock`: the head of the queue enters the ring right behind the running thread. */
  function Unblock<T, Q>(s: Sched<T, Q>, q: Q): Sched<T, Q>
    requires s.ring != [] && q in s.queues && s.queues[q] != []
  {
    s.(ring := [s.ring[0], s.queues[q][0]] + s.ring[1..], queues := s.queues[q := s.queues[q][1..]])
  }

  /** The splice at the end of `thread_create`: the new thread is last to run. */
  function Create<T, Q>(s: Sched<T, Q>, t: T): Sched<T, Q> {
    s.(ring := s.ring + [t], live := s.live + {t})
  }

  datatype Event<T, Q> =
    | Switch                    // timer tick or yield
    | BlockOn(q: Q)
    | Exit
    | ExitNoZombie
    | UnblockFrom(q: Q)
    | NewThread(t: T)

  predicate Enabled<T(==), Q(==)>(s: Sched<T, Q>, e: Event<T, Q>) {
    && s.ring != [] && !s.halted
    && match e
       case BlockOn(q) => q in s.queues
       case UnblockFrom(q) => q in s.queues && s.queues[q] != []
       case NewThread(t) => t !in s.live
       case _ => true
  }

  function Step<T(==), Q(==)>(s: Sched<T, Q>, e: Event<T, Q>): Sched<T, Q>
    requires Enabled(s, e)
  {
    match e
    case Switch => Dispatch(s, Ready)
    case BlockOn(q) => Block(s, q)
    case Exit => Dispatch(s, Exited)
    case ExitNoZombie => Dispatch(s, ExitedNoZombie)
    case UnblockFrom(q) => Unblock(s, q)
    case NewThread(t) => Create(s, t)
  }

  predicate CallsScheduler<T, Q>(e: Event<T, Q>) { !e.UnblockFrom? && !e.NewThread? }

  // ---------------------------------------------------------------- one place each

  /** Every thread that exists is in exactly one place, once. */
  ghost predicate Placed<T, Q>(s: Sched<T, Q>) {
    && Distinct(s.ring)
    && (forall q | q in s.queues :: Distinct(s.queues[q]))
    && (forall t | t in s.ring :: t in s.live && s.zombie != Some(t))
    && (forall q, t | q in s.queues && t in s.queues[q] :: t in s.live && t !in s.ring && s.zombie != Some(t))
    && (forall q, p, t | q in s.queues && p in s.queues && t in s.queues[q] && t in s.queues[p] :: p == q)
    && (s.zombie.Some? ==> s.zombie.value in s.live)
    && (forall t | t in s.live :: t in s.ring || s.zombie == Some(t) || exists q :: q in s.queues && t in s.queues[q])
  }

  ghost predicate Inv<T, Q>(s: Sched<T, Q>) {
    s.ring != [] && (s.halted || Placed(s))
  }
}
