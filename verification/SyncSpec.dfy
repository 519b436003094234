/**
Locks, conditions, semaphores and barriers (kernel/sync.cpp) on values. Every operation runs with
interrupts off, so nothing interleaves with it except where it calls `block`. Each function below is
one such uninterrupted stretch: from the start of a call, or from being woken, to its end or to the
next `block`.
*/
module SyncSpec {
  import opened Base
  import opened SchedulerSpec

  predicate HasQueue<T(==), Q(==)>(s: Sched<T, Q>, q: Q) { s.ring != [] && !s.halted && q in s.queues }

  /** Whether another thread's event moves a thread to or from queue `q`. */
  predicate Touches<T, Q(==)>(e: Event<T, Q>, q: Q) { (e.BlockOn? || e.UnblockFrom?) && e.q == q }

  /** One round of `lock_acquire_helper`: take the free lock, or go to sleep and test again later. */
  function AcquireRound<T(==), Q(==)>(s: Sched<T, Q>, locked: bool, q: Q): (r: (Sched<T, Q>, bool, bool))
    requires HasQueue(s, q)
  {
    if locked then (Block(s, q), true, false) else (s, true, true)
  }

  function WakeOne<T(==), Q(==)>(s: Sched<T, Q>, q: Q): (r: Sched<T, Q>)
    requires HasQueue(s, q)
  {
    if s.queues[q] == [] then s else Unblock(s, q)
  }

  /** `lock_release_helper`; the status becomes UNLOCKED whatever it was. */
  function Release<T(==), Q(==)>(s: Sched<T, Q>, q: Q): (r: Sched<T, Q>)
    requires HasQueue(s, q)
  {
    WakeOne(s, q)
  }

  /** `Condition::wait` up to its `block`: give the lock up and sleep on the condition in one stretch. */
  function WaitStart<T(==), Q(==)>(s: Sched<T, Q>, lq: Q, cq: Q): (r: Sched<T, Q>)
    requires HasQueue(s, lq) && HasQueue(s, cq)
  {
    Block(Release(s, lq), cq)
  }

  /** The loop of `Condition::broadcast` and `Barrier::wait`. */
  function WakeAll<T(==), Q(==)>(s: Sched<T, Q>, q: Q): (r: Sched<T, Q>)
    requires HasQueue(s, q)
    ensures r == s.(ring := [s.ring[0]] + Reversed(s.queues[q]) + s.ring[1..], queues := s.queues[q := []])
    decreases |s.queues[q]|
  {
    if s.queues[q] == [] then
      assert s.queues == s.queues[q := []] && s.ring == [s.ring[0]] + [] + s.ring[1..];
      s
    else
      var s1, w := Unblock(s, q), s.queues[q][0];
      assert s1.ring[1..] == [w] + s.ring[1..];
      assert [s.ring[0]] + Reversed(s.queues[q][1..]) + ([w] + s.ring[1..]) == [s.ring[0]] + Reversed(s.queues[q]) + s.ring[1..];
      WakeAll(s1, q)
  }

  function Up<T(==), Q(==)>(s: Sched<T, Q>, slots: int, q: Q): (r: (Sched<T, Q>, int))
    requires HasQueue(s, q)
  {
    if s.queues[q] == [] then (s, slots + 1) else (Unblock(s, q), slots)
  }

  /** The last component tells whether `down` returned; otherwise it will when it is woken. */
  function Down<T(==), Q(==)>(s: Sched<T, Q>, slots: int, q: Q): (r: (Sched<T, Q>, int, bool))
    requires HasQueue(s, q)
  {
    if 0 < slots then (s, slots - 1, true) else (Block(s, q), slots, false)
  }

  function Arrive<T(==), Q(==)>(s: Sched<T, Q>, counter: int, q: Q): (r: (Sched<T, Q>, int, bool))
    requires HasQueue(s, q)
  {
    if 0 < counter - 1 then (Block(s, q), counter - 1, false)
    else (WakeAll(s, q), counter - 1 + |s.queues[q]| + 1, true)
  }

  /** The arrival that opens the barrier. */
  lemma LastArrival<T, Q>(s: Sched<T, Q>, counter: int, q: Q, r: Sched<T, Q>, n: int)
    requires HasQueue(s, q) && counter <= 1 && WakeAll(s, q) == r && n == counter + |s.queues[q]|
    ensures Arrive(s, counter, q) == (r, n, true)
  {
    var a := Arrive(s, counter, q);
    assert a.0 == r;
    assert a.1 == n && a.2;
  }
}
