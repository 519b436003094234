/** One semaphore and one barrier among everything else the threads do. */
module SemaphoreTheorems {
  import opened Base
  import opened SchedulerSpec
  import ST = SchedulerTheorems
  import SH = SchedulerHistory
  import opened SyncSpec

  /** `ups`, `downs` and `grants` count calls of up, calls of down, and downs allowed to return. */
  datatype SemSys<T, Q> = SemSys(sched: Sched<T, Q>, slots: int, ups: nat, downs: nat, grants: nat)

  datatype SemEvent<T, Q> = CallUp | CallDown | Other(e: Event<T, Q>)

  predicate Allowed<T(==), Q(==)>(y: SemSys<T, Q>, q: Q, e: SemEvent<T, Q>) {
    HasQueue(y.sched, q) && (e.Other? ==> Enabled(y.sched, e.e) && !Touches(e.e, q))
  }

  function Next<T(==), Q(==)>(y: SemSys<T, Q>, q: Q, e: SemEvent<T, Q>): SemSys<T, Q>
    requires Allowed(y, q, e)
  {
    match e
    case CallUp =>
      var (s, slots) := Up(y.sched, y.slots, q);
      // a hand-off lets one sleeping down return
      y.(sched := s, slots := slots, ups := y.ups + 1, grants := if y.sched.queues[q] == [] then y.grants else y.grants + 1)
    case CallDown =>
      var (s, slots, done) := Down(y.sched, y.slots, q);
      y.(sched := s, slots := slots, downs := y.downs + 1, grants := if done then y.grants + 1 else y.grants)
    case Other(e) => y.(sched := Step(y.sched, e))
  }

  /** Slots are conserved, and a down sleeps only while there is none. */
  ghost predicate Conserved<T, Q>(y: SemSys<T, Q>, q: Q, initial: nat) {
    && q in y.sched.queues
    && 0 <= y.slots == initial + y.ups - y.grants
    && y.downs == y.grants + |y.sched.queues[q]|
    && (0 < y.slots ==> y.sched.queues[q] == [])
  }

  ghost predicate Run<T, Q>(ys: seq<SemSys<T, Q>>, es: seq<SemEvent<T, Q>>, q: Q, initial: nat) {
    && |ys| == |es| + 1
    && q in ys[0].sched.queues && ys[0].sched.queues[q] == []
    && ys[0] == SemSys(ys[0].sched, initial, 0, 0, 0)
    && forall i {:trigger es[i]} | 0 <= i < |es| :: Allowed(ys[i], q, es[i]) && Next(ys[i], q, es[i]) == ys[i + 1]
  }

  /**
  In every state of every run: slots = initial + ups - grants >= 0, the downs not granted are exactly
  the sleepers, and there are sleepers only when the slots are used up. So the downs that have
  returned never outnumber initial + ups, and equal it as soon as anyone sleeps.
  */
  lemma {:induction false} SemaphoreConserves<T, Q>(ys: seq<SemSys<T, Q>>, es: seq<SemEvent<T, Q>>, q: Q, initial: nat, i: nat)
    requires Run(ys, es, q, initial) && i <= |es|
    ensures Conserved(ys[i], q, initial)
    ensures ys[i].grants <= initial + ys[i].ups
    ensures ys[i].sched.queues[q] != [] ==> ys[i].grants == initial + ys[i].ups
  {
    if 0 < i {
      SemaphoreConserves(ys, es, q, initial, i - 1);
      assert Next(ys[i - 1], q, es[i - 1]) == ys[i];
    }
  }

  /** Who goes to sleep on the semaphore at this event, and who is right behind the running thread after a hand-off. */
  function Sleeper<T(==), Q(==)>(y: SemSys<T, Q>, e: SemEvent<T, Q>): seq<T> {
    if e.CallDown? && y.slots <= 0 && y.sched.ring != [] then [y.sched.ring[0]] else []
  }

  function Riser<T(==), Q(==)>(y: SemSys<T, Q>, q: Q, e: SemEvent<T, Q>, y': SemSys<T, Q>): seq<T> {
    if e.CallUp? && q in y.sched.queues && y.sched.queues[q] != [] && 1 < |y'.sched.ring| then [y'.sched.ring[1]] else []
  }

  lemma StepFifo<T, Q>(y: SemSys<T, Q>, q: Q, e: SemEvent<T, Q>, y': SemSys<T, Q>)
    requires Allowed(y, q, e) && Next(y, q, e) == y'
    ensures q in y'.sched.queues && Riser(y, q, e, y') + y'.sched.queues[q] == y.sched.queues[q] + Sleeper(y, e)
  {
  }

  function Slept<T(==), Q(==)>(ys: seq<SemSys<T, Q>>, es: seq<SemEvent<T, Q>>, n: nat): seq<T>
    requires |ys| == |es| + 1 && n <= |es|
  {
    if n == 0 then [] else Slept(ys, es, n - 1) + Sleeper(ys[n - 1], es[n - 1])
  }

  function Risen<T(==), Q(==)>(ys: seq<SemSys<T, Q>>, es: seq<SemEvent<T, Q>>, q: Q, n: nat): seq<T>
    requires |ys| == |es| + 1 && n <= |es|
  {
    if n == 0 then [] else Risen(ys, es, q, n - 1) + Riser(ys[n - 1], q, es[n - 1], ys[n])
  }

  /** Over every run slots are handed to sleepers in the order in which they went to sleep. */
  lemma {:induction false} SemaphoreFifo<T, Q>(ys: seq<SemSys<T, Q>>, es: seq<SemEvent<T, Q>>, q: Q, initial: nat, n: nat)
    requires Run(ys, es, q, initial) && n <= |es|
    ensures q in ys[n].sched.queues && Risen(ys, es, q, n) + ys[n].sched.queues[q] == Slept(ys, es, n)
  {
    if 0 < n {
      SemaphoreFifo(ys, es, q, initial, n - 1);
      assert Allowed(ys[n - 1], q, es[n - 1]) && Next(ys[n - 1], q, es[n - 1]) == ys[n];
      StepFifo(ys[n - 1], q, es[n - 1], ys[n]);
      SH.FifoStep(Risen(ys, es, q, n - 1), ys[n - 1].sched.queues[q], [], Slept(ys, es, n - 1), ys[n].sched.queues[q],
                  Riser(ys[n - 1], q, es[n - 1], ys[n]), Sleeper(ys[n - 1], es[n - 1]));
    }
  }

  // ---------------------------------------------------------------- barriers

  /** `arrived` counts all calls of wait, `passed` those allowed to return, `openings` the openings. */
  datatype BarSys<T, Q> = BarSys(sched: Sched<T, Q>, counter: int, arrived: nat, passed: nat, openings: nat)

  datatype BarEvent<T, Q> = CallWait | Others(e: Event<T, Q>)

  predicate AllowedAt<T(==), Q(==)>(y: BarSys<T, Q>, q: Q, e: BarEvent<T, Q>) {
    HasQueue(y.sched, q) && (e.Others? ==> Enabled(y.sched, e.e) && !Touches(e.e, q))
  }

  function NextAt<T(==), Q(==)>(y: BarSys<T, Q>, q: Q, e: BarEvent<T, Q>): BarSys<T, Q>
    requires AllowedAt(y, q, e)
  {
    match e
    case CallWait =>
      var (s, counter, open) := Arrive(y.sched, y.counter, q);
      if open then BarSys(s, counter, y.arrived + 1, y.passed + |y.sched.queues[q]| + 1, y.openings + 1)
      else y.(sched := s, counter := counter, arrived := y.arrived + 1)
    case Others(e) => y.(sched := Step(y.sched, e))
  }

  ghost predicate BarInv<T, Q>(y: BarSys<T, Q>, q: Q, n: nat) {
    && Inv(y.sched) && q in y.sched.queues
    && y.counter + |y.sched.queues[q]| == n && 1 <= y.counter
    && y.arrived == y.passed + |y.sched.queues[q]|
    && y.passed == y.openings * n
  }

  ghost predicate BarRun<T, Q>(ys: seq<BarSys<T, Q>>, es: seq<BarEvent<T, Q>>, q: Q, n: nat) {
    && |ys| == |es| + 1 && 1 <= n
    && Inv(ys[0].sched) && q in ys[0].sched.queues && ys[0].sched.queues[q] == []
    && ys[0] == BarSys(ys[0].sched, n, 0, 0, 0)
    && forall i {:trigger es[i]} | 0 <= i < |es| :: AllowedAt(ys[i], q, es[i]) && NextAt(ys[i], q, es[i]) == ys[i + 1]
  }

  lemma WakeAllKeepsInv<T, Q>(s: Sched<T, Q>, q: Q)
    requires Inv(s) && HasQueue(s, q)
    ensures Inv(WakeAll(s, q))
    decreases |s.queues[q]|
  {
    if s.queues[q] != [] {
      ST.StepKeepsInv(s, UnblockFrom(q));
      WakeAllKeepsInv(Unblock(s, q), q);
    }
  }

  lemma OneMore(openings: nat, n: nat, passed: nat, more: nat)
    requires passed == openings * n && more == n
    ensures passed + more == (openings + 1) * n
  {
  }

  lemma SleepKeepsInv<T, Q>(y: BarSys<T, Q>, q: Q, n: nat)
    requires BarInv(y, q, n) && HasQueue(y.sched, q) && 1 < y.counter
    ensures BarInv(NextAt(y, q, CallWait), q, n)
  {
    ST.StepKeepsInv(y.sched, BlockOn(q));
  }

  lemma OpenKeepsInv<T, Q>(y: BarSys<T, Q>, q: Q, n: nat)
    requires BarInv(y, q, n) && HasQueue(y.sched, q) && y.counter == 1
    ensures BarInv(NextAt(y, q, CallWait), q, n)
  {
    var s := WakeAll(y.sched, q);
    assert NextAt(y, q, CallWait) == BarSys(s, n, y.arrived + 1, y.passed + |y.sched.queues[q]| + 1, y.openings + 1);
    WakeAllKeepsInv(y.sched, q);
    OpenCounts(y, q, n, s);
  }

  lemma OpenCounts<T, Q>(y: BarSys<T, Q>, q: Q, n: nat, s: Sched<T, Q>)
    requires BarInv(y, q, n) && y.counter == 1 && Inv(s) && q in s.queues && s.queues[q] == []
    ensures BarInv(BarSys(s, n, y.arrived + 1, y.passed + |y.sched.queues[q]| + 1, y.openings + 1), q, n)
  {
    OneMore(y.openings, n, y.passed, |y.sched.queues[q]| + 1);
  }

  lemma NextKeepsInv<T, Q>(y: BarSys<T, Q>, e: BarEvent<T, Q>, q: Q, n: nat)
    requires BarInv(y, q, n) && AllowedAt(y, q, e)
    ensures BarInv(NextAt(y, q, e), q, n)
  {
    match e
    case CallWait => if 1 < y.counter { SleepKeepsInv(y, q, n); } else { OpenKeepsInv(y, q, n); }
    case Others(e) => ST.StepKeepsInv(y.sched, e);
  }

  lemma {:induction false} BarrierInv<T, Q>(ys: seq<BarSys<T, Q>>, es: seq<BarEvent<T, Q>>, q: Q, n: nat, i: nat)
    requires BarRun(ys, es, q, n) && i <= |es|
    ensures BarInv(ys[i], q, n)
  {
    if 0 < i {
      BarrierInv(ys, es, q, n, i - 1);
      NextKeepsInv(ys[i - 1], es[i - 1], q, n);
    }
  }

  /**
  Generations: after every event exactly `n` calls have returned per opening, and fewer than `n` more
  have arrived, all asleep. So no one passes before the n-th arrival of its generation, and threads
  that come round again before their companions run count for the next one.
  */
  lemma BarrierGenerations<T, Q>(ys: seq<BarSys<T, Q>>, es: seq<BarEvent<T, Q>>, q: Q, n: nat, i: nat)
    requires BarRun(ys, es, q, n) && i <= |es|
    ensures q in ys[i].sched.queues
    ensures ys[i].passed == ys[i].openings * n
    ensures ys[i].arrived == ys[i].openings * n + |ys[i].sched.queues[q]| < (ys[i].openings + 1) * n
  {
    BarrierInv(ys, es, q, n, i);
  }

  /** The opening call wakes exactly `n - 1` distinct sleepers, all those asleep, beside the caller. */
  lemma BarrierOpensForGroup<T, Q>(ys: seq<BarSys<T, Q>>, es: seq<BarEvent<T, Q>>, q: Q, n: nat, i: nat)
    requires BarRun(ys, es, q, n) && i < |es| && es[i].CallWait?
    ensures ys[i + 1].passed == ys[i].passed || ys[i + 1].passed == ys[i].passed + n
    ensures ys[i + 1].passed != ys[i].passed ==>
              var group := [ys[i].sched.ring[0]] + ys[i].sched.queues[q];
              |group| == n && Distinct(group) && (forall t | t in group :: t in ys[i + 1].sched.ring) && ys[i + 1].sched.queues[q] == []
  {
    BarrierInv(ys, es, q, n, i);
    BarrierInv(ys, es, q, n, i + 1);
    var s, s' := ys[i].sched, ys[i + 1].sched;
    assert s.ring[0] in s.ring;
    if ys[i + 1].passed != ys[i].passed {
      assert s' == WakeAll(s, q);
      forall t | t in s.queues[q] ensures t in s'.ring {
        var k :| 0 <= k < |s.queues[q]| && s.queues[q][k] == t;
        assert s'.ring[|s.queues[q]| - k] == t;
      }
      assert s'.ring[0] == s.ring[0];
    }
  }
}
