/**
One lock among everything else the threads do: other locks, conditions, semaphores, timer ticks,
creations and exits are `Other` events. `wanting` are the threads inside `lock_acquire_helper`, asleep
or woken and about to test again; `waiting` are those inside `Condition::wait` with this lock that have
not reached their `lock_acquire_helper` yet.
*/
module LockTheorems {
  import opened SchedulerSpec
  import ST = SchedulerTheorems
  import SH = SchedulerHistory
  import opened SyncSpec

  datatype LockSys<T, Q> = LockSys(sched: Sched<T, Q>, locked: bool, holders: set<T>, wanting: set<T>, waiting: set<T>)

  datatype LockEvent<T, Q> =
    | Acquire                        // Lock::acquire, first test
    | Test                           // the running thread was woken inside a helper and tests again
    | ReleaseLock                    // Lock::release
    | WaitOn(c: Q)                   // Condition::wait up to its sleep
    | Other(e: Event<T, Q>)

  /** Only a holder releases or waits, and no thread exits holding the lock. */
  predicate Allowed<T(==), Q(==)>(y: LockSys<T, Q>, q: Q, e: LockEvent<T, Q>) {
    HasQueue(y.sched, q) &&
    var me := y.sched.ring[0];
    match e
    case Acquire => me !in y.wanting && me !in y.waiting
    case Test => me in y.wanting || me in y.waiting
    case ReleaseLock => me in y.holders && me !in y.wanting && me !in y.waiting
    case WaitOn(c) => me in y.holders && me !in y.wanting && me !in y.waiting && c in y.sched.queues && c != q
    case Other(e) =>
      && Enabled(y.sched, e) && !Touches(e, q) && me !in y.wanting && me !in y.waiting
      && (e.Exit? || e.ExitNoZombie? ==> me !in y.holders)
  }

  /** A round of the acquire loop by the running thread. */
  function Round<T(==), Q(==)>(y: LockSys<T, Q>, q: Q): LockSys<T, Q>
    requires HasQueue(y.sched, q)
  {
    var me := y.sched.ring[0];
    var (s, locked, done) := AcquireRound(y.sched, y.locked, q);
    LockSys(s, locked,
            if done then y.holders + {me} else y.holders,
            if done then y.wanting - {me} else y.wanting + {me},
            y.waiting - {me})
  }

  function Next<T(==), Q(==)>(y: LockSys<T, Q>, q: Q, e: LockEvent<T, Q>): LockSys<T, Q>
    requires Allowed(y, q, e)
  {
    var me := y.sched.ring[0];
    match e
    case Acquire => Round(y, q)
    case Test => Round(y, q)
    case ReleaseLock => y.(sched := Release(y.sched, q), locked := false, holders := y.holders - {me})
    case WaitOn(c) =>
      y.(sched := WaitStart(y.sched, q, c), locked := false, holders := y.holders - {me}, waiting := y.waiting + {me})
    case Other(e) => y.(sched := Step(y.sched, e))
  }

  // ---------------------------------------------------------------- the invariant

  /** Mutual exclusion, and the status says whether there is a holder. */
  ghost predicate Exclusive<T, Q>(y: LockSys<T, Q>) {
    && (y.locked <==> y.holders != {})
    && forall a, b | a in y.holders && b in y.holders :: a == b
  }

  ghost predicate Sleepers<T, Q>(y: LockSys<T, Q>, q: Q)
    requires q in y.sched.queues
  {
    && (forall t | t in y.sched.queues[q] :: t in y.wanting)
    && (forall t | t in y.wanting :: t in y.sched.ring || t in y.sched.queues[q])
  }

  /** A free lock with sleepers has a woken thread in the ready ring that is about to test it. */
  ghost predicate NotStranded<T, Q>(y: LockSys<T, Q>, q: Q)
    requires q in y.sched.queues
  {
    !y.locked && y.sched.queues[q] != [] ==> exists t :: t in y.sched.ring && t in y.wanting
  }

  ghost predicate LockInv<T, Q>(y: LockSys<T, Q>, q: Q) {
    && Inv(y.sched) && q in y.sched.queues
    && Exclusive(y)
    && (!y.sched.halted ==> Sleepers(y, q) && NotStranded(y, q))
  }

  lemma RoundKeepsInv<T, Q>(y: LockSys<T, Q>, q: Q)
    requires LockInv(y, q) && HasQueue(y.sched, q)
    ensures LockInv(Round(y, q), q)
  {
    assert y.sched.ring[0] in y.sched.ring;
    if y.locked {
      ST.StepKeepsInv(y.sched, BlockOn(q));
      ST.HeadTail(y.sched.ring);
    }
  }

  lemma ReleaseKeepsInv<T, Q>(y: LockSys<T, Q>, q: Q, y': LockSys<T, Q>)
    requires LockInv(y, q) && HasQueue(y.sched, q) && y.sched.ring[0] in y.holders && y.sched.ring[0] !in y.wanting
    requires y' == y.(sched := Release(y.sched, q), locked := false, holders := y.holders - {y.sched.ring[0]})
    ensures LockInv(y', q) && HasQueue(y'.sched, q) && y'.sched.ring[0] == y.sched.ring[0]
    ensures y'.sched.queues.Keys == y.sched.queues.Keys
  {
    var s := y.sched;
    if s.queues[q] != [] {
      var w := s.queues[q][0];
      ST.StepKeepsInv(s, UnblockFrom(q));
      ST.HeadTail(s.queues[q]);
      assert y'.sched.ring[1] == w;
      assert forall t | t in s.ring :: t in y'.sched.ring by {
        ST.HeadTail(s.ring);
      }
    }
  }

  /** Events that leave the lock's own state and queue alone. */
  lemma OtherKeepsInv<T, Q>(y: LockSys<T, Q>, q: Q, e: Event<T, Q>)
    requires LockInv(y, q) && HasQueue(y.sched, q) && Enabled(y.sched, e) && !Touches(e, q) && y.sched.ring[0] !in y.wanting
    ensures LockInv(y.(sched := Step(y.sched, e)), q)
  {
    var s, s' := y.sched, Step(y.sched, e);
    ST.StepKeepsInv(s, e);
    if !s'.halted {
      assert s'.queues[q] == s.queues[q];
      ST.HeadTail(s.ring);
      assert forall t | t in s.ring && t != s.ring[0] :: t in s'.ring;
    }
  }

  lemma NextKeepsInv<T, Q>(y: LockSys<T, Q>, q: Q, e: LockEvent<T, Q>)
    requires LockInv(y, q) && Allowed(y, q, e)
    ensures LockInv(Next(y, q, e), q)
  {
    match e
    case Acquire => RoundKeepsInv(y, q);
    case Test => RoundKeepsInv(y, q);
    case ReleaseLock => ReleaseKeepsInv(y, q, Next(y, q, e));
    case WaitOn(c) =>
      var y1 := y.(sched := Release(y.sched, q), locked := false, holders := y.holders - {y.sched.ring[0]});
      ReleaseKeepsInv(y, q, y1);
      OtherKeepsInv(y1, q, BlockOn(c));
    case Other(e) => OtherKeepsInv(y, q, e);
  }

  // ---------------------------------------------------------------- runs

  ghost predicate Run<T, Q>(ys: seq<LockSys<T, Q>>, es: seq<LockEvent<T, Q>>, q: Q) {
    && |ys| == |es| + 1
    && Inv(ys[0].sched) && q in ys[0].sched.queues && ys[0].sched.queues[q] == []
    && !ys[0].locked && ys[0].holders == {} && ys[0].wanting == {} && ys[0].waiting == {}
    && forall i {:trigger es[i]} | 0 <= i < |es| :: Allowed(ys[i], q, es[i]) && Next(ys[i], q, es[i]) == ys[i + 1]
  }

  /**
  In every state of every run at most one thread is between acquire and release, LOCKED says
  exactly that there is one, and a free lock never leaves its sleepers stranded.
  */
  lemma {:induction false} LockSafety<T, Q>(ys: seq<LockSys<T, Q>>, es: seq<LockEvent<T, Q>>, q: Q, i: nat)
    requires Run(ys, es, q) && i <= |es|
    ensures LockInv(ys[i], q)
  {
    if 0 < i {
      LockSafety(ys, es, q, i - 1);
      NextKeepsInv(ys[i - 1], q, es[i - 1]);
    }
  }

  /** A thread leaves the acquire helper, also the one inside `Condition::wait`, only as the holder. */
  lemma LeavesHolding<T, Q>(ys: seq<LockSys<T, Q>>, es: seq<LockEvent<T, Q>>, q: Q, i: nat, t: T)
    requires Run(ys, es, q) && i < |es|
    requires t in ys[i].wanting + ys[i].waiting && t !in ys[i + 1].wanting + ys[i + 1].waiting
    ensures t in ys[i + 1].holders && ys[i + 1].holders == {t} && ys[i + 1].locked
  {
    LockSafety(ys, es, q, i + 1);
    assert Next(ys[i], q, es[i]) == ys[i + 1];
  }

  // ---------------------------------------------------------------- who sleeps and who is woken

  /** The stretch gives the lock up. */
  predicate GivesUp<T, Q>(e: LockEvent<T, Q>) { e.ReleaseLock? || e.WaitOn? }

  /** `w` was the longest sleeper of the queue and is the only one taken off it. */
  ghost predicate WakesFirst<T, Q>(s: Sched<T, Q>, s': Sched<T, Q>, q: Q, w: T)
    requires q in s.queues && q in s'.queues
  {
    s.queues[q] == [w] + s'.queues[q] && w !in s.ring && w in s'.ring && w !in s'.queues[q]
  }

  lemma FirstWoken<T, Q>(s: Sched<T, Q>, q: Q)
    requires Placed(s) && HasQueue(s, q) && s.queues[q] != []
    ensures HasQueue(Release(s, q), q) && WakesFirst(s, Release(s, q), q, s.queues[q][0])
    ensures Release(s, q).ring[0] == s.ring[0] && Release(s, q).queues.Keys == s.queues.Keys
  {
    var s' := Release(s, q);
    assert s.queues[q] == [s.queues[q][0]] + s.queues[q][1..];
    assert s'.ring[1] == s.queues[q][0] && s.queues[q][0] in s.queues[q];
  }

  /**
  Over every run, giving the lock up, also in `Condition::wait`, wakes exactly one thread if any sleeps on it:
  the longest sleeper. All others stay asleep, in order.
  */
  lemma ReleaseWakesOne<T, Q>(ys: seq<LockSys<T, Q>>, es: seq<LockEvent<T, Q>>, q: Q, i: nat)
    requires Run(ys, es, q) && i < |es| && GivesUp(es[i])
    ensures var s, s' := ys[i].sched, ys[i + 1].sched;
            && q in s.queues && q in s'.queues && !ys[i + 1].locked
            && if s.queues[q] == [] then s'.queues[q] == [] else WakesFirst(s, s', q, s.queues[q][0])
  {
    LockSafety(ys, es, q, i);
    var s := ys[i].sched;
    assert Allowed(ys[i], q, es[i]) && Next(ys[i], q, es[i]) == ys[i + 1];
    if s.queues[q] != [] {
      FirstWoken(s, q);
      if es[i].WaitOn? { BlockedLast(Release(s, q), es[i].c, q, s.queues[q][0]); }
    }
  }

  /** The running thread goes to sleep last on `c`; other threads and queues stay. */
  lemma BlockedLast<T, Q>(s: Sched<T, Q>, c: Q, q: Q, w: T)
    requires s.ring != [] && c in s.queues && q in s.queues && q != c && 1 < |s.ring| && w in s.ring && w != s.ring[0]
    ensures Block(s, c).queues[q] == s.queues[q] && w in Block(s, c).ring
    ensures Block(s, c).queues[c] == s.queues[c] + [s.ring[0]]
  {
    ST.HeadTail(s.ring);
  }

  /**
  A test of the acquire loop: on a LOCKED lock the thread goes to sleep, last in the lock's queue and out of
  the ring; on an UNLOCKED one it keeps running and is the holder.
  */
  lemma TestSleepsIff<T, Q>(ys: seq<LockSys<T, Q>>, es: seq<LockEvent<T, Q>>, q: Q, i: nat)
    requires Run(ys, es, q) && i < |es| && (es[i].Acquire? || es[i].Test?) && !ys[i + 1].sched.halted
    ensures var s, s', me := ys[i].sched, ys[i + 1].sched, ys[i].sched.ring[0];
            && q in s.queues && q in s'.queues && s'.ring != []
            && (ys[i].locked <==> s'.queues[q] == s.queues[q] + [me] && me !in s'.ring)
            && (!ys[i].locked <==> s'.ring[0] == me && s'.queues[q] == s.queues[q] && me in ys[i + 1].holders)
  {
    LockSafety(ys, es, q, i);
    LockSafety(ys, es, q, i + 1);
    assert Next(ys[i], q, es[i]) == ys[i + 1];
    ST.HeadTail(ys[i].sched.ring);
    assert ys[i + 1].sched.ring[0] in ys[i + 1].sched.ring;
  }

  /** `Condition::wait` puts the thread to sleep, last on the condition and out of the ring, without the lock. */
  lemma WaitSleeps<T, Q>(ys: seq<LockSys<T, Q>>, es: seq<LockEvent<T, Q>>, q: Q, i: nat)
    requires Run(ys, es, q) && i < |es| && es[i].WaitOn? && !ys[i + 1].sched.halted
    ensures var s, s', me, c := ys[i].sched, ys[i + 1].sched, ys[i].sched.ring[0], es[i].c;
            && c in s.queues && c in s'.queues && s'.queues[c] == s.queues[c] + [me] && me !in s'.ring
            && me !in ys[i + 1].holders
  {
    LockSafety(ys, es, q, i);
    LockSafety(ys, es, q, i + 1);
    assert Allowed(ys[i], q, es[i]) && Next(ys[i], q, es[i]) == ys[i + 1];
    var s', c := ys[i + 1].sched, es[i].c;
    assert s'.queues[c][|s'.queues[c]| - 1] == ys[i].sched.ring[0];
  }

  /** Who goes to sleep on the lock at this event. */
  function Sleeper<T(==), Q(==)>(y: LockSys<T, Q>, e: LockEvent<T, Q>): seq<T> {
    if (e.Acquire? || e.Test?) && y.locked && y.sched.ring != [] then [y.sched.ring[0]] else []
  }

  /** Who is right behind the running thread after a release, or runs after a wait, if there were sleepers. */
  function Riser<T(==), Q(==)>(y: LockSys<T, Q>, q: Q, e: LockEvent<T, Q>, y': LockSys<T, Q>): seq<T> {
    if q !in y.sched.queues || y.sched.queues[q] == [] then []
    else if e.ReleaseLock? && 1 < |y'.sched.ring| then [y'.sched.ring[1]]
    else if e.WaitOn? && y'.sched.ring != [] then [y'.sched.ring[0]]
    else []
  }

  lemma StepFifo<T, Q>(y: LockSys<T, Q>, q: Q, e: LockEvent<T, Q>, y': LockSys<T, Q>)
    requires Allowed(y, q, e) && Next(y, q, e) == y'
    ensures q in y'.sched.queues && Riser(y, q, e, y') + y'.sched.queues[q] == y.sched.queues[q] + Sleeper(y, e)
  {
  }

  /** Those who went to sleep on the lock in the first `n` events, and those woken, in order. */
  function Slept<T(==), Q(==)>(ys: seq<LockSys<T, Q>>, es: seq<LockEvent<T, Q>>, n: nat): seq<T>
    requires |ys| == |es| + 1 && n <= |es|
  {
    if n == 0 then [] else Slept(ys, es, n - 1) + Sleeper(ys[n - 1], es[n - 1])
  }

  function Risen<T(==), Q(==)>(ys: seq<LockSys<T, Q>>, es: seq<LockEvent<T, Q>>, q: Q, n: nat): seq<T>
    requires |ys| == |es| + 1 && n <= |es|
  {
    if n == 0 then [] else Risen(ys, es, q, n - 1) + Riser(ys[n - 1], q, es[n - 1], ys[n])
  }

  /** Over every run the lock's sleepers are woken in the order in which they went to sleep. */
  lemma {:induction false} LockFifo<T, Q>(ys: seq<LockSys<T, Q>>, es: seq<LockEvent<T, Q>>, q: Q, n: nat)
    requires Run(ys, es, q) && n <= |es|
    ensures q in ys[n].sched.queues && Risen(ys, es, q, n) + ys[n].sched.queues[q] == Slept(ys, es, n)
  {
    if 0 < n {
      LockFifo(ys, es, q, n - 1);
      assert Allowed(ys[n - 1], q, es[n - 1]) && Next(ys[n - 1], q, es[n - 1]) == ys[n];
      StepFifo(ys[n - 1], q, es[n - 1], ys[n]);
      FifoStep(Risen(ys, es, q, n - 1), ys[n - 1].sched.queues[q], Slept(ys, es, n - 1), ys[n].sched.queues[q],
               Riser(ys[n - 1], q, es[n - 1], ys[n]), Sleeper(ys[n - 1], es[n - 1]));
    }
  }

  lemma FifoStep<T>(risen: seq<T>, queue: seq<T>, slept: seq<T>, queue': seq<T>, outgoing: seq<T>, incoming: seq<T>)
    requires risen + queue == slept && outgoing + queue' == queue + incoming
    ensures (risen + outgoing) + queue' == slept + incoming
  {
    SH.FifoStep(risen, queue, [], slept, queue', outgoing, incoming);
  }
}
