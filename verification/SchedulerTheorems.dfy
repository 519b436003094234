/** What every scheduling event keeps, and the exact round-robin bound. */
module SchedulerTheorems {
  import opened Base
  import opened SchedulerSpec

  lemma HeadTail<T>(s: seq<T>)
    requires s != []
    ensures forall t :: t in s <==> t == s[0] || t in s[1..]
    ensures forall t :: t in s[1..] + [s[0]] <==> t in s
    ensures Distinct(s) ==> s[0] !in s[1..] && Distinct(s[1..]) && Distinct(s[1..] + [s[0]])
  {
    assert s == [s[0]] + s[1..];
  }

  lemma InsertDistinct<T>(s: seq<T>, w: T)
    requires s != [] && Distinct(s) && w !in s
    ensures Distinct([s[0], w] + s[1..])
  {
    var r := [s[0], w] + s[1..];
    forall i, j | 0 <= i < j < |r| ensures r[i] != r[j] {
      assert (i == 1 || r[i] == s[if i == 0 then 0 else i - 1]) && (j == 1 || r[j] == s[j - 1]);
    }
  }

  /** Reaping takes the zombie, which is in no ring or queue, out of existence. */
  lemma ReapKeepsPlaced<T, Q>(s: Sched<T, Q>)
    requires Placed(s) && s.zombie.Some?
    ensures Placed(s.(live := s.live - {s.zombie.value}, zombie := None))
    ensures s.zombie.value !in s.ring && forall q | q in s.queues :: s.zombie.value !in s.queues[q]
  {
    var s' := s.(live := s.live - {s.zombie.value}, zombie := None);
    forall t | t in s'.live ensures t in s.live && (t in s'.ring || exists q :: q in s'.queues && t in s'.queues[q]) {
    }
  }

  lemma SwitchKeepsPlaced<T, Q>(s: Sched<T, Q>)
    requires Placed(s) && s.ring != []
    ensures Placed(s.(ring := s.ring[1..] + [s.ring[0]]))
  {
    HeadTail(s.ring);
  }

  /** The running thread leaves for the zombie slot, or altogether. */
  lemma LeaveKeepsPlaced<T, Q>(s: Sched<T, Q>, zombie: bool)
    requires Placed(s) && 1 < |s.ring| && s.zombie.None?
    ensures Placed(s.(ring := s.ring[1..], zombie := if zombie then Some(s.ring[0]) else None,
                      live := if zombie then s.live else s.live - {s.ring[0]}))
  {
    HeadTail(s.ring);
  }

  /** The running thread moves to the end of a queue. */
  lemma BlockKeepsPlaced<T, Q>(s: Sched<T, Q>, q: Q)
    requires Placed(s) && 1 < |s.ring| && q in s.queues
    ensures Placed(s.(ring := s.ring[1..], queues := s.queues[q := s.queues[q] + [s.ring[0]]]))
  {
    var s' := s.(ring := s.ring[1..], queues := s.queues[q := s.queues[q] + [s.ring[0]]]);
    HeadTail(s.ring);
    assert s.ring[0] in s.ring && s.ring[0] in s'.queues[q];
    forall t | t in s'.live && t !in s'.ring && s'.zombie != Some(t) ensures exists p :: p in s'.queues && t in s'.queues[p] {
      if t != s.ring[0] {
        var p :| p in s.queues && t in s.queues[p];
        assert t in s'.queues[p];
      }
    }
  }

  lemma UnblockKeepsPlaced<T, Q>(s: Sched<T, Q>, q: Q)
    requires Placed(s) && s.ring != [] && q in s.queues && s.queues[q] != []
    ensures Placed(Unblock(s, q))
  {
    var s', w := Unblock(s, q), s.queues[q][0];
    HeadTail(s.queues[q]);
    HeadTail(s.ring);
    assert w in s.queues[q];
    InsertDistinct(s.ring, w);
    assert forall t :: t in s'.ring <==> t in s.ring || t == w;
    forall t | t in s'.live && t !in s'.ring && s'.zombie != Some(t) ensures exists p :: p in s'.queues && t in s'.queues[p] {
      var p :| p in s.queues && t in s.queues[p];
      assert t in s'.queues[p];
    }
  }

  lemma CreateKeepsPlaced<T, Q>(s: Sched<T, Q>, t: T)
    requires Placed(s) && t !in s.live
    ensures Placed(Create(s, t))
  {
    assert t in Create(s, t).ring;
  }

  lemma StepKeepsInv<T, Q>(s: Sched<T, Q>, e: Event<T, Q>)
    requires Inv(s) && Enabled(s, e)
    ensures Inv(Step(s, e))
  {
    var s1 := if s.zombie.Some? then s.(live := s.live - {s.zombie.value}, zombie := None) else s;
    if s.zombie.Some? { ReapKeepsPlaced(s); }
    match e
    case Switch => SwitchKeepsPlaced(s1);
    case BlockOn(q) => if 1 < |s.ring| { BlockKeepsPlaced(s1, q); }
    case Exit => if 1 < |s.ring| { LeaveKeepsPlaced(s1, true); }
    case ExitNoZombie => if 1 < |s.ring| { LeaveKeepsPlaced(s1, false); }
    case UnblockFrom(q) => UnblockKeepsPlaced(s, q);
    case NewThread(t) => CreateKeepsPlaced(s, t);
  }

  // ---------------------------------------------------------------- runs

  ghost predicate Run<T, Q>(ss: seq<Sched<T, Q>>, es: seq<Event<T, Q>>) {
    && |ss| == |es| + 1 && Inv(ss[0])
    && forall i {:trigger es[i]} | 0 <= i < |es| :: Enabled(ss[i], es[i]) && Step(ss[i], es[i]) == ss[i + 1]
  }

  /** In every reachable state every thread is in exactly one place, until the machine halts. */
  lemma {:induction false} RunInv<T, Q>(ss: seq<Sched<T, Q>>, es: seq<Event<T, Q>>, i: nat)
    requires Run(ss, es) && i <= |es|
    ensures Inv(ss[i])
  {
    if 0 < i {
      RunInv(ss, es, i - 1);
      StepKeepsInv(ss[i - 1], es[i - 1]);
    }
  }

  // ---------------------------------------------------------------- round robin

  /** Calls of the scheduler in a stretch of events. */
  function Calls<T, Q>(es: seq<Event<T, Q>>): nat {
    if es == [] then 0 else Calls(es[..|es| - 1]) + if CallsScheduler(es[|es| - 1]) then 1 else 0
  }

  function Unblocks<T, Q>(es: seq<Event<T, Q>>): nat {
    if es == [] then 0 else Unblocks(es[..|es| - 1]) + if es[|es| - 1].UnblockFrom? then 1 else 0
  }

  /** One event moves a waiting thread one place forward, one place back, or not at all. */
  lemma PlaceAfter<T, Q>(s: Sched<T, Q>, e: Event<T, Q>, d: nat)
    requires Enabled(s, e) && 0 < d < |s.ring|
    ensures var d' := if CallsScheduler(e) then d - 1 else if e.UnblockFrom? then d + 1 else d;
            !Step(s, e).halted && d' < |Step(s, e).ring| && Step(s, e).ring[d'] == s.ring[d]
  {
  }

  /**
  Exact round robin: a thread `d` places behind the running one is, after any events before its
  turn, `d` plus the unblocks minus the scheduler calls so far behind it. So it runs exactly at the
  call numbered `d` plus the unblocks before it; creations never delay it, and no block or exit of
  others skips it.
  */
  lemma {:induction false} RoundRobin<T, Q>(ss: seq<Sched<T, Q>>, es: seq<Event<T, Q>>, d: nat, n: nat)
    requires Run(ss, es) && n <= |es| && d < |ss[0].ring|
    requires forall k | 0 <= k < n :: Calls(es[..k]) < d + Unblocks(es[..k])
    ensures Calls(es[..n]) <= d + Unblocks(es[..n])
    ensures var at := d + Unblocks(es[..n]) - Calls(es[..n]);
            at < |ss[n].ring| && ss[n].ring[at] == ss[0].ring[d]
  {
    if 0 < n {
      RoundRobin(ss, es, d, n - 1);
      assert es[..n][..n - 1] == es[..n - 1];
      PlaceAfter(ss[n - 1], es[n - 1], d + Unblocks(es[..n - 1]) - Calls(es[..n - 1]));
    }
  }

  /** Until its turn comes, a waiting thread is not the running one. */
  lemma NotBeforeItsTurn<T, Q>(ss: seq<Sched<T, Q>>, es: seq<Event<T, Q>>, d: nat, n: nat)
    requires Run(ss, es) && n <= |es| && d < |ss[0].ring| && !ss[n].halted
    requires forall k | 0 <= k < n :: Calls(es[..k]) < d + Unblocks(es[..k])
    ensures ss[n].ring != []
    ensures ss[n].ring[0] == ss[0].ring[d] <==> Calls(es[..n]) == d + Unblocks(es[..n])
  {
    RoundRobin(ss, es, d, n);
    RunInv(ss, es, n);
  }

  // ---------------------------------------------------------------- zombies

  /**
  A thread that exits at event `i` and leaves the ring stays in the zombie slot, in no ring or
  queue, until the next scheduler call, which takes it out of existence.
  */
  lemma {:induction false} ZombieWaits<T, Q>(ss: seq<Sched<T, Q>>, es: seq<Event<T, Q>>, i: nat, j: nat)
    requires Run(ss, es) && i < j <= |es| && es[i].Exit? && !ss[i + 1].halted
    requires forall k | i < k < j :: !CallsScheduler(es[k])
    ensures var t := ss[i].ring[0];
            ss[j].zombie == Some(t) && t in ss[j].live && t !in ss[j].ring && forall q | q in ss[j].queues :: t !in ss[j].queues[q]
    ensures !ss[j].halted
    decreases j
  {
    RunInv(ss, es, j);
    if i + 1 < j {
      ZombieWaits(ss, es, i, j - 1);
      assert !CallsScheduler(es[j - 1]);
    }
  }

  lemma ReapedAtNextCall<T, Q>(ss: seq<Sched<T, Q>>, es: seq<Event<T, Q>>, i: nat, j: nat)
    requires Run(ss, es) && i < j < |es| && es[i].Exit? && !ss[i + 1].halted
    requires CallsScheduler(es[j]) && forall k | i < k < j :: !CallsScheduler(es[k])
    ensures var t := ss[i].ring[0];
            t in ss[j].live && t !in ss[j + 1].live && t != ss[j].ring[0] && ss[j + 1].zombie != Some(t)
  {
    ZombieWaits(ss, es, i, j);
    RunInv(ss, es, j);
    assert ss[j].ring[0] in ss[j].ring;
  }
}
