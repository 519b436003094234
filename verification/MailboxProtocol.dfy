/**
The waiting of `Mbox::send` and `Mbox::recv` (kernel/mbox.cpp): any number of threads, one lock, two
conditions. Steps of different threads interleave freely; the lock is what `LockTheorems` proves it to
be, held by at most one thread, and `Condition::wait` gives it up and sleeps in one step.
*/
module MailboxProtocol {
  import opened Base
  import opened MailboxRing

  datatype Pc =
    | Idle
    | SendAcquire(size: nat)     // wants the lock, to test for space; also after being woken
    | SendTest(size: nat)        // holds it
    | SendParked(size: nat)      // asleep on freed_space
    | SendSignal                 // holds it, the message is in the ring
    | RecvAcquire
    | RecvWoken                  // woken on arrived_data, has not tested again yet
    | RecvTest                   // holds the lock
    | RecvParked                 // asleep on arrived_data
    | RecvBroadcast              // holds it, the message is out of the ring
    | StatAcquire                // stat, mbox_open, close: take the lock and give it back
    | Unlock                     // holds it, about to release

  predicate Holds(pc: Pc) { pc.SendTest? || pc.SendSignal? || pc.RecvTest? || pc.RecvBroadcast? || pc.Unlock? }

  /** `sizes` are the sizes in bytes, headers included, of the queued messages, oldest first. */
  datatype Sys<T> = Sys(pc: map<T, Pc>, holder: Option<T>, freed: seq<T>, arrived: seq<T>, woken: set<T>, sizes: seq<nat>) {
    function Space(): int { MBUFFER_SIZE - Total(sizes) }
    function Messages(): nat { |sizes| }
  }

  function Total(sizes: seq<nat>): nat {
    if sizes == [] then 0 else sizes[0] + Total(sizes[1..])
  }

  datatype Event<T> =
    | CallSend(t: T, size: nat) | CallRecv(t: T) | CallStat(t: T)
    | Lock(t: T)               // acquire succeeds
    | Test(t: T)               // the condition of the while loop, and what follows it
    | Wake(t: T)               // signal or broadcast
    | Release(t: T)

  predicate Enabled<T(==)>(s: Sys<T>, e: Event<T>) {
    e.t in s.pc &&
    var pc := s.pc[e.t];
    match e
    case CallSend(_, _) => pc.Idle?
    case CallRecv(_) => pc.Idle?
    case CallStat(_) => pc.Idle?
    case Lock(_) => s.holder.None? && (pc.SendAcquire? || pc.RecvAcquire? || pc.RecvWoken? || pc.StatAcquire?)
    case Test(_) => pc.SendTest? || pc.RecvTest?
    case Wake(_) => pc.SendSignal? || pc.RecvBroadcast?
    case Release(_) => pc.Unlock?
  }

  function Locked(pc: Pc): Pc
    requires pc.SendAcquire? || pc.RecvAcquire? || pc.RecvWoken? || pc.StatAcquire?
  {
    match pc case SendAcquire(n) => SendTest(n) case StatAcquire => Unlock case _ => RecvTest
  }

  /** `freed_space.broadcast()`: every sleeping sender will test again. */
  function WakeSenders<T>(pc: map<T, Pc>): map<T, Pc> {
    map t | t in pc :: if pc[t].SendParked? then SendAcquire(pc[t].size) else pc[t]
  }

  function Step<T(==)>(s: Sys<T>, e: Event<T>): Sys<T>
    requires Enabled(s, e)
    requires forall t | t in s.arrived :: t in s.pc
  {
    var t, pc := e.t, s.pc[e.t];
    match e
    case CallSend(_, n) => s.(pc := s.pc[t := SendAcquire(n)])
    case CallRecv(_) => s.(pc := s.pc[t := RecvAcquire])
    case CallStat(_) => s.(pc := s.pc[t := StatAcquire])
    case Lock(_) => s.(pc := s.pc[t := Locked(pc)], holder := Some(t))
    case Test(_) =>
      if pc.SendTest? then
        if s.Space() < pc.size then s.(pc := s.pc[t := SendParked(pc.size)], holder := None, freed := s.freed + [t])
        else s.(pc := s.pc[t := SendSignal], sizes := s.sizes + [pc.size])
      else
        if s.sizes == [] then s.(pc := s.pc[t := RecvParked], holder := None, arrived := s.arrived + [t], woken := s.woken - {t})
        else s.(pc := s.pc[t := RecvBroadcast], sizes := s.sizes[1..], woken := s.woken - {t})
    case Wake(_) =>
      if pc.RecvBroadcast? then s.(pc := WakeSenders(s.pc)[t := Unlock], freed := [])
      else if s.arrived == [] then s.(pc := s.pc[t := Unlock])
      else s.(pc := s.pc[s.arrived[0] := RecvWoken][t := Unlock], arrived := s.arrived[1..], woken := s.woken + {s.arrived[0]})
    case Release(_) => s.(pc := s.pc[t := Idle], holder := None)
  }

  // ---------------------------------------------------------------- the invariant

  /** Who holds the lock, who sleeps where, who has been woken. */
  ghost predicate Consistent<T>(s: Sys<T>) {
    && (forall t | t in s.pc :: Holds(s.pc[t]) <==> s.holder == Some(t))
    && (s.holder.Some? ==> s.holder.value in s.pc)
    && Distinct(s.arrived)
    && (forall t | t in s.arrived :: t in s.pc && s.pc[t].RecvParked?)
    && (forall t | t in s.pc && s.pc[t].RecvParked? :: t in s.arrived)
    && (forall t | t in s.freed :: t in s.pc && s.pc[t].SendParked?)
    && (forall t | t in s.pc && s.pc[t].SendParked? :: t in s.freed)
    && (forall t | t in s.woken :: t in s.pc && (s.pc[t].RecvWoken? || s.pc[t].RecvTest?))
    && (forall t | t in s.pc && s.pc[t].RecvWoken? :: t in s.woken)
  }

  ghost predicate HolderAt<T>(s: Sys<T>, signal: bool)
    requires Consistent(s)
  {
    s.holder.Some? && if signal then s.pc[s.holder.value].SendSignal? else s.pc[s.holder.value].RecvBroadcast?
  }

  /** A sleeping sender does not fit, unless the holder is about to broadcast. */
  ghost predicate SendersRight<T>(s: Sys<T>)
    requires Consistent(s)
  {
    HolderAt(s, false) || forall t | t in s.pc && s.pc[t].SendParked? :: s.Space() < s.pc[t].size
  }

  /** If a receiver sleeps, every message has a woken receiver or a signal on its way. */
  ghost predicate ReceiversRight<T>(s: Sys<T>)
    requires Consistent(s)
  {
    s.arrived == [] || |s.sizes| <= |s.woken| + if HolderAt(s, true) then 1 else 0
  }

  ghost predicate Inv<T>(s: Sys<T>) {
    Consistent(s) && SendersRight(s) && ReceiversRight(s)
  }

  lemma {:induction false} TotalAppend(sizes: seq<nat>, n: nat)
    ensures Total(sizes + [n]) == Total(sizes) + n
  {
    if sizes == [] {
      assert [n][1..] == [];
    } else {
      assert (sizes + [n])[1..] == sizes[1..] + [n];
      TotalAppend(sizes[1..], n);
    }
  }

  lemma CallConsistent<T>(s: Sys<T>, e: Event<T>)
    requires Consistent(s) && Enabled(s, e) && !e.Test? && !e.Wake?
    ensures Consistent(Step(s, e))
  {
  }

  lemma TestConsistent<T>(s: Sys<T>, t: T)
    requires Consistent(s) && Enabled(s, Test(t))
    ensures Consistent(Step(s, Test(t)))
  {
  }

  lemma BroadcastConsistent<T>(s: Sys<T>, t: T)
    requires Consistent(s) && Enabled(s, Wake(t)) && s.pc[t].RecvBroadcast?
    ensures Consistent(Step(s, Wake(t)))
  {
  }

  lemma FirstElsewhere<T>(a: seq<T>)
    requires a != [] && Distinct(a)
    ensures Distinct(a[1..]) && a[0] !in a[1..] && forall t :: t in a <==> t == a[0] || t in a[1..]
  {
    assert a == [a[0]] + a[1..];
  }

  lemma SignalConsistent<T>(s: Sys<T>, t: T)
    requires Consistent(s) && Enabled(s, Wake(t)) && s.pc[t].SendSignal?
    ensures Consistent(Step(s, Wake(t)))
  {
    if s.arrived != [] { FirstElsewhere(s.arrived); }
  }

  lemma WakeConsistent<T>(s: Sys<T>, t: T)
    requires Consistent(s) && Enabled(s, Wake(t))
    ensures Consistent(Step(s, Wake(t)))
  {
    if s.pc[t].RecvBroadcast? { BroadcastConsistent(s, t); } else { SignalConsistent(s, t); }
  }

  lemma StepConsistent<T>(s: Sys<T>, e: Event<T>)
    requires Consistent(s) && Enabled(s, e)
    ensures Consistent(Step(s, e))
  {
    match e
    case Test(t) => TestConsistent(s, t);
    case Wake(t) => WakeConsistent(s, t);
    case _ => CallConsistent(s, e);
  }

  lemma StepSendersRight<T>(s: Sys<T>, e: Event<T>)
    requires Inv(s) && Enabled(s, e) && Consistent(Step(s, e))
    ensures SendersRight(Step(s, e))
  {
    if e.Test? && s.pc[e.t].SendTest? { TotalAppend(s.sizes, s.pc[e.t].size); }
  }

  lemma TestReceiversRight<T>(s: Sys<T>, t: T)
    requires Inv(s) && Enabled(s, Test(t)) && Consistent(Step(s, Test(t)))
    ensures ReceiversRight(Step(s, Test(t)))
  {
    if s.pc[t].RecvTest? && t in s.woken {
      assert |s.woken - {t}| == |s.woken| - 1;
    }
  }

  lemma WakeReceiversRight<T>(s: Sys<T>, t: T)
    requires Inv(s) && Enabled(s, Wake(t)) && Consistent(Step(s, Wake(t)))
    ensures ReceiversRight(Step(s, Wake(t)))
  {
  }

  lemma StepReceiversRight<T>(s: Sys<T>, e: Event<T>)
    requires Inv(s) && Enabled(s, e) && Consistent(Step(s, e))
    ensures ReceiversRight(Step(s, e))
  {
    match e
    case Test(t) => TestReceiversRight(s, t);
    case Wake(t) => WakeReceiversRight(s, t);
    case _ =>
  }

  lemma StepKeepsInv<T>(s: Sys<T>, e: Event<T>)
    requires Inv(s) && Enabled(s, e)
    ensures Inv(Step(s, e))
  {
    StepConsistent(s, e);
    StepSendersRight(s, e);
    StepReceiversRight(s, e);
  }

  // ---------------------------------------------------------------- runs

  ghost predicate Run<T>(ss: seq<Sys<T>>, es: seq<Event<T>>) {
    && |ss| == |es| + 1
    && (forall t | t in ss[0].pc :: ss[0].pc[t] == Idle)
    && ss[0] == Sys(ss[0].pc, None, [], [], {}, [])
    && forall i {:trigger es[i]} | 0 <= i < |es| :: Enabled(ss[i], es[i]) && (forall t | t in ss[i].arrived :: t in ss[i].pc) && Step(ss[i], es[i]) == ss[i + 1]
  }

  lemma {:induction false} RunInv<T>(ss: seq<Sys<T>>, es: seq<Event<T>>, i: nat)
    requires Run(ss, es) && i <= |es|
    ensures Inv(ss[i])
  {
    if 0 < i {
      RunInv(ss, es, i - 1);
      StepKeepsInv(ss[i - 1], es[i - 1]);
    }
  }

  /**
  No wake-up is lost: whenever the lock is free, every sender asleep needs more space than there is,
  and if a receiver is asleep then at least as many receivers as there are messages have been woken
  and will test again. A signal wakes only one, and receivers that were never asleep may come first.
  */
  lemma NoLostWakeup<T>(ss: seq<Sys<T>>, es: seq<Event<T>>, i: nat)
    requires Run(ss, es) && i <= |es| && ss[i].holder.None?
    ensures forall t | t in ss[i].freed :: t in ss[i].pc && ss[i].pc[t].SendParked? && ss[i].Space() < ss[i].pc[t].size
    ensures ss[i].arrived != [] ==> ss[i].Messages() <= |ss[i].woken|
    ensures forall t | t in ss[i].woken :: t in ss[i].pc && ss[i].pc[t].RecvWoken?
  {
    RunInv(ss, es, i);
  }

  /** So no receiver sleeps beside a message unless a woken one is about to take the free lock. */
  lemma ReceiverOnItsWay<T>(ss: seq<Sys<T>>, es: seq<Event<T>>, i: nat, sleeper: T) returns (t: T)
    requires Run(ss, es) && i <= |es| && ss[i].holder.None?
    requires sleeper in ss[i].pc && ss[i].pc[sleeper].RecvParked? && 0 < ss[i].Messages()
    ensures t != sleeper && Enabled(ss[i], Lock(t)) && ss[i].pc[t].RecvWoken?
  {
    RunInv(ss, es, i);
    NoLostWakeup(ss, es, i);
    assert ss[i].woken != {};
    t :| t in ss[i].woken;
  }

  // ---------------------------------------------------------------- the ring under the protocol

  /** Bytes each queued message takes in the ring. */
  function Sizes(queue: seq<Message>): (r: seq<nat>)
    ensures |r| == |queue| && forall i | 0 <= i < |r| :: r[i] == HEADER + |queue[i]|
  {
    seq(|queue|, i requires 0 <= i < |queue| => HEADER + |queue[i]|)
  }

  lemma {:induction false} TotalIsStream(queue: seq<Message>)
    requires forall i | 0 <= i < |queue| :: |queue[i]| < WORD
    ensures Total(Sizes(queue)) == |Stream(queue)|
  {
    if queue != [] {
      assert Sizes(queue)[1..] == Sizes(queue[1..]);
      TotalIsStream(queue[1..]);
    }
  }

  /** The tests of the two wait loops, on the ring's fields, are the tests of the protocol. */
  lemma TestsAgree<T>(b: Box, queue: seq<Message>, s: Sys<T>)
    requires Represents(b, queue) && s.sizes == Sizes(queue)
    ensures b.Space() == s.Space() && (b.messages == 0 <==> s.sizes == [])
  {
    SpaceIsUnused(b, queue);
    TotalIsStream(queue);
  }
}
