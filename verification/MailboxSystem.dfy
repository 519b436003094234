/**
The mailbox on the scheduler (kernel/mbox.cpp, kernel/sync.cpp): the byte ring, a lock word and three wait
queues, moved by the stretches of `SyncSpec`. Every step is one of `MailboxProtocol` or none of its business,
so what that module proves of the protocol holds of the wait queues and the ring themselves.
*/
module MailboxSystem {
  import opened Base
  import opened Bytes
  import opened MailboxRing
  import MP = MailboxProtocol
  import SS = SchedulerSpec
  import ST = SchedulerTheorems
  import Sync = SyncSpec
  import SemaphoreTheorems

  /** The wait queues of the lock and of the two conditions. */
  datatype Queues<Q> = Queues(lock: Q, freed: Q, arrived: Q) {
    ghost predicate Ok() { lock != freed && lock != arrived && freed != arrived }
  }

  /** `pc` says where in `send`, `recv` or the short calls each thread is; `queue` what was sent and not received. */
  datatype Conc<T, Q> = Conc(sched: SS.Sched<T, Q>, locked: bool, pc: map<T, MP.Pc>, box: Box, queue: seq<Message>)

  datatype Event<T, Q> =
    | Call(pc: MP.Pc)              // the running thread calls send, recv, stat, open or close
    | Go(m: Message)               // its next stretch; `m` is what it sends, if it does
    | Other(e: SS.Event<T, Q>)     // anything else in the machine

  predicate Ready<T(==), Q(==)>(c: Conc<T, Q>, q: Queues<Q>) {
    && Sync.HasQueue(c.sched, q.lock) && Sync.HasQueue(c.sched, q.freed) && Sync.HasQueue(c.sched, q.arrived)
    && c.sched.ring[0] in c.pc
  }

  predicate Allowed<T(==), Q(==)>(c: Conc<T, Q>, q: Queues<Q>, ev: Event<T, Q>) {
    Ready(c, q) &&
    var pc := c.pc[c.sched.ring[0]];
    match ev
    case Call(to) => pc.Idle? && (to.SendAcquire? || to.RecvAcquire? || to.StatAcquire?)
    case Go(m) => !pc.Idle? && (pc.SendTest? ==> |m| < WORD && pc.size == HEADER + |m|)
    case Other(e) =>
      && SS.Enabled(c.sched, e) && !Sync.Touches(e, q.lock) && !Sync.Touches(e, q.freed) && !Sync.Touches(e, q.arrived)
      && (pc.Idle? || e.Switch?) && (e.NewThread? ==> e.t in c.pc)
  }

  predicate Acquiring(pc: MP.Pc) { pc.SendAcquire? || pc.RecvAcquire? || pc.RecvWoken? || pc.StatAcquire? }

  /** One round of the lock's loop. */
  function AcquireStep<T(==), Q(==)>(c: Conc<T, Q>, q: Queues<Q>): Conc<T, Q>
    requires Ready(c, q) && Acquiring(c.pc[c.sched.ring[0]])
  {
    var me := c.sched.ring[0];
    var (s, locked, done) := Sync.AcquireRound(c.sched, c.locked, q.lock);
    c.(sched := s, locked := locked, pc := if done then c.pc[me := MP.Locked(c.pc[me])] else c.pc)
  }

  /** The test of the wait loop, and the sleep or the copying that follows. */
  function TestStep<T(==), Q(==)>(c: Conc<T, Q>, q: Queues<Q>, m: Message): Conc<T, Q>
    requires Ready(c, q) && |c.box.buffer| == MBUFFER_SIZE && |m| < WORD && (c.pc[c.sched.ring[0]].SendTest? || c.pc[c.sched.ring[0]].RecvTest?)
  {
    var me, pc := c.sched.ring[0], c.pc[c.sched.ring[0]];
    if pc.SendTest? then
      if c.box.Space() < pc.size then
        c.(sched := Sync.WaitStart(c.sched, q.lock, q.freed), locked := false, pc := c.pc[me := MP.SendParked(pc.size)])
      else c.(box := Put(c.box, m), queue := c.queue + [m], pc := c.pc[me := MP.SendSignal])
    else
      if c.box.messages == 0 then
        c.(sched := Sync.WaitStart(c.sched, q.lock, q.arrived), locked := false, pc := c.pc[me := MP.RecvParked])
      else c.(box := Get(c.box).1, queue := if c.queue == [] then [] else c.queue[1..], pc := c.pc[me := MP.RecvBroadcast])
  }

  /** `signal` or `broadcast`; whoever is woken goes back to the lock. */
  function WakeStep<T(==), Q(==)>(c: Conc<T, Q>, q: Queues<Q>): Conc<T, Q>
    requires Ready(c, q) && (c.pc[c.sched.ring[0]].SendSignal? || c.pc[c.sched.ring[0]].RecvBroadcast?)
  {
    var me, asleep := c.sched.ring[0], c.sched.queues[q.arrived];
    if c.pc[me].RecvBroadcast? then
      c.(sched := Sync.WakeAll(c.sched, q.freed), pc := MP.WakeSenders(c.pc)[me := MP.Unlock])
    else
      c.(sched := Sync.WakeOne(c.sched, q.arrived), pc := (if asleep == [] then c.pc else c.pc[asleep[0] := MP.RecvWoken])[me := MP.Unlock])
  }

  function Next<T(==), Q(==)>(c: Conc<T, Q>, q: Queues<Q>, ev: Event<T, Q>): Conc<T, Q>
    requires Allowed(c, q, ev) && |c.box.buffer| == MBUFFER_SIZE
  {
    var me, pc := c.sched.ring[0], c.pc[c.sched.ring[0]];
    match ev
    case Call(to) => c.(pc := c.pc[me := to])
    case Other(e) => c.(sched := SS.Step(c.sched, e))
    case Go(m) =>
      if Acquiring(pc) then AcquireStep(c, q)
      else if pc.SendTest? then TestStep(c, q, m)
      else if pc.RecvTest? then TestStep(c, q, [])
      else if pc.SendSignal? || pc.RecvBroadcast? then WakeStep(c, q)
      else if pc.Unlock? then c.(sched := Sync.Release(c.sched, q.lock), locked := false, pc := c.pc[me := MP.Idle])
      else c // a sleeping thread is not the running one
  }

  // ---------------------------------------------------------------- simulation

  ghost predicate Sim<T, Q>(c: Conc<T, Q>, q: Queues<Q>, s: MP.Sys<T>) {
    && q.Ok() && SS.Inv(c.sched) && MP.Inv(s)
    && q.lock in c.sched.queues && q.freed in c.sched.queues && q.arrived in c.sched.queues
    && s.pc == c.pc && (c.locked <==> s.holder.Some?)
    && s.freed == c.sched.queues[q.freed] && s.arrived == c.sched.queues[q.arrived]
    && s.sizes == MP.Sizes(c.queue) && Represents(c.box, c.queue)
  }

  /** The protocol state after a step: one step `e` of its own, or none. */
  ghost predicate Follows<T>(s: MP.Sys<T>, e: Option<MP.Event<T>>, s': MP.Sys<T>) {
    match e
    case None => s' == s
    case Some(e) => MP.Enabled(s, e) && (forall t | t in s.arrived :: t in s.pc) && MP.Step(s, e) == s'
  }

  /** An event of the protocol, from a state that keeps its invariant. */
  lemma Advance<T>(s: MP.Sys<T>, e: MP.Event<T>) returns (s': MP.Sys<T>)
    requires MP.Inv(s) && MP.Enabled(s, e)
    ensures s' == MP.Step(s, e) && MP.Inv(s') && Follows(s, Some(e), s')
  {
    MP.StepKeepsInv(s, e);
    s' := MP.Step(s, e);
  }

  lemma CallSimulates<T, Q>(c: Conc<T, Q>, q: Queues<Q>, to: MP.Pc, s: MP.Sys<T>) returns (e': Option<MP.Event<T>>, s': MP.Sys<T>)
    requires Sim(c, q, s) && Allowed(c, q, Call(to))
    ensures Sim(Next(c, q, Call(to)), q, s') && Follows(s, e', s')
  {
    var me := c.sched.ring[0];
    e' := Some(match to case SendAcquire(n) => MP.CallSend(me, n) case RecvAcquire => MP.CallRecv(me) case _ => MP.CallStat(me));
    s' := Advance(s, e'.value);
  }

  lemma AcquireSimulates<T, Q>(c: Conc<T, Q>, q: Queues<Q>, s: MP.Sys<T>) returns (e': Option<MP.Event<T>>, s': MP.Sys<T>)
    requires Sim(c, q, s) && Ready(c, q) && Acquiring(c.pc[c.sched.ring[0]])
    ensures Sim(AcquireStep(c, q), q, s') && Follows(s, e', s')
  {
    if c.locked {
      ST.StepKeepsInv(c.sched, SS.BlockOn(q.lock));
      e', s' := None, s;
    } else {
      e' := Some(MP.Lock(c.sched.ring[0]));
      s' := Advance(s, e'.value);
    }
  }

  /** What `Condition::wait` does to the scheduler up to its sleep. */
  lemma WaitStarts<T, Q>(sched: SS.Sched<T, Q>, lq: Q, cq: Q)
    requires SS.Inv(sched) && Sync.HasQueue(sched, lq) && Sync.HasQueue(sched, cq) && lq != cq
    ensures var r := Sync.WaitStart(sched, lq, cq);
            && SS.Inv(r) && r.queues.Keys == sched.queues.Keys && r.queues[cq] == sched.queues[cq] + [sched.ring[0]]
            && forall x | x in sched.queues && x != lq && x != cq :: r.queues[x] == sched.queues[x]
  {
    if sched.queues[lq] != [] { ST.StepKeepsInv(sched, SS.UnblockFrom(lq)); }
    ST.StepKeepsInv(Sync.Release(sched, lq), SS.BlockOn(cq));
  }

  lemma SizesSnoc(queue: seq<Message>, m: Message)
    ensures MP.Sizes(queue + [m]) == MP.Sizes(queue) + [HEADER + |m|]
  {
  }

  lemma SizesTail(queue: seq<Message>)
    requires queue != []
    ensures MP.Sizes(queue[1..]) == MP.Sizes(queue)[1..]
  {
  }

  lemma SendTestSimulates<T, Q>(c: Conc<T, Q>, q: Queues<Q>, m: Message, s: MP.Sys<T>) returns (e': Option<MP.Event<T>>, s': MP.Sys<T>)
    requires Sim(c, q, s) && Ready(c, q) && |m| < WORD
    requires var pc := c.pc[c.sched.ring[0]]; pc.SendTest? && pc.size == HEADER + |m|
    ensures Sim(TestStep(c, q, m), q, s') && Follows(s, e', s')
  {
    MP.TestsAgree(c.box, c.queue, s);
    e' := Some(MP.Test(c.sched.ring[0]));
    s' := Advance(s, e'.value);
    if c.box.Space() < c.pc[c.sched.ring[0]].size {
      WaitStarts(c.sched, q.lock, q.freed);
    } else {
      PutAppends(c.box, c.queue, m);
      SizesSnoc(c.queue, m);
    }
  }

  lemma RecvTestSimulates<T, Q>(c: Conc<T, Q>, q: Queues<Q>, s: MP.Sys<T>) returns (e': Option<MP.Event<T>>, s': MP.Sys<T>)
    requires Sim(c, q, s) && Ready(c, q) && c.pc[c.sched.ring[0]].RecvTest?
    ensures Sim(TestStep(c, q, []), q, s') && Follows(s, e', s')
  {
    MP.TestsAgree(c.box, c.queue, s);
    e' := Some(MP.Test(c.sched.ring[0]));
    s' := Advance(s, e'.value);
    if c.box.messages == 0 {
      WaitStarts(c.sched, q.lock, q.arrived);
    } else {
      GetRemoves(c.box, c.queue);
      SizesTail(c.queue);
    }
  }

  lemma WakeSimulates<T, Q>(c: Conc<T, Q>, q: Queues<Q>, s: MP.Sys<T>) returns (e': Option<MP.Event<T>>, s': MP.Sys<T>)
    requires Sim(c, q, s) && Ready(c, q) && (c.pc[c.sched.ring[0]].SendSignal? || c.pc[c.sched.ring[0]].RecvBroadcast?)
    ensures Sim(WakeStep(c, q), q, s') && Follows(s, e', s')
  {
    e' := Some(MP.Wake(c.sched.ring[0]));
    s' := Advance(s, e'.value);
    if c.pc[c.sched.ring[0]].RecvBroadcast? {
      SemaphoreTheorems.WakeAllKeepsInv(c.sched, q.freed);
    } else if c.sched.queues[q.arrived] != [] {
      ST.StepKeepsInv(c.sched, SS.UnblockFrom(q.arrived));
    }
  }

  lemma UnlockSimulates<T, Q>(c: Conc<T, Q>, q: Queues<Q>, m: Message, s: MP.Sys<T>) returns (e': Option<MP.Event<T>>, s': MP.Sys<T>)
    requires Sim(c, q, s) && Allowed(c, q, Go(m)) && c.pc[c.sched.ring[0]].Unlock?
    ensures Sim(Next(c, q, Go(m)), q, s') && Follows(s, e', s')
  {
    e' := Some(MP.Release(c.sched.ring[0]));
    s' := Advance(s, e'.value);
    if c.sched.queues[q.lock] != [] { ST.StepKeepsInv(c.sched, SS.UnblockFrom(q.lock)); }
  }

  lemma OtherSimulates<T, Q>(c: Conc<T, Q>, q: Queues<Q>, e: SS.Event<T, Q>, s: MP.Sys<T>)
    requires Sim(c, q, s) && Allowed(c, q, Other(e))
    ensures Sim(Next(c, q, Other(e)), q, s)
  {
    ST.StepKeepsInv(c.sched, e);
  }

  /** Every step of the machine is a step of the protocol, or leaves it where it is. */
  lemma NextSimulates<T, Q>(c: Conc<T, Q>, q: Queues<Q>, ev: Event<T, Q>, s: MP.Sys<T>) returns (e': Option<MP.Event<T>>, s': MP.Sys<T>)
    requires Sim(c, q, s) && Allowed(c, q, ev)
    ensures Sim(Next(c, q, ev), q, s') && Follows(s, e', s')
  {
    match ev
    case Call(to) => e', s' := CallSimulates(c, q, to, s);
    case Other(e) => OtherSimulates(c, q, e, s); e', s' := None, s;
    case Go(m) =>
      var pc := c.pc[c.sched.ring[0]];
      if Acquiring(pc) { e', s' := AcquireSimulates(c, q, s); }
      else if pc.SendTest? { e', s' := SendTestSimulates(c, q, m, s); }
      else if pc.RecvTest? { e', s' := RecvTestSimulates(c, q, s); }
      else if pc.SendSignal? || pc.RecvBroadcast? { e', s' := WakeSimulates(c, q, s); }
      else if pc.Unlock? { e', s' := UnlockSimulates(c, q, m, s); }
      else { e', s' := None, s; }
  }

  // ---------------------------------------------------------------- runs

  ghost predicate Run<T, Q>(cs: seq<Conc<T, Q>>, evs: seq<Event<T, Q>>, q: Queues<Q>) {
    && |cs| == |evs| + 1 && q.Ok()
    && SS.Inv(cs[0].sched) && !cs[0].locked && Represents(cs[0].box, cs[0].queue) && cs[0].queue == []
    && (forall x | x in {q.lock, q.freed, q.arrived} :: x in cs[0].sched.queues && cs[0].sched.queues[x] == [])
    && (forall t | t in cs[0].pc :: cs[0].pc[t] == MP.Idle)
    && forall i {:trigger evs[i]} | 0 <= i < |evs| ::
         |cs[i].box.buffer| == MBUFFER_SIZE && Allowed(cs[i], q, evs[i]) && Next(cs[i], q, evs[i]) == cs[i + 1]
  }

  lemma {:induction false} RunSimulates<T, Q>(cs: seq<Conc<T, Q>>, evs: seq<Event<T, Q>>, q: Queues<Q>, i: nat) returns (s: MP.Sys<T>)
    requires Run(cs, evs, q) && i <= |evs|
    ensures Sim(cs[i], q, s)
  {
    if i == 0 {
      s := MP.Sys(cs[0].pc, None, [], [], {}, []);
    } else {
      var before := RunSimulates(cs, evs, q, i - 1);
      var e;
      e, s := NextSimulates(cs[i - 1], q, evs[i - 1], before);
    }
  }

  /** The running thread is not one of those asleep in the mailbox. */
  lemma SleepersDoNotRun<T, Q>(cs: seq<Conc<T, Q>>, evs: seq<Event<T, Q>>, q: Queues<Q>, i: nat)
    requires Run(cs, evs, q) && i <= |evs| && !cs[i].sched.halted && Ready(cs[i], q)
    ensures var pc := cs[i].pc[cs[i].sched.ring[0]]; !pc.SendParked? && !pc.RecvParked?
  {
    var s := RunSimulates(cs, evs, q, i);
    assert cs[i].sched.ring[0] in cs[i].sched.ring;
  }

  /** The receivers woken on `arrived_data` that have not tested again. */
  function Woken<T>(pc: map<T, MP.Pc>): set<T> { set t | t in pc && pc[t].RecvWoken? }

  /**
  No wake-up is lost, on the machine: whenever the lock word is clear, every thread in the wait queue of
  `freed_space` is a sender that needs more bytes than `space_available` gives, and if a thread is in that of
  `arrived_data`, at least as many receivers as there are messages have been woken and will test again.
  */
  lemma NoLostWakeup<T, Q>(cs: seq<Conc<T, Q>>, evs: seq<Event<T, Q>>, q: Queues<Q>, i: nat)
    requires Run(cs, evs, q) && i <= |evs| && !cs[i].locked
    ensures q.freed in cs[i].sched.queues && q.arrived in cs[i].sched.queues
    ensures forall t | t in cs[i].sched.queues[q.freed] :: t in cs[i].pc && cs[i].pc[t].SendParked? && cs[i].box.Space() < cs[i].pc[t].size
    ensures cs[i].sched.queues[q.arrived] != [] ==> cs[i].box.messages <= |Woken(cs[i].pc)|
  {
    var s := RunSimulates(cs, evs, q, i);
    MP.TestsAgree(cs[i].box, cs[i].queue, s);
    assert s.woken == Woken(cs[i].pc);
  }
}
