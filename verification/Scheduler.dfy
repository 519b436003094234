/**
The scheduler as the code has it (kernel/scheduler.cpp, the splice of kernel/kernel.cpp): one pair of
links `next`/`prev` in every thread serves the circular ready ring and the null-terminated wait
queues. Each method is proved against `SchedulerSpec`.
*/
module Scheduler {
  import opened Base
  import SS = SchedulerSpec

  datatype TaskState = READY | RUNNING | BLOCKED | EXITED | EXITED_NO_ZOMBIE

  datatype Place = Nowhere | InRing | InQueue(q: WaitQueue)

  class Thread {
    var state: TaskState
    var next: Thread?
    var prev: Thread?
    /** Which of the structures the links currently belong to. */
    ghost var place: Place

    constructor ()
      ensures place == Nowhere && state == READY
    {
      state, next, prev, place := READY, null, null, Nowhere;
    }
  }

  class WaitQueue {
    var head: Thread?

    constructor ()
      ensures head == null
    {
      head := null;
    }
  }

  // ---------------------------------------------------------------- rings

  ghost predicate IsRing(ring: seq<Thread>)
    reads ring
  {
    var n := |ring|;
    && 0 < n
    && (forall i, j | 0 <= i < j < n :: ring[i] != ring[j])
    && (forall i {:trigger ring[i].next} | 0 <= i < n :: ring[i].next == ring[Next(i, n)])
    && (forall i {:trigger ring[i].prev} | 0 <= i < n :: ring[i].prev == ring[Prev(i, n)])
  }

  /** The same circle, seen from the next thread. */
  function Rotated(ring: seq<Thread>): (r: seq<Thread>)
    requires ring != []
  {
    ring[1..] + [ring[0]]
  }

  lemma RotatedAt(ring: seq<Thread>, i: nat)
    requires i < |ring|
    ensures Rotated(ring)[i] == ring[Next(i, |ring|)]
  {
  }

  lemma RotatedDiffer(ring: seq<Thread>, i: nat, j: nat)
    requires IsRing(ring) && i < j < |ring|
    ensures Rotated(ring)[i] != Rotated(ring)[j]
  {
    RotatedAt(ring, i);
    RotatedAt(ring, j);
  }

  lemma RotatedLinks(ring: seq<Thread>, i: nat)
    requires IsRing(ring) && i < |ring|
    ensures var r, n := Rotated(ring), |ring|; r[i].next == r[Next(i, n)] && r[i].prev == r[Prev(i, n)]
  {
    var n := |ring|;
    RotatedAt(ring, i);
    RotatedAt(ring, Next(i, n));
    RotatedAt(ring, Prev(i, n));
    assert Prev(Next(i, n), n) == i == Next(Prev(i, n), n);
  }

  lemma RotateKeepsRing(ring: seq<Thread>)
    requires IsRing(ring)
    ensures IsRing(Rotated(ring))
  {
    var r, n := Rotated(ring), |ring|;
    forall i, j | 0 <= i < j < n ensures r[i] != r[j] { RotatedDiffer(ring, i, j); }
    forall i {:trigger r[i].next} | 0 <= i < n ensures r[i].next == r[Next(i, n)] { RotatedLinks(ring, i); }
    forall i {:trigger r[i].prev} | 0 <= i < n ensures r[i].prev == r[Prev(i, n)] { RotatedLinks(ring, i); }
  }

  /** The ring closes behind a first thread whose neighbours point past it. */
  lemma PopKeepsRing(ring: seq<Thread>)
    requires 1 < |ring| && forall i, j | 0 <= i < j < |ring| :: ring[i] != ring[j]
    requires var n := |ring|;
             && (forall i {:trigger ring[i].next} | 1 <= i < n :: ring[i].next == ring[if i + 1 == n then 1 else i + 1])
             && (forall i {:trigger ring[i].prev} | 1 <= i < n :: ring[i].prev == ring[if i == 1 then n - 1 else i - 1])
    ensures IsRing(ring[1..])
  {
    var r, n := ring[1..], |ring|;
    forall i {:trigger r[i].next} | 0 <= i < n - 1 ensures r[i].next == r[Next(i, n - 1)] {
      assert r[i] == ring[i + 1] && r[Next(i, n - 1)] == ring[Next(i, n - 1) + 1];
    }
    forall i {:trigger r[i].prev} | 0 <= i < n - 1 ensures r[i].prev == r[Prev(i, n - 1)] {
      assert r[i] == ring[i + 1] && r[Prev(i, n - 1)] == ring[Prev(i, n - 1) + 1];
    }
  }

  function Inserted(ring: seq<Thread>, t: Thread): (r: seq<Thread>)
    requires ring != []
    ensures |r| == |ring| + 1
    ensures forall i {:trigger r[i]} | 0 <= i < |r| :: r[i] == if i == 0 then ring[0] else if i == 1 then t else ring[i - 1]
  {
    [ring[0], t] + ring[1..]
  }

  lemma InsertKeepsRing(ring: seq<Thread>, t: Thread)
    requires 0 < |ring| && forall i, j | 0 <= i < j < |ring| :: ring[i] != ring[j]
    requires forall i | 0 <= i < |ring| :: ring[i] != t
    requires var n := |ring|;
             && (forall i {:trigger ring[i].next} | 1 <= i < n :: ring[i].next == ring[Next(i, n)])
             && (forall i {:trigger ring[i].prev} | 0 <= i < n && i != Next(0, n) :: ring[i].prev == ring[Prev(i, n)])
             && ring[0].next == t && t.next == ring[Next(0, n)] && t.prev == ring[0] && ring[Next(0, n)].prev == t
    ensures IsRing(Inserted(ring, t))
  {
    var r, n := Inserted(ring, t), |ring|;
    forall i, j | 0 <= i < j < n + 1 ensures r[i] != r[j] {
      assert (i == 1 || r[i] == ring[if i == 0 then 0 else i - 1]) && (j == 1 || r[j] == ring[j - 1]);
    }
    forall i {:trigger r[i].next} | 0 <= i < n + 1 ensures r[i].next == r[Next(i, n + 1)] { assert i < 2 || r[i] == ring[i - 1]; }
    forall i {:trigger r[i].prev} | 0 <= i < n + 1 ensures r[i].prev == r[Prev(i, n + 1)] { assert i < 2 || r[i] == ring[i - 1]; }
  }

  /** The ring is linked up with `t` as its last thread. */
  ghost predicate LinkedLast(ring: seq<Thread>, t: Thread)
    reads ring, t
  {
    var n := |ring|;
    && 0 < n && (forall i, j | 0 <= i < j < n :: ring[i] != ring[j]) && (forall i | 0 <= i < n :: ring[i] != t)
    && (forall i {:trigger ring[i].next} | 0 <= i < n - 1 :: ring[i].next == ring[i + 1])
    && (forall i {:trigger ring[i].prev} | 1 <= i < n :: ring[i].prev == ring[i - 1])
    && ring[n - 1].next == t && t.next == ring[0] && t.prev == ring[n - 1] && ring[0].prev == t
  }

  lemma AppendKeepsRing(ring: seq<Thread>, t: Thread)
    requires LinkedLast(ring, t)
    ensures IsRing(ring + [t])
  {
    var r, n := ring + [t], |ring|;
    forall i {:trigger r[i].next} | 0 <= i < n + 1 ensures r[i].next == r[Next(i, n + 1)] { assert i == n || r[i] == ring[i]; }
    forall i {:trigger r[i].prev} | 0 <= i < n + 1 ensures r[i].prev == r[Prev(i, n + 1)] { assert i == n || r[i] == ring[i]; }
  }

  // ---------------------------------------------------------------- wait queues

  /** A null-terminated list of blocked threads hanging off `q`. */
  ghost predicate IsList(q: WaitQueue, s: seq<Thread>)
    reads q, s
  {
    && q.head == (if s == [] then null else s[0])
    && (forall i, j | 0 <= i < j < |s| :: s[i] != s[j])
    && (forall i {:trigger s[i].next} | 0 <= i < |s| :: s[i].next == if i + 1 < |s| then s[i + 1] else null)
    && (forall i | 0 <= i < |s| :: s[i].state == BLOCKED && s[i].place == InQueue(q))
  }

  /** Threads of the ring, all but the first ready. */
  ghost predicate Ready(ring: seq<Thread>, live: set<Thread>)
    reads ring
  {
    && (forall i | 0 <= i < |ring| :: ring[i] in live && ring[i].place == InRing)
    && (forall i | 1 <= i < |ring| :: ring[i].state == READY)
  }

  lemma PopKeepsReady(ring: seq<Thread>, live: set<Thread>)
    requires ring != [] && forall i | 1 <= i < |ring| :: ring[i] in live && ring[i].place == InRing && ring[i].state == READY
    ensures Ready(ring[1..], live)
  {
  }

  lemma AppendKeepsReady(ring: seq<Thread>, live: set<Thread>, t: Thread)
    requires ring != [] && Ready(ring, live) && t.place == InRing && t.state == READY
    ensures Ready(ring + [t], live + {t}) && (ring + [t])[0] == ring[0]
  {
  }

  ghost function CauseOf(state: TaskState): SS.Cause {
    match state
    case READY => SS.Ready
    case RUNNING => SS.Running
    case BLOCKED => SS.Blocked
    case EXITED => SS.Exited
    case EXITED_NO_ZOMBIE => SS.ExitedNoZombie
  }

  class Kernel {
    var current: Thread
    var zombie: Thread?
    var halted: bool
    ghost var ring: seq<Thread>
    ghost var queues: map<WaitQueue, seq<Thread>>
    ghost var live: set<Thread>

    ghost function View(): SS.Sched<Thread, WaitQueue>
      reads this
    {
      var z: Option<Thread> := if zombie == null then None else var t: Thread := zombie; Some(t);
      SS.Sched(ring, queues, z, live, halted)
    }

    /** The ready ring, apart from the state of the running thread. */
    ghost predicate RingOk()
      reads this, live
    {
      && !halted && (forall i | 0 <= i < |ring| :: ring[i] in live) && Ready(ring, live)
      && IsRing(ring) && ring[0] == current
      && (zombie != null ==> zombie in live && zombie.place == Nowhere)
    }

    ghost predicate QueuesOk()
      reads this, queues.Keys, live
    {
      && (forall q, i | q in queues && 0 <= i < |queues[q]| :: queues[q][i] in live)
      && (forall q | q in queues :: IsList(q, queues[q]))
    }

    ghost predicate Valid()
      reads this, queues.Keys, live
    {
      RingOk() && current.state == READY && QueuesOk()
    }

    /** `kernel_main`: the boot thread alone in its ring, all wait queues empty. */
    constructor (waitQueues: set<WaitQueue>)
      requires forall q | q in waitQueues :: q.head == null
      ensures Valid() && fresh(live)
      ensures View() == SS.Sched([current], map q | q in waitQueues :: [], None, {current}, false)
    {
      var boot := new Thread();
      boot.next, boot.prev, boot.place := boot, boot, InRing;
      current, zombie, halted := boot, null, false;
      ring, queues, live := [boot], map q | q in waitQueues :: [], {boot};
    }

    ghost method SetRing(r: seq<Thread>, l: set<Thread>)
      requires !halted && (zombie != null ==> zombie in l && zombie.place == Nowhere)
      requires IsRing(r) && r[0] == current && Ready(r, l)
      modifies this`ring, this`live
      ensures RingOk() && ring == r && live == l
    {
      ring, live := r, l;
    }

    /** `pop_ready_queue`: take the running thread out of the ring; alone in it, halt. */
    method PopReadyQueue() returns (removed: Thread)
      requires RingOk()
      modifies this`current, this`halted, this`ring, this`live
      modifies current`next, current`prev, current`place, current.next`prev, current.prev`next
      ensures removed == old(current) && live == old(live)
      ensures |old(ring)| == 1 ==> halted && ring == old(ring)
      ensures 1 < |old(ring)| ==> RingOk() && ring == old(ring)[1..] && removed.next == null && removed.prev == null
      ensures 1 < |old(ring)| ==> removed.place == Nowhere
    {
      removed := current;
      if current.next == current { halted := true; return; }
      current := current.next;
      removed.prev.next := removed.next;
      removed.next.prev := removed.prev;
      removed.next := null;
      removed.prev := null;
      removed.place := Nowhere;
      PopKeepsRing(ring);
      PopKeepsReady(ring, live);
      SetRing(ring[1..], live);
    }

    method Rotate()
      requires RingOk() && current.state == READY
      modifies this`current, this`ring
      ensures RingOk() && ring == Rotated(old(ring))
    {
      current := current.next;
      RotateKeepsRing(ring);
      ring := Rotated(ring);
      assert ring[|ring| - 1] == old(current) && forall i {:trigger ring[i]} | 0 <= i < |ring| - 1 :: ring[i] == old(ring)[i + 1];
    }

    /** The thread that exited at the previous call goes out of existence. */
    method Reap()
      requires RingOk()
      modifies this`zombie, this`live
      ensures RingOk() && zombie == null
      ensures live == if old(zombie) == null then old(live) else old(live) - {old(zombie)}
    {
      if zombie != null {
        live := live - {zombie};
        zombie := null;
      }
    }

    /** The switch of `scheduler` on the running thread's state. */
    method Advance()
      requires RingOk() && zombie == null
      modifies this`current, this`halted, this`ring, this`zombie, this`live
      modifies current`next, current`prev, current`place, current.next`prev, current.prev`next
      ensures View() == SS.Dispatch(old(View()), CauseOf(old(current.state)))
      ensures !halted ==> RingOk()
      ensures !halted && |ring| < |old(ring)| ==>
                var t := old(current); t.next == null && t.prev == null && t.place == Nowhere
    {
      match current.state {
        case READY => Rotate();
        case BLOCKED => var _ := PopReadyQueue();
        case EXITED_NO_ZOMBIE =>
          var left := PopReadyQueue();
          if !halted { live := live - {left}; }
        case EXITED =>
          var left := PopReadyQueue();
          if !halted { zombie := left; }
        case RUNNING =>
      }
    }

    method ReapAndAdvance()
      requires RingOk()
      modifies this`current, this`halted, this`ring, this`zombie, this`live
      modifies current`next, current`prev, current`place, current.next`prev, current.prev`next
      ensures View() == SS.Dispatch(old(View()), CauseOf(old(current.state)))
      ensures !halted ==> RingOk()
      ensures !halted && |ring| < |old(ring)| ==>
                var t := old(current); t.next == null && t.prev == null && t.place == Nowhere
    {
      Reap();
      Advance();
    }

    /** `scheduler` on the ring alone: reap, switch, make the next thread ready. */
    method Dispatch()
      requires RingOk()
      modifies this`current, this`halted, this`ring, this`zombie, this`live
      modifies current, current.next, current.prev`next
      ensures View() == SS.Dispatch(old(View()), CauseOf(old(current.state)))
      ensures !halted ==> RingOk() && current.state == READY
      ensures !halted && |ring| < |old(ring)| ==>
                var t := old(current); t.next == null && t.prev == null && t.place == Nowhere && t.state == old(current.state)
    {
      ReapAndAdvance();
      if halted { return; }
      current.state := READY;
    }

    /** `scheduler` with all wait queues in order, as at every call but that of `block`. */
    method Schedule()
      requires RingOk() && QueuesOk()
      modifies this`current, this`halted, this`ring, this`zombie, this`live
      modifies current, current.next, current.prev`next
      ensures View() == SS.Dispatch(old(View()), CauseOf(old(current.state)))
      ensures !halted ==> Valid()
    {
      Dispatch();
    }

    /** The timer, or a thread that yields: the running thread stays ready. */
    method Tick()
      requires Valid()
      modifies this`current, this`halted, this`ring, this`zombie, this`live
      modifies current, current.next, current.prev`next
      ensures View() == SS.Dispatch(old(View()), SS.Ready)
      ensures !halted ==> Valid()
    {
      Schedule();
    }

    /** `r3_exit`: the running thread leaves for the zombie slot. */
    method Exit()
      requires Valid()
      modifies this`current, this`halted, this`ring, this`zombie, this`live
      modifies current, current.next, current.prev`next
      ensures View() == SS.Dispatch(old(View()), SS.Exited)
      ensures !halted ==> Valid()
    {
      MarkAs(EXITED);
      Schedule();
    }

    /** `r0_exit_no_zombie`: the running thread goes out of existence at once. */
    method ExitNoZombie()
      requires Valid()
      modifies this`current, this`halted, this`ring, this`zombie, this`live
      modifies current, current.next, current.prev`next
      ensures View() == SS.Dispatch(old(View()), SS.ExitedNoZombie)
      ensures !halted ==> Valid()
    {
      MarkAs(EXITED_NO_ZOMBIE);
      Schedule();
    }

    method MarkAs(state: TaskState)
      requires Valid()
      modifies current`state
      ensures RingOk() && QueuesOk() && current.state == state
    {
      current.state := state;
    }

    /** The last thread of a non-empty queue, found by walking it. */
    method LastOf(q: WaitQueue) returns (t: Thread)
      requires q in queues && IsList(q, queues[q]) && queues[q] != []
      ensures t == queues[q][|queues[q]| - 1]
    {
      ghost var s := queues[q];
      t := q.head;
      ghost var k := 0;
      while t.next != null
        invariant 0 <= k < |s| && s[k] == t
        decreases |s| - k
      {
        t := t.next;
        k := k + 1;
      }
    }

    /** All wait queues but `q` are in order. */
    ghost predicate OtherQueuesOk(q: WaitQueue)
      reads this, queues.Keys, live
    {
      && (forall p, i | p in queues && p != q && 0 <= i < |queues[p]| :: queues[p][i] in live)
      && (forall p | p in queues && p != q :: IsList(p, queues[p]))
    }

    /** `q` is a list of blocked threads but for its last, which is still on its way out of the ring. */
    ghost predicate LeadsTo(q: WaitQueue, s: seq<Thread>)
      reads q, s
    {
      var n := |s| - 1;
      && 0 <= n && q.head == s[0]
      && (forall i, j | 0 <= i < j < |s| :: s[i] != s[j])
      && (forall i {:trigger s[i].next} | 0 <= i < n :: s[i].next == s[i + 1])
      && (forall i | 0 <= i < n :: s[i].state == BLOCKED && s[i].place == InQueue(q))
    }

    /** Link the running thread to the end of a queue. */
    method Append(q: WaitQueue)
      requires RingOk() && QueuesOk() && q in queues
      modifies q, set t | t in queues[q]
      ensures RingOk() && OtherQueuesOk(q) && LeadsTo(q, queues[q] + [current])
      ensures forall i | 0 <= i < |queues[q]| :: queues[q][i].state == old(queues[q][i].state) && queues[q][i].place == old(queues[q][i].place)
    {
      if q.head == null {
        q.head := current;
      } else {
        var t := LastOf(q);
        LinkAfter(q, t);
      }
    }

    method LinkAfter(q: WaitQueue, t: Thread)
      requires RingOk() && QueuesOk() && q in queues && queues[q] != [] && t == queues[q][|queues[q]| - 1]
      modifies t`next
      ensures RingOk() && OtherQueuesOk(q) && LeadsTo(q, queues[q] + [current])
    {
      t.next := current;
    }

    ghost method Extend(q: WaitQueue)
      requires RingOk() && OtherQueuesOk(q) && q in queues && LeadsTo(q, queues[q] + [current])
      requires forall i | 0 <= i < |queues[q]| :: queues[q][i] in live
      modifies this`queues
      ensures RingOk() && OtherQueuesOk(q) && queues == old(queues)[q := old(queues)[q] + [current]]
      ensures LeadsTo(q, queues[q]) && forall i | 0 <= i < |queues[q]| :: queues[q][i] in live
    {
      queues := queues[q := queues[q] + [current]];
    }

    /** `block` before it calls the scheduler: the queue now runs into the ready ring. */
    method Enqueue(q: WaitQueue)
      requires Valid() && q in queues
      modifies this`queues, q, current`state, set t | t in queues[q]
      ensures RingOk() && current.state == BLOCKED && OtherQueuesOk(q)
      ensures queues == old(queues)[q := old(queues)[q] + [current]]
      ensures LeadsTo(q, queues[q]) && forall i | 0 <= i < |queues[q]| :: queues[q][i] in live
    {
      MarkAs(BLOCKED);
      Append(q);
      Extend(q);
    }

    /** Out of the ring, the blocked thread is the last of its queue. */
    ghost method Settle(me: Thread, q: WaitQueue)
      requires RingOk() && current.state == READY && OtherQueuesOk(q) && q in queues && LeadsTo(q, queues[q])
      requires forall i | 0 <= i < |queues[q]| :: queues[q][i] in live
      requires me == queues[q][|queues[q]| - 1] && me.next == null && me.state == BLOCKED && me.place == Nowhere
      requires zombie != me
      modifies me`place
      ensures Valid()
    {
      me.place := InQueue(q);
    }

    /** The scheduler takes a blocked thread out of the ring and leaves the queues alone. */
    method LeaveRing(q: WaitQueue)
      requires RingOk() && current.state == BLOCKED && OtherQueuesOk(q) && q in queues && LeadsTo(q, queues[q])
      requires queues[q][|queues[q]| - 1] == current && forall i | 0 <= i < |queues[q]| :: queues[q][i] in live
      modifies this`current, this`halted, this`ring, this`zombie, this`live
      modifies current, current.next, current.prev`next
      ensures View() == SS.Dispatch(old(View()), SS.Blocked)
      ensures !halted ==> RingOk() && current.state == READY && OtherQueuesOk(q) && LeadsTo(q, queues[q]) && zombie == null
      ensures !halted ==> forall i | 0 <= i < |queues[q]| :: queues[q][i] in live
      ensures !halted ==> var t := old(current); t.next == null && t.place == Nowhere && t.state == BLOCKED
    {
      Dispatch();
    }

    /** `block`, up to the moment the next thread runs. */
    method Block(q: WaitQueue)
      requires Valid() && q in queues
      modifies this, q, live
      ensures View() == SS.Block(old(View()), q)
      ensures !halted ==> Valid()
    {
      var me := current;
      ghost var before := View();
      Enqueue(q);
      LeaveRing(q);
      assert View() == SS.Block(before, q);
      if !halted { Settle(me, q); }
    }

    method Detach(q: WaitQueue) returns (t: Thread)
      requires QueuesOk() && q in queues && queues[q] != []
      modifies q, q.head`place
      ensures OtherQueuesOk(q) && IsList(q, queues[q][1..]) && t == queues[q][0] && t.place == Nowhere
    {
      ghost var s := queues[q];
      t := q.head;
      q.head := t.next;
      t.place := Nowhere;
      assert forall i {:trigger s[1..][i]} | 0 <= i < |s| - 1 :: s[1..][i] == s[i + 1];
    }

    /** The queue's first thread, taken off it. */
    method Dequeue(q: WaitQueue) returns (t: Thread)
      requires QueuesOk() && q in queues && queues[q] != []
      modifies this`queues, q, q.head`place
      ensures QueuesOk() && queues == old(queues)[q := old(queues)[q][1..]]
      ensures t == old(queues)[q][0] && t.place == Nowhere
    {
      t := Detach(q);
      queues := queues[q := queues[q][1..]];
    }

    /** Put a thread that is nowhere right behind the running one. */
    method SpliceBehind(t: Thread)
      requires RingOk() && t in live && t.place == Nowhere && zombie != t
      modifies this`ring, t, current`next, current.next`prev
      ensures RingOk() && ring == Inserted(old(ring), t)
    {
      t.state := READY;
      t.next := current.next;
      t.prev := current;
      current.next.prev := t;
      current.next := t;
      t.place := InRing;
      InsertKeepsRing(ring, t);
      ring := Inserted(ring, t);
    }

    /** `unblock`: the queue's first thread goes right behind the running one. */
    method Unblock(q: WaitQueue)
      requires Valid() && q in queues && queues[q] != []
      modifies this`ring, this`queues, q, live
      ensures View() == SS.Unblock(old(View()), q)
      ensures Valid()
    {
      var t := Dequeue(q);
      Wake(t);
    }

    /** No wait queue has a thread of the ring in it. */
    method Wake(t: Thread)
      requires RingOk() && QueuesOk() && t in live && t.place == Nowhere && zombie != t
      modifies this`ring, t, current`next, current.next`prev
      ensures RingOk() && QueuesOk() && ring == Inserted(old(ring), t)
    {
      SpliceBehind(t);
    }

    method LinkBefore(t: Thread)
      requires RingOk() && t !in live
      modifies t, current`prev, current.prev`next
      ensures LinkedLast(ring, t) && Ready(ring, live) && t.state == READY && t.place == InRing
    {
      t.state := READY;
      t.next := current;
      t.prev := current.prev;
      current.prev.next := t;
      current.prev := t;
      t.place := InRing;
    }

    /** Put a new thread right in front of the running one. */
    method SpliceBefore(t: Thread)
      requires RingOk() && t !in live
      modifies this`ring, this`live, t, current`prev, current.prev`next
      ensures RingOk() && ring == old(ring) + [t] && live == old(live) + {t} && t.place == InRing
    {
      LinkBefore(t);
      AppendKeepsRing(ring, t);
      AppendKeepsReady(ring, live, t);
      SetRing(ring + [t], live + {t});
    }

    /** The end of `thread_create`: the new thread goes in front of the running one, so runs last. */
    method Create(t: Thread)
      requires Valid() && t !in live
      modifies this`ring, this`live, t, current`prev, current.prev`next
      ensures View() == SS.Create(old(View()), t)
      ensures Valid()
    {
      SpliceBefore(t);
    }
  }
}
