/**
The synchronisation objects as the code has them (kernel/sync.cpp), on the pointer-level scheduler.
A method is one stretch without interrupts; a call that sleeps returns with `done` false, and the
caller's loop or return is the next stretch, run when the thread is woken.
*/
module Sync {
  import SS = SchedulerSpec
  import opened Scheduler
  import Spec = SyncSpec

  class Lock {
    var locked: bool
    const queue: WaitQueue

    constructor ()
      ensures !locked && fresh(queue) && queue.head == null
    {
      locked := false;
      queue := new WaitQueue();
    }

    /** One round of `lock_acquire_helper`. */
    method AcquireRound(k: Kernel) returns (done: bool)
      requires k.Valid() && queue in k.queues
      modifies this, k, queue, k.live
      ensures (k.View(), locked, done) == Spec.AcquireRound(old(k.View()), old(locked), queue)
      ensures !k.halted ==> k.Valid()
    {
      if locked {
        k.Block(queue);
        done := false;
      } else {
        locked := true;
        done := true;
      }
    }

    /** `lock_release_helper`. */
    method Release(k: Kernel)
      requires k.Valid() && queue in k.queues
      modifies this, k, queue, k.live
      ensures !locked && k.View() == Spec.Release(old(k.View()), queue)
      ensures k.Valid()
    {
      locked := false;
      if queue.head != null { k.Unblock(queue); }
    }
  }

  class Condition {
    const queue: WaitQueue

    constructor ()
      ensures fresh(queue) && queue.head == null
    {
      queue := new WaitQueue();
    }

    /** `wait` up to its sleep; what follows is rounds of `lock_acquire_helper`. */
    method WaitStart(k: Kernel, l: Lock)
      requires k.Valid() && queue in k.queues && l.queue in k.queues
      modifies l, k, queue, l.queue, k.live
      ensures !l.locked && k.View() == Spec.WaitStart(old(k.View()), l.queue, queue)
      ensures !k.halted ==> k.Valid()
    {
      l.Release(k);
      k.Block(queue);
    }

    method Signal(k: Kernel)
      requires k.Valid() && queue in k.queues
      modifies k, queue, k.live
      ensures k.View() == Spec.WakeOne(old(k.View()), queue)
      ensures k.Valid()
    {
      if queue.head != null { k.Unblock(queue); }
    }

    method Broadcast(k: Kernel)
      requires k.Valid() && queue in k.queues
      modifies k, queue, k.live
      ensures k.View() == Spec.WakeAll(old(k.View()), queue)
      ensures k.Valid()
    {
      while queue.head != null
        invariant k.Valid() && queue in k.queues && k.live == old(k.live)
        invariant Spec.WakeAll(k.View(), queue) == Spec.WakeAll(old(k.View()), queue)
        decreases |k.queues[queue]|
      {
        k.Unblock(queue);
      }
    }
  }

  class Semaphore {
    var slots: int
    const queue: WaitQueue

    constructor (slots: int)
      ensures this.slots == slots && fresh(queue) && queue.head == null
    {
      this.slots := slots;
      queue := new WaitQueue();
    }

    method Up(k: Kernel)
      requires k.Valid() && queue in k.queues
      modifies this, k, queue, k.live
      ensures (k.View(), slots) == Spec.Up(old(k.View()), old(slots), queue)
      ensures k.Valid()
    {
      if queue.head == null { slots := slots + 1; } else { k.Unblock(queue); }
    }

    method Down(k: Kernel) returns (done: bool)
      requires k.Valid() && queue in k.queues
      modifies this, k, queue, k.live
      ensures (k.View(), slots, done) == Spec.Down(old(k.View()), old(slots), queue)
      ensures !k.halted ==> k.Valid()
    {
      done := 0 < slots;
      if 0 < slots { slots := slots - 1; } else { k.Block(queue); }
    }
  }

  class Barrier {
    var counter: int
    const queue: WaitQueue

    constructor (counter: int)
      ensures this.counter == counter && fresh(queue) && queue.head == null
    {
      this.counter := counter;
      queue := new WaitQueue();
    }

    /** A change of the counter touches nothing of the scheduler. */
    method Count(k: Kernel, d: int)
      requires k.Valid()
      modifies this
      ensures k.Valid() && k.View() == old(k.View()) && counter == old(counter) + d
    {
      counter := counter + d;
    }

    method WakeNext(k: Kernel)
      requires k.Valid() && queue in k.queues && k.queues[queue] != []
      modifies this, k`ring, k`queues, queue, k.live
      ensures k.Valid() && queue in k.queues && |k.queues[queue]| == |old(k.queues)[queue]| - 1
      ensures Spec.WakeAll(k.View(), queue) == Spec.WakeAll(old(k.View()), queue) && counter == old(counter) + 1
    {
      k.Unblock(queue);
      Count(k, 1);
    }

    /** The loop of the last arrival. */
    method WakeRest(k: Kernel)
      requires k.Valid() && queue in k.queues
      modifies this, k`ring, k`queues, queue, k.live
      ensures k.View() == Spec.WakeAll(old(k.View()), queue)
      ensures k.Valid() && counter == old(counter) + |old(k.queues)[queue]|
    {
      ghost var woken, total := Spec.WakeAll(k.View(), queue), counter + |k.queues[queue]|;
      while queue.head != null
        invariant k.Valid() && queue in k.queues
        invariant Spec.WakeAll(k.View(), queue) == woken && counter + |k.queues[queue]| == total
        decreases |k.queues[queue]|
      {
        WakeNext(k);
      }
    }

    /** The last arrival wakes everyone and sets the counter back. */
    method Open(k: Kernel)
      requires k.Valid() && queue in k.queues
      modifies this, k`ring, k`queues, queue, k.live
      ensures k.View() == Spec.WakeAll(old(k.View()), queue)
      ensures k.Valid() && counter == old(counter) + |old(k.queues)[queue]| + 1
    {
      WakeRest(k);
      Count(k, 1);
    }

    method Wait(k: Kernel) returns (done: bool)
      requires k.Valid() && queue in k.queues
      modifies this, k, queue, k.live
      ensures (k.View(), counter, done) == Spec.Arrive(old(k.View()), old(counter), queue)
      ensures !k.halted ==> k.Valid()
    {
      Count(k, -1);
      done := counter <= 0;
      if 0 < counter {
        k.Block(queue);
        return;
      }
      Open(k);
      Spec.LastArrival(old(k.View()), old(counter), queue, k.View(), counter);
    }
  }
}
