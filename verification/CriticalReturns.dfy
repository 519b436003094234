/**
What a thread finds when it comes back (kernel/entry.S): after a timer interrupt, a yield, a `block` or a system
call it is where it was, with its own frames and nesting, and the interrupt flag is what it was when it left.
*/
module CriticalReturns {
  import opened Critical

  // ---------------------------------------------------------------- off the processor

  /** A thread in the scheduler changes only by its own return from it. */
  lemma StepOff(s: State, a: Action, s': State, t: nat)
    requires Inv(s) && Steps(s, a, s') && t < |s.threads| && s.threads[t].pc.InScheduler? && !(a == Resume && s.current == t)
    ensures t < |s'.threads| && s'.threads[t] == s.threads[t]
  {
  }

  /** Thread `t` does not come back from the scheduler at any of these steps. */
  ghost predicate StaysAway(ss: seq<State>, acts: seq<Action>, t: nat, from: nat, to: nat)
    requires |ss| == |acts| + 1 && to <= |acts|
  {
    forall k {:trigger acts[k]} | from <= k < to :: !(acts[k] == Resume && ss[k].current == t)
  }

  lemma {:induction false} OffThroughout(ss: seq<State>, acts: seq<Action>, t: nat, i: nat, j: nat)
    requires Run(ss, acts) && i <= j <= |acts| && t < |ss[i].threads| && ss[i].threads[t].pc.InScheduler?
    requires StaysAway(ss, acts, t, i, j)
    ensures t < |ss[j].threads| && ss[j].threads[t] == ss[i].threads[t]
    decreases j
  {
    if i < j {
      OffThroughout(ss, acts, t, i, j - 1);
      RunInv(ss, acts, j - 1);
      StepOff(ss[j - 1], acts[j - 1], ss[j], t);
    }
  }

  /** Step `j` is the first return of `t` from the scheduler since step `i`. */
  ghost predicate ReturnsAt(ss: seq<State>, acts: seq<Action>, t: nat, i: nat, j: nat) {
    && |ss| == |acts| + 1 && i < j < |acts| && acts[j] == Resume && ss[j].current == t
    && StaysAway(ss, acts, t, i + 1, j)
  }

  /** What the return from the scheduler makes of a thread. */
  lemma ResumeIs(s: State, s': State)
    requires Inv(s) && Steps(s, Resume, s')
    ensures var th, th' := s.Running(), s'.threads[s.current];
            && s'.current == s.current < |s'.threads| && th'.nest == th.nest
            && if th.pc.iret
               then th.frames == th'.frames + [Frame(s'.IF, th'.pc, th.nest, false)]
               else th' == th.(pc := Code) && !s'.IF
  {
    var th := s.Running();
    assert ThreadOk(th);
    if th.pc.iret { assert th.frames == th.frames[..|th.frames| - 1] + [th.frames[|th.frames| - 1]]; }
  }

  lemma LastOf<A>(a: seq<A>, x: A, b: seq<A>, y: A)
    requires a + [x] == b + [y]
    ensures a == b && x == y
  {
    assert (a + [x])[|a|] == (b + [y])[|b|];
    assert a == (a + [x])[..|a|] && b == (b + [y])[..|b|];
  }

  lemma TimerLeaves(s: State, s': State)
    requires Steps(s, Timer, s')
    ensures var th := s.Running();
            && s.IF && s'.current == s.current < |s'.threads|
            && s'.threads[s.current] == Thread(InScheduler(true), th.nest, th.frames + [Frame(true, th.pc, th.nest, false)])
  {
  }

  /**
  The timer takes the processor away at any instruction; when the thread gets it back, it is at that
  instruction, with the same frames and nesting, and interrupts are on.
  */
  lemma TimerRestores(ss: seq<State>, acts: seq<Action>, i: nat, j: nat)
    requires Run(ss, acts) && i < |acts| && acts[i] == Timer && ReturnsAt(ss, acts, ss[i].current, i, j)
    ensures var t := ss[i].current;
            t < |ss[i].threads| && t < |ss[j + 1].threads| && ss[j + 1].current == t
            && ss[j + 1].threads[t] == ss[i].threads[t] && ss[j + 1].IF == ss[i].IF
  {
    var t, th := ss[i].current, ss[i].Running();
    TimerLeaves(ss[i], ss[i + 1]);
    OffThroughout(ss, acts, t, i + 1, j);
    RunInv(ss, acts, j);
    ResumeIs(ss[j], ss[j + 1]);
    var th' := ss[j + 1].threads[t];
    LastOf(th.frames, Frame(true, th.pc, th.nest, false), th'.frames, Frame(ss[j + 1].IF, th'.pc, th.nest, false));
  }

  /** A thread that blocks comes back to the instruction after, interrupts still off. */
  lemma ParkRestores(ss: seq<State>, acts: seq<Action>, i: nat, j: nat)
    requires Run(ss, acts) && i < |acts| && acts[i] == Park && ReturnsAt(ss, acts, ss[i].current, i, j)
    ensures var t := ss[i].current;
            t < |ss[i].threads| && t < |ss[j + 1].threads| && ss[j + 1].current == t
            && ss[j + 1].threads[t] == ss[i].threads[t] && ss[j + 1].IF == ss[i].IF == false
  {
    assert Steps(ss[i], acts[i], ss[i + 1]);
    OffThroughout(ss, acts, ss[i].current, i + 1, j);
    RunInv(ss, acts, j);
    ResumeIs(ss[j], ss[j + 1]);
  }

  /** A new thread begins in ordinary code, outside any section, with interrupts on. */
  lemma CreatedStarts(ss: seq<State>, acts: seq<Action>, i: nat, j: nat)
    requires Run(ss, acts) && i < |acts| && acts[i] == Create && ReturnsAt(ss, acts, |ss[i].threads|, i, j)
    ensures var t := |ss[i].threads|;
            t < |ss[j + 1].threads| && ss[j + 1].current == t && ss[j + 1].threads[t] == Thread(Code, 0, []) && ss[j + 1].IF
  {
    var t := |ss[i].threads|;
    assert Steps(ss[i], acts[i], ss[i + 1]);
    assert ss[i + 1].threads[t] == Thread(InScheduler(true), 0, [] + [Frame(true, Code, 0, false)]);
    OffThroughout(ss, acts, t, i + 1, j);
    RunInv(ss, acts, j);
    ResumeIs(ss[j], ss[j + 1]);
    var th' := ss[j + 1].threads[t];
    LastOf([], Frame(true, Code, 0, false), th'.frames, Frame(ss[j + 1].IF, th'.pc, 0, false));
  }

  /** A thread that has exited never runs again. */
  lemma {:induction false} ExitIsFinal(ss: seq<State>, acts: seq<Action>, i: nat, j: nat)
    requires Run(ss, acts) && i < j <= |acts| && acts[i].Exit?
    ensures var t := ss[i].current; ss[j].current != t < |ss[j].threads| && ss[j].threads[t].pc.Dead?
    decreases j
  {
    RunInv(ss, acts, j);
    assert Steps(ss[j - 1], acts[j - 1], ss[j]);
    if i + 1 < j {
      ExitIsFinal(ss, acts, i, j - 1);
      RunInv(ss, acts, j - 1);
    }
  }

  // ---------------------------------------------------------------- yielding

  /** Between pushing the flags and `cli`: there, or taken off the processor there by the timer. */
  ghost predicate Yielding(s: State, t: nat, th: Thread, flag: bool) {
    && t < |s.threads|
    && var now := s.threads[t];
       || now == th.(pc := YieldPushed(flag))
       || now == Thread(InScheduler(true), th.nest, th.frames + [Frame(true, YieldPushed(flag), th.nest, false)])
  }

  lemma StepYielding(s: State, a: Action, s': State, t: nat, th: Thread, flag: bool)
    requires Inv(s) && Steps(s, a, s') && Yielding(s, t, th, flag) && !(a == YieldCli && s.current == t)
    ensures Yielding(s', t, th, flag)
  {
    if s.current == t && a == Resume {
      ResumeIs(s, s');
      var th' := s'.threads[t];
      LastOf(th.frames, Frame(true, YieldPushed(flag), th.nest, false), th'.frames, Frame(s'.IF, th'.pc, th.nest, false));
    }
  }

  /** Step `c` is the `cli` of the yield that thread `t` began at step `i`. */
  ghost predicate YieldCliAt(ss: seq<State>, acts: seq<Action>, t: nat, i: nat, c: nat) {
    && |ss| == |acts| + 1 && i < c < |acts| && acts[c] == YieldCli && ss[c].current == t
    && forall k {:trigger acts[k]} | i < k < c :: !(acts[k] == YieldCli && ss[k].current == t)
  }

  lemma {:induction false} YieldingThroughout(ss: seq<State>, acts: seq<Action>, i: nat, c: nat)
    requires Run(ss, acts) && i < c <= |acts| && acts[i] == Yield && ss[i].current < |ss[i].threads|
    requires forall k {:trigger acts[k]} | i < k < c :: !(acts[k] == YieldCli && ss[k].current == ss[i].current)
    ensures Yielding(ss[c], ss[i].current, ss[i].Running(), ss[i].IF)
    decreases c
  {
    if c == i + 1 {
      assert Steps(ss[i], acts[i], ss[c]);
    } else {
      YieldingThroughout(ss, acts, i, c - 1);
      RunInv(ss, acts, c - 1);
      StepYielding(ss[c - 1], acts[c - 1], ss[c], ss[i].current, ss[i].Running(), ss[i].IF);
    }
  }

  lemma YieldLeaves(s: State, s': State, th: Thread, flag: bool)
    requires Steps(s, YieldCli, s') && th.pc == Code && Yielding(s, s.current, th, flag)
    ensures s.current < |s'.threads|
    ensures s'.threads[s.current] == Thread(InScheduler(true), th.nest, th.frames + [Frame(flag, Code, th.nest, false)])
  {
  }

  /**
  A thread that yields, preempted or not before its `cli`, goes on after the call with its frames and nesting
  as they were and the interrupt flag as it was when it called.
  */
  lemma YieldRestores(ss: seq<State>, acts: seq<Action>, i: nat, c: nat, j: nat)
    requires Run(ss, acts) && i < |acts| && acts[i] == Yield
    requires YieldCliAt(ss, acts, ss[i].current, i, c) && ReturnsAt(ss, acts, ss[i].current, c, j)
    ensures var t := ss[i].current;
            t < |ss[i].threads| && t < |ss[j + 1].threads| && ss[j + 1].current == t
            && ss[j + 1].threads[t] == ss[i].threads[t] && ss[j + 1].IF == ss[i].IF
  {
    assert Steps(ss[i], acts[i], ss[i + 1]);
    var t, th := ss[i].current, ss[i].Running();
    YieldingThroughout(ss, acts, i, c);
    YieldLeaves(ss[c], ss[c + 1], th, ss[i].IF);
    OffThroughout(ss, acts, t, c + 1, j);
    RunInv(ss, acts, j);
    ResumeIs(ss[j], ss[j + 1]);
    var th' := ss[j + 1].threads[t];
    LastOf(th.frames, Frame(ss[i].IF, Code, th.nest, false), th'.frames, Frame(ss[j + 1].IF, th'.pc, th.nest, false));
  }

  // ---------------------------------------------------------------- system calls

  /** The frame of the system call made by `th` lies on its old frames, whatever has come on top. */
  ghost predicate InCall(s: State, t: nat, th: Thread, flag: bool) {
    && t < |s.threads|
    && var frames, n := s.threads[t].frames, |th.frames|;
       n < |frames| && frames[..n] == th.frames && frames[n] == Frame(flag, th.pc, th.nest, true)
  }

  /** The step that takes the frame of the call off again. */
  predicate Takes(s: State, a: Action, t: nat, n: nat) {
    a == SyscallReturn && s.current == t < |s.threads| && |s.threads[t].frames| == n + 1
  }

  lemma SameFrames(s: State, s': State, t: nat, th: Thread, flag: bool)
    requires InCall(s, t, th, flag) && t < |s'.threads| && s.threads[t].frames <= s'.threads[t].frames
    ensures InCall(s', t, th, flag)
  {
    assert s'.threads[t].frames[..|th.frames|] == s.threads[t].frames[..|th.frames|];
  }

  lemma PoppedFrames(s: State, s': State, t: nat, th: Thread, flag: bool)
    requires InCall(s, t, th, flag) && t < |s'.threads| && |th.frames| + 1 < |s.threads[t].frames|
    requires s'.threads[t].frames == s.threads[t].frames[..|s.threads[t].frames| - 1]
    ensures InCall(s', t, th, flag)
  {
    assert s'.threads[t].frames[..|th.frames|] == s.threads[t].frames[..|th.frames|];
  }

  /** A step adds frames to a thread, or takes one off; off the thread itself only. */
  lemma StepFrames(s: State, a: Action, s': State, t: nat)
    requires Inv(s) && Steps(s, a, s') && t < |s.threads|
    ensures t < |s'.threads|
    ensures var f, f' := s.threads[t].frames, s'.threads[t].frames;
            if s.current == t && (a == SyscallReturn || (a == Resume && s.threads[t].pc == InScheduler(true)))
            then f != [] && f' == f[..|f| - 1] && (a == Resume ==> !f[|f| - 1].syscall)
            else f <= f'
  {
    assert ThreadOk(s.threads[t]);
  }

  lemma StepInCall(s: State, a: Action, s': State, t: nat, th: Thread, flag: bool)
    requires Inv(s) && Steps(s, a, s') && InCall(s, t, th, flag) && !Takes(s, a, t, |th.frames|)
    ensures InCall(s', t, th, flag)
  {
    StepFrames(s, a, s', t);
    if s.threads[t].frames <= s'.threads[t].frames {
      SameFrames(s, s', t, th, flag);
    } else {
      PoppedFrames(s, s', t, th, flag);
    }
  }

  lemma {:induction false} InCallThroughout(ss: seq<State>, acts: seq<Action>, i: nat, j: nat)
    requires Run(ss, acts) && i < j <= |acts| && acts[i] == Syscall && ss[i].current < |ss[i].threads|
    requires forall k {:trigger acts[k]} | i < k < j :: !Takes(ss[k], acts[k], ss[i].current, |ss[i].Running().frames|)
    ensures InCall(ss[j], ss[i].current, ss[i].Running(), ss[i].IF)
    decreases j
  {
    if j == i + 1 {
      assert Steps(ss[i], acts[i], ss[j]);
    } else {
      InCallThroughout(ss, acts, i, j - 1);
      RunInv(ss, acts, j - 1);
      StepInCall(ss[j - 1], acts[j - 1], ss[j], ss[i].current, ss[i].Running(), ss[i].IF);
    }
  }

  /** Step `j` is the return of the system call that thread `t` made with `n` frames at step `i`. */
  ghost predicate CallReturnsAt(ss: seq<State>, acts: seq<Action>, t: nat, n: nat, i: nat, j: nat) {
    && |ss| == |acts| + 1 && i < j < |acts| && Takes(ss[j], acts[j], t, n)
    && forall k {:trigger acts[k]} | i < k < j :: !Takes(ss[k], acts[k], t, n)
  }

  lemma TopFrame(frames: seq<Frame>, below: seq<Frame>, f: Frame)
    requires |frames| == |below| + 1 && frames[..|below|] == below && frames[|below|] == f
    ensures frames[..|frames| - 1] == below && frames[|frames| - 1] == f
  {
  }

  /**
  A system call runs its handler with interrupts off. However the handler is interrupted, blocks, yields or
  makes calls of its own, the caller comes back to ordinary code with the interrupt flag, the frames and the
  nesting it had.
  */
  lemma SyscallRestores(ss: seq<State>, acts: seq<Action>, i: nat, j: nat)
    requires Run(ss, acts) && i < |acts| && acts[i] == Syscall && ss[i].current < |ss[i].threads|
    requires CallReturnsAt(ss, acts, ss[i].current, |ss[i].Running().frames|, i, j)
    ensures !ss[i + 1].IF && ss[i + 1].current == ss[i].current
    ensures var t := ss[i].current;
            t < |ss[j + 1].threads| && ss[j + 1].current == t && ss[j + 1].threads[t] == ss[i].threads[t] && ss[j + 1].IF == ss[i].IF
  {
    var t, th := ss[i].current, ss[i].Running();
    assert Steps(ss[i], acts[i], ss[i + 1]);
    InCallThroughout(ss, acts, i, j);
    assert Steps(ss[j], acts[j], ss[j + 1]);
    TopFrame(ss[j].threads[t].frames, th.frames, Frame(ss[i].IF, th.pc, th.nest, true));
  }
}
