/**
When a critical section gives the interrupt flag back as it found it (kernel/entry.S): sections of any
body, in every run, whether or not the thread is preempted on its way in or parks inside.
*/
module CriticalSections {
  import opened Critical

  /** A section of the thread that runs at `a`: Enter at `a`, `cli` at `c`, the closing Decl at `e`, the end at `b`. */
  ghost predicate Section(ss: seq<State>, acts: seq<Action>, a: nat, c: nat, e: nat, b: nat) {
    && |ss| == |acts| + 1 && a < c < e < b < |acts| && ss[a].current < |ss[a].threads|
    && var t, n := ss[a].current, ss[a].Running().nest;
       && acts[a] == Enter && acts[c] == Cli && acts[e] == Decl && acts[b] == RestoreFlags
       && ss[c].current == t && ss[e].current == t
       && (forall k | a < k < c :: acts[k] == Cli ==> ss[k].current != t)
       && (forall k | c < k <= e :: t < |ss[k].threads| && (ss[k].threads[t].pc.EnterCli? || n < ss[k].threads[t].nest))
       && ss[e].threads[t].nest == n + 1
       && (forall k | e < k < b :: acts[k] != RestoreFlags)
  }

  // ---------------------------------------------------------------- the way in

  /** Between reading the flags and `cli`, with `flag` as read. */
  predicate Early(pc: Pc, flag: bool) {
    (pc.EnterFlags? && pc.eax == flag) || (pc.EnterDepth? && pc.eax == flag) || pc.EnterSaved?
  }

  /** Where the thread is, or was when the timer took the processor from it. */
  function Place(t: Thread): Pc {
    if t.pc == InScheduler(true) && t.frames != [] then t.frames[|t.frames| - 1].pc else t.pc
  }

  ghost predicate Entering(s: State, t: nat, n: nat, flag: bool) {
    && t < |s.threads|
    && var th := s.threads[t];
       && th.nest == n && Early(Place(th), flag)
       && (th.pc.InScheduler? ==> flag && th.pc.iret && th.frames != [] && th.frames[|th.frames| - 1].flag)
       && (s.current == t && !th.pc.InScheduler? ==> s.IF == flag)
  }

  lemma StepEntering(s: State, a: Action, s': State, t: nat, n: nat, flag: bool)
    requires Inv(s) && Steps(s, a, s') && Entering(s, t, n, flag) && (a == Cli ==> s.current != t)
    ensures Entering(s', t, n, flag)
  {
    var th, th' := s.threads[t], s'.threads[t];
    if s.current == t && a == Resume { assert th'.pc == Place(th); }
  }

  lemma EnterStarts(s: State, s': State)
    requires Steps(s, Enter, s')
    ensures Entering(s', s.current, s.Running().nest, s.IF)
  {
  }

  /** Entering at every moment after `a` up to `c`. */
  ghost predicate EnteringThrough(ss: seq<State>, a: nat, c: nat, t: nat, n: nat, flag: bool)
    requires c < |ss|
  {
    forall k {:trigger ss[k]} | a < k <= c :: Entering(ss[k], t, n, flag)
  }

  lemma ThroughFirst(ss: seq<State>, acts: seq<Action>, a: nat)
    requires Run(ss, acts) && a < |acts| && acts[a] == Enter && ss[a].current < |ss[a].threads|
    ensures EnteringThrough(ss, a, a + 1, ss[a].current, ss[a].Running().nest, ss[a].IF)
  {
    EnterStarts(ss[a], ss[a + 1]);
  }

  lemma ThroughNext(ss: seq<State>, acts: seq<Action>, a: nat, c: nat, t: nat, n: nat, flag: bool)
    requires Run(ss, acts) && a < c < |acts| && EnteringThrough(ss, a, c, t, n, flag) && (acts[c] == Cli ==> ss[c].current != t)
    ensures EnteringThrough(ss, a, c + 1, t, n, flag)
  {
    RunInv(ss, acts, c);
    StepEntering(ss[c], acts[c], ss[c + 1], t, n, flag);
  }

  /** The flag is at `cli` what it was at the start, however often the thread was preempted in between. */
  lemma {:induction false} EnterKeepsFlag(ss: seq<State>, acts: seq<Action>, a: nat, c: nat)
    requires Run(ss, acts) && a < c <= |acts| && acts[a] == Enter && ss[a].current < |ss[a].threads|
    requires forall j | a < j < c :: acts[j] == Cli ==> ss[j].current != ss[a].current
    ensures EnteringThrough(ss, a, c, ss[a].current, ss[a].Running().nest, ss[a].IF)
  {
    if c == a + 1 {
      ThroughFirst(ss, acts, a);
    } else {
      EnterKeepsFlag(ss, acts, a, c - 1);
      ThroughNext(ss, acts, a, c - 1, ss[a].current, ss[a].Running().nest, ss[a].IF);
    }
  }

  // ---------------------------------------------------------------- the way out

  ghost predicate Leaving(s: State, t: nat, zero: bool, saved: bool) {
    s.current == t < |s.threads| && s.threads[t].pc == LeaveTest(zero) && s.saved == saved && !s.IF
  }

  lemma DeclLeaves(s: State, s': State)
    requires Inv(s) && Steps(s, Decl, s')
    ensures Leaving(s', s.current, s.depth == 1, s.saved)
  {
  }

  lemma StepLeaving(s: State, a: Action, s': State, t: nat, zero: bool, saved: bool)
    requires Leaving(s, t, zero, saved) && Steps(s, a, s') && a != RestoreFlags
    ensures Leaving(s', t, zero, saved)
  {
  }

  /** Nothing but thread creation comes between the closing Decl and the end. */
  lemma {:induction false} LeaveUndisturbed(ss: seq<State>, acts: seq<Action>, e: nat, b: nat)
    requires Run(ss, acts) && e < b <= |acts| && acts[e] == Decl && forall j | e < j < b :: acts[j] != RestoreFlags
    ensures forall k | e < k <= b :: Leaving(ss[k], ss[e].current, ss[e].depth == 1, ss[e].saved)
  {
    if b == e + 1 {
      RunInv(ss, acts, e);
      DeclLeaves(ss[e], ss[b]);
    } else {
      LeaveUndisturbed(ss, acts, e, b - 1);
      StepLeaving(ss[b - 1], acts[b - 1], ss[b], ss[e].current, ss[e].depth == 1, ss[e].saved);
    }
  }

  /** What the flag is after a section, whatever happened in it. */
  lemma FlagAfter(ss: seq<State>, acts: seq<Action>, e: nat, b: nat)
    requires Run(ss, acts) && e < b < |acts| && acts[e] == Decl && acts[b] == RestoreFlags
    requires forall k | e < k < b :: acts[k] != RestoreFlags
    ensures ss[b + 1].IF <==> ss[e].depth == 1 && ss[e].saved
    ensures ss[b + 1].current == ss[e].current
  {
    LeaveUndisturbed(ss, acts, e, b);
    assert Steps(ss[b], acts[b], ss[b + 1]);
  }

  /**
  Any section, also one that parks: the flag is restored if and only if, at the closing Decl, it was on at
  entry exactly when this is the last section open anywhere and the saved flags have it on.
  */
  lemma SectionRestoresIff(ss: seq<State>, acts: seq<Action>, a: nat, c: nat, e: nat, b: nat)
    requires Run(ss, acts) && Section(ss, acts, a, c, e, b)
    ensures ss[b + 1].IF == ss[a].IF <==> (ss[a].IF <==> ss[e].depth == 1 && ss[e].saved)
    ensures ss[b + 1].current == ss[a].current
  {
    FlagAfter(ss, acts, e, b);
  }

  // ---------------------------------------------------------------- inside

  /** The thread has run alone since its `cli`: counter and saved flags are its own doing. */
  ghost predicate Inside(s: State, t: nat, n: nat, depth: int, saved: bool) {
    && s.current == t < |s.threads| && 0 <= depth
    && var th := s.threads[t];
       && (if th.pc.EnterCli? then n <= th.nest else n < th.nest)
       && s.depth - th.nest == depth - n && s.saved == saved && (th.pc.EnterDepth? ==> !th.pc.zero)
  }

  lemma CliInside(s: State, s': State)
    requires Inv(s) && Steps(s, Cli, s')
    ensures Inside(s', s.current, s.Running().nest, s.depth, s.saved)
  {
    NestingBounds(s.threads, s.current);
  }

  lemma StepInside(s: State, a: Action, s': State, t: nat, n: nat, depth: int, saved: bool)
    requires Inv(s) && Steps(s, a, s') && Inside(s, t, n, depth, saved)
    requires s'.current == t < |s'.threads| && (s'.threads[t].pc.EnterCli? || n < s'.threads[t].nest)
    ensures Inside(s', t, n, depth, saved)
  {
    NestingBounds(s.threads, t);
    assert ThreadOk(s.threads[t]);
    if s.threads[t].frames != [] { assert FrameOk(s.threads[t].frames[|s.threads[t].frames| - 1]); }
  }

  /** The running thread has a section of its own open, or is just opening it. */
  ghost predicate OpenSince(s: State, t: nat, n: nat) {
    s.current == t < |s.threads| && (s.threads[t].pc.EnterCli? || n < s.threads[t].nest)
  }

  ghost predicate InsideThrough(ss: seq<State>, c: nat, e: nat, t: nat, n: nat, depth: int, saved: bool)
    requires e < |ss|
  {
    forall k {:trigger ss[k]} | c < k <= e :: Inside(ss[k], t, n, depth, saved)
  }

  lemma InsideFirst(ss: seq<State>, acts: seq<Action>, c: nat)
    requires Run(ss, acts) && c < |acts| && acts[c] == Cli && ss[c].current < |ss[c].threads|
    ensures InsideThrough(ss, c, c + 1, ss[c].current, ss[c].Running().nest, ss[c].depth, ss[c].saved)
  {
    RunInv(ss, acts, c);
    CliInside(ss[c], ss[c + 1]);
  }

  lemma InsideNext(ss: seq<State>, acts: seq<Action>, c: nat, e: nat, t: nat, n: nat, depth: int, saved: bool)
    requires Run(ss, acts) && c < e < |acts| && InsideThrough(ss, c, e, t, n, depth, saved) && OpenSince(ss[e + 1], t, n)
    ensures InsideThrough(ss, c, e + 1, t, n, depth, saved)
  {
    RunInv(ss, acts, e);
    StepInside(ss[e], acts[e], ss[e + 1], t, n, depth, saved);
  }

  lemma {:induction false} AloneInside(ss: seq<State>, acts: seq<Action>, c: nat, e: nat, n: nat)
    requires Run(ss, acts) && c < e <= |acts| && acts[c] == Cli && ss[c].current < |ss[c].threads| && ss[c].Running().nest == n
    requires forall k | c < k <= e :: OpenSince(ss[k], ss[c].current, n)
    ensures InsideThrough(ss, c, e, ss[c].current, n, ss[c].depth, ss[c].saved)
  {
    if e == c + 1 {
      InsideFirst(ss, acts, c);
    } else {
      AloneInside(ss, acts, c, e - 1, n);
      InsideNext(ss, acts, c, e - 1, ss[c].current, n, ss[c].depth, ss[c].saved);
    }
  }

  /**
  A section that runs alone from its `cli` on, preempted or not on its way there: the flag is restored if and
  only if, at that `cli`, it was on exactly when no section was open anywhere and the saved flags had it on.
  */
  lemma UnparkedRestoresIff(ss: seq<State>, acts: seq<Action>, a: nat, c: nat, e: nat, b: nat)
    requires Run(ss, acts) && Section(ss, acts, a, c, e, b) && forall k | c <= k <= e :: ss[k].current == ss[a].current
    ensures ss[b + 1].IF == ss[a].IF <==> (ss[a].IF <==> ss[c].depth == 0 && ss[c].saved)
    ensures ss[c].IF == ss[a].IF
  {
    var t, n := ss[a].current, ss[a].Running().nest;
    EnterKeepsFlag(ss, acts, a, c);
    assert Steps(ss[c], acts[c], ss[c + 1]) && Entering(ss[c], t, n, ss[a].IF);
    AloneInside(ss, acts, c, e, n);
    assert Inside(ss[e], t, n, ss[c].depth, ss[c].saved);
    SectionRestoresIff(ss, acts, a, c, e, b);
  }

  // ---------------------------------------------------------------- no other thread at all

  /** What the thread has read and saved so far, when no one else has run since its Enter. */
  ghost predicate AloneEntering(s: State, t: nat, flag: bool, depth: int) {
    && s.current == t < |s.threads| && s.depth == depth
    && var pc := Place(s.threads[t]);
       (pc.EnterDepth? ==> pc.zero == (depth == 0)) && (pc.EnterSaved? && depth == 0 ==> s.saved == flag)
  }

  lemma AloneEnterStarts(s: State, s': State)
    requires Steps(s, Enter, s')
    ensures AloneEntering(s', s.current, s.IF, s.depth)
  {
  }

  lemma StepAloneEntering(s: State, a: Action, s': State, t: nat, n: nat, flag: bool, depth: int)
    requires Steps(s, a, s') && Entering(s, t, n, flag) && AloneEntering(s, t, flag, depth) && a != Cli && s'.current == t
    ensures AloneEntering(s', t, flag, depth)
  {
    if a == Resume { assert s'.threads[t].pc == Place(s.threads[t]); }
  }

  ghost predicate AloneThrough(ss: seq<State>, a: nat, c: nat, t: nat, flag: bool, depth: int)
    requires c < |ss|
  {
    forall k {:trigger ss[k]} | a < k <= c :: AloneEntering(ss[k], t, flag, depth)
  }

  lemma AloneFirst(ss: seq<State>, acts: seq<Action>, a: nat)
    requires Run(ss, acts) && a < |acts| && acts[a] == Enter && ss[a].current < |ss[a].threads|
    ensures AloneThrough(ss, a, a + 1, ss[a].current, ss[a].IF, ss[a].depth)
  {
    AloneEnterStarts(ss[a], ss[a + 1]);
  }

  lemma AloneNext(ss: seq<State>, acts: seq<Action>, a: nat, c: nat, t: nat, n: nat, flag: bool, depth: int)
    requires Run(ss, acts) && a < c < |acts| && AloneThrough(ss, a, c, t, flag, depth) && EnteringThrough(ss, a, c, t, n, flag)
    requires acts[c] != Cli && ss[c + 1].current == t
    ensures AloneThrough(ss, a, c + 1, t, flag, depth)
  {
    StepAloneEntering(ss[c], acts[c], ss[c + 1], t, n, flag, depth);
  }

  lemma {:induction false} AloneEnter(ss: seq<State>, acts: seq<Action>, a: nat, c: nat)
    requires Run(ss, acts) && a < c <= |acts| && acts[a] == Enter && ss[a].current < |ss[a].threads|
    requires forall j | a < j < c :: acts[j] != Cli
    requires forall j | a <= j <= c :: ss[j].current == ss[a].current
    ensures AloneThrough(ss, a, c, ss[a].current, ss[a].IF, ss[a].depth)
  {
    if c == a + 1 {
      AloneFirst(ss, acts, a);
    } else {
      AloneEnter(ss, acts, a, c - 1);
      EnterKeepsFlag(ss, acts, a, c - 1);
      AloneNext(ss, acts, a, c - 1, ss[a].current, ss[a].Running().nest, ss[a].IF, ss[a].depth);
    }
  }

  /**
  A section during which no other thread runs, with any body (nested sections, system calls, new threads,
  the timer): the flag is restored if and only if no section was open at entry, or the flag was off.
  */
  lemma AloneRestoresIff(ss: seq<State>, acts: seq<Action>, a: nat, c: nat, e: nat, b: nat)
    requires Run(ss, acts) && Section(ss, acts, a, c, e, b) && forall k | a <= k <= e :: ss[k].current == ss[a].current
    ensures ss[b + 1].IF == ss[a].IF <==> ss[a].depth == 0 || !ss[a].IF
  {
    var t, n := ss[a].current, ss[a].Running().nest;
    EnterKeepsFlag(ss, acts, a, c);
    AloneEnter(ss, acts, a, c);
    assert Steps(ss[c], acts[c], ss[c + 1]) && Entering(ss[c], t, n, ss[a].IF) && AloneEntering(ss[c], t, ss[a].IF, ss[a].depth);
    UnparkedRestoresIff(ss, acts, a, c, e, b);
  }

  // ---------------------------------------------------------------- nothing interleaves

  /** Neither off the processor nor about to give it up. */
  predicate OnProcessor(t: Thread) { !t.pc.InScheduler? && !t.pc.YieldPushed? && !t.pc.Dead? }

  /** The running thread of `s` still runs, and the others are as they were. */
  ghost predicate Undisturbed(s: State, s': State)
    requires s.current < |s.threads|
  {
    && s'.current == s.current < |s'.threads| && |s.threads| <= |s'.threads| && OnProcessor(s'.Running())
    && forall u | 0 <= u < |s.threads| && u != s.current :: s'.threads[u] == s.threads[u]
  }

  lemma StepNotInterleaved(s: State, a: Action, s': State)
    requires Inv(s) && Steps(s, a, s') && OnProcessor(s.Running()) && 0 < s.Running().nest && !a.Park? && !a.Yield?
    ensures Undisturbed(s, s')
  {
    var th := s.Running();
    assert ThreadOk(th);
    if th.frames != [] { assert FrameOk(th.frames[|th.frames| - 1]); }
  }

  /**
  While the running thread has a section open and calls neither `block` nor the scheduler, it keeps the
  processor, and no step changes any other thread: the stretch is not interleaved with anything.
  */
  lemma {:induction false} SectionNotInterleaved(ss: seq<State>, acts: seq<Action>, i: nat, j: nat)
    requires Run(ss, acts) && i <= j <= |acts| && ss[i].current < |ss[i].threads| && OnProcessor(ss[i].Running())
    requires forall k | i <= k < j :: ss[k].current < |ss[k].threads| && 0 < ss[k].Running().nest
    requires forall k | i <= k < j :: !acts[k].Park? && !acts[k].Yield?
    ensures forall k | i <= k <= j :: Undisturbed(ss[i], ss[k])
    decreases j
  {
    if i < j {
      SectionNotInterleaved(ss, acts, i, j - 1);
      RunInv(ss, acts, j - 1);
      assert Undisturbed(ss[i], ss[j - 1]) && 0 < ss[j - 1].Running().nest;
      StepNotInterleaved(ss[j - 1], acts[j - 1], ss[j]);
    }
  }
}
