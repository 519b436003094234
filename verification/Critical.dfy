/**
Critical sections at the grain of machine instructions (kernel/entry.S), for any number of threads
on one processor. The nesting counter `depth` and the saved flags are global and are not switched
with the thread; the interrupt flag IF is. A timer interrupt may come before any instruction while
IF is set, also in the middle of `enter_critical` before its `cli`.
*/
module Critical {

  /** Where a thread is. Registers that live across a preemption point are part of the place. */
  datatype Pc =
    | Code                            // ordinary code, inside or outside critical sections
    | EnterFlags(eax: bool)           // enter_critical: flags read
    | EnterDepth(eax: bool, zero: bool) // depth read and tested
    | EnterSaved                      // flags stored if depth was read as zero; before cli
    | EnterCli                        // after cli, before incl
    | LeaveTest(zero: bool)           // leave_critical: after decl, before the conditional popf
    | YieldPushed(flag: bool)         // direct_scheduler_entry: after pushfl, before cli
    | InScheduler(iret: bool)         // inside scheduler_entry; left by iret or by plain ret
    | Dead

  /** A saved interrupt frame: the flag iret will restore, where it returns to, the nesting then. */
  datatype Frame = Frame(flag: bool, pc: Pc, nest: nat, syscall: bool)

  /** `nest` counts the critical sections this thread has entered and not left. */
  datatype Thread = Thread(pc: Pc, nest: nat, frames: seq<Frame>)

  datatype State = State(IF: bool, depth: int, saved: bool, current: nat, threads: seq<Thread>) {
    function Running(): Thread requires current < |threads| { threads[current] }

    function Put(t: Thread): State requires current < |threads| { this.(threads := threads[current := t]) }
  }

  datatype Action =
    | Enter | ReadDepth | SaveFlags | Cli | Incl      // enter_critical, instruction by instruction
    | Decl | RestoreFlags                             // leave_critical
    | Timer                                           // timer_handler: the processor pushes a frame and clears IF
    | Yield | YieldCli                                // direct_scheduler_entry
    | Park                                            // block, r3_exit's callers: scheduler_entry with IF clear
    | Switch(to: nat)                                 // scheduler picks the next thread
    | Resume                                          // ret or iret out of scheduler_entry
    | Syscall | SyscallReturn                         // int 0x80 and its iret
    | Create                                          // a thread whose trampoline will iret with IF set
    | Exit(to: nat)

  predicate Enabled(s: State, a: Action) {
    s.current < |s.threads| &&
    var t := s.Running();
    match a
    case Enter => t.pc == Code
    case ReadDepth => t.pc.EnterFlags?
    case SaveFlags => t.pc.EnterDepth?
    case Cli => t.pc == EnterSaved
    case Incl => t.pc == EnterCli
    case Decl => t.pc == Code && 0 < t.nest
    case RestoreFlags => t.pc.LeaveTest?
    case Timer => s.IF && !t.pc.Dead?
    case Yield => t.pc == Code
    case YieldCli => t.pc.YieldPushed?
    case Park => t.pc == Code && !s.IF
    case Switch(to) => t.pc.InScheduler? && to < |s.threads| && s.threads[to].pc.InScheduler?
    case Resume => t.pc.InScheduler? && (t.pc.iret ==> t.frames != [])
    case Syscall => t.pc == Code
    case SyscallReturn =>
      // the handler has left every critical section it entered
      && t.pc == Code && t.frames != []
      && var f := t.frames[|t.frames| - 1]; f.syscall && f.nest == t.nest
    case Create => true
    case Exit(to) => t.pc == Code && t.nest == 0 && !s.IF && to < |s.threads| && to != s.current && s.threads[to].pc.InScheduler?
  }

  function Push(t: Thread, flag: bool, syscall: bool): Thread {
    t.(frames := t.frames + [Frame(flag, t.pc, t.nest, syscall)])
  }

  function Pop(t: Thread): Thread requires t.frames != [] {
    t.(pc := t.frames[|t.frames| - 1].pc, frames := t.frames[..|t.frames| - 1])
  }

  function Do(s: State, a: Action): State
    requires Enabled(s, a)
  {
    var t := s.Running();
    match a
    case Enter => s.Put(t.(pc := EnterFlags(s.IF)))
    case ReadDepth => s.Put(t.(pc := EnterDepth(t.pc.eax, s.depth == 0)))
    case SaveFlags => s.Put(t.(pc := EnterSaved)).(saved := if t.pc.zero then t.pc.eax else s.saved)
    case Cli => s.Put(t.(pc := EnterCli)).(IF := false)
    case Incl => s.Put(t.(pc := Code, nest := t.nest + 1)).(depth := s.depth + 1)
    case Decl => s.Put(t.(pc := LeaveTest(s.depth - 1 == 0), nest := t.nest - 1)).(depth := s.depth - 1)
    case RestoreFlags => s.Put(t.(pc := Code)).(IF := if t.pc.zero then s.saved else s.IF)
    case Timer => s.Put(Push(t, true, false).(pc := InScheduler(true))).(IF := false)
    case Yield => s.Put(t.(pc := YieldPushed(s.IF)))
    case YieldCli => s.Put(Push(t.(pc := Code), t.pc.flag, false).(pc := InScheduler(true))).(IF := false)
    case Park => s.Put(t.(pc := InScheduler(false)))
    case Switch(to) => s.(current := to)
    case Resume =>
      if t.pc.iret then s.Put(Pop(t)).(IF := t.frames[|t.frames| - 1].flag) else s.Put(t.(pc := Code))
    case Syscall => s.Put(Push(t, s.IF, true)).(IF := false)
    case SyscallReturn => s.Put(Pop(t)).(IF := t.frames[|t.frames| - 1].flag)
    case Create => s.(threads := s.threads + [Thread(InScheduler(true), 0, [Frame(true, Code, 0, false)])])
    case Exit(to) => s.Put(t.(pc := Dead)).(current := to)
  }

  // ---------------------------------------------------------------- the invariant

  function Nesting(ts: seq<Thread>): nat {
    if ts == [] then 0 else ts[0].nest + Nesting(ts[1..])
  }

  ghost predicate FrameOk(f: Frame) {
    && (f.flag ==> f.nest == 0)
    && (f.syscall ==> f.pc == Code)
    && (f.pc == Code || (f.nest == 0 && (f.pc.EnterFlags? || f.pc.EnterDepth? || f.pc.EnterSaved? || f.pc.YieldPushed?)))
  }

  ghost predicate ThreadOk(t: Thread) {
    && (forall i | 0 <= i < |t.frames| :: FrameOk(t.frames[i]))
    && (t.pc.YieldPushed? && t.pc.flag ==> t.nest == 0)
    && (t.pc == LeaveTest(true) ==> t.nest == 0)
    && (t.pc == InScheduler(true) ==>
          t.frames != [] && var f := t.frames[|t.frames| - 1]; f.nest == t.nest && !f.syscall)
  }

  ghost predicate MayHoldIF(t: Thread) {
    t.nest == 0 && !t.pc.EnterCli? && !t.pc.LeaveTest? && !t.pc.InScheduler?
  }

  ghost predicate Inv(s: State) {
    && s.current < |s.threads|
    && s.depth == Nesting(s.threads)
    && (forall i | 0 <= i < |s.threads| :: ThreadOk(s.threads[i]))
    && (forall i | 0 <= i < |s.threads| && i != s.current :: s.threads[i].pc.InScheduler? || (s.threads[i].pc.Dead? && s.threads[i].nest == 0))
    && var t := s.Running();
       !t.pc.Dead? && (s.IF ==> MayHoldIF(t))
  }

  lemma {:induction false} NestingPut(ts: seq<Thread>, i: nat, t: Thread)
    requires i < |ts|
    ensures Nesting(ts[i := t]) == Nesting(ts) - ts[i].nest + t.nest
  {
    if i == 0 {
      assert ts[0 := t][1..] == ts[1..];
    } else {
      assert ts[i := t][1..] == ts[1..][i - 1 := t];
      NestingPut(ts[1..], i - 1, t);
    }
  }

  lemma {:induction false} NestingAdd(ts: seq<Thread>, t: Thread)
    ensures Nesting(ts + [t]) == Nesting(ts) + t.nest
  {
    if ts == [] {
      assert [t][1..] == [];
    } else {
      assert (ts + [t])[1..] == ts[1..] + [t];
      NestingAdd(ts[1..], t);
    }
  }

  lemma {:induction false} NestingBounds(ts: seq<Thread>, i: nat)
    requires i < |ts|
    ensures ts[i].nest <= Nesting(ts)
  {
    if 0 < i { NestingBounds(ts[1..], i - 1); }
  }

  /** A step that changes only the running thread, the flag, the counter and the saved flags. */
  lemma PutKeepsInv(s: State, s': State)
    requires Inv(s) && s'.current == s.current && |s'.threads| == |s.threads|
    requires s' == s.Put(s'.threads[s.current]).(IF := s'.IF, depth := s'.depth, saved := s'.saved)
    requires var t, t' := s.Running(), s'.Running();
             ThreadOk(t') && !t'.pc.Dead? && (s'.IF ==> MayHoldIF(t')) && s'.depth - t'.nest == s.depth - t.nest
    ensures Inv(s')
  {
    NestingPut(s.threads, s.current, s'.Running());
  }

  /** The running thread after a step is again well-formed. */
  lemma StepKeepsThread(s: State, a: Action)
    requires Inv(s) && Enabled(s, a) && !a.Create? && !a.Exit? && !a.Switch?
    ensures ThreadOk(Do(s, a).Running())
  {
    NestingBounds(s.threads, s.current);
    var t, t' := s.Running(), Do(s, a).Running();
    assert ThreadOk(t);
    forall i | 0 <= i < |t'.frames| ensures FrameOk(t'.frames[i]) {
      if i < |t.frames| { assert t'.frames[i] == t.frames[i]; }
    }
  }

  lemma CreateKeepsInv(s: State)
    requires Inv(s) && Enabled(s, Create)
    ensures Inv(Do(s, Create))
  {
    NestingAdd(s.threads, Do(s, Create).threads[|s.threads|]);
  }

  lemma ExitKeepsInv(s: State, to: nat)
    requires Inv(s) && Enabled(s, Exit(to))
    ensures Inv(Do(s, Exit(to)))
  {
    NestingPut(s.threads, s.current, Do(s, Exit(to)).threads[s.current]);
  }

  lemma SwitchKeepsInv(s: State, to: nat)
    requires Inv(s) && Enabled(s, Switch(to))
    ensures Inv(Do(s, Switch(to)))
  {
  }

  /** What an instruction or interrupt of the running thread changes. */
  lemma StepPuts(s: State, a: Action)
    requires Inv(s) && Enabled(s, a) && !a.Create? && !a.Exit? && !a.Switch?
    ensures var s' := Do(s, a);
            && s'.current == s.current && |s'.threads| == |s.threads|
            && s' == s.Put(s'.threads[s.current]).(IF := s'.IF, depth := s'.depth, saved := s'.saved)
            && s'.depth - s'.Running().nest == s.depth - s.Running().nest
            && !s'.Running().pc.Dead? && (s'.IF ==> MayHoldIF(s'.Running()))
  {
    var t := s.Running();
    assert ThreadOk(t);
    if t.frames != [] { assert FrameOk(t.frames[|t.frames| - 1]); }
  }

  /** Every instruction of every thread, and every interrupt, keeps the invariant. */
  lemma StepKeepsInv(s: State, a: Action)
    requires Inv(s) && Enabled(s, a)
    ensures Inv(Do(s, a))
  {
    match a
    case Create => CreateKeepsInv(s);
    case Exit(to) => ExitKeepsInv(s, to);
    case Switch(to) => SwitchKeepsInv(s, to);
    case _ =>
      StepKeepsThread(s, a);
      StepPuts(s, a);
      PutKeepsInv(s, Do(s, a));
  }

  // ---------------------------------------------------------------- every interleaving

  /** `kernel_main` before any other thread: one thread in ordinary code, no critical section. */
  ghost predicate Boot(s: State) {
    s.depth == 0 && s.current == 0 && s.threads == [Thread(Code, 0, [])]
  }

  /** One step, as a relation. */
  ghost predicate Steps(s: State, a: Action, s': State) { Enabled(s, a) && Do(s, a) == s' }

  ghost predicate Run(ss: seq<State>, acts: seq<Action>) {
    && |ss| == |acts| + 1 && Boot(ss[0])
    && forall i {:trigger acts[i]} | 0 <= i < |acts| :: Steps(ss[i], acts[i], ss[i + 1])
  }

  lemma {:induction false} RunInv(ss: seq<State>, acts: seq<Action>, i: nat)
    requires Run(ss, acts) && i <= |acts|
    ensures Inv(ss[i])
  {
    if i == 0 {
      assert ss[0].threads[1..] == [];
    } else {
      RunInv(ss, acts, i - 1);
      StepKeepsInv(ss[i - 1], acts[i - 1]);
    }
  }

  /** A thread off the processor gave it up itself, outside a timer interrupt. */
  ghost predicate LeftByItself(t: Thread) {
    t.pc == InScheduler(false) || (t.pc == InScheduler(true) && t.frames != [] && !t.frames[|t.frames| - 1].flag)
  }

  /**
  In every state of every interleaving the counter is the sum of all threads' open critical
  sections, parked threads included. While the running thread is in one, interrupts are off and no
  timer step can come; any other thread that is in one has left the processor by itself.
  */
  lemma CriticalSafety(ss: seq<State>, acts: seq<Action>, i: nat)
    requires Run(ss, acts) && i <= |acts|
    ensures var s := ss[i];
            && s.current < |s.threads| && s.depth == Nesting(s.threads)
            && (0 < s.Running().nest ==> !s.IF && !Enabled(s, Timer))
            && forall j | 0 <= j < |s.threads| && j != s.current && 0 < s.threads[j].nest :: LeftByItself(s.threads[j])
  {
    RunInv(ss, acts, i);
    forall j | 0 <= j < |ss[i].threads| && j != ss[i].current && 0 < ss[i].threads[j].nest
      ensures LeftByItself(ss[i].threads[j])
    {
      var t := ss[i].threads[j];
      assert ThreadOk(t);
      if t.pc == InScheduler(true) { assert FrameOk(t.frames[|t.frames| - 1]); }
    }
  }

  /** `block` is called inside critical sections only, and there it always finds interrupts off. */
  lemma BlockFindsInterruptsOff(ss: seq<State>, acts: seq<Action>, i: nat)
    requires Run(ss, acts) && i <= |acts|
    requires ss[i].current < |ss[i].threads| && ss[i].Running().pc == Code && 0 < ss[i].Running().nest
    ensures Enabled(ss[i], Park)
  {
    RunInv(ss, acts, i);
  }
}
