/**
Two runs that show why the conditions of `CriticalSections` look at the thread's own `cli` and Decl: at
entry no section is open, and still the interrupt flag comes out different. Both begin with thread 1
preempted between reading the counter and saving the flags.
*/
module CriticalRuns {
  import opened Critical
  import opened CriticalSections

  /** A thread that is at `pc` with no section open. */
  function At(pc: Pc): Thread { Thread(pc, 0, []) }

  /** Taken off the processor by the timer at `pc`; also a thread just created, for ordinary code. */
  function Preempted(pc: Pc): Thread { Thread(InScheduler(true), 0, [Frame(true, pc, 0, false)]) }

  /** Parked inside its one section. */
  const PARKED: Thread := Thread(InScheduler(false), 1, [])

  /** Thread 1 has read a counter of zero and flags with interrupts on. */
  const READ: Pc := EnterDepth(true, true)

  function First(IF: bool, t0: Thread, t1: Thread): State { State(IF, 0, true, 0, [t0, t1]) }

  function Second(IF: bool, depth: int, t0: Thread, t1: Thread): State { State(IF, depth, true, 1, [t0, t1]) }

  lemma StepIs(s: State, a: Action, s': State)
    requires Enabled(s, a) && |s'.threads| == 2 == |Do(s, a).threads|
    requires var d := Do(s, a);
             && s' == State(d.IF, d.depth, d.saved, d.current, s'.threads)
             && (forall i | 0 <= i < 2 :: d.threads[i].pc == s'.threads[i].pc && d.threads[i].nest == s'.threads[i].nest)
             && (forall i | 0 <= i < 2 :: d.threads[i].frames == s'.threads[i].frames)
    ensures Steps(s, a, s')
  {
    assert Do(s, a).threads == s'.threads;
  }

  // ---------------------------------------------------------------- the common beginning

  /** From start-up to thread 0 running again, thread 1 preempted on its way in. */
  function StartState(i: nat): State {
    match i
    case 0 => State(true, 0, true, 0, [At(Code)])
    case 1 => First(true, At(Code), Preempted(Code))
    case 2 => First(false, Preempted(Code), Preempted(Code))
    case 3 => Second(false, 0, Preempted(Code), Preempted(Code))
    case 4 => Second(true, 0, Preempted(Code), At(Code))
    case 5 => Second(true, 0, Preempted(Code), At(EnterFlags(true)))
    case 6 => Second(true, 0, Preempted(Code), At(READ))
    case 7 => Second(false, 0, Preempted(Code), Preempted(READ))
    case 8 => First(false, Preempted(Code), Preempted(READ))
    case _ => First(true, At(Code), Preempted(READ))
  }

  function StartAct(i: nat): Action {
    match i
    case 0 => Create case 1 => Timer case 2 => Switch(1) case 3 => Resume case 4 => Enter
    case 5 => ReadDepth case 6 => Timer case 7 => Switch(0) case _ => Resume
  }

  lemma StartStep(i: nat)
    requires 0 <= i < 5
    ensures Steps(StartState(i), StartAct(i), StartState(i + 1))
  {
    if i == 0 { StepIs(StartState(0), StartAct(0), StartState(1)); }
    else if i == 1 { StepIs(StartState(1), StartAct(1), StartState(2)); }
    else if i == 2 { StepIs(StartState(2), StartAct(2), StartState(3)); }
    else if i == 3 { StepIs(StartState(3), StartAct(3), StartState(4)); }
    else { StepIs(StartState(4), StartAct(4), StartState(5)); }
  }

  lemma StartEnds(i: nat)
    requires 5 <= i < 9
    ensures Steps(StartState(i), StartAct(i), StartState(i + 1))
  {
    if i == 5 { StepIs(StartState(5), StartAct(5), StartState(6)); }
    else if i == 6 { StepIs(StartState(6), StartAct(6), StartState(7)); }
    else if i == 7 { StepIs(StartState(7), StartAct(7), StartState(8)); }
    else { StepIs(StartState(8), StartAct(8), StartState(9)); }
  }

  /** The states and actions given by two functions, up to number `n`. */
  function States(f: nat -> State, n: nat): (ss: seq<State>)
    ensures |ss| == n + 1 && forall i | 0 <= i <= n :: ss[i] == f(i)
  {
    seq(n + 1, i requires 0 <= i => f(i))
  }

  function Actions(f: nat -> Action, n: nat): (acts: seq<Action>)
    ensures |acts| == n && forall i | 0 <= i < n :: acts[i] == f(i)
  {
    seq(n, i requires 0 <= i => f(i))
  }

  // ---------------------------------------------------------------- a flag lost

  function LossState(i: nat): State {
    if i <= 9 then StartState(i) else
      match i
      case 10 => First(true, At(EnterFlags(true)), Preempted(READ))
      case 11 => First(true, At(READ), Preempted(READ))
      case 12 => First(true, At(EnterSaved), Preempted(READ))
      case 13 => First(false, At(EnterCli), Preempted(READ))
      case 14 => State(false, 1, true, 0, [Thread(Code, 1, []), Preempted(READ)])
      case 15 => State(false, 1, true, 0, [PARKED, Preempted(READ)])
      case 16 => Second(false, 1, PARKED, Preempted(READ))
      case 17 => Second(true, 1, PARKED, At(READ))
      case 18 => Second(true, 1, PARKED, At(EnterSaved))
      case 19 => Second(false, 1, PARKED, At(EnterCli))
      case 20 => Second(false, 2, PARKED, Thread(Code, 1, []))
      case 21 => Second(false, 1, PARKED, At(LeaveTest(false)))
      case _ => Second(false, 1, PARKED, At(Code))
  }

  function LossAct(i: nat): Action {
    if i < 9 then StartAct(i) else
      match i
      case 9 => Enter case 10 => ReadDepth case 11 => SaveFlags case 12 => Cli case 13 => Incl case 14 => Park
      case 15 => Switch(1) case 16 => Resume case 17 => SaveFlags case 18 => Cli case 19 => Incl
      case 20 => Decl case _ => RestoreFlags
  }

  lemma LossParks(i: nat)
    requires 9 <= i < 13
    ensures Steps(LossState(i), LossAct(i), LossState(i + 1))
  {
    if i == 9 { StepIs(LossState(9), LossAct(9), LossState(10)); }
    else if i == 10 { StepIs(LossState(10), LossAct(10), LossState(11)); }
    else if i == 11 { StepIs(LossState(11), LossAct(11), LossState(12)); }
    else { StepIs(LossState(12), LossAct(12), LossState(13)); }
  }

  lemma LossSwitches(i: nat)
    requires 13 <= i < 17
    ensures Steps(LossState(i), LossAct(i), LossState(i + 1))
  {
    if i == 13 { StepIs(LossState(13), LossAct(13), LossState(14)); }
    else if i == 14 { StepIs(LossState(14), LossAct(14), LossState(15)); }
    else if i == 15 { StepIs(LossState(15), LossAct(15), LossState(16)); }
    else { StepIs(LossState(16), LossAct(16), LossState(17)); }
  }

  lemma LossEnds(i: nat)
    requires 17 <= i < 22
    ensures Steps(LossState(i), LossAct(i), LossState(i + 1))
  {
    if i == 17 { StepIs(LossState(17), LossAct(17), LossState(18)); }
    else if i == 18 { StepIs(LossState(18), LossAct(18), LossState(19)); }
    else if i == 19 { StepIs(LossState(19), LossAct(19), LossState(20)); }
    else if i == 20 { StepIs(LossState(20), LossAct(20), LossState(21)); }
    else { StepIs(LossState(21), LossAct(21), LossState(22)); }
  }

  lemma LossStep(i: nat)
    requires i < 22
    ensures Steps(LossState(i), LossAct(i), LossState(i + 1))
  {
    if i < 5 { StartStep(i); } else if i < 9 { StartEnds(i); }
    else if i < 13 { LossParks(i); } else if i < 17 { LossSwitches(i); } else { LossEnds(i); }
  }

  /**
  Thread 1 enters with interrupts on and no section open anywhere. Before its `cli` thread 0 opens a section
  and parks in it. When thread 1 goes on, interrupts are on and the counter is one although it has no section
  open; it comes out of its own with interrupts off.
  */
  lemma FlagLost() returns (ss: seq<State>, acts: seq<Action>)
    ensures Run(ss, acts) && Section(ss, acts, 4, 18, 20, 21) && ss[4].current == 1
    ensures ss[4].depth == 0 && ss[4].IF && !ss[22].IF
    ensures ss[17].IF && ss[17].depth == 1 && ss[17].current == 1 < |ss[17].threads| && ss[17].Running().nest == 0
  {
    ss, acts := States(LossState, 22), Actions(LossAct, 22);
    LossRuns(ss, acts);
    LossSection(ss, acts);
    assert ss[17] == LossState(17);
  }

  lemma LossSection(ss: seq<State>, acts: seq<Action>)
    requires ss == States(LossState, 22) && acts == Actions(LossAct, 22)
    ensures Section(ss, acts, 4, 18, 20, 21) && ss[4].current == 1
    ensures ss[4].depth == 0 && ss[4].IF && !ss[22].IF
  {
    forall k | 4 < k < 18 ensures acts[k] == Cli ==> ss[k].current == 0 { LossCli(k); }
    assert acts[4] == LossAct(4) && acts[18] == LossAct(18) && acts[20] == LossAct(20) && acts[21] == LossAct(21);
    assert ss[4] == LossState(4) && ss[18] == LossState(18) && ss[19] == LossState(19) && ss[20] == LossState(20);
    assert ss[22] == LossState(22);
  }

  lemma LossRuns(ss: seq<State>, acts: seq<Action>)
    requires ss == States(LossState, 22) && acts == Actions(LossAct, 22)
    ensures Run(ss, acts)
  {
    forall i | 0 <= i < 22 ensures Steps(ss[i], acts[i], ss[i + 1]) { LossStep(i); }
    assert ss[0] == LossState(0);
  }

  lemma LossCli(k: nat)
    requires k < 18
    ensures LossAct(k) == Cli ==> LossState(k).current == 0
  {
    assert LossAct(k) == Cli ==> k == 12;
  }

  // ---------------------------------------------------------------- a flag gained

  /** The frame of a system call made with interrupts on. */
  const CALL: Frame := Frame(true, Code, 0, true)

  /** Thread 0 in its system call, interrupts off. */
  function Calling(depth: int, saved: bool, pc: Pc, nest: nat, t1: Thread): State {
    State(false, depth, saved, 0, [Thread(pc, nest, [CALL]), t1])
  }

  /** Thread 1, after it has given up the processor by itself. */
  const YIELDED: Thread := Thread(InScheduler(true), 0, [Frame(false, Code, 0, false)])

  const WAITING: Thread := Thread(InScheduler(false), 1, [CALL])

  function GainState(i: nat): State {
    if i <= 9 then StartState(i) else
      match i
      case 10 => Calling(0, true, Code, 0, Preempted(READ))
      case 11 => Calling(0, true, EnterFlags(false), 0, Preempted(READ))
      case 12 => Calling(0, true, EnterDepth(false, true), 0, Preempted(READ))
      case 13 => Calling(0, false, EnterSaved, 0, Preempted(READ))
      case 14 => Calling(0, false, EnterCli, 0, Preempted(READ))
      case 15 => Calling(1, false, Code, 1, Preempted(READ))
      case 16 => State(false, 1, false, 0, [WAITING, Preempted(READ)])
      case 17 => State(false, 1, false, 1, [WAITING, Preempted(READ)])
      case 18 => State(true, 1, false, 1, [WAITING, At(READ)])
      case 19 => Second(true, 1, WAITING, At(EnterSaved))
      case 20 => Second(false, 1, WAITING, At(EnterCli))
      case 21 => Second(false, 2, WAITING, Thread(Code, 1, []))
      case 22 => Second(false, 1, WAITING, At(LeaveTest(false)))
      case 23 => Second(false, 1, WAITING, At(Code))
      case 24 => Second(false, 1, WAITING, At(YieldPushed(false)))
      case 25 => Second(false, 1, WAITING, YIELDED)
      case 26 => State(false, 1, true, 0, [WAITING, YIELDED])
      case 27 => Calling(1, true, Code, 1, YIELDED)
      case 28 => Calling(0, true, LeaveTest(true), 0, YIELDED)
      case _ => State(true, 0, true, 0, [Thread(Code, 0, [CALL]), YIELDED])
  }

  function GainAct(i: nat): Action {
    if i < 9 then StartAct(i) else
      match i
      case 9 => Syscall case 10 => Enter case 11 => ReadDepth case 12 => SaveFlags case 13 => Cli case 14 => Incl
      case 15 => Park case 16 => Switch(1) case 17 => Resume case 18 => SaveFlags case 19 => Cli case 20 => Incl
      case 21 => Decl case 22 => RestoreFlags case 23 => Yield case 24 => YieldCli case 25 => Switch(0)
      case 26 => Resume case 27 => Decl case _ => RestoreFlags
  }

  lemma GainEnters(i: nat)
    requires 9 <= i < 14
    ensures Steps(GainState(i), GainAct(i), GainState(i + 1))
  {
    if i == 9 { StepIs(GainState(9), GainAct(9), GainState(10)); }
    else if i == 10 { StepIs(GainState(10), GainAct(10), GainState(11)); }
    else if i == 11 { StepIs(GainState(11), GainAct(11), GainState(12)); }
    else if i == 12 { StepIs(GainState(12), GainAct(12), GainState(13)); }
    else { StepIs(GainState(13), GainAct(13), GainState(14)); }
  }

  lemma GainParks(i: nat)
    requires 14 <= i < 19
    ensures Steps(GainState(i), GainAct(i), GainState(i + 1))
  {
    if i == 14 { StepIs(GainState(14), GainAct(14), GainState(15)); }
    else if i == 15 { StepIs(GainState(15), GainAct(15), GainState(16)); }
    else if i == 16 { StepIs(GainState(16), GainAct(16), GainState(17)); }
    else if i == 17 { StepIs(GainState(17), GainAct(17), GainState(18)); }
    else { StepIs(GainState(18), GainAct(18), GainState(19)); }
  }

  lemma GainPairs(i: nat)
    requires 19 <= i < 24
    ensures Steps(GainState(i), GainAct(i), GainState(i + 1))
  {
    if i == 19 { StepIs(GainState(19), GainAct(19), GainState(20)); }
    else if i == 20 { StepIs(GainState(20), GainAct(20), GainState(21)); }
    else if i == 21 { StepIs(GainState(21), GainAct(21), GainState(22)); }
    else if i == 22 { StepIs(GainState(22), GainAct(22), GainState(23)); }
    else { StepIs(GainState(23), GainAct(23), GainState(24)); }
  }

  lemma GainYields(i: nat)
    requires 24 <= i < 27
    ensures Steps(GainState(i), GainAct(i), GainState(i + 1))
  {
    if i == 24 { StepIs(GainState(24), GainAct(24), GainState(25)); }
    else if i == 25 { StepIs(GainState(25), GainAct(25), GainState(26)); }
    else { StepIs(GainState(26), GainAct(26), GainState(27)); }
  }

  lemma GainEnds(i: nat)
    requires 27 <= i < 29
    ensures Steps(GainState(i), GainAct(i), GainState(i + 1))
  {
    if i == 27 { StepIs(GainState(27), GainAct(27), GainState(28)); }
    else { StepIs(GainState(28), GainAct(28), GainState(29)); }
  }

  lemma GainStep(i: nat)
    requires i < 29
    ensures Steps(GainState(i), GainAct(i), GainState(i + 1))
  {
    if i < 5 { StartStep(i); } else if i < 9 { StartEnds(i); }
    else if i < 14 { GainEnters(i); } else if i < 19 { GainParks(i); }
    else if i < 24 { GainPairs(i); } else if i < 27 { GainYields(i); } else { GainEnds(i); }
  }

  lemma GainRuns(ss: seq<State>, acts: seq<Action>)
    requires ss == States(GainState, 29) && acts == Actions(GainAct, 29)
    ensures Run(ss, acts)
  {
    forall i | 0 <= i < 29 ensures Steps(ss[i], acts[i], ss[i + 1]) { GainStep(i); }
    assert ss[0] == GainState(0);
  }

  lemma GainOpen(k: nat)
    requires 13 < k <= 27
    ensures |GainState(k).threads| == 2 && (GainState(k).threads[0].pc.EnterCli? || 0 < GainState(k).threads[0].nest)
  {
  }

  /**
  Thread 0 enters with interrupts off, inside a system call, and no section open anywhere; it parks. Thread 1,
  on its way in since before, saves its own flags over those of thread 0. Thread 0 comes out with interrupts
  on in the middle of its system call.
  */
  lemma FlagGained() returns (ss: seq<State>, acts: seq<Action>)
    ensures Run(ss, acts) && Section(ss, acts, 10, 13, 27, 28) && ss[10].current == 0
    ensures ss[10].depth == 0 && !ss[10].IF && ss[29].IF
  {
    ss, acts := States(GainState, 29), Actions(GainAct, 29);
    GainRuns(ss, acts);
    GainSection(ss, acts);
  }

  lemma GainSection(ss: seq<State>, acts: seq<Action>)
    requires ss == States(GainState, 29) && acts == Actions(GainAct, 29)
    ensures Section(ss, acts, 10, 13, 27, 28) && ss[10].current == 0
    ensures ss[10].depth == 0 && !ss[10].IF && ss[29].IF
  {
    assert acts[10] == GainAct(10) && acts[11] == GainAct(11) && acts[12] == GainAct(12) && acts[13] == GainAct(13);
    assert acts[27] == GainAct(27) && acts[28] == GainAct(28);
    assert ss[10] == GainState(10) && ss[13] == GainState(13) && ss[27] == GainState(27) && ss[29] == GainState(29);
    forall k | 13 < k <= 27 ensures |ss[k].threads| == 2 && (ss[k].threads[0].pc.EnterCli? || 0 < ss[k].threads[0].nest) { GainOpen(k); }
  }
}
