/**
 * Lazy floating point: registers are saved on a switch away from a task that uses them and restored on a
 * switch to it, and a task starts to use them at its first fault.  The CPUs refine a machine in which
 * every task has registers of its own.
 */
module FpuSwitch {

  /** The contents of a register file. */
  type Regs = map<nat, nat>

  const ZERO: Regs := map[]

  datatype Level = NoFp | Fp | Lsx | Lasx

  datatype Exception = FpDisabled | LsxDisabled | LasxDisabled

  datatype Task = Task(usingFp: bool, saved: Regs)

  /**
   * What a CPU is doing: running its task; switching (about to save, to disable, to change the current task,
   * to enable, to restore, to give up the old task); or handling a fault (about to enable, to restore).
   */
  datatype Phase = Run | Leaving | Saved | Away | Arriving | Opened | Settling | Marked | FaultOpened

  /** During a switch a CPU also keeps the task it switches to, and then the one it came from. */
  datatype Cpu = Cpu(regs: Regs, enabled: bool, current: nat, other: nat, phase: Phase)

  datatype State = State(level: Level, cpus: seq<Cpu>, tasks: seq<Task>)

  /** One access of a CPU to its registers, its enable bit or its tasks; Use runs an instruction of the task. */
  datatype Action =
    | Pick(to: nat) | Save | Disable | Move | Enable | Restore | Settle
    | Fault(code: Exception) | FaultEnable | FaultRestore
    | Use(after: Regs)

  predicate Supports(level: Level, code: Exception) {
    match code
    case FpDisabled => level != NoFp
    case LsxDisabled => level == Lsx || level == Lasx
    case LasxDisabled => level == Lasx
  }

  predicate Keeps(cpu: Cpu, t: nat) {
    t == cpu.current || t == cpu.other
  }

  /** Some CPU keeps task t. */
  predicate Kept(s: State, t: nat) {
    exists c: nat :: c < |s.cpus| && Keeps(s.cpus[c], t)
  }

  /** A CPU and its current task after a step of that CPU that picks no task. */
  datatype Local = Local(cpu: Cpu, task: Task)

  predicate MayDo(cpu: Cpu, a: Action) {
    match a
    case Pick(_) => cpu.phase == Run
    case Save => cpu.phase == Leaving
    case Disable => cpu.phase == Saved
    case Move => cpu.phase == Away
    case Enable => cpu.phase == Arriving
    case Restore => cpu.phase == Opened
    case Settle => cpu.phase == Settling
    case Fault(code) => cpu.phase == Run && !cpu.enabled
    case FaultEnable => cpu.phase == Marked
    case FaultRestore => cpu.phase == FaultOpened
    case Use(_) => cpu.phase == Run && cpu.enabled
  }

  function Do(level: Level, l: Local, a: Action): (r: Local) {
    var cpu, task := l.cpu, l.task;
    match a
    case Pick(t) => l.(cpu := cpu.(other := t, phase := Leaving))
    case Save => if cpu.enabled then Local(cpu.(phase := Saved), task.(saved := cpu.regs)) else l.(cpu := cpu.(phase := Away))
    case Disable => l.(cpu := cpu.(enabled := false, phase := Away))
    case Move => l.(cpu := cpu.(current := cpu.other, other := cpu.current, phase := Arriving))
    case Enable =>
      if task.usingFp then l.(cpu := cpu.(enabled := level != NoFp, phase := Opened)) else l.(cpu := cpu.(phase := Settling))
    case Restore => l.(cpu := cpu.(regs := task.saved, phase := Settling))
    case Settle => l.(cpu := cpu.(other := cpu.current, phase := Run))
    case Fault(code) => if Supports(level, code) then Local(cpu.(phase := Marked), task.(usingFp := true)) else l
    case FaultEnable => l.(cpu := cpu.(enabled := true, phase := FaultOpened))
    case FaultRestore => l.(cpu := cpu.(regs := task.saved, phase := Run))
    case Use(v) => l.(cpu := cpu.(regs := v))
  }

  /** One step of CPU c; it picks only a task that no CPU keeps, or its own. */
  ghost predicate Step(s: State, s': State, c: nat, a: Action) {
    && c < |s.cpus| && s.cpus[c].current < |s.tasks| && MayDo(s.cpus[c], a)
    && (a.Pick? ==> a.to < |s.tasks| && (a.to == s.cpus[c].current || !Kept(s, a.to)))
    && var t := s.cpus[c].current;
       var r := Do(s.level, Local(s.cpus[c], s.tasks[t]), a);
       s' == State(s.level, s.cpus[c := r.cpu], s.tasks[t := r.task])
  }

  ghost predicate Init(s: State) {
    && (forall t: nat | t < |s.tasks| :: s.tasks[t] == Task(false, ZERO))
    && (forall c: nat | c < |s.cpus| ::
         !s.cpus[c].enabled && s.cpus[c].phase == Run && s.cpus[c].current == s.cpus[c].other < |s.tasks|)
    && (forall c: nat, d: nat | c < d < |s.cpus| :: s.cpus[c].current != s.cpus[d].current)
  }

  // ----- the machine with registers for every task

  /** The registers of each task after a step. */
  function Own(vals: seq<Regs>, s: State, c: nat, a: Action): (vals': seq<Regs>)
    requires c < |s.cpus|
  {
    if a.Use? && s.cpus[c].current < |vals| then vals[s.cpus[c].current := a.after] else vals
  }

  /** The enable bit in each phase. */
  predicate BitAgrees(cpu: Cpu, task: Task) {
    match cpu.phase
    case Run => cpu.enabled == task.usingFp
    case Leaving => cpu.enabled == task.usingFp
    case Settling => cpu.enabled == task.usingFp
    case Saved => cpu.enabled && task.usingFp
    case Away => !cpu.enabled
    case Arriving => !cpu.enabled
    case Opened => cpu.enabled && task.usingFp
    case Marked => !cpu.enabled && task.usingFp
    case FaultOpened => cpu.enabled && task.usingFp
  }

  /** The register file holds the values of the current task. */
  predicate Loaded(cpu: Cpu) {
    cpu.enabled && cpu.phase != Opened && cpu.phase != FaultOpened
  }

  /** The saved registers of the current task are up to date. */
  predicate Stored(cpu: Cpu) {
    !cpu.enabled || cpu.phase == Saved || cpu.phase == Opened || cpu.phase == FaultOpened
  }

  /** A CPU and its current task agree with the registers that the task should have. */
  predicate LocalAgrees(cpu: Cpu, task: Task, val: Regs) {
    BitAgrees(cpu, task) && (Loaded(cpu) ==> cpu.regs == val) && (Stored(cpu) ==> task.saved == val)
  }

  ghost predicate CpuAgrees(s: State, vals: seq<Regs>, c: nat)
    requires c < |s.cpus| && |vals| == |s.tasks|
  {
    var cpu := s.cpus[c];
    && cpu.current < |s.tasks| && cpu.other < |s.tasks|
    && LocalAgrees(cpu, s.tasks[cpu.current], vals[cpu.current])
    && (cpu.other != cpu.current ==> s.tasks[cpu.other].saved == vals[cpu.other])
    && (cpu.phase in {Run, Marked, FaultOpened} ==> cpu.other == cpu.current)
  }

  /** The saved registers of a task that no CPU keeps are its registers. */
  ghost predicate TaskAgrees(s: State, vals: seq<Regs>, t: nat)
    requires t < |s.tasks| == |vals|
  {
    (s.tasks[t].usingFp ==> s.level != NoFp) && (!Kept(s, t) ==> s.tasks[t].saved == vals[t])
  }

  ghost predicate Apart(s: State) {
    forall c: nat, d: nat, t: nat {:trigger Keeps(s.cpus[c], t), Keeps(s.cpus[d], t)} |
      c < |s.cpus| && d < |s.cpus| && Keeps(s.cpus[c], t) && Keeps(s.cpus[d], t) :: c == d
  }

  ghost predicate Agrees(s: State, vals: seq<Regs>) {
    && |vals| == |s.tasks| && Apart(s)
    && (forall c: nat {:trigger CpuAgrees(s, vals, c)} | c < |s.cpus| :: CpuAgrees(s, vals, c))
    && (forall t: nat {:trigger TaskAgrees(s, vals, t)} | t < |s.tasks| :: TaskAgrees(s, vals, t))
  }

  lemma InitAgrees(s: State, vals: seq<Regs>)
    requires Init(s) && |vals| == |s.tasks| && forall t: nat | t < |vals| :: vals[t] == ZERO
    ensures Agrees(s, vals)
  {
    forall t: nat | t < |s.tasks| ensures TaskAgrees(s, vals, t) {}
    forall c: nat | c < |s.cpus| ensures CpuAgrees(s, vals, c) {}
  }

  // ----- one step

  /** Every step but a use leaves a CPU in agreement with its task. */
  lemma LocalSwitch(level: Level, cpu: Cpu, task: Task, val: Regs, a: Action)
    requires LocalAgrees(cpu, task, val) && MayDo(cpu, a) && !a.Use? && !a.Move? && (task.usingFp ==> level != NoFp)
    ensures var r := Do(level, Local(cpu, task), a);
      && LocalAgrees(r.cpu, r.task, val) && (r.task.usingFp ==> level != NoFp)
      && r.cpu.current == cpu.current && r.cpu.other == (if a.Pick? then a.to else if a.Settle? then cpu.current else cpu.other)
  {
  }

  /** A step that changes CPU c and its current task only, and after which they agree. */
  lemma StepAgrees(s: State, s': State, c: nat, a: Action, vals: seq<Regs>, vals': seq<Regs>)
    requires Agrees(s, vals) && Step(s, s', c, a) && vals' == Own(vals, s, c, a)
    requires CpuAgrees(s', vals', c) && TaskAgrees(s', vals', s.cpus[c].current)
    requires forall t: nat :: Keeps(s'.cpus[c], t) ==> Keeps(s.cpus[c], t) || (a.Pick? && t == a.to)
    requires forall t: nat | t < |s.tasks| && Keeps(s.cpus[c], t) && !Keeps(s'.cpus[c], t) :: s'.tasks[t].saved == vals'[t]
    ensures Agrees(s', vals')
  {
    hide LocalAgrees, Do, MayDo;
    var cur := s.cpus[c].current;
    forall d: nat, e: nat, t: nat | d < |s'.cpus| && e < |s'.cpus| && Keeps(s'.cpus[d], t) && Keeps(s'.cpus[e], t)
      ensures d == e
    {
      KeptBefore(s, s', c, a, d, t);
      KeptBefore(s, s', c, a, e, t);
    }
    forall d: nat | d < |s'.cpus| ensures CpuAgrees(s', vals', d) {
      assert CpuAgrees(s, vals, d);
      assert d != c ==> !Keeps(s.cpus[d], cur) by { assert Keeps(s.cpus[c], cur); }
    }
    forall t: nat | t < |s'.tasks| ensures TaskAgrees(s', vals', t) {
      assert TaskAgrees(s, vals, t);
      if t != cur && !Kept(s', t) { NotKept(s, s', c, t); }
    }
  }

  /** A task kept after the step was kept by the same CPU before, or has just been picked. */
  lemma KeptBefore(s: State, s': State, c: nat, a: Action, d: nat, t: nat)
    requires c < |s.cpus| && d < |s'.cpus| == |s.cpus| && Keeps(s'.cpus[d], t)
    requires forall e: nat | e < |s.cpus| && e != c :: s'.cpus[e] == s.cpus[e]
    requires forall u: nat :: Keeps(s'.cpus[c], u) ==> Keeps(s.cpus[c], u) || (a.Pick? && u == a.to)
    requires a.Pick? ==> a.to == s.cpus[c].current || !Kept(s, a.to)
    ensures Keeps(s.cpus[d], t) || (d == c && !Kept(s, t))
  {
  }

  lemma NotKept(s: State, s': State, c: nat, t: nat)
    requires c < |s.cpus| && |s'.cpus| == |s.cpus| && !Kept(s', t)
    requires forall e: nat | e < |s.cpus| && e != c :: s'.cpus[e] == s.cpus[e]
    ensures Kept(s, t) ==> Keeps(s.cpus[c], t)
  {
    if d: nat :| d < |s.cpus| && Keeps(s.cpus[d], t) { assert d != c ==> Keeps(s'.cpus[d], t); }
  }

  /** An instruction of the task changes its own registers. */
  lemma UseAgrees(s: State, s': State, c: nat, v: Regs, vals: seq<Regs>)
    requires Agrees(s, vals) && Step(s, s', c, Use(v))
    ensures Agrees(s', Own(vals, s, c, Use(v)))
  {
    assert CpuAgrees(s, vals, c) && TaskAgrees(s, vals, s.cpus[c].current);
    assert Keeps(s'.cpus[c], s'.cpus[c].current);
    StepAgrees(s, s', c, Use(v), vals, Own(vals, s, c, Use(v)));
  }

  /** The change of the current task in the middle of a switch. */
  lemma MoveAgrees(s: State, s': State, c: nat, vals: seq<Regs>)
    requires Agrees(s, vals) && Step(s, s', c, Move)
    ensures Agrees(s', vals)
  {
    var cpu := s.cpus[c];
    assert CpuAgrees(s, vals, c) && TaskAgrees(s, vals, cpu.current) && TaskAgrees(s, vals, cpu.other);
    assert Keeps(s'.cpus[c], cpu.current) && Kept(s', cpu.current);
    StepAgrees(s, s', c, Move, vals, vals);
  }

  /** Each access of a switch, and of the handler of a fault, keeps every task's own register values. */
  lemma SwitchAgrees(s: State, s': State, c: nat, a: Action, vals: seq<Regs>)
    requires Agrees(s, vals) && Step(s, s', c, a) && !a.Use?
    ensures Agrees(s', vals)
  {
    if a.Move? {
      MoveAgrees(s, s', c, vals);
    } else {
      var cpu := s.cpus[c];
      assert CpuAgrees(s, vals, c) && TaskAgrees(s, vals, cpu.current) && TaskAgrees(s, vals, cpu.other);
      LocalSwitch(s.level, cpu, s.tasks[cpu.current], vals[cpu.current], a);
      hide LocalAgrees;
      PickedSaved(s, c, a, vals);
      assert Keeps(s'.cpus[c], cpu.current) && Kept(s', cpu.current);
      StepAgrees(s, s', c, a, vals, vals);
    }
  }

  /** The task that a CPU picks has its registers saved. */
  lemma PickedSaved(s: State, c: nat, a: Action, vals: seq<Regs>)
    requires Agrees(s, vals) && c < |s.cpus|
    requires a.Pick? ==> a.to < |s.tasks| && (a.to == s.cpus[c].current || !Kept(s, a.to))
    ensures a.Pick? && a.to != s.cpus[c].current ==> s.tasks[a.to].saved == vals[a.to]
  {
    assert a.Pick? && a.to < |s.tasks| ==> TaskAgrees(s, vals, a.to);
  }

  // ----- runs

  /** A run with the registers that each task should have along it. */
  ghost predicate IsRun(ss: seq<State>, steps: seq<(nat, Action)>, vals: seq<seq<Regs>>) {
    && |ss| == |steps| + 1 == |vals| && Init(ss[0])
    && |vals[0]| == |ss[0].tasks| && (forall t: nat | t < |vals[0]| :: vals[0][t] == ZERO)
    && forall k: nat {:trigger steps[k]} | k < |steps| :: StepOf(ss, steps, vals, k)
  }

  ghost predicate StepOf(ss: seq<State>, steps: seq<(nat, Action)>, vals: seq<seq<Regs>>, k: nat)
    requires k < |steps| && |ss| == |steps| + 1 == |vals|
  {
    Step(ss[k], ss[k + 1], steps[k].0, steps[k].1) && vals[k + 1] == Own(vals[k], ss[k], steps[k].0, steps[k].1)
  }

  lemma {:induction false} RunAgrees(ss: seq<State>, steps: seq<(nat, Action)>, vals: seq<seq<Regs>>, k: nat)
    requires IsRun(ss, steps, vals) && k < |ss|
    ensures Agrees(ss[k], vals[k])
  {
    if k == 0 {
      InitAgrees(ss[0], vals[0]);
    } else {
      RunAgrees(ss, steps, vals, k - 1);
      assert StepOf(ss, steps, vals, k - 1) by { assert steps[k - 1] == steps[k - 1]; }
      var (c, a) := steps[k - 1];
      if a.Use? {
        UseAgrees(ss[k - 1], ss[k], c, a.after, vals[k - 1]);
      } else {
        SwitchAgrees(ss[k - 1], ss[k], c, a, vals[k - 1]);
      }
    }
  }

  /**
   * In every run, whenever a CPU runs its task: floating point is enabled exactly if the task uses it, and
   * the registers then hold what the task last left in registers of its own.
   */
  lemma TasksSeeTheirOwn(ss: seq<State>, steps: seq<(nat, Action)>, vals: seq<seq<Regs>>, k: nat, c: nat)
    requires IsRun(ss, steps, vals) && k < |ss| && c < |ss[k].cpus| && ss[k].cpus[c].phase == Run
    ensures ss[k].cpus[c].current < |ss[k].tasks| == |vals[k]|
    ensures ss[k].cpus[c].enabled <==> ss[k].tasks[ss[k].cpus[c].current].usingFp
    ensures ss[k].cpus[c].enabled ==> ss[k].cpus[c].regs == vals[k][ss[k].cpus[c].current]
  {
    RunAgrees(ss, steps, vals, k);
    assert CpuAgrees(ss[k], vals[k], c);
  }

  /**
   * In every run, a CPU that is about to save registers finds that its task uses floating point, and one that
   * is about to save or restore them has registers.
   */
  lemma SaveAndRestoreApply(ss: seq<State>, steps: seq<(nat, Action)>, vals: seq<seq<Regs>>, k: nat, c: nat)
    requires IsRun(ss, steps, vals) && k < |ss| && c < |ss[k].cpus|
    ensures ss[k].cpus[c].current < |ss[k].tasks|
    ensures ss[k].cpus[c].phase == Leaving && ss[k].cpus[c].enabled ==>
      ss[k].tasks[ss[k].cpus[c].current].usingFp && ss[k].level != NoFp
    ensures ss[k].cpus[c].phase in {Opened, FaultOpened} ==> ss[k].level != NoFp
  {
    RunAgrees(ss, steps, vals, k);
    assert CpuAgrees(ss[k], vals[k], c) && TaskAgrees(ss[k], vals[k], ss[k].cpus[c].current);
  }

  // ----- what a fault and a switch achieve

  /** The levels in the order of what they add. */
  const LEVELS: seq<Level> := [NoFp, Fp, Lsx, Lasx]

  /** Plain, 128-bit and 256-bit instructions need the first, second and third extension or a later one. */
  lemma SupportsFrom(i: nat)
    requires i < |LEVELS|
    ensures Supports(LEVELS[i], FpDisabled) <==> i >= 1
    ensures Supports(LEVELS[i], LsxDisabled) <==> i >= 2
    ensures Supports(LEVELS[i], LasxDisabled) <==> i >= 3
  {
  }

  /** A task starts to use floating point at its first supported fault, and never stops. */
  lemma UsesFrom(s: State, s': State, c: nat, a: Action, t: nat)
    requires Step(s, s', c, a) && t < |s.tasks|
    ensures |s'.tasks| == |s.tasks|
    ensures s'.tasks[t].usingFp <==> s.tasks[t].usingFp || (a.Fault? && t == s.cpus[c].current && Supports(s.level, a.code))
  {
  }

  /** The steps left to the end of a switch or of the handler of a fault. */
  function StepsLeft(p: Phase): (n: nat) {
    match p
    case Run => 0
    case Leaving => 6
    case Saved => 5
    case Away => 4
    case Arriving => 3
    case Opened => 2
    case Settling => 1
    case Marked => 2
    case FaultOpened => 1
  }

  /** The task that a CPU will be running when it next runs one. */
  function Target(cpu: Cpu): (t: nat) {
    if cpu.phase == Leaving || cpu.phase == Saved || cpu.phase == Away then cpu.other else cpu.current
  }

  /** There is a start for any number of CPUs with a task each. */
  lemma MayStart(level: Level, cpus: nat, tasks: nat) returns (s: State)
    requires cpus <= tasks
    ensures Init(s) && s.level == level && |s.cpus| == cpus && |s.tasks| == tasks
  {
    s := State(level, seq(cpus, (c: nat) => Cpu(ZERO, false, c, c, Run)), seq(tasks, _ => Task(false, ZERO)));
  }

  /**
   * A running CPU may switch to its own task and to any that no CPU runs, is switching to or is leaving.  With
   * floating point enabled the task may use it, and otherwise it may fault.
   */
  lemma MayRun(s: State, c: nat, a: Action) returns (s': State)
    requires c < |s.cpus| && s.cpus[c].phase == Run && s.cpus[c].current < |s.tasks|
    requires match a
      case Pick(t) => t < |s.tasks| && (t == s.cpus[c].current || forall d: nat | d < |s.cpus| :: s.cpus[d].current != t && s.cpus[d].other != t)
      case Fault(_) => !s.cpus[c].enabled
      case Use(_) => s.cpus[c].enabled
      case _ => false
    ensures Step(s, s', c, a)
  {
    var t := s.cpus[c].current;
    var r := Do(s.level, Local(s.cpus[c], s.tasks[t]), a);
    s' := State(s.level, s.cpus[c := r.cpu], s.tasks[t := r.task]);
  }

  /** A CPU in the middle of a switch or fault always has a step, and it can only go on towards the same task. */
  lemma GoesOn(s: State, c: nat) returns (a: Action, s': State)
    requires c < |s.cpus| && s.cpus[c].phase != Run && s.cpus[c].current < |s.tasks|
    ensures Step(s, s', c, a)
  {
    match s.cpus[c].phase {
      case Run => assert false;
      case Leaving => a := Save;
      case Saved => a := Disable;
      case Away => a := Move;
      case Arriving => a := Enable;
      case Opened => a := Restore;
      case Settling => a := Settle;
      case Marked => a := FaultEnable;
      case FaultOpened => a := FaultRestore;
    }
    var t := s.cpus[c].current;
    var r := Do(s.level, Local(s.cpus[c], s.tasks[t]), a);
    s' := State(s.level, s.cpus[c := r.cpu], s.tasks[t := r.task]);
  }

  lemma EachStepOn(s: State, s': State, c: nat, a: Action)
    requires Step(s, s', c, a) && s.cpus[c].phase != Run
    ensures StepsLeft(s'.cpus[c].phase) < StepsLeft(s.cpus[c].phase) && Target(s'.cpus[c]) == Target(s.cpus[c])
  {
  }

  /** However many steps other CPUs take meanwhile, a CPU that has picked a task next runs that task. */
  lemma {:induction false} SwitchArrives(ss: seq<State>, steps: seq<(nat, Action)>, vals: seq<seq<Regs>>, c: nat, t: nat, i: nat, k: nat)
    requires IsRun(ss, steps, vals) && i < k < |ss| && steps[i] == (c, Pick(t))
    requires forall j: nat {:trigger ss[j]} | i < j < k && c < |ss[j].cpus| :: ss[j].cpus[c].phase != Run
    ensures c < |ss[k].cpus| && Target(ss[k].cpus[c]) == t && (ss[k].cpus[c].phase == Run ==> ss[k].cpus[c].current == t)
    decreases k
  {
    assert StepOf(ss, steps, vals, k - 1) by { assert steps[k - 1] == steps[k - 1]; }
    if k > i + 1 {
      SwitchArrives(ss, steps, vals, c, t, i, k - 1);
      var (d, a) := steps[k - 1];
      assert ss[k - 1].cpus[c].phase != Run;
      if d == c { EachStepOn(ss[k - 1], ss[k], c, a); }
    }
  }

  /** A supported fault ends, three steps on, with the task running and its registers loaded and enabled. */
  lemma FaultServed(s: State, s1: State, s2: State, s3: State, c: nat, code: Exception, vals: seq<Regs>)
    requires Agrees(s, vals) && Step(s, s1, c, Fault(code)) && Supports(s.level, code)
    requires Step(s1, s2, c, FaultEnable) && Step(s2, s3, c, FaultRestore)
    ensures var t := s.cpus[c].current;
      && s3.cpus[c].phase == Run && s3.cpus[c].current == t && s3.cpus[c].enabled && s3.cpus[c].regs == vals[t]
      && s3.tasks[t].usingFp
  {
    assert CpuAgrees(s, vals, c);
  }

  /** A fault that the level does not support changes nothing. */
  lemma FaultRefused(s: State, s': State, c: nat, code: Exception)
    requires Step(s, s', c, Fault(code)) && !Supports(s.level, code)
    ensures s' == s
  {
  }
}
