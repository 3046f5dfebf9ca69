/**
 * Any number of CPUs that take sets of spinlocks in ascending order, as atomic steps: a load until the
 * lock word is seen to be free, an exchange, and on release a store for each lock in reverse order.
 */
module LockProtocol {
  import opened LockCarousel

  /**
   * Where a CPU is: about to load or to exchange the word of its lock i, inside, or about to free lock i - 1.
   * A CPU that only tries a lock does the same with a number of rounds left.
   */
  datatype Pc = Idle | Spin(i: nat) | Swap(i: nat) | Critical | Releasing(i: nat) | TryLoad(left: nat) | TrySwap(left: nat)

  datatype Cpu = Cpu(order: seq<nat>, pc: Pc)

  /** The lock words that are not zero, and the CPUs. */
  datatype State = State(locked: set<nat>, cpus: seq<Cpu>)

  datatype Action = Begin(order: seq<nat>) | Load | Exchange | Leave | Release | BeginTry(lock: nat) | Try

  const MAX_SPINS: nat := 32

  function HeldCount(c: Cpu): (k: int) {
    match c.pc
    case Idle => 0
    case Spin(i) => i
    case Swap(i) => i
    case Critical => |c.order|
    case Releasing(i) => i
    case TryLoad(_) => 0
    case TrySwap(_) => 0
  }

  predicate CpuOk(c: Cpu) {
    && HeldCount(c) <= |c.order|
    && (c.pc.Spin? || c.pc.Swap? ==> c.pc.i < |c.order|)
    && (Trying(c) ==> |c.order| == 1)
  }

  predicate Trying(c: Cpu) {
    c.pc.TryLoad? || c.pc.TrySwap?
  }

  ghost predicate Holds(c: Cpu, l: nat) {
    exists k: nat :: k < HeldCount(c) && k < |c.order| && c.order[k] == l
  }

  /** CPU c waits for lock l. */
  predicate Wants(c: Cpu, l: nat) {
    (c.pc.Spin? || c.pc.Swap?) && c.pc.i < |c.order| && c.order[c.pc.i] == l
  }

  function Enter(order: seq<nat>, i: nat): (c: Cpu) {
    Cpu(order, if i < |order| then Spin(i) else Critical)
  }

  /** What a CPU that tries a lock does next, given whether the lock is taken. */
  function TryNext(c: Cpu, taken: bool): (c': Cpu)
    requires Trying(c)
  {
    if c.pc.left == 0 then c.(pc := Idle)
    else if taken then c.(pc := TryLoad(c.pc.left - 1))
    else if c.pc.TryLoad? then c.(pc := TrySwap(c.pc.left))
    else c.(pc := Critical)
  }

  /** One atomic step of CPU c. */
  ghost predicate Step(s: State, s': State, c: nat, a: Action) {
    && c < |s.cpus|
    && var cpu := s.cpus[c];
       match a
       case Begin(order) => cpu.pc.Idle? && Ascending(order) && s' == s.(cpus := s.cpus[c := Enter(order, 0)])
       case Load =>
         && cpu.pc.Spin? && cpu.pc.i < |cpu.order|
         && s' == s.(cpus := s.cpus[c := if cpu.order[cpu.pc.i] in s.locked then cpu else cpu.(pc := Swap(cpu.pc.i))])
       case Exchange =>
         && cpu.pc.Swap? && cpu.pc.i < |cpu.order|
         && var l := cpu.order[cpu.pc.i];
            s' == State(s.locked + {l},
                        s.cpus[c := if l in s.locked then cpu.(pc := Spin(cpu.pc.i)) else Enter(cpu.order, cpu.pc.i + 1)])
       case BeginTry(l) => cpu.pc.Idle? && s' == s.(cpus := s.cpus[c := Cpu([l], TryLoad(MAX_SPINS))])
       case Try =>
         && Trying(cpu) && |cpu.order| == 1
         && var next := TryNext(cpu, cpu.order[0] in s.locked);
            s' == State(if next.pc.Critical? then s.locked + {cpu.order[0]} else s.locked, s.cpus[c := next])
       case Leave => cpu.pc.Critical? && s' == s.(cpus := s.cpus[c := cpu.(pc := Releasing(|cpu.order|))])
       case Release =>
         && cpu.pc.Releasing? && cpu.pc.i <= |cpu.order|
         && s' == if cpu.pc.i == 0 then s.(cpus := s.cpus[c := cpu.(pc := Idle)])
                  else State(s.locked - {cpu.order[cpu.pc.i - 1]}, s.cpus[c := cpu.(pc := Releasing(cpu.pc.i - 1))])
  }

  ghost predicate Init(s: State) {
    s.locked == {} && forall c: nat | c < |s.cpus| :: s.cpus[c] == Cpu([], Idle)
  }

  ghost predicate Next(s: State, s': State) {
    exists c: nat, a: Action :: Step(s, s', c, a)
  }

  /** A run: a start state followed by steps. */
  ghost predicate Run(ss: seq<State>) {
    && |ss| > 0 && Init(ss[0])
    && forall t: nat {:trigger ss[t]} | t + 1 < |ss| :: Next(ss[t], ss[t + 1])
  }

  /** No lock is held by two CPUs. */
  ghost predicate Exclusive(s: State) {
    forall c: nat, d: nat, l: nat {:trigger Holds(s.cpus[c], l), Holds(s.cpus[d], l)} |
      c < |s.cpus| && d < |s.cpus| && Holds(s.cpus[c], l) && Holds(s.cpus[d], l) :: c == d
  }

  ghost predicate Inv(s: State) {
    && (forall c: nat {:trigger s.cpus[c]} | c < |s.cpus| :: CpuOk(s.cpus[c]) && Ascending(s.cpus[c].order))
    && Exclusive(s)
    && (forall l: nat {:trigger l in s.locked} :: l in s.locked <==> HeldBySome(s, l))
  }

  ghost predicate HeldBySome(s: State, l: nat) {
    exists c: nat :: c < |s.cpus| && Holds(s.cpus[c], l)
  }

  lemma InitInv(s: State)
    requires Init(s)
    ensures Inv(s)
  {
  }

  /** Replacing CPU c changes what others hold in no way. */
  lemma Others(s: State, s': State, c: nat, cpu: Cpu)
    requires c < |s.cpus| && s'.cpus == s.cpus[c := cpu]
    ensures |s'.cpus| == |s.cpus| && s'.cpus[c] == cpu && forall d: nat | d < |s.cpus| && d != c :: s'.cpus[d] == s.cpus[d]
  {
  }

  /** A step that takes and frees nothing. */
  lemma SameHeld(s: State, s': State, c: nat, cpu: Cpu)
    requires Inv(s) && c < |s.cpus| && s' == s.(cpus := s.cpus[c := cpu]) && CpuOk(cpu) && Ascending(cpu.order)
    requires forall l: nat :: Holds(cpu, l) <==> Holds(s.cpus[c], l)
    ensures Inv(s')
  {
    Others(s, s', c, cpu);
    forall d: nat, l: nat | d < |s.cpus| ensures Holds(s'.cpus[d], l) <==> Holds(s.cpus[d], l) {
    }
    forall l: nat ensures HeldBySome(s', l) <==> HeldBySome(s, l) {
      if d: nat :| d < |s.cpus| && Holds(s.cpus[d], l) { assert Holds(s'.cpus[d], l); }
      if d: nat :| d < |s.cpus| && Holds(s'.cpus[d], l) { assert Holds(s.cpus[d], l); }
    }
  }

  /** CPU c takes the free lock l. */
  lemma Taken(s: State, s': State, c: nat, cpu: Cpu, l: nat)
    requires Inv(s) && c < |s.cpus| && l !in s.locked && s' == State(s.locked + {l}, s.cpus[c := cpu])
    requires CpuOk(cpu) && Ascending(cpu.order) && forall m: nat :: Holds(cpu, m) <==> Holds(s.cpus[c], m) || m == l
    ensures Inv(s')
  {
    Others(s, s', c, cpu);
    assert !HeldBySome(s, l);
    forall m: nat ensures m in s'.locked <==> HeldBySome(s', m) {
      if d: nat :| d < |s.cpus| && Holds(s.cpus[d], m) { assert Holds(s'.cpus[d], m); }
      if m == l { assert Holds(s'.cpus[c], l); }
      if d: nat :| d < |s.cpus| && Holds(s'.cpus[d], m) { assert m == l || Holds(s.cpus[d], m); }
    }
    forall d: nat, e: nat, m: nat | d < |s'.cpus| && e < |s'.cpus| && Holds(s'.cpus[d], m) && Holds(s'.cpus[e], m) ensures d == e {
      assert m == l || (Holds(s.cpus[d], m) && Holds(s.cpus[e], m));
      assert m == l ==> !Holds(s.cpus[d], l) && !Holds(s.cpus[e], l);
    }
  }

  /** CPU c frees the lock l that it holds. */
  lemma Freed(s: State, s': State, c: nat, cpu: Cpu, l: nat)
    requires Inv(s) && c < |s.cpus| && Holds(s.cpus[c], l) && s' == State(s.locked - {l}, s.cpus[c := cpu])
    requires CpuOk(cpu) && Ascending(cpu.order) && forall m: nat :: Holds(cpu, m) <==> Holds(s.cpus[c], m) && m != l
    ensures Inv(s')
  {
    Others(s, s', c, cpu);
    forall m: nat ensures m in s'.locked <==> HeldBySome(s', m) {
      if d: nat :| d < |s.cpus| && Holds(s.cpus[d], m) { assert m != l ==> Holds(s'.cpus[d], m); }
      if d: nat :| d < |s.cpus| && Holds(s'.cpus[d], m) { assert Holds(s.cpus[d], m); }
    }
    forall d: nat, e: nat, m: nat | d < |s'.cpus| && e < |s'.cpus| && Holds(s'.cpus[d], m) && Holds(s'.cpus[e], m) ensures d == e {
      assert Holds(s.cpus[d], m) && Holds(s.cpus[e], m);
    }
  }

  /** After a successful exchange a CPU holds its lock i as well. */
  lemma EnterHolds(cpu: Cpu, i: nat, m: nat)
    requires cpu.pc == Swap(i) && i < |cpu.order|
    ensures Holds(Enter(cpu.order, i + 1), m) <==> Holds(cpu, m) || m == cpu.order[i]
  {
    var next := Enter(cpu.order, i + 1);
    if Holds(cpu, m) {
      var k: nat :| k < HeldCount(cpu) && k < |cpu.order| && cpu.order[k] == m;
      assert k < HeldCount(next);
    }
    if m == cpu.order[i] { assert i < HeldCount(next) && next.order[i] == m; }
  }

  /** After a release a CPU holds all but its last lock. */
  lemma ReleaseHolds(cpu: Cpu, i: nat, m: nat)
    requires cpu.pc == Releasing(i) && 0 < i <= |cpu.order| && Ascending(cpu.order)
    ensures Holds(cpu.(pc := Releasing(i - 1)), m) <==> Holds(cpu, m) && m != cpu.order[i - 1]
  {
    var next := cpu.(pc := Releasing(i - 1));
    if Holds(cpu, m) && m != cpu.order[i - 1] {
      var k: nat :| k < HeldCount(cpu) && k < |cpu.order| && cpu.order[k] == m;
      assert k < HeldCount(next);
    }
    if Holds(next, m) {
      var k: nat :| k < HeldCount(next) && k < |cpu.order| && cpu.order[k] == m;
      assert cpu.order[k] < cpu.order[i - 1] && k < HeldCount(cpu);
    }
  }

  lemma StepInv(s: State, s': State, c: nat, a: Action)
    requires Inv(s) && Step(s, s', c, a)
    ensures Inv(s')
  {
    var cpu := s.cpus[c];
    match a
    case Begin(order) => SameHeld(s, s', c, Enter(order, 0));
    case Load => SameHeld(s, s', c, s'.cpus[c]);
    case Exchange =>
      var i, l := cpu.pc.i, cpu.order[cpu.pc.i];
      if l in s.locked {
        assert s.locked + {l} == s.locked;
        SameHeld(s, s', c, cpu.(pc := Spin(i)));
      } else {
        forall m: nat ensures Holds(Enter(cpu.order, i + 1), m) <==> Holds(cpu, m) || m == l { EnterHolds(cpu, i, m); }
        Taken(s, s', c, Enter(cpu.order, i + 1), l);
      }
    case BeginTry(l) => SameHeld(s, s', c, Cpu([l], TryLoad(MAX_SPINS)));
    case Try =>
      var l, next := cpu.order[0], TryNext(cpu, cpu.order[0] in s.locked);
      if next.pc.Critical? {
        forall m: nat ensures Holds(next, m) <==> Holds(cpu, m) || m == l { assert m == l ==> next.order[0] == m; }
        Taken(s, s', c, next, l);
      } else {
        SameHeld(s, s', c, next);
      }
    case Leave => SameHeld(s, s', c, cpu.(pc := Releasing(|cpu.order|)));
    case Release =>
      var i := cpu.pc.i;
      if i == 0 {
        SameHeld(s, s', c, cpu.(pc := Idle));
      } else {
        var l, next := cpu.order[i - 1], cpu.(pc := Releasing(i - 1));
        assert i - 1 < HeldCount(cpu) && cpu.order[i - 1] == l;
        forall m: nat ensures Holds(next, m) <==> Holds(cpu, m) && m != l { ReleaseHolds(cpu, i, m); }
        Freed(s, s', c, next, l);
      }
  }

  /** Every state of every run keeps the invariant. */
  lemma {:induction false} RunInv(ss: seq<State>, t: nat)
    requires Run(ss) && t < |ss|
    ensures Inv(ss[t])
  {
    if t == 0 {
      InitInv(ss[0]);
    } else {
      RunInv(ss, t - 1);
      assert Next(ss[t - 1], ss[t - 1 + 1]);
      var c: nat, a: Action :| Step(ss[t - 1], ss[t], c, a);
      StepInv(ss[t - 1], ss[t], c, a);
    }
  }

  /** Mutual exclusion: in every run no two CPUs ever hold the same lock. */
  lemma MutualExclusion(ss: seq<State>, t: nat, c: nat, d: nat, l: nat)
    requires Run(ss) && t < |ss| && c < |ss[t].cpus| && d < |ss[t].cpus|
    requires Holds(ss[t].cpus[c], l) && Holds(ss[t].cpus[d], l)
    ensures c == d
  {
    RunInv(ss, t);
  }

  /** CPU c waits for a lock that d holds. */
  ghost predicate WaitsFor(s: State, c: nat, d: nat) {
    c < |s.cpus| && d < |s.cpus| && exists l: nat :: Wants(s.cpus[c], l) && Holds(s.cpus[d], l)
  }

  /** A CPU wants a lock above all those it holds. */
  lemma WantsAbove(c: Cpu, l: nat, m: nat)
    requires CpuOk(c) && Ascending(c.order) && Wants(c, l) && Holds(c, m)
    ensures m < l
  {
  }

  /** The lock that a waiting CPU wants. */
  function Wanted(c: Cpu): (l: nat) {
    if CanWait(c) then c.order[c.pc.i] else 0
  }

  /** Along a chain of waiting CPUs the wanted locks increase. */
  lemma {:induction false} ChainIncreases(s: State, chain: seq<nat>, k: nat)
    requires Inv(s) && k + 1 < |chain|
    requires forall j: nat {:trigger chain[j]} | j + 1 < |chain| :: WaitsFor(s, chain[j], chain[j + 1])
    ensures forall j: nat {:trigger chain[j]} | j <= k :: chain[j] < |s.cpus| && CanWait(s.cpus[chain[j]])
    ensures Wanted(s.cpus[chain[0]]) <= Wanted(s.cpus[chain[k]])
    ensures k > 0 ==> Wanted(s.cpus[chain[0]]) < Wanted(s.cpus[chain[k]])
  {
    assert WaitsFor(s, chain[k], chain[k + 1]);
    if k > 0 {
      ChainIncreases(s, chain, k - 1);
      assert WaitsFor(s, chain[k - 1], chain[k]);
      var l: nat :| Wants(s.cpus[chain[k - 1]], l) && Holds(s.cpus[chain[k]], l);
      WantsAbove(s.cpus[chain[k]], Wanted(s.cpus[chain[k]]), l);
    }
  }

  predicate CanWait(c: Cpu) {
    (c.pc.Spin? || c.pc.Swap?) && c.pc.i < |c.order|
  }

  /** No circular wait: in no run do CPUs wait for each other in a circle. */
  lemma NoCircularWait(ss: seq<State>, t: nat, chain: seq<nat>)
    requires Run(ss) && t < |ss| && |chain| > 1
    requires forall j: nat {:trigger chain[j]} | j + 1 < |chain| :: WaitsFor(ss[t], chain[j], chain[j + 1])
    ensures chain[0] != chain[|chain| - 1]
  {
    RunInv(ss, t);
    var s, k := ss[t], |chain| - 2;
    ChainIncreases(s, chain, k);
    if chain[0] == chain[k + 1] {
      assert WaitsFor(s, chain[k], chain[k + 1]);
      var l: nat :| Wants(s.cpus[chain[k]], l) && Holds(s.cpus[chain[k + 1]], l);
      WantsAbove(s.cpus[chain[0]], Wanted(s.cpus[chain[0]]), l);
    }
  }

  // ----- progress

  /** How many steps a CPU may still spend on trying. */
  function TryRank(c: Cpu): (n: nat) {
    if c.pc.TryLoad? then 2 * c.pc.left + 2 else if c.pc.TrySwap? then 2 * c.pc.left + 1 else 0
  }

  /** Trying a lock takes a bounded number of steps whatever the others do, and ends with the lock or without it. */
  lemma TryEnds(s: State, s': State, c: nat)
    requires Step(s, s', c, Try)
    ensures TryRank(s'.cpus[c]) < TryRank(s.cpus[c])
    ensures !Trying(s'.cpus[c]) ==> s'.cpus[c].pc == if s'.locked == s.locked then Idle else Critical
  {
  }

  /** The next step of CPU c takes it on: it is inside, releasing, trying, or wants a lock that is free. */
  predicate CanProceed(s: State, c: nat) {
    && c < |s.cpus|
    && var cpu := s.cpus[c];
       cpu.pc.Critical? || cpu.pc.Releasing? || Trying(cpu) || (CanWait(cpu) && Wanted(cpu) !in s.locked)
  }

  function Bound(cpus: seq<Cpu>): (b: nat) {
    if cpus == [] then 0 else 1 + Wanted(cpus[0]) + Bound(cpus[1..])
  }

  lemma {:induction false} BelowBound(cpus: seq<Cpu>, c: nat)
    requires c < |cpus|
    ensures Wanted(cpus[c]) < Bound(cpus)
  {
    if c > 0 { BelowBound(cpus[1..], c - 1); }
  }

  /** Following the holders of wanted locks leads to a CPU that can proceed. */
  lemma {:induction false} SomeoneProceeds(s: State, c: nat) returns (d: nat)
    requires Inv(s) && c < |s.cpus| && !s.cpus[c].pc.Idle?
    ensures CanProceed(s, d)
    decreases Bound(s.cpus) - Wanted(s.cpus[c])
  {
    var cpu := s.cpus[c];
    if CanProceed(s, c) {
      d := c;
    } else {
      var l := Wanted(cpu);
      assert l in s.locked && HeldBySome(s, l);
      var e: nat :| e < |s.cpus| && Holds(s.cpus[e], l);
      if CanProceed(s, e) {
        d := e;
      } else {
        WantsAbove(s.cpus[e], Wanted(s.cpus[e]), l);
        BelowBound(s.cpus, e);
        d := SomeoneProceeds(s, e);
      }
    }
  }

  /** How many steps a CPU has before it to take its locks, leave and free them. */
  function Work(c: Cpu): (n: int) {
    match c.pc
    case Idle => 0
    case Spin(i) => |c.order| + 2 + 2 * (|c.order| - i)
    case Swap(i) => |c.order| + 1 + 2 * (|c.order| - i)
    case Critical => |c.order| + 2
    case Releasing(i) => i + 1
    case TryLoad(left) => 2 * left + 4
    case TrySwap(left) => 2 * left + 3
  }

  /** A CPU that can proceed has a step that leaves it less to do. */
  lemma Proceeds(s: State, d: nat) returns (a: Action, s': State)
    requires Inv(s) && CanProceed(s, d)
    ensures Step(s, s', d, a) && Work(s'.cpus[d]) < Work(s.cpus[d])
  {
    var cpu := s.cpus[d];
    assert CpuOk(cpu);
    match cpu.pc
    case Spin(i) =>
      a, s' := Load, s.(cpus := s.cpus[d := cpu.(pc := Swap(i))]);
    case Swap(i) =>
      a, s' := Exchange, State(s.locked + {cpu.order[i]}, s.cpus[d := Enter(cpu.order, i + 1)]);
    case Critical =>
      a, s' := Leave, s.(cpus := s.cpus[d := cpu.(pc := Releasing(|cpu.order|))]);
    case Releasing(i) =>
      a := Release;
      s' := if i == 0 then s.(cpus := s.cpus[d := cpu.(pc := Idle)])
        else State(s.locked - {cpu.order[i - 1]}, s.cpus[d := cpu.(pc := Releasing(i - 1))]);
    case Idle =>
      assert false;
    case TryLoad(_) =>
      a, s' := Try, s.(cpus := s.cpus[d := TryNext(cpu, cpu.order[0] in s.locked)]);
    case TrySwap(_) =>
      var next := TryNext(cpu, cpu.order[0] in s.locked);
      a, s' := Try, State(if next.pc.Critical? then s.locked + {cpu.order[0]} else s.locked, s.cpus[d := next]);
  }

  /** No deadlock: in every state of every run with a busy CPU, some CPU has a step that leaves it less to do. */
  lemma NoDeadlock(ss: seq<State>, t: nat, c: nat) returns (d: nat, a: Action, s': State)
    requires Run(ss) && t < |ss| && c < |ss[t].cpus| && !ss[t].cpus[c].pc.Idle?
    ensures Step(ss[t], s', d, a) && Work(s'.cpus[d]) < Work(ss[t].cpus[d])
  {
    RunInv(ss, t);
    d := SomeoneProceeds(ss[t], c);
    a, s' := Proceeds(ss[t], d);
  }

  function TotalWork(cpus: seq<Cpu>): (n: int) {
    if cpus == [] then 0 else Work(cpus[0]) + TotalWork(cpus[1..])
  }

  lemma {:induction false} TotalWorkUpdated(cpus: seq<Cpu>, c: nat, cpu: Cpu)
    requires c < |cpus|
    ensures TotalWork(cpus[c := cpu]) == TotalWork(cpus) - Work(cpus[c]) + Work(cpu)
  {
    if c == 0 {
      assert cpus[c := cpu][1..] == cpus[1..];
    } else {
      TotalWorkUpdated(cpus[1..], c - 1, cpu);
      assert cpus[c := cpu][1..] == cpus[1..][c - 1 := cpu];
    }
  }

  lemma {:induction false} TotalWorkPositive(cpus: seq<Cpu>)
    requires forall c: nat | c < |cpus| :: CpuOk(cpus[c])
    ensures TotalWork(cpus) >= 0
  {
    if cpus != [] {
      assert CpuOk(cpus[0]);
      forall c: nat | c < |cpus| - 1 ensures CpuOk(cpus[1..][c]) { assert CpuOk(cpus[c + 1]); }
      TotalWorkPositive(cpus[1..]);
    }
  }

  ghost predicate AllIdle(s: State) {
    forall c: nat | c < |s.cpus| :: s.cpus[c].pc.Idle?
  }

  /** Every run can go on until all CPUs are idle and all locks are free. */
  lemma {:induction false} CanFinish(ss: seq<State>) returns (rest: seq<State>)
    requires Run(ss)
    ensures Run(ss + rest)
    ensures var last := (ss + rest)[|ss + rest| - 1]; last.locked == {} && AllIdle(last)
    decreases TotalWork(ss[|ss| - 1].cpus)
  {
    hide Step, Work, Inv, Next;
    var t := |ss| - 1;
    var s := ss[t];
    RunInv(ss, t);
    if AllIdle(s) {
      rest := [];
      assert ss + rest == ss;
      IdleFrees(s);
    } else {
      var c: nat :| c < |s.cpus| && !s.cpus[c].pc.Idle?;
      var d, a, s' := NoDeadlock(ss, t, c);
      RunOn(ss, s', d, a);
      Shrinks(s, s', d, a);
      var tail := CanFinish(ss + [s']);
      rest := [s'] + tail;
      assert ss + rest == ss + [s'] + tail;
    }
  }

  lemma IdleFrees(s: State)
    requires Inv(s) && AllIdle(s)
    ensures s.locked == {}
  {
    forall l: nat ensures l !in s.locked { assert l in s.locked <==> HeldBySome(s, l); }
  }

  lemma RunOn(ss: seq<State>, s': State, d: nat, a: Action)
    requires Run(ss) && Step(ss[|ss| - 1], s', d, a)
    ensures Run(ss + [s'])
  {
    hide Step;
    var more := ss + [s'];
    forall k: nat | k + 1 < |more| ensures Next(more[k], more[k + 1]) {
      if k + 1 < |ss| { assert Next(ss[k], ss[k + 1]); }
    }
  }

  lemma Shrinks(s: State, s': State, d: nat, a: Action)
    requires Inv(s) && Step(s, s', d, a) && Work(s'.cpus[d]) < Work(s.cpus[d])
    ensures 0 <= TotalWork(s'.cpus) < TotalWork(s.cpus)
  {
    StepInv(s, s', d, a);
    assert s'.cpus == s.cpus[d := s'.cpus[d]];
    TotalWorkUpdated(s.cpus, d, s'.cpus[d]);
    TotalWorkPositive(s'.cpus);
  }

  // ----- acquisition

  /** Steps from any state: state k is followed by action acts[k] of CPU who[k]. */
  ghost predicate Trace(ss: seq<State>, who: seq<nat>, acts: seq<Action>) {
    && |ss| == |who| + 1 == |acts| + 1
    && forall k: nat {:trigger who[k]} | k < |who| :: Step(ss[k], ss[k + 1], who[k], acts[k])
  }

  /** How many of the first k steps are CPU c's. */
  ghost function Own(who: seq<nat>, c: nat, k: nat): (n: nat)
    requires k <= |who|
  {
    if k == 0 then 0 else Own(who, c, k - 1) + if who[k - 1] == c then 1 else 0
  }

  /** Where a CPU is after n steps towards its locks, if none is ever taken. */
  function Place(order: seq<nat>, n: nat): (c: Cpu)
    requires n <= 2 * |order|
  {
    Cpu(order, if n == 2 * |order| then Critical else if n % 2 == 0 then Spin(n / 2) else Swap(n / 2))
  }

  /** The locks of CPU c that are taken are its own. */
  ghost predicate Undisturbed(s: State, c: nat, order: seq<nat>) {
    c < |s.cpus| && forall l: nat | l in order && l in s.locked :: Holds(s.cpus[c], l)
  }

  /** While nobody else has its locks, each step of a CPU takes it on, whatever other CPUs do in between. */
  lemma {:induction false} Advances(ss: seq<State>, who: seq<nat>, acts: seq<Action>, c: nat, order: seq<nat>, k: nat)
    requires Trace(ss, who, acts) && k <= |who| && Ascending(order) && c < |ss[0].cpus| && ss[0].cpus[c] == Enter(order, 0)
    requires forall j: nat {:trigger ss[j]} | j < k :: Undisturbed(ss[j], c, order)
    requires Own(who, c, k) <= 2 * |order|
    ensures c < |ss[k].cpus| && ss[k].cpus[c] == Place(order, Own(who, c, k))
  {
    if k > 0 {
      assert Step(ss[k - 1], ss[k], who[k - 1], acts[k - 1]) by { assert who[k - 1] == who[k - 1]; }
      Advances(ss, who, acts, c, order, k - 1);
      if who[k - 1] == c { OneOn(ss[k - 1], ss[k], c, acts[k - 1], order, Own(who, c, k - 1)); }
    }
  }

  lemma OneOn(s: State, s': State, c: nat, a: Action, order: seq<nat>, n: nat)
    requires Step(s, s', c, a) && Ascending(order) && Undisturbed(s, c, order) && n < 2 * |order| && s.cpus[c] == Place(order, n)
    ensures s'.cpus[c] == Place(order, n + 1)
  {
    var i := n / 2;
    assert order[i] in order;
    assert !Holds(s.cpus[c], order[i]);
  }

  /** A CPU that wants free locks has exactly these after two steps of its own for each, and is inside. */
  lemma Acquires(ss: seq<State>, who: seq<nat>, acts: seq<Action>, c: nat, order: seq<nat>, l: nat)
    requires Trace(ss, who, acts) && |who| > 0 && who[0] == c && acts[0] == Begin(order) && Own(who, c, |who|) == 2 * |order| + 1
    requires forall j: nat {:trigger ss[j]} | 0 < j < |who| :: Undisturbed(ss[j], c, order)
    ensures var last := ss[|who|]; c < |last.cpus| && last.cpus[c].pc == Critical && (Holds(last.cpus[c], l) <==> l in order)
  {
    assert Step(ss[0], ss[1], c, Begin(order)) by { assert who[0] == c; }
    var n := |who| - 1;
    var ts, tw, ta := ss[1..], who[1..], acts[1..];
    forall k: nat | k < |tw| ensures Step(ts[k], ts[k + 1], tw[k], ta[k]) { assert who[k + 1] == tw[k]; }
    forall j: nat | j < n ensures Undisturbed(ts[j], c, order) { assert ts[j] == ss[j + 1]; }
    OwnTail(who, c, |who|);
    Advances(ts, tw, ta, c, order, n);
    assert ts[n] == ss[|who|];
    var cpu := ss[|who|].cpus[c];
    if l in order {
      var k: nat :| k < |order| && order[k] == l;
      assert k < HeldCount(cpu) && cpu.order[k] == l;
    }
  }

  lemma {:induction false} OwnTail(who: seq<nat>, c: nat, k: nat)
    requires 0 < k <= |who| && who[0] == c
    ensures Own(who, c, k) == 1 + Own(who[1..], c, k - 1)
  {
    if k > 1 {
      OwnTail(who, c, k - 1);
      assert who[k - 1] == who[1..][k - 2];
    }
  }

  /** A CPU that tries a free lock has it after two steps of its own. */
  lemma TryTakes(s: State, s1: State, s2: State, s3: State, s4: State, c: nat, l: nat)
    requires Step(s, s1, c, BeginTry(l)) && l !in s1.locked && Step(s1, s2, c, Try)
    requires c < |s3.cpus| && s3.cpus[c] == s2.cpus[c] && l !in s3.locked && Step(s3, s4, c, Try)
    ensures s4.cpus[c] == Cpu([l], Critical) && Holds(s4.cpus[c], l) && l in s4.locked
  {
    assert s4.cpus[c].order[0] == l;
  }

  /** In how many of the steps from lo up to k CPU c found lock l taken. */
  ghost function Refusals(ss: seq<State>, who: seq<nat>, c: nat, l: nat, lo: nat, k: nat): (n: nat)
    requires k <= |who| <= |ss|
  {
    if k <= lo then 0
    else Refusals(ss, who, c, l, lo, k - 1) + if who[k - 1] == c && l in ss[k - 1].locked then 1 else 0
  }

  /** A CPU that is still trying has been refused once for each round that it used up. */
  lemma {:induction false} TryCounts(ss: seq<State>, who: seq<nat>, acts: seq<Action>, c: nat, l: nat, k: nat)
    requires Trace(ss, who, acts) && 0 < k <= |who| && who[0] == c && acts[0] == BeginTry(l)
    requires forall j: nat {:trigger ss[j]} | 0 < j <= k && c < |ss[j].cpus| :: Trying(ss[j].cpus[c])
    ensures c < |ss[k].cpus| && ss[k].cpus[c].order == [l] && Trying(ss[k].cpus[c])
    ensures Refusals(ss, who, c, l, 1, k) + ss[k].cpus[c].pc.left == 32
  {
    assert Step(ss[k - 1], ss[k], who[k - 1], acts[k - 1]) by { assert who[k - 1] == who[k - 1]; }
    assert c < |ss[k].cpus| ==> Trying(ss[k].cpus[c]);
    if k > 1 {
      TryCounts(ss, who, acts, c, l, k - 1);
    }
  }

  /** A CPU gives up trying only after it has found the lock taken 32 times. */
  lemma GivesUpLate(ss: seq<State>, who: seq<nat>, acts: seq<Action>, c: nat, l: nat, k: nat)
    requires Trace(ss, who, acts) && 0 < k < |who| && who[0] == c && acts[0] == BeginTry(l)
    requires forall j: nat {:trigger ss[j]} | 0 < j <= k && c < |ss[j].cpus| :: Trying(ss[j].cpus[c])
    requires c < |ss[k + 1].cpus| && ss[k + 1].cpus[c].pc.Idle?
    ensures Refusals(ss, who, c, l, 1, k) == 32
  {
    assert Step(ss[k], ss[k + 1], who[k], acts[k]) by { assert who[k] == who[k]; }
    TryCounts(ss, who, acts, c, l, k);
  }
}
