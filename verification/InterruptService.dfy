/**
 * Interrupt delivery and completion: notification rights of one handler, and the line that stays masked from a
 * delivery until every notified right has completed or gone.
 */
module InterruptService {
  datatype Right = Right(id: nat, sent: bool, pending: bool)

  /** masked is the state of the line; delivered and completed count deliveries and interrupt_complete calls. */
  datatype State = State(rights: seq<Right>, enabled: bool, masked: bool, delivered: nat, completed: nat)

  datatype Step =
    | Interrupt
    | Complete(id: nat)
    | Destroy(id: nat)
    | Create(id: nat)
    | Sent(id: nat, sent: bool)

  predicate AnyPending(rights: seq<Right>) {
    exists k: nat :: k < |rights| && rights[k].pending
  }

  predicate AnyUnsent(rights: seq<Right>) {
    exists k: nat :: k < |rights| && !rights[k].sent
  }

  predicate Alive(rights: seq<Right>, id: nat) {
    exists k: nat :: k < |rights| && rights[k].id == id
  }

  predicate Distinct(rights: seq<Right>) {
    forall j: nat, k: nat | j < k < |rights| :: rights[j].id != rights[k].id
  }

  /** The position of a right; the length if it is not there. */
  function Position(rights: seq<Right>, id: nat): (k: nat)
    ensures k <= |rights| && (k < |rights| <==> Alive(rights, id))
    ensures k < |rights| ==> rights[k].id == id
  {
    if rights == [] then 0
    else if rights[0].id == id then 0
    else
      assert forall k: nat | 0 < k < |rights| :: rights[k] == rights[1..][k - 1];
      assert forall k: nat | k < |rights| - 1 :: rights[1..][k] == rights[k + 1];
      1 + Position(rights[1..], id)
  }

  function Removed(rights: seq<Right>, k: nat): (r: seq<Right>)
    requires k < |rights|
  {
    rights[..k] + rights[k + 1..]
  }

  function Notified(rights: seq<Right>): (r: seq<Right>)
    ensures |r| == |rights|
    ensures forall k: nat | k < |r| :: r[k] == if rights[k].sent then rights[k] else rights[k].(pending := true)
  {
    seq(|rights|, k requires 0 <= k < |rights| => if rights[k].sent then rights[k] else rights[k].(pending := true))
  }

  /** The line is released once no right is pending. */
  function Settled(s: State): (r: State) {
    if AnyPending(s.rights) then s else s.(masked := false, completed := s.completed + 1)
  }

  function Next(s: State, step: Step): (r: State) {
    match step
    case Interrupt =>
      var t := s.(masked := true, delivered := s.delivered + 1);
      if s.rights == [] then t.(enabled := false, masked := false, completed := s.completed + 1)
      else t.(rights := Notified(s.rights))
    case Complete(id) =>
      var k := Position(s.rights, id);
      if k < |s.rights| && s.rights[k].pending
      then Settled(s.(rights := s.rights[k := s.rights[k].(pending := false)]))
      else s
    case Destroy(id) =>
      var k := Position(s.rights, id);
      if k == |s.rights| then s
      else
        var t := s.(rights := Removed(s.rights, k));
        if !s.rights[k].pending then t
        else Settled(t).(enabled := t.enabled && t.rights != [])
    case Create(id) =>
      if Alive(s.rights, id) then s
      else s.(rights := s.rights + [Right(id, false, false)], enabled := s.enabled || s.rights == [])
    case Sent(id, sent) =>
      var k := Position(s.rights, id);
      if k == |s.rights| then s else s.(rights := s.rights[k := s.rights[k].(sent := sent)])
  }

  // ----- what every run keeps

  ghost predicate Inv(s: State) {
    && Distinct(s.rights)
    && (s.masked <==> AnyPending(s.rights))
    && s.delivered == s.completed + (if s.masked then 1 else 0)
    && (s.rights != [] ==> s.enabled)
  }

  /** A masked line delivers nothing, and a delivery finds some right that is not already sent. */
  ghost predicate Allowed(s: State, step: Step) {
    step.Interrupt? ==> !s.masked && (s.rights == [] || AnyUnsent(s.rights))
  }

  lemma PendingAt(rights: seq<Right>, k: nat, r: Right)
    requires k < |rights|
    ensures r.pending ==> AnyPending(rights[k := r])
    ensures !r.pending && AnyPending(rights[k := r]) ==> AnyPending(rights)
    ensures r.pending == rights[k].pending ==> (AnyPending(rights[k := r]) <==> AnyPending(rights))
  {
    var s := rights[k := r];
    if r.pending { assert s[k].pending; }
    if j: nat :| j < |s| && s[j].pending && j != k { assert rights[j].pending; }
    if j: nat :| j < |rights| && rights[j].pending && j != k { assert s[j].pending; }
  }

  lemma PendingRemoved(rights: seq<Right>, k: nat)
    requires k < |rights|
    ensures AnyPending(Removed(rights, k)) ==> AnyPending(rights)
    ensures !rights[k].pending && AnyPending(rights) ==> AnyPending(Removed(rights, k))
  {
    var r := Removed(rights, k);
    if j: nat :| j < |r| && r[j].pending { assert rights[if j < k then j else j + 1].pending; }
    if !rights[k].pending && AnyPending(rights) {
      var j: nat :| j < |rights| && rights[j].pending;
      assert r[if j < k then j else j - 1] == rights[j];
    }
  }

  lemma NotifiedPending(rights: seq<Right>)
    requires !AnyPending(rights)
    ensures AnyPending(Notified(rights)) <==> AnyUnsent(rights)
  {
    var r := Notified(rights);
    if j: nat :| j < |rights| && !rights[j].sent { assert r[j].pending; }
    if j: nat :| j < |r| && r[j].pending { assert !rights[j].sent; }
  }

  lemma DistinctRemoved(rights: seq<Right>, k: nat)
    requires k < |rights| && Distinct(rights)
    ensures Distinct(Removed(rights, k))
  {
    var r := Removed(rights, k);
    forall i: nat, j: nat | i < j < |r| ensures r[i].id != r[j].id {
      var i', j' := if i < k then i else i + 1, if j < k then j else j + 1;
      assert r[i] == rights[i'] && r[j] == rights[j'];
    }
  }

  lemma CreatedInv(s: State, id: nat)
    requires Inv(s)
    ensures Inv(Next(s, Create(id)))
  {
    if !Alive(s.rights, id) {
      var r := s.rights + [Right(id, false, false)];
      if j: nat :| j < |r| && r[j].pending { assert s.rights[j].pending; }
      if j: nat :| j < |s.rights| && s.rights[j].pending { assert r[j].pending; }
    }
  }

  /** Every step keeps the line masked exactly while a right is pending, with one completion per delivery. */
  lemma StepInv(s: State, step: Step)
    requires Inv(s) && Allowed(s, step)
    ensures Inv(Next(s, step))
  {
    match step
    case Interrupt => NotifiedPending(s.rights);
    case Complete(id) =>
      var k := Position(s.rights, id);
      if k < |s.rights| {
        PendingAt(s.rights, k, s.rights[k].(pending := false));
        assert s.rights[k].pending ==> AnyPending(s.rights);
      }
    case Destroy(id) =>
      var k := Position(s.rights, id);
      if k < |s.rights| {
        PendingRemoved(s.rights, k);
        DistinctRemoved(s.rights, k);
        assert s.rights[k].pending ==> AnyPending(s.rights);
      }
    case Create(id) => CreatedInv(s, id);
    case Sent(id, sent) =>
      var k := Position(s.rights, id);
      if k < |s.rights| { PendingAt(s.rights, k, s.rights[k].(sent := sent)); }
  }

  function Run(s: State, steps: seq<Step>): (r: State)
    decreases |steps|
  {
    if steps == [] then s else Run(Next(s, steps[0]), steps[1..])
  }

  ghost predicate AllowedRun(s: State, steps: seq<Step>)
    decreases |steps|
  {
    steps != [] ==> Allowed(s, steps[0]) && AllowedRun(Next(s, steps[0]), steps[1..])
  }

  lemma {:induction false} RunInv(s: State, steps: seq<Step>)
    requires Inv(s) && AllowedRun(s, steps)
    ensures Inv(Run(s, steps))
    decreases |steps|
  {
    if steps != [] {
      StepInv(s, steps[0]);
      RunInv(Next(s, steps[0]), steps[1..]);
    }
  }

  lemma {:induction false} NoDeliveries(s: State, steps: seq<Step>)
    requires forall k: nat | k < |steps| :: !steps[k].Interrupt?
    ensures AllowedRun(s, steps) && Run(s, steps).delivered == s.delivered
    decreases |steps|
  {
    if steps != [] {
      assert !steps[0].Interrupt?;
      assert forall k: nat | k < |steps| - 1 :: steps[1..][k] == steps[k + 1];
      NoDeliveries(Next(s, steps[0]), steps[1..]);
    }
  }

  /** However the notified rights complete or disappear, the line is released exactly once. */
  lemma OneCompletion(s: State, steps: seq<Step>)
    requires Inv(s) && s.masked && forall k: nat | k < |steps| :: !steps[k].Interrupt?
    ensures var t := Run(s, steps);
      && (t.masked <==> AnyPending(t.rights))
      && t.completed == s.completed + (if AnyPending(t.rights) then 0 else 1)
  {
    NoDeliveries(s, steps);
    RunInv(s, steps);
  }

  /** A delivery keeps the invariant exactly when no right is registered or one of them is not already sent. */
  lemma DeliveryExact(s: State)
    requires Inv(s) && !s.masked
    ensures Inv(Next(s, Interrupt)) <==> s.rights == [] || AnyUnsent(s.rights)
  {
    NotifiedPending(s.rights);
    if s.rights == [] || AnyUnsent(s.rights) { StepInv(s, Interrupt); }
  }

  // ----- what becomes of each right

  datatype Mark = Mark(sent: bool, pending: bool)

  /** The rights by their ids. */
  ghost function Table(rights: seq<Right>): (t: map<nat, Mark>) {
    if rights == [] then map[] else Table(rights[1..])[rights[0].id := Mark(rights[0].sent, rights[0].pending)]
  }

  ghost predicate IsTable(rights: seq<Right>, t: map<nat, Mark>) {
    && (forall k: nat {:trigger rights[k]} | k < |rights| ::
         rights[k].id in t && t[rights[k].id] == Mark(rights[k].sent, rights[k].pending))
    && (forall id {:trigger t[id]} | id in t :: Alive(rights, id))
  }

  lemma {:induction false} TableIs(rights: seq<Right>)
    requires Distinct(rights)
    ensures IsTable(rights, Table(rights))
  {
    if rights != [] {
      var rest := rights[1..];
      assert forall k: nat | k < |rest| :: rest[k] == rights[k + 1];
      TableIs(rest);
      var t := Table(rights);
      forall k: nat | k < |rights| ensures rights[k].id in t && t[rights[k].id] == Mark(rights[k].sent, rights[k].pending) {
        if k > 0 { assert rest[k - 1] == rights[k] && rights[0].id != rights[k].id; }
      }
      forall id | id in t ensures Alive(rights, id) {
        if id == rights[0].id {
        } else {
          assert Table(rest)[id] == t[id];
          var k: nat :| k < |rest| && rest[k].id == id;
          assert rights[k + 1].id == id;
        }
      }
    }
  }

  /** What a step does to the rights, each by its own id. */
  ghost function Marked(t: map<nat, Mark>, step: Step): (t': map<nat, Mark>) {
    match step
    case Interrupt => map id | id in t :: if t[id].sent then t[id] else Mark(false, true)
    case Complete(id) => if id in t then t[id := Mark(t[id].sent, false)] else t
    case Destroy(id) => t - {id}
    case Create(id) => if id in t then t else t[id := Mark(false, false)]
    case Sent(id, sent) => if id in t then t[id := Mark(sent, t[id].pending)] else t
  }

  /** Only right id is pending. */
  ghost predicate LastPending(t: map<nat, Mark>, id: nat) {
    id in t && t[id].pending && forall j | j in t && t[j].pending :: j == id
  }

  /** A step releases the line if the last pending right completes or goes, or a delivery finds no right. */
  ghost predicate Releases(t: map<nat, Mark>, step: Step) {
    match step
    case Interrupt => t == map[]
    case Complete(id) => LastPending(t, id)
    case Destroy(id) => LastPending(t, id)
    case Create(_) => false
    case Sent(_, _) => false
  }

  /** The line is switched on by the first right, and off by a delivery without rights or with the last right if that was pending. */
  ghost predicate SwitchedOn(t: map<nat, Mark>, enabled: bool, step: Step) {
    match step
    case Interrupt => enabled && t != map[]
    case Complete(_) => enabled
    case Destroy(id) => enabled && !(t.Keys == {id} && t[id].pending)
    case Create(_) => enabled || t == map[]
    case Sent(_, _) => enabled
  }

  lemma TableUnique(rights: seq<Right>, t: map<nat, Mark>)
    requires Distinct(rights) && IsTable(rights, t)
    ensures Table(rights) == t
  {
    hide Table;
    TableIs(rights);
    var u := Table(rights);
    forall id | id in t ensures id in u && u[id] == t[id] {
      assert t[id] == t[id];
      var k: nat :| k < |rights| && rights[k].id == id;
    }
    forall id | id in u ensures id in t {
      assert u[id] == u[id];
      var k: nat :| k < |rights| && rights[k].id == id;
    }
  }

  lemma TableUpdated(rights: seq<Right>, k: nat, r: Right)
    requires Distinct(rights) && k < |rights| && r.id == rights[k].id
    ensures Distinct(rights[k := r]) && Table(rights[k := r]) == Table(rights)[r.id := Mark(r.sent, r.pending)]
  {
    hide Table;
    TableIs(rights);
    var s, u, t := rights[k := r], Table(rights), Table(rights)[r.id := Mark(r.sent, r.pending)];
    forall j: nat | j < |s| ensures s[j].id in t && t[s[j].id] == Mark(s[j].sent, s[j].pending) {
      assert j != k ==> s[j] == rights[j];
    }
    forall id | id in t ensures Alive(s, id) {
      if id == r.id {
        assert s[k].id == id;
      } else {
        assert u[id] == t[id];
        var j: nat :| j < |rights| && rights[j].id == id;
        assert s[j].id == id;
      }
    }
    TableUnique(s, t);
  }

  lemma RemovedAt(rights: seq<Right>, k: nat)
    requires k < |rights|
    ensures |Removed(rights, k)| == |rights| - 1
    ensures forall j: nat | j < k :: Removed(rights, k)[j] == rights[j]
    ensures forall j: nat | k <= j < |rights| - 1 :: Removed(rights, k)[j] == rights[j + 1]
  {
  }

  lemma TableRemoved(rights: seq<Right>, k: nat)
    requires Distinct(rights) && k < |rights|
    ensures Distinct(Removed(rights, k)) && Table(Removed(rights, k)) == Table(rights) - {rights[k].id}
  {
    hide Table, Removed;
    RemovedAt(rights, k);
    DistinctRemoved(rights, k);
    TableIs(rights);
    var s, u, t := Removed(rights, k), Table(rights), Table(rights) - {rights[k].id};
    forall j: nat | j < |s| ensures s[j].id in t && t[s[j].id] == Mark(s[j].sent, s[j].pending) {
      var i := if j < k then j else j + 1;
      assert rights[i] == s[j] && rights[i].id != rights[k].id;
    }
    forall id | id in t ensures Alive(s, id) {
      assert u[id] == t[id];
      var j: nat :| j < |rights| && rights[j].id == id;
      assert s[if j < k then j else j - 1] == rights[j];
    }
    TableUnique(s, t);
  }

  lemma TableAdded(rights: seq<Right>, r: Right)
    requires Distinct(rights) && !Alive(rights, r.id)
    ensures Distinct(rights + [r]) && Table(rights + [r]) == Table(rights)[r.id := Mark(r.sent, r.pending)]
  {
    hide Table;
    TableIs(rights);
    var s, u, t := rights + [r], Table(rights), Table(rights)[r.id := Mark(r.sent, r.pending)];
    forall j: nat | j < |s| ensures s[j].id in t && t[s[j].id] == Mark(s[j].sent, s[j].pending) {
      assert j < |rights| ==> s[j] == rights[j];
    }
    forall id | id in t ensures Alive(s, id) {
      if id == r.id {
        assert s[|rights|].id == id;
      } else {
        assert u[id] == t[id];
        var j: nat :| j < |rights| && rights[j].id == id;
        assert s[j].id == id;
      }
    }
    TableUnique(s, t);
  }

  lemma TableNotified(rights: seq<Right>)
    requires Distinct(rights)
    ensures Distinct(Notified(rights)) && Table(Notified(rights)) == Marked(Table(rights), Interrupt)
  {
    hide Table, Marked, Distinct;
    TableIs(rights);
    var s, t := Notified(rights), Marked(Table(rights), Interrupt);
    assert Distinct(s) by { SameIds(rights); }
    forall j: nat | j < |s| ensures s[j].id in t && t[s[j].id] == Mark(s[j].sent, s[j].pending) { MarkedAt(rights, j); }
    forall id | id in t ensures Alive(s, id) { MarkedFrom(rights, id); }
    TableUnique(s, t);
  }

  lemma SameIds(rights: seq<Right>)
    requires Distinct(rights)
    ensures Distinct(Notified(rights))
  {
  }

  lemma MarkedAt(rights: seq<Right>, j: nat)
    requires IsTable(rights, Table(rights)) && j < |rights|
    ensures var r, t := Notified(rights)[j], Marked(Table(rights), Interrupt); r.id in t && t[r.id] == Mark(r.sent, r.pending)
  {
    hide Table;
    assert rights[j].id in Table(rights);
  }

  lemma MarkedFrom(rights: seq<Right>, id: nat)
    requires IsTable(rights, Table(rights)) && id in Marked(Table(rights), Interrupt)
    ensures Alive(Notified(rights), id)
  {
    hide Table;
    assert id in Table(rights);
    var j: nat :| j < |rights| && rights[j].id == id;
    assert Notified(rights)[j].id == id;
  }

  ghost predicate SomePending(t: map<nat, Mark>) {
    exists id :: id in t && t[id].pending
  }

  lemma TableFacts(rights: seq<Right>, id: nat)
    requires Distinct(rights)
    ensures id in Table(rights) <==> Alive(rights, id)
    ensures AnyPending(rights) <==> SomePending(Table(rights))
    ensures rights == [] <==> Table(rights) == map[]
  {
    TableIs(rights);
    var t := Table(rights);
    hide Table;
    assert id in t ==> t[id] == t[id];
    if k: nat :| k < |rights| && rights[k].pending { assert rights[k].id in t; }
    if j :| j in t && t[j].pending {
      assert t[j] == t[j];
      var k: nat :| k < |rights| && rights[k].id == j;
    }
    if rights != [] { assert rights[0].id in t; }
    assert t != map[] ==> exists j :: j in t;
    if j :| j in t { assert t[j] == t[j]; }
  }

  /** Clearing or removing a pending mark leaves none exactly if it was the last. */
  lemma LastOne(t: map<nat, Mark>, id: nat, sent: bool)
    requires id in t && t[id].pending
    ensures !SomePending(t[id := Mark(sent, false)]) <==> LastPending(t, id)
    ensures !SomePending(t - {id}) <==> LastPending(t, id)
  {
    var u, w := t[id := Mark(sent, false)], t - {id};
    if !LastPending(t, id) {
      var j :| j in t && t[j].pending && j != id;
      assert j in u && u[j].pending && j in w && w[j].pending;
    }
    if j :| j in u && u[j].pending { assert t[j].pending; }
    if j :| j in w && w[j].pending { assert t[j].pending; }
  }

  /** What every step does to every right, to the line and to its switch, by the ids of the rights. */
  lemma Effects(s: State, step: Step)
    requires Distinct(s.rights)
    ensures var t, s' := Table(s.rights), Next(s, step);
      && Distinct(s'.rights) && Table(s'.rights) == Marked(t, step)
      && s'.delivered == s.delivered + (if step.Interrupt? then 1 else 0)
      && s'.completed == s.completed + (if Releases(t, step) then 1 else 0)
      && (s'.masked <==> (s.masked || step.Interrupt?) && !Releases(t, step))
      && (s'.enabled <==> SwitchedOn(t, s.enabled, step))
  {
    hide Table, IsTable, LastPending, Distinct;
    match step
    case Interrupt =>
      TableFacts(s.rights, 0);
      TableNotified(s.rights);
      assert s.rights == [] ==> Notified(s.rights) == [];
    case Complete(id) => CompleteEffects(s, id);
    case Destroy(id) => DestroyEffects(s, id);
    case Create(id) =>
      TableFacts(s.rights, id);
      if !Alive(s.rights, id) { TableAdded(s.rights, Right(id, false, false)); }
    case Sent(id, sent) => SentEffects(s, id, sent);
  }

  lemma SentEffects(s: State, id: nat, sent: bool)
    requires Distinct(s.rights)
    ensures var s' := Next(s, Sent(id, sent));
      && Distinct(s'.rights) && Table(s'.rights) == Marked(Table(s.rights), Sent(id, sent)) && s' == s.(rights := s'.rights)
  {
    hide Table, Distinct;
    TableFacts(s.rights, id);
    var k := Position(s.rights, id);
    if k < |s.rights| {
      TableAt(s.rights, k);
      TableUpdated(s.rights, k, s.rights[k].(sent := sent));
    }
  }

  lemma TableAt(rights: seq<Right>, k: nat)
    requires Distinct(rights) && k < |rights|
    ensures var t := Table(rights); rights[k].id in t && t[rights[k].id] == Mark(rights[k].sent, rights[k].pending)
  {
    hide Table;
    TableIs(rights);
  }

  lemma CompleteEffects(s: State, id: nat)
    requires Distinct(s.rights)
    ensures var t, s' := Table(s.rights), Next(s, Complete(id));
      && Distinct(s'.rights) && Table(s'.rights) == Marked(t, Complete(id))
      && s' == s.(rights := s'.rights, masked := s.masked && !LastPending(t, id),
                  completed := s.completed + (if LastPending(t, id) then 1 else 0))
  {
    hide Table, Distinct, AnyPending, SomePending;
    var t, k := Table(s.rights), Position(s.rights, id);
    TableFacts(s.rights, id);
    if k < |s.rights| {
      TableAt(s.rights, k);
      var r := s.rights[k].(pending := false);
      TableUpdated(s.rights, k, r);
      TableFacts(s.rights[k := r], id);
      if s.rights[k].pending {
        LastOne(t, id, r.sent);
      } else {
        assert t[id := t[id]] == t;
      }
    }
  }

  lemma DestroyEffects(s: State, id: nat)
    requires Distinct(s.rights)
    ensures var t, s' := Table(s.rights), Next(s, Destroy(id));
      && Distinct(s'.rights) && Table(s'.rights) == Marked(t, Destroy(id))
      && s' == s.(rights := s'.rights, masked := s.masked && !LastPending(t, id),
                  completed := s.completed + (if LastPending(t, id) then 1 else 0),
                  enabled := SwitchedOn(t, s.enabled, Destroy(id)))
  {
    hide Table, Distinct, AnyPending, SomePending, Removed;
    var t, k := Table(s.rights), Position(s.rights, id);
    TableFacts(s.rights, id);
    if k < |s.rights| {
      TableAt(s.rights, k);
      TableRemoved(s.rights, k);
      TableFacts(Removed(s.rights, k), id);
      if s.rights[k].pending { LastOne(t, id, false); }
      OnlyKey(t, id);
    } else {
      assert t - {id} == t;
    }
  }

  lemma OnlyKey(t: map<nat, Mark>, id: nat)
    requires id in t
    ensures t - {id} == map[] <==> t.Keys == {id}
  {
    if t - {id} == map[] {
      forall j | j in t ensures j == id { assert j != id ==> j in t - {id}; }
    }
  }

  // ----- who holds the line masked

  ghost function PendingIds(rights: seq<Right>): (ids: set<nat>) {
    set id | id in Table(rights) && Table(rights)[id].pending
  }

  ghost function UnsentIds(rights: seq<Right>): (ids: set<nat>) {
    set id | id in Table(rights) && !Table(rights)[id].sent
  }

  /** The rights that complete or are destroyed. */
  ghost function Gone(steps: seq<Step>): (ids: set<nat>) {
    set k: nat | k < |steps| && (steps[k].Complete? || steps[k].Destroy?) :: steps[k].id
  }

  /** Without a delivery, exactly the rights that complete or are destroyed stop being pending. */
  lemma {:induction false} PendingAfter(s: State, steps: seq<Step>)
    requires Distinct(s.rights) && forall k: nat | k < |steps| :: !steps[k].Interrupt?
    ensures Distinct(Run(s, steps).rights) && PendingIds(Run(s, steps).rights) == PendingIds(s.rights) - Gone(steps)
    decreases |steps|
  {
    hide Gone, Next, PendingIds, Distinct;
    if steps == [] {
      NoneGone();
    } else {
      assert !steps[0].Interrupt?;
      var step, rest, t := steps[0], steps[1..], Next(s, steps[0]);
      assert forall k: nat | k < |rest| :: rest[k] == steps[k + 1];
      PendingStep(s, step);
      PendingAfter(t, rest);
      GoneFirst(steps);
    }
  }

  lemma NoneGone()
    ensures Gone([]) == {}
  {
  }

  lemma PendingStep(s: State, step: Step)
    requires Distinct(s.rights) && !step.Interrupt?
    ensures var t := Next(s, step);
      && Distinct(t.rights)
      && PendingIds(t.rights) == PendingIds(s.rights) - (if step.Complete? || step.Destroy? then {step.id} else {})
  {
    Effects(s, step);
    hide Table, Next, Distinct;
  }

  lemma GoneFirst(steps: seq<Step>)
    requires steps != []
    ensures Gone(steps) == (if steps[0].Complete? || steps[0].Destroy? then {steps[0].id} else {}) + Gone(steps[1..])
  {
    var one, rest := (if steps[0].Complete? || steps[0].Destroy? then {steps[0].id} else {}), steps[1..];
    forall id ensures id in Gone(steps) <==> id in one + Gone(rest) {
      if id in Gone(steps) {
        var k: nat :| k < |steps| && (steps[k].Complete? || steps[k].Destroy?) && steps[k].id == id;
        if k > 0 { assert rest[k - 1] == steps[k]; }
      }
      if id in Gone(rest) {
        var k: nat :| k < |rest| && (rest[k].Complete? || rest[k].Destroy?) && rest[k].id == id;
        assert steps[k + 1] == rest[k];
      }
    }
  }

  /**
   * After a delivery the line stays masked exactly as long as some right that was notified has neither
   * completed nor been destroyed itself; what other rights do makes no difference.
   */
  lemma MaskedExactly(s: State, steps: seq<Step>)
    requires Inv(s) && Allowed(s, Interrupt) && s.rights != [] && forall k: nat | k < |steps| :: !steps[k].Interrupt?
    ensures var t := Run(Next(s, Interrupt), steps);
      && (t.masked <==> UnsentIds(s.rights) - Gone(steps) != {})
      && t.completed == s.completed + (if UnsentIds(s.rights) - Gone(steps) != {} then 0 else 1)
  {
    var n := Next(s, Interrupt);
    StepInv(s, Interrupt);
    Effects(s, Interrupt);
    NoDeliveries(n, steps);
    RunInv(n, steps);
    PendingAfter(n, steps);
    NotifiedIds(s);
    SomeIds(Run(n, steps).rights);
  }

  lemma SomeIds(rights: seq<Right>)
    requires Distinct(rights)
    ensures AnyPending(rights) <==> PendingIds(rights) != {}
  {
    TableFacts(rights, 0);
    hide Table, AnyPending;
    var t := Table(rights);
    if id :| id in t && t[id].pending { assert id in PendingIds(rights); }
    if id :| id in PendingIds(rights) {}
  }

  lemma NotifiedIds(s: State)
    requires Inv(s) && !s.masked && s.rights != []
    ensures var n := Next(s, Interrupt); Distinct(n.rights) && PendingIds(n.rights) == UnsentIds(s.rights)
  {
    Effects(s, Interrupt);
    TableFacts(s.rights, 0);
    hide Table, AnyPending, Next;
    var t := Table(s.rights);
    assert forall id | id in t :: !t[id].pending;
  }

  /** A masked line without a pending right. */
  ghost predicate Stuck(s: State) {
    s.masked && !AnyPending(s.rights)
  }

  lemma StuckStep(s: State, step: Step)
    requires Stuck(s) && !step.Interrupt?
    ensures Stuck(Next(s, step)) && Next(s, step).completed == s.completed
  {
    match step
    case Complete(id) =>
    case Destroy(id) =>
      var k := Position(s.rights, id);
      if k < |s.rights| { PendingRemoved(s.rights, k); }
    case Create(id) =>
      var r := s.rights + [Right(id, false, false)];
      assert forall j: nat | j < |s.rights| :: r[j] == s.rights[j];
    case Sent(id, sent) =>
      var k := Position(s.rights, id);
      if k < |s.rights| { PendingAt(s.rights, k, s.rights[k].(sent := sent)); }
  }

  /** Such a line is never released again: nothing that the rights do completes it. */
  lemma {:induction false} StuckForGood(s: State, steps: seq<Step>)
    requires Stuck(s) && forall k: nat | k < |steps| :: !steps[k].Interrupt?
    ensures Stuck(Run(s, steps)) && Run(s, steps).completed == s.completed
    decreases |steps|
  {
    if steps != [] {
      assert !steps[0].Interrupt?;
      assert forall k: nat | k < |steps| - 1 :: steps[1..][k] == steps[k + 1];
      StuckStep(s, steps[0]);
      StuckForGood(Next(s, steps[0]), steps[1..]);
    }
  }

  /** A delivery whose only right is already sent leaves the line stuck. */
  lemma StuckExample()
    ensures var s := State([Right(1, true, false)], true, false, 0, 0);
      Inv(s) && Stuck(Next(s, Interrupt))
  {
    var s := State([Right(1, true, false)], true, false, 0, 0);
    assert Notified(s.rights) == s.rights;
    assert s.rights[0].id == 1;
  }

  // ----- the handler

  datatype Result = Ok | Again | NotFound | WrongCpu

  class Handler {
    var rights: seq<Right>
    var enabled: bool
    var masked: bool
    ghost var delivered: nat
    ghost var completed: nat

    ghost function Abs(): (s: State)
      reads this
    {
      State(rights, enabled, masked, delivered, completed)
    }

    constructor ()
      ensures Abs() == State([], false, false, 0, 0) && Inv(Abs())
    {
      rights, enabled, masked, delivered, completed := [], false, false, 0, 0;
    }

    method InterruptComplete()
      modifies this
      ensures Abs() == old(Abs()).(masked := false, completed := old(completed) + 1)
    {
      masked := false;
      completed := completed + 1;
    }

    /** Mark and enqueue every right that is not already sent; false if there are no rights. */
    method SendInterruptNotification() returns (found: bool)
      modifies this`rights
      ensures found == (old(rights) != []) && rights == Notified(old(rights))
    {
      if rights == [] { return false; }
      var i := 0;
      while i < |rights|
        invariant i <= |rights| == |old(rights)|
        invariant forall k: nat | k < i :: rights[k] == Notified(old(rights))[k]
        invariant forall k: nat | i <= k < |rights| :: rights[k] == old(rights)[k]
      {
        if !rights[i].sent {
          rights := rights[i := rights[i].(pending := true)];
        }
        i := i + 1;
      }
      return true;
    }

    method HandleHardwareInterrupt()
      modifies this
      ensures Abs() == Next(old(Abs()), Interrupt)
    {
      masked := true;
      delivered := delivered + 1;
      var found := SendInterruptNotification();
      if !found {
        enabled := false;
        InterruptComplete();
      }
    }

    method AllCompleted() returns (all: bool)
      ensures all == !AnyPending(rights)
    {
      all := true;
      var i := 0;
      while i < |rights|
        invariant i <= |rights| && forall k: nat | k < i :: !rights[k].pending
      {
        if rights[i].pending { return false; }
        i := i + 1;
      }
    }

    method CompleteRight(id: nat) returns (r: Result)
      requires Alive(rights, id)
      modifies this
      ensures Abs() == Next(old(Abs()), Complete(id))
      ensures r == if old(rights)[Position(old(rights), id)].pending then Ok else Again
    {
      var k := Position(rights, id);
      if !rights[k].pending { return Again; }
      rights := rights[k := rights[k].(pending := false)];
      var all := AllCompleted();
      if all { InterruptComplete(); }
      return Ok;
    }

    method AfterRemovingPending()
      modifies this
      ensures Abs() == Settled(old(Abs())).(enabled := old(enabled) && old(rights) != [])
    {
      var all := AllCompleted();
      if all { InterruptComplete(); }
      if rights == [] { enabled := false; }
    }

    method DestroyRight(id: nat) returns (found: bool)
      modifies this
      ensures Abs() == Next(old(Abs()), Destroy(id)) && found == Alive(old(rights), id)
    {
      var k := Position(rights, id);
      if k == |rights| { return false; }
      var right := rights[k];
      rights := rights[..k] + rights[k + 1..];
      if right.pending { AfterRemovingPending(); }
      return true;
    }

    /** A task must be pinned to the handler's CPU to register; the first right enables the line. */
    method CreateForPort(id: nat, pinned: bool) returns (r: Result)
      requires !Alive(rights, id)
      modifies this
      ensures r == if pinned then Ok else WrongCpu
      ensures Abs() == if pinned then Next(old(Abs()), Create(id)) else old(Abs())
    {
      if !pinned { return WrongCpu; }
      var first := rights == [];
      rights := rights + [Right(id, false, false)];
      if first { enabled := true; }
      return Ok;
    }
  }
}
