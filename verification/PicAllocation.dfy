/**
 * Assignment of global interrupts to controller slots: external controllers in a sorted vector, slots shared by the
 * CPUs of one extended I/O controller, and the least loaded CPU chosen for each new interrupt.
 */
module PicAllocation {
  const INTS_COUNT: nat := 64
  const MAPPINGS_SIZE: nat := 256

  datatype Slot = Unused | Used(cpu: nat, controller: nat, vector: nat, edge: bool)

  /** A slot by its controller and index. */
  datatype Handler = Handler(eiopic: nat, index: nat)

  datatype Result = Ok(handler: Handler) | NoEntry | NoMemory

  /** External controllers by identity: their first interrupt number. */
  type Bases = map<nat, nat>

  /** An interrupt by its external controller and offset there. */
  datatype Line = Line(controller: nat, offset: nat)

  type Mappings = map<Line, Handler>

  predicate Covers(base: Bases, e: nat, gsi: nat) {
    e in base && base[e] <= gsi < base[e] + INTS_COUNT
  }

  predicate Descending(base: Bases, order: seq<nat>) {
    && (forall k: nat | k < |order| :: order[k] in base)
    && (forall j: nat, k: nat | j < k < |order| :: base[order[j]] >= base[order[k]])
  }

  /** Position of the first controller that covers an interrupt; the length if none does. */
  ghost function FirstCovering(base: Bases, order: seq<nat>, gsi: nat): (k: nat)
    ensures k <= |order| && (k < |order| ==> Covers(base, order[k], gsi))
    ensures forall j: nat | j < k :: !Covers(base, order[j], gsi)
  {
    if order == [] || Covers(base, order[0], gsi) then 0
    else
      assert forall j: nat | 0 < j < |order| :: order[j] == order[1..][j - 1];
      1 + FirstCovering(base, order[1..], gsi)
  }

  lemma FirstUnique(base: Bases, order: seq<nat>, gsi: nat, k: nat)
    requires k <= |order| && (k < |order| ==> Covers(base, order[k], gsi))
    requires forall j: nat | j < k :: !Covers(base, order[j], gsi)
    ensures k == FirstCovering(base, order, gsi)
  {
  }

  /** Interrupts a CPU serves. */
  ghost function Served(slots: map<Handler, Slot>, m: Mappings, cpu: nat): (r: set<Line>) {
    set k | k in m && m[k] in slots && slots[m[k]].Used? && slots[m[k]].cpu == cpu
  }

  ghost predicate SlotMapped(base: Bases, slots: map<Handler, Slot>, m: Mappings, h: Handler)
    requires h in slots
  {
    var s := slots[h];
    s.Used? ==>
      && Covers(base, s.controller, s.vector)
      && var k := Line(s.controller, s.vector - base[s.controller]); k in m && m[k] == h
  }

  ghost predicate MappingOk(base: Bases, slots: map<Handler, Slot>, m: Mappings, k: Line)
    requires k in m
  {
    && k.controller in base && k.offset < INTS_COUNT && m[k] in slots && slots[m[k]].Used?
    && slots[m[k]].controller == k.controller && slots[m[k]].vector == base[k.controller] + k.offset
  }

  /** Mapped interrupts and used slots are the two sides of one bijection. */
  ghost predicate Paired(base: Bases, slots: map<Handler, Slot>, m: Mappings) {
    && (forall h {:trigger SlotMapped(base, slots, m, h)} | h in slots :: SlotMapped(base, slots, m, h))
    && (forall k {:trigger MappingOk(base, slots, m, k)} | k in m :: MappingOk(base, slots, m, k))
  }

  /** No slot serves two interrupts. */
  lemma Injective(base: Bases, slots: map<Handler, Slot>, m: Mappings, j: Line, k: Line)
    requires Paired(base, slots, m) && j in m && k in m && m[j] == m[k]
    ensures j == k
  {
    assert MappingOk(base, slots, m, j) && MappingOk(base, slots, m, k);
  }

  ghost predicate Balanced(counts: seq<nat>) {
    forall c: nat, d: nat | c < |counts| && d < |counts| :: counts[c] <= counts[d] + 1
  }

  /** CPU c is the first one with the least load. */
  predicate FirstLeast(counts: seq<nat>, c: nat) {
    && c < |counts|
    && (forall d: nat {:trigger counts[d]} | d < |counts| :: counts[c] <= counts[d])
    && (forall d: nat {:trigger counts[d]} | d < c :: counts[c] < counts[d])
  }

  lemma FirstUniqueLeast(counts: seq<nat>, c: nat)
    requires FirstLeast(counts, c)
    ensures forall d: nat | FirstLeast(counts, d) :: d == c
  {
    forall d: nat | FirstLeast(counts, d) ensures d == c { assert counts[c] <= counts[d] && counts[d] <= counts[c]; }
  }

  /** All slots of the controller of h before h are in use. */
  ghost predicate TakenBelow(slots: map<Handler, Slot>, h: Handler) {
    forall i: nat | i < h.index :: Handler(h.eiopic, i) in slots && slots[Handler(h.eiopic, i)].Used?
  }

  ghost function Least(counts: seq<nat>): (n: nat)
    requires counts != []
    ensures n in counts && forall c: nat | c < |counts| :: n <= counts[c]
  {
    if |counts| == 1 then counts[0]
    else
      var n, last := Least(counts[..|counts| - 1]), counts[|counts| - 1];
      if last < n then last else n
  }

  /** Loading a least loaded CPU keeps the loads within one of each other. */
  lemma BalanceKept(counts: seq<nat>, c: nat)
    requires Balanced(counts) && c < |counts| && counts[c] == Least(counts)
    ensures Balanced(counts[c := counts[c] + 1])
  {
  }

  lemma ServedGrows(base: Bases, slots: map<Handler, Slot>, m: Mappings, h: Handler, s: Slot, k: Line, cpu: nat)
    requires Paired(base, slots, m) && h in slots && slots[h].Unused? && s.Used? && k !in m
    ensures Served(slots[h := s], m[k := h], cpu) == Served(slots, m, cpu) + (if s.cpu == cpu then {k} else {})
  {
    forall j | j in m ensures m[j] != h { assert MappingOk(base, slots, m, j); }
  }

  lemma PairedGrows(base: Bases, slots: map<Handler, Slot>, m: Mappings, h: Handler, s: Slot, k: Line)
    requires Paired(base, slots, m) && h in slots && slots[h].Unused? && s.Used? && k !in m
    requires k.controller in base && k.offset < INTS_COUNT && s.controller == k.controller && s.vector == base[k.controller] + k.offset
    ensures Paired(base, slots[h := s], m[k := h])
  {
    var slots', m' := slots[h := s], m[k := h];
    forall j | j in m' ensures MappingOk(base, slots', m', j) { assert j != k ==> MappingOk(base, slots, m, j); }
    forall g | g in slots' ensures SlotMapped(base, slots', m', g) { assert SlotMapped(base, slots, m, g); }
  }

  /** Every CPU has its slots, and the slots it uses are among them. */
  ghost predicate Placed(eiopicOf: seq<nat>, slots: map<Handler, Slot>) {
    && (forall c: nat, i: nat | c < |eiopicOf| && i < MAPPINGS_SIZE :: Handler(eiopicOf[c], i) in slots)
    && (forall h | h in slots && slots[h].Used? :: slots[h].cpu < |eiopicOf| && h.eiopic == eiopicOf[slots[h].cpu])
  }

  /** Each CPU's load is the number of interrupts it serves. */
  ghost predicate Counted(counts: seq<nat>, slots: map<Handler, Slot>, m: Mappings) {
    forall c: nat | c < |counts| :: counts[c] == |Served(slots, m, c)|
  }

  ghost function Lookup(base: Bases, order: seq<nat>, m: Mappings, gsi: nat): (r: Result)
    requires Descending(base, order)
  {
    var k := FirstCovering(base, order, gsi);
    if k == |order| then NoEntry
    else
      var key := Line(order[k], gsi - base[order[k]]);
      if key in m then Ok(m[key]) else NoMemory
  }

  lemma CountedGrows(base: Bases, counts: seq<nat>, slots: map<Handler, Slot>, m: Mappings, h: Handler, s: Slot, k: Line)
    requires Counted(counts, slots, m) && Paired(base, slots, m) && h in slots && slots[h].Unused? && k !in m
    requires s.Used? && s.cpu < |counts|
    ensures Counted(counts[s.cpu := counts[s.cpu] + 1], slots[h := s], m[k := h])
  {
    var counts', slots', m' := counts[s.cpu := counts[s.cpu] + 1], slots[h := s], m[k := h];
    forall c: nat | c < |counts'| ensures counts'[c] == |Served(slots', m', c)| {
      ServedGrows(base, slots, m, h, s, k, c);
    }
  }

  class Pic {
    /** The extended I/O controller of each CPU. */
    const eiopicOf: seq<nat>
    var counts: seq<nat>
    var slots: map<Handler, Slot>
    var base: Bases
    var order: seq<nat>
    var mappings: Mappings

    ghost predicate Valid()
      reads this
    {
      && |counts| == |eiopicOf| > 0 && Balanced(counts) && Descending(base, order)
      && Placed(eiopicOf, slots) && Paired(base, slots, mappings) && Counted(counts, slots, mappings)
    }

    /** The slot an interrupt is served from. */
    ghost function HandlerOf(gsi: nat): (r: Result)
      requires Valid()
      reads this
    {
      Lookup(base, order, mappings, gsi)
    }

    ghost predicate Full(cpu: nat)
      requires Valid() && cpu < |eiopicOf|
      reads this
    {
      forall i: nat | i < MAPPINGS_SIZE :: slots[Handler(eiopicOf[cpu], i)].Used?
    }

    constructor (cpus: seq<nat>)
      requires |cpus| > 0
      ensures Valid() && eiopicOf == cpus && order == [] && mappings == map[]
    {
      eiopicOf := cpus;
      counts := seq(|cpus|, _ => 0);
      slots := map c: nat, i: nat | c < |cpus| && i < MAPPINGS_SIZE :: Handler(cpus[c], i) := Unused;
      base, order, mappings := map[], [], map[];
    }

    /** Insert a controller into the vector, which stays in descending order of first interrupt. */
    method BiopicPush(e: nat, gsiBase: nat)
      requires Valid() && e !in base
      modifies this`base, this`order
      ensures Valid() && base == old(base)[e := gsiBase]
      ensures exists i: nat :: i <= |old(order)| && order == old(order)[..i] + [e] + old(order)[i..]
      ensures forall gsi: nat | !Covers(base, e, gsi) :: HandlerOf(gsi) == old(HandlerOf(gsi))
    {
      hide Paired, Counted, Balanced, Placed, FirstCovering, Descending;
      ghost var was, wasBase := order, base;
      base := base[e := gsiBase];
      order := order + [e];
      ghost var i := ShiftInto(e, gsiBase, was, wasBase);
      PushKept(wasBase, was, e, gsiBase, i, slots, mappings);
      forall gsi: nat | !Covers(base, e, gsi) ensures HandlerOf(gsi) == old(HandlerOf(gsi)) {
        PushLookup(wasBase, was, e, gsiBase, i, mappings, gsi);
      }
    }

    /** Shift smaller controllers up from the end and store the new one below them. */
    method ShiftInto(e: nat, gsiBase: nat, ghost was: seq<nat>, ghost wasBase: Bases) returns (ghost place: nat)
      requires order == was + [e] && base == wasBase[e := gsiBase] && e !in wasBase && Descending(wasBase, was)
      modifies this`order
      ensures place <= |was| && order == was[..place] + [e] + was[place..]
      ensures place > 0 ==> wasBase[was[place - 1]] >= gsiBase
      ensures forall k: nat | place <= k < |was| :: wasBase[was[k]] < gsiBase
    {
      var i := |order| - 1;
      assert was[..i] == was && was[i..] == [];
      while i > 0 && base[order[i - 1]] < gsiBase
        invariant 0 <= i < |order| == |was| + 1 && order == was[..i] + [order[i]] + was[i..]
        invariant forall k: nat | i <= k < |was| :: wasBase[was[k]] < gsiBase
      {
        assert order[i - 1] == was[i - 1];
        order := order[i := order[i - 1]];
        i := i - 1;
      }
      assert i > 0 ==> order[i - 1] == was[i - 1];
      order := order[i := e];
      place := i;
    }

    method GetBiopic(gsi: nat) returns (found: bool, e: nat)
      requires Valid()
      ensures var k := FirstCovering(base, order, gsi); found == (k < |order|) && (found ==> e == order[k])
    {
      var i := 0;
      found, e := false, 0;
      while i < |order|
        invariant i <= |order| && forall j: nat | j < i :: !Covers(base, order[j], gsi)
      {
        if base[order[i]] <= gsi && base[order[i]] + INTS_COUNT > gsi {
          FirstUnique(base, order, gsi, i);
          return true, order[i];
        }
        i := i + 1;
      }
      FirstUnique(base, order, gsi, i);
    }

    method LeastLoaded() returns (cpu: nat)
      requires Valid()
      ensures FirstLeast(counts, cpu) && counts[cpu] == Least(counts)
    {
      cpu := 0;
      var i := 1;
      while i < |counts|
        invariant i <= |counts| && cpu < i && forall d: nat | d < i :: counts[cpu] <= counts[d]
        invariant forall d: nat | d < cpu :: counts[cpu] < counts[d]
      {
        if counts[i] < counts[cpu] { cpu := i; }
        i := i + 1;
      }
    }

    method UnusedSlot(cpu: nat) returns (idx: nat)
      requires Valid() && cpu < |counts|
      ensures idx <= MAPPINGS_SIZE && (idx < MAPPINGS_SIZE ==> slots[Handler(eiopicOf[cpu], idx)].Unused?)
      ensures forall i: nat | i < idx :: slots[Handler(eiopicOf[cpu], i)].Used?
    {
      idx := 0;
      while idx < MAPPINGS_SIZE
        invariant idx <= MAPPINGS_SIZE && forall i: nat | i < idx :: slots[Handler(eiopicOf[cpu], i)].Used?
      {
        if slots[Handler(eiopicOf[cpu], idx)].Unused? { break; }
        idx := idx + 1;
      }
    }

    /**
     * The slot of an interrupt, allocated on first use on a least loaded CPU: nothing already assigned moves, and
     * the same interrupt always gets the same slot.
     */
    method AllocateOrGetHandler(gsi: nat, edge: bool) returns (r: Result)
      requires Valid()
      modifies this
      ensures Valid() && base == old(base) && order == old(order) && old(slots).Keys == slots.Keys
      ensures r.NoEntry? <==> old(HandlerOf(gsi)).NoEntry?
      ensures old(HandlerOf(gsi)).Ok? ==> r == old(HandlerOf(gsi))
      ensures r.Ok? ==> HandlerOf(gsi) == r
      ensures !r.Ok? || old(HandlerOf(gsi)).Ok? ==> counts == old(counts) && slots == old(slots) && mappings == old(mappings)
      ensures forall g: nat | old(HandlerOf(g)).Ok? :: HandlerOf(g) == old(HandlerOf(g))
      ensures forall h | h in old(slots) && old(slots)[h].Used? :: h in slots && slots[h] == old(slots)[h]
      ensures r.Ok? && !old(HandlerOf(gsi)).Ok? ==>
        && r.handler in old(slots) && old(slots)[r.handler].Unused?
        && var s := slots[r.handler];
        && s.Used? && s.vector == gsi && s.edge == edge && FirstLeast(old(counts), s.cpu)
        && slots == old(slots)[r.handler := s] && counts == old(counts)[s.cpu := old(counts)[s.cpu] + 1]
        && r.handler.eiopic == eiopicOf[s.cpu] && TakenBelow(old(slots), r.handler)
      ensures r.NoMemory? <==> old(HandlerOf(gsi)).NoMemory? && exists c: nat :: FirstLeast(old(counts), c) && old(Full(c))
    {
      hide Paired, Counted, Balanced, Descending, FirstLeast, Least;
      var found, e := GetBiopic(gsi);
      if !found { return NoEntry; }
      var key := Line(e, gsi - base[e]);
      if key in mappings { return Ok(mappings[key]); }
      var cpu := LeastLoaded();
      var idx := UnusedSlot(cpu);
      if idx == MAPPINGS_SIZE { return NoMemory; }
      assert forall c: nat | FirstLeast(counts, c) :: c == cpu by { FirstUniqueLeast(counts, cpu); }
      var h, s := Handler(eiopicOf[cpu], idx), Used(cpu, e, gsi, edge);
      PairedGrows(base, slots, mappings, h, s, key);
      CountedGrows(base, counts, slots, mappings, h, s, key);
      BalanceKept(counts, cpu);
      slots := slots[h := s];
      mappings := mappings[key := h];
      counts := counts[cpu := counts[cpu] + 1];
      return Ok(h);
    }
  }

  lemma PushKept(base: Bases, order: seq<nat>, e: nat, gsiBase: nat, i: nat, slots: map<Handler, Slot>, m: Mappings)
    requires Descending(base, order) && e !in base && i <= |order| && Paired(base, slots, m)
    requires forall k: nat | i <= k < |order| :: base[order[k]] < gsiBase
    requires i > 0 ==> base[order[i - 1]] >= gsiBase
    ensures Descending(base[e := gsiBase], order[..i] + [e] + order[i..]) && Paired(base[e := gsiBase], slots, m)
  {
    var base' := base[e := gsiBase];
    forall k | k in m ensures MappingOk(base', slots, m, k) { assert MappingOk(base, slots, m, k); }
    forall h | h in slots ensures SlotMapped(base', slots, m, h) { assert SlotMapped(base, slots, m, h); }
  }

  lemma PushLookup(base: Bases, order: seq<nat>, e: nat, gsiBase: nat, i: nat, m: Mappings, gsi: nat)
    requires Descending(base, order) && e !in base && i <= |order| && !Covers(base[e := gsiBase], e, gsi)
    requires Descending(base[e := gsiBase], order[..i] + [e] + order[i..])
    ensures Lookup(base[e := gsiBase], order[..i] + [e] + order[i..], m, gsi) == Lookup(base, order, m, gsi)
  {
    PushFirst(base, order, e, gsiBase, i, gsi);
  }

  /** A controller that does not cover an interrupt leaves the first one that does in place. */
  lemma PushFirst(base: Bases, order: seq<nat>, e: nat, gsiBase: nat, i: nat, gsi: nat)
    requires Descending(base, order) && e !in base && i <= |order| && !Covers(base[e := gsiBase], e, gsi)
    ensures var k := FirstCovering(base, order, gsi);
      FirstCovering(base[e := gsiBase], order[..i] + [e] + order[i..], gsi) == if k < i then k else k + 1
  {
    var k, order' := FirstCovering(base, order, gsi), order[..i] + [e] + order[i..];
    var k' := if k < i then k else k + 1;
    forall j: nat | j < k' ensures !Covers(base[e := gsiBase], order'[j], gsi) {
      assert j != i ==> order'[j] == order[if j < i then j else j - 1];
    }
    FirstUnique(base[e := gsiBase], order', gsi, k');
  }
}
