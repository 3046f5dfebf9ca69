/** The steps by which overlapping regions are resolved, each of which keeps the meaning of the map. */
module MapSteps {
  import opened Words
  import opened FirmwareMap

  ghost predicate RegionOk(r: Region) {
    r.size > 0 && PageAligned(r) && End(r) < WORD && r.kind != Unknown
  }

  ghost predicate Fine(v: seq<Region>) {
    forall j: nat {:trigger v[j]} | j < |v| :: RegionOk(v[j])
  }

  ghost predicate Sorted(v: seq<Region>) {
    forall j: nat, k: nat {:trigger v[j], v[k]} | j < k < |v| :: v[j].start <= v[k].start
  }

  ghost predicate Clear(v: seq<Region>, j: nat)
    requires j + 1 < |v|
  {
    End(v[j]) <= v[j + 1].start
  }

  /** Regions up to index i do not overlap. */
  ghost predicate Settled(v: seq<Region>, i: nat)
    requires i < |v|
  {
    forall j: nat {:trigger Clear(v, j)} | j < i :: Clear(v, j)
  }

  ghost predicate SameMeaning(v: seq<Region>, v': seq<Region>) {
    forall x: nat {:trigger LevelAt(v', x)} :: LevelAt(v', x) == LevelAt(v, x)
  }

  /** Index it is where a region that starts at key belongs. */
  ghost predicate Upper(v: seq<Region>, it: nat, key: nat) {
    && it <= |v|
    && (forall j: nat {:trigger v[j]} | j < it :: v[j].start <= key)
    && (forall j: nat {:trigger v[j]} | it <= j < |v| :: key < v[j].start)
  }

  /** The loop invariant of the normaliser at index i. */
  ghost predicate Good(v: seq<Region>, i: nat) {
    Sorted(v) && Fine(v) && i < |v| && Settled(v, i)
  }

  lemma ErasedKeeps(v: seq<Region>, k: nat)
    requires Sorted(v) && Fine(v) && k < |v|
    ensures Sorted(Erased(v, k)) && Fine(Erased(v, k))
  {
  }

  lemma InsertedKeeps(v: seq<Region>, k: nat, r: Region)
    requires Sorted(v) && Fine(v) && RegionOk(r) && Upper(v, k, r.start)
    ensures Sorted(Inserted(v, k, r)) && Fine(Inserted(v, k, r))
  {
    hide RegionOk;
  }

  lemma UpdatedKeeps(v: seq<Region>, k: nat, r: Region)
    requires Sorted(v) && Fine(v) && RegionOk(r) && k < |v| && r.start == v[k].start
    ensures Sorted(v[k := r]) && Fine(v[k := r])
  {
    hide RegionOk;
  }

  /** What lies before i is settled as long as region i keeps its start. */
  lemma SettledKept(v: seq<Region>, v': seq<Region>, i: nat)
    requires i < |v| && i < |v'| && Settled(v, i) && v'[..i] == v[..i] && v'[i].start == v[i].start
    ensures Settled(v', i)
  {
    forall j: nat | j < i ensures Clear(v', j) {
      assert Clear(v, j);
      assert v'[j] == v'[..i][j] == v[..i][j] == v[j];
      assert j + 1 < i ==> v'[j + 1] == v'[..i][j + 1] == v[..i][j + 1];
    }
  }

  /** The part of r after the end of n. */
  ghost function Tail(r: Region, n: Region): Region
    requires End(n) <= End(r)
  {
    Region(End(n), End(r) - End(n), r.kind)
  }

  lemma TailOk(r: Region, n: Region)
    requires RegionOk(r) && RegionOk(n) && End(n) < End(r)
    ensures RegionOk(Tail(r, n))
  {
    AlignedAdd(r.start, r.size);
    AlignedAdd(n.start, n.size);
    AlignedAdd(End(r), End(n));
  }

  lemma HeadOk(r: Region, n: Region)
    requires RegionOk(r) && RegionOk(n) && r.start < n.start < End(r)
    ensures RegionOk(r.(size := n.start - r.start))
  {
    AlignedAdd(n.start, r.start);
  }

  lemma JoinOk(r: Region, n: Region)
    requires RegionOk(r) && RegionOk(n) && r.start <= n.start
    ensures RegionOk(Region(r.start, Max(End(r), End(n)) - r.start, r.kind))
  {
    AlignedAdd(r.start, r.size);
    AlignedAdd(n.start, n.size);
    AlignedAdd(Max(End(r), End(n)), r.start);
  }

  // ----- equal kinds that touch or overlap become one region

  ghost function Joined(v: seq<Region>, i: nat): seq<Region>
    requires i + 1 < |v|
  {
    var r, n := v[i], v[i + 1];
    Erased(v[i := Region(r.start, Max(End(r), End(n)) - r.start, r.kind)], i + 1)
  }

  lemma JoinKept(v: seq<Region>, i: nat)
    requires Good(v, i) && i + 1 < |v| && v[i].kind == v[i + 1].kind && v[i + 1].start <= End(v[i])
    ensures var v' := Joined(v, i);
      Good(v', i) && SameMeaning(v, v') && |v'| == |v| - 1 && Total(v') <= Total(v)
  {
    hide PageAligned;
    var r, n, v' := v[i], v[i + 1], Joined(v, i);
    var m := Region(r.start, Max(End(r), End(n)) - r.start, r.kind);
    JoinOk(r, n);
    UpdatedKeeps(v, i, m);
    ErasedKeeps(v[i := m], i + 1);
    SettledKept(v, v', i);
    forall x: nat ensures LevelAt(v', x) == LevelAt(v, x) {
      LevelTwo(v, i, x);
      LevelErased(v', i, x);
      assert Erased(v', i) == v[..i] + v[i + 2..];
    }
    TotalUpdated(v, i, m);
    TotalErased(v[i := m], i + 1);
  }

  // ----- regions of different kinds with the same start

  ghost function Swapped(v: seq<Region>, i: nat): seq<Region>
    requires i + 1 < |v|
  {
    v[i := v[i + 1]][i + 1 := v[i]]
  }

  lemma SwapKept(v: seq<Region>, i: nat)
    requires Good(v, i) && i + 1 < |v| && v[i].start == v[i + 1].start
    ensures Good(Swapped(v, i), i) && SameMeaning(v, Swapped(v, i)) && Total(Swapped(v, i)) == Total(v)
  {
    hide PageAligned;
    var r, n, v' := v[i], v[i + 1], Swapped(v, i);
    UpdatedKeeps(v, i, n);
    UpdatedKeeps(v[i := n], i + 1, r);
    SettledKept(v, v', i);
    forall x: nat ensures LevelAt(v', x) == LevelAt(v, x) {
      LevelTwo(v, i, x);
      LevelTwo(v', i, x);
      assert v'[..i] + v'[i + 2..] == v[..i] + v[i + 2..];
    }
    TotalUpdated(v, i, n);
    TotalUpdated(v[i := n], i + 1, r);
  }

  /** The less restrictive region i is hidden by the next one. */
  lemma HiddenKept(v: seq<Region>, i: nat)
    requires Good(v, i) && i + 1 < |v| && v[i].start == v[i + 1].start && v[i].size <= v[i + 1].size
    requires !MoreRestrictive(v[i].kind, v[i + 1].kind)
    ensures var v' := Erased(v, i);
      Good(v', i) && SameMeaning(v, v') && Total(v') < Total(v)
  {
    hide PageAligned;
    var r, n, v' := v[i], v[i + 1], Erased(v, i);
    ErasedKeeps(v, i);
    SettledKept(v, v', i);
    forall x: nat ensures LevelAt(v', x) == LevelAt(v, x) {
      LevelTwo(v, i, x);
      LevelErased(v', i, x);
      assert Erased(v', i) == v[..i] + v[i + 2..];
    }
    TotalErased(v, i);
  }

  /** The less restrictive region i sticks out beyond the next one, and only that part of it stays. */
  lemma StickOutKept(v: seq<Region>, i: nat, it: nat)
    requires Good(v, i) && i + 1 < |v| && v[i].start == v[i + 1].start && v[i].size > v[i + 1].size
    requires !MoreRestrictive(v[i].kind, v[i + 1].kind) && Upper(v, it, End(v[i + 1]))
    ensures i + 2 <= it
    ensures var v' := Inserted(Erased(v, i), it - 1, Tail(v[i], v[i + 1]));
      Good(v', i) && SameMeaning(v, v') && Total(v') < Total(v)
  {
    hide PageAligned;
    var r, n, w := v[i], v[i + 1], Erased(v, i);
    var t := Tail(r, n);
    assert RegionOk(r) && RegionOk(n);
    TailOk(r, n);
    ErasedKeeps(v, i);
    InsertedKeeps(w, it - 1, t);
    var v' := Inserted(w, it - 1, t);
    SettledKept(v, v', i);
    forall x: nat ensures LevelAt(v', x) == LevelAt(v, x) {
      LevelTwo(v, i, x);
      LevelInserted(w, it - 1, t, x);
      LevelErased(w, i, x);
      assert Erased(w, i) == v[..i] + v[i + 2..];
    }
    TotalErased(v, i);
    TotalInserted(w, it - 1, t);
  }

  // ----- overlapping regions of different kinds with different starts

  /** The next region is more restrictive: region i ends where the next one starts. */
  lemma CutShortKept(v: seq<Region>, i: nat)
    requires Good(v, i) && i + 1 < |v| && v[i].start < v[i + 1].start < End(v[i]) <= End(v[i + 1])
    requires !MoreRestrictive(v[i].kind, v[i + 1].kind)
    ensures var r := v[i]; var v' := v[i := r.(size := v[i + 1].start - r.start)];
      Good(v', i) && SameMeaning(v, v') && Total(v') < Total(v)
  {
    hide PageAligned;
    var r, n := v[i], v[i + 1];
    var m := r.(size := n.start - r.start);
    var v' := v[i := m];
    HeadOk(r, n);
    UpdatedKeeps(v, i, m);
    SettledKept(v, v', i);
    forall x: nat ensures LevelAt(v', x) == LevelAt(v, x) {
      LevelTwo(v, i, x);
      LevelTwo(v', i, x);
      assert v'[..i] + v'[i + 2..] == v[..i] + v[i + 2..];
    }
    TotalUpdated(v, i, m);
  }

  /** As before, but region i continues after the next one, and is split in two. */
  lemma SplitKept(v: seq<Region>, i: nat, it: nat)
    requires Good(v, i) && i + 1 < |v| && v[i].start < v[i + 1].start && End(v[i]) > End(v[i + 1])
    requires !MoreRestrictive(v[i].kind, v[i + 1].kind) && Upper(v, it, End(v[i + 1]))
    ensures i + 2 <= it
    ensures var r := v[i]; var v' := Inserted(v, it, Tail(r, v[i + 1]))[i := r.(size := v[i + 1].start - r.start)];
      Good(v', i) && SameMeaning(v, v') && Total(v') < Total(v)
  {
    hide PageAligned;
    var r, n := v[i], v[i + 1];
    var t, m := Tail(r, n), r.(size := n.start - r.start);
    assert RegionOk(r) && RegionOk(n);
    TailOk(r, n);
    HeadOk(r, n);
    InsertedKeeps(v, it, t);
    var w := Inserted(v, it, t);
    UpdatedKeeps(w, i, m);
    var v', u := w[i := m], v[i := m];
    assert v' == Inserted(u, it, t);
    SettledKept(v, v', i);
    forall x: nat ensures LevelAt(v', x) == LevelAt(v, x) {
      LevelInserted(u, it, t, x);
      LevelTwo(v, i, x);
      LevelTwo(u, i, x);
      assert u[..i] + u[i + 2..] == v[..i] + v[i + 2..];
    }
    TotalInserted(v, it, t);
    TotalUpdated(w, i, m);
  }

  /** Region i is more restrictive and hides the next one. */
  lemma SwallowKept(v: seq<Region>, i: nat)
    requires Good(v, i) && i + 1 < |v| && End(v[i + 1]) <= End(v[i]) && MoreRestrictive(v[i].kind, v[i + 1].kind)
    ensures var v' := Erased(v, i + 1);
      Good(v', i) && SameMeaning(v, v') && Total(v') < Total(v)
  {
    hide PageAligned;
    var r, n, v' := v[i], v[i + 1], Erased(v, i + 1);
    ErasedKeeps(v, i + 1);
    SettledKept(v, v', i);
    forall x: nat ensures LevelAt(v', x) == LevelAt(v, x) {
      LevelTwo(v, i, x);
      LevelErased(v', i, x);
      assert Erased(v', i) == v[..i] + v[i + 2..];
    }
    TotalErased(v, i + 1);
  }

  /** Region i is more restrictive and hides the first part of the next one. */
  lemma BeheadKept(v: seq<Region>, i: nat, it: nat)
    requires Good(v, i) && i + 1 < |v| && v[i + 1].start < End(v[i]) < End(v[i + 1])
    requires MoreRestrictive(v[i].kind, v[i + 1].kind) && Upper(v, it, End(v[i]))
    ensures i + 2 <= it
    ensures var v' := Inserted(Erased(v, i + 1), it - 1, Tail(v[i + 1], v[i]));
      Good(v', i) && SameMeaning(v, v') && Total(v') < Total(v)
  {
    hide PageAligned;
    var r, n, w := v[i], v[i + 1], Erased(v, i + 1);
    var t := Tail(n, r);
    assert RegionOk(r) && RegionOk(n);
    TailOk(n, r);
    ErasedKeeps(v, i + 1);
    InsertedKeeps(w, it - 1, t);
    var v' := Inserted(w, it - 1, t);
    SettledKept(v, v', i);
    forall x: nat ensures LevelAt(v', x) == LevelAt(v, x) { BeheadLevel(v, i, it, x); }
    TotalErased(v, i + 1);
    TotalInserted(w, it - 1, t);
  }

  lemma BeheadLevel(v: seq<Region>, i: nat, it: nat, x: nat)
    requires i + 1 < |v| && v[i].start <= v[i + 1].start < End(v[i]) < End(v[i + 1])
    requires MoreRestrictive(v[i].kind, v[i + 1].kind) && i + 2 <= it <= |v|
    ensures LevelAt(Inserted(Erased(v, i + 1), it - 1, Tail(v[i + 1], v[i])), x) == LevelAt(v, x)
  {
    var w := Erased(v, i + 1);
    LevelTwo(v, i, x);
    LevelInserted(w, it - 1, Tail(v[i + 1], v[i]), x);
    LevelErased(w, i, x);
    assert Erased(w, i) == v[..i] + v[i + 2..];
  }
}
