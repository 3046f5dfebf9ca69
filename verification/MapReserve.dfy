/** Reserving boot memory in a normalised map. */
module MapReserve {
  import opened Words
  import opened FirmwareMap
  import opened MapSteps

  ghost predicate Clean(r: Region) {
    PageAligned(r) && End(r) < WORD && r.kind != Unknown
  }

  /** A map in order and without overlap; regions may be empty. */
  ghost predicate Tidy(v: seq<Region>) {
    && Sorted(v)
    && (forall j: nat {:trigger v[j]} | j < |v| :: Clean(v[j]))
    && (forall j: nat {:trigger Clear(v, j)} | j + 1 < |v| :: Clear(v, j))
  }

  ghost predicate NoneEmpty(v: seq<Region>) {
    forall j: nat {:trigger v[j]} | j < |v| :: v[j].size > 0
  }

  /** The only empty regions are reservations of no bytes. */
  ghost predicate EmptyReserved(v: seq<Region>) {
    forall j: nat {:trigger v[j]} | j < |v| :: v[j].size > 0 || v[j].kind == UsableReservedOnBoot
  }

  /** Region k is the last one that starts at or before s. */
  ghost predicate LastFrom(v: seq<Region>, k: nat, s: nat) {
    k < |v| && v[k].start <= s && (k + 1 < |v| ==> s < v[k + 1].start)
  }

  /** Memory from s to s + n can be taken from usable region k. */
  ghost predicate Fits(v: seq<Region>, k: nat, s: nat, n: nat) {
    LastFrom(v, k, s) && v[k].kind == Usable && s + n <= End(v[k])
  }

  /** The map after reserving n bytes at s in region k. */
  ghost function Carved(v: seq<Region>, k: nat, s: nat, n: nat): seq<Region>
    requires Fits(v, k, s, n)
  {
    var r, m := v[k], Region(s, n, UsableReservedOnBoot);
    if r.start == s && r.size == n then v[k := m]
    else if r.start == s then Inserted(v[k := Region(s + n, r.size - n, Usable)], k, m)
    else if End(r) == s + n then Inserted(v[k := r.(size := r.size - n)], k + 1, m)
    else Inserted(Inserted(v[k := r.(size := s - r.start)], k + 1, m), k + 2, Region(s + n, End(r) - (s + n), Usable))
  }

  /** For a non-empty range, the place where it fits is the only usable region that contains it. */
  lemma FitsMeans(v: seq<Region>, s: nat, n: nat)
    requires Tidy(v) && n > 0
    ensures (exists k: nat :: Fits(v, k, s, n)) <==> exists r :: r in v && r.kind == Usable && r.start <= s && s + n <= End(r)
  {
    hide PageAligned;
    if k: nat :| Fits(v, k, s, n) {
      assert v[k] in v;
    }
    if r :| r in v && r.kind == Usable && r.start <= s && s + n <= End(r) {
      var k: nat :| k < |v| && v[k] == r;
      assert k + 1 < |v| ==> Clear(v, k);
      assert Fits(v, k, s, n);
    }
  }

  lemma FitsIndex(v: seq<Region>, k: nat, s: nat, n: nat)
    requires Fits(v, k, s, n)
    ensures k < |v| && v[k].start <= s && s + n <= End(v[k])
  {
  }

  /** Carving changes the level of exactly the reserved range, which was usable. */
  lemma CarvedLevel(v: seq<Region>, k: nat, s: nat, n: nat, x: nat)
    requires Tidy(v) && Fits(v, k, s, n)
    ensures LevelAt(Carved(v, k, s, n), x) == if s <= x < s + n then Rank(UsableReservedOnBoot) else LevelAt(v, x)
    ensures s <= x < s + n ==> LevelAt(v, x) == Rank(Usable)
  {
    hide Tidy, LevelAt, Erased, Inserted, LastFrom;
    FitsIndex(v, k, s, n);
    var r, m, w := v[k], Region(s, n, UsableReservedOnBoot), Erased(v, k);
    LevelErased(v, k, x);
    if Covers(r, x) { NowhereElse(v, k, x); }
    Floor(w, x);
    if r.start == s && r.size == n {
      LevelUpdated(v, k, m, x);
    } else if r.start == s {
      var a := Region(s + n, r.size - n, Usable);
      LevelUpdated(v, k, a, x);
      LevelInserted(v[k := a], k, m, x);
    } else if End(r) == s + n {
      var a := r.(size := r.size - n);
      LevelUpdated(v, k, a, x);
      LevelInserted(v[k := a], k + 1, m, x);
    } else {
      var a, b := r.(size := s - r.start), Region(s + n, End(r) - (s + n), Usable);
      LevelUpdated(v, k, a, x);
      LevelInserted(v[k := a], k + 1, m, x);
      InsertedLength(v[k := a], k + 1, m);
      LevelInserted(Inserted(v[k := a], k + 1, m), k + 2, b, x);
    }
  }

  /** An address in region k is in no other region. */
  lemma NowhereElse(v: seq<Region>, k: nat, x: nat)
    requires Tidy(v) && k < |v| && Covers(v[k], x)
    ensures LevelAt(Erased(v, k), x) == -1
  {
    hide Tidy, LevelAt;
    var w := Erased(v, k);
    LevelMeans(w, x);
    forall r | r in w ensures !Covers(r, x) {
      var j: nat :| j < |w| && w[j] == r;
      var i := if j < k then j else j + 1;
      assert v[i] == r;
      if j < k { InOrder(v, j, k); } else { InOrder(v, k, j + 1); }
    }
  }

  lemma InOrder(v: seq<Region>, j: nat, k: nat)
    requires Tidy(v) && j < k < |v|
    ensures End(v[j]) <= v[k].start
  {
    assert Clear(v, j);
    assert v[j + 1].start <= v[k].start;
  }

  lemma CarvedTotal(v: seq<Region>, k: nat, s: nat, n: nat)
    requires Fits(v, k, s, n)
    ensures Total(Carved(v, k, s, n)) == Total(v)
  {
    var r, m := v[k], Region(s, n, UsableReservedOnBoot);
    if r.start == s && r.size == n {
      TotalUpdated(v, k, m);
    } else if r.start == s {
      var a := Region(s + n, r.size - n, Usable);
      TotalUpdated(v, k, a);
      TotalInserted(v[k := a], k, m);
    } else if End(r) == s + n {
      var a := r.(size := r.size - n);
      TotalUpdated(v, k, a);
      TotalInserted(v[k := a], k + 1, m);
    } else {
      var a, b := r.(size := s - r.start), Region(s + n, End(r) - (s + n), Usable);
      TotalUpdated(v, k, a);
      TotalInserted(v[k := a], k + 1, m);
      TotalInserted(Inserted(v[k := a], k + 1, m), k + 2, b);
    }
  }

  /** Carving keeps the map tidy. */
  lemma CarvedTidy(v: seq<Region>, k: nat, s: nat, n: nat)
    requires Tidy(v) && Fits(v, k, s, n) && s % PAGE == 0 && n % PAGE == 0
    ensures Tidy(Carved(v, k, s, n))
  {
    var r, w := v[k], Carved(v, k, s, n);
    CarvedClean(v, k, s, n);
    CarvedParts(v, k, s, n);
    hide PageAligned;
    forall j: nat | j + 1 < |w| ensures Clear(w, j) { CarvedClear(v, k, s, n, j); }
    OrderFromClear(w);
  }

  /** Without overlap the starts are in order. */
  lemma OrderFromClear(w: seq<Region>)
    requires forall j: nat {:trigger Clear(w, j)} | j + 1 < |w| :: Clear(w, j)
    ensures Sorted(w)
  {
    forall j: nat, k: nat | j < k < |w| ensures w[j].start <= w[k].start { OrderUpTo(w, j, k); }
  }

  lemma {:induction false} OrderUpTo(w: seq<Region>, j: nat, k: nat)
    requires forall i: nat {:trigger Clear(w, i)} | i + 1 < |w| :: Clear(w, i)
    requires j <= k < |w|
    ensures w[j].start <= w[k].start
    decreases k - j
  {
    if j < k {
      assert Clear(w, j);
      OrderUpTo(w, j + 1, k);
    }
  }

  /** The carved map is the old one with region k replaced by pieces of it. */
  ghost function PiecesOf(r: Region, s: nat, n: nat): seq<Region>
    requires r.start <= s && s + n <= End(r)
  {
    var m := Region(s, n, UsableReservedOnBoot);
    if r.start == s && r.size == n then [m]
    else if r.start == s then [m, Region(s + n, r.size - n, Usable)]
    else if End(r) == s + n then [r.(size := r.size - n), m]
    else [r.(size := s - r.start), m, Region(s + n, End(r) - (s + n), Usable)]
  }

  lemma CarvedParts(v: seq<Region>, k: nat, s: nat, n: nat)
    requires Fits(v, k, s, n)
    ensures Carved(v, k, s, n) == v[..k] + PiecesOf(v[k], s, n) + v[k + 1..]
  {
    hide Inserted;
    var r, m := v[k], Region(s, n, UsableReservedOnBoot);
    if r.start == s {
      InsertBefore(v, k, Region(s + n, r.size - n, Usable), m);
      UpdateParts(v, k, m);
    } else if End(r) == s + n {
      InsertAfter(v, k, r.(size := r.size - n), m);
    } else {
      InsertTwo(v, k, r.(size := s - r.start), m, Region(s + n, End(r) - (s + n), Usable));
    }
  }

  lemma UpdateParts(v: seq<Region>, k: nat, a: Region)
    requires k < |v|
    ensures v[k := a] == v[..k] + [a] + v[k + 1..]
  {
  }

  lemma InsertBefore(v: seq<Region>, k: nat, a: Region, m: Region)
    requires k < |v|
    ensures Inserted(v[k := a], k, m) == v[..k] + [m, a] + v[k + 1..]
  {
    var w := v[k := a];
    assert w[..k] == v[..k] && w[k..] == [a] + v[k + 1..];
    assert [m] + [a] == [m, a];
  }

  lemma InsertAfter(v: seq<Region>, k: nat, a: Region, m: Region)
    requires k < |v|
    ensures Inserted(v[k := a], k + 1, m) == v[..k] + [a, m] + v[k + 1..]
  {
    var w := v[k := a];
    assert w[..k + 1] == v[..k] + [a] && w[k + 1..] == v[k + 1..];
    assert [a] + [m] == [a, m];
  }

  lemma InsertTwo(v: seq<Region>, k: nat, a: Region, m: Region, b: Region)
    requires k < |v|
    ensures k + 2 <= |Inserted(v[k := a], k + 1, m)|
    ensures Inserted(Inserted(v[k := a], k + 1, m), k + 2, b) == v[..k] + [a, m, b] + v[k + 1..]
  {
    InsertAfter(v, k, a, m);
    var w := v[..k] + [a, m] + v[k + 1..];
    assert w[..k + 2] == v[..k] + [a, m] && w[k + 2..] == v[k + 1..];
    assert [a, m] + [b] == [a, m, b];
  }

  lemma CarvedClear(v: seq<Region>, k: nat, s: nat, n: nat, j: nat)
    requires Tidy(v) && Fits(v, k, s, n) && Carved(v, k, s, n) == v[..k] + PiecesOf(v[k], s, n) + v[k + 1..]
    requires j + 1 < |Carved(v, k, s, n)|
    ensures Clear(Carved(v, k, s, n), j)
  {
    hide PageAligned, Carved, Sorted, Clean;
    var p := PiecesOf(v[k], s, n);
    var w := v[..k] + p + v[k + 1..];
    var d := |p| - 1;
    assert p[0].start == v[k].start && End(p[d]) == End(v[k]);
    if j + 1 < k {
      assert Clear(v, j);
    } else if j + 1 == k {
      assert Clear(v, j) && w[j + 1] == p[0];
    } else if j < k + d {
      assert w[j] == p[j - k] && w[j + 1] == p[j + 1 - k];
    } else {
      assert Clear(v, j - d) && w[j + 1] == v[j + 1 - d];
      assert w[j] == if j == k + d then p[d] else v[j - d];
    }
  }

  lemma CarvedClean(v: seq<Region>, k: nat, s: nat, n: nat)
    requires Tidy(v) && Fits(v, k, s, n) && s % PAGE == 0 && n % PAGE == 0
    ensures forall j: nat | j < |Carved(v, k, s, n)| :: Clean(Carved(v, k, s, n)[j])
  {
    CarvedParts(v, k, s, n);
    var p := PiecesOf(v[k], s, n);
    PiecesClean(v[k], s, n);
    var w := v[..k] + p + v[k + 1..];
    hide Clean, Carved, PiecesOf;
    forall j: nat | j < |w| ensures Clean(w[j]) {
      if j < k {
        assert w[j] == v[j];
      } else if j < k + |p| {
        assert w[j] == p[j - k];
      } else {
        assert w[j] == v[j - |p| + 1];
      }
    }
  }

  lemma PiecesClean(r: Region, s: nat, n: nat)
    requires Clean(r) && r.start <= s && s + n <= End(r) && s % PAGE == 0 && n % PAGE == 0
    ensures forall j: nat | j < |PiecesOf(r, s, n)| :: Clean(PiecesOf(r, s, n)[j])
  {
    AlignedAdd(r.start, r.size);
    AlignedAdd(s, n);
    AlignedAdd(r.size, n);
    AlignedAdd(s, r.start);
    AlignedAdd(End(r), s + n);
  }

  /** Whatever is reserved, only reservations can be empty. */
  lemma CarvedEmpty(v: seq<Region>, k: nat, s: nat, n: nat)
    requires Fits(v, k, s, n) && EmptyReserved(v)
    ensures EmptyReserved(Carved(v, k, s, n))
  {
    CarvedParts(v, k, s, n);
    hide Carved;
    var p := PiecesOf(v[k], s, n);
    var w := v[..k] + p + v[k + 1..];
    forall j: nat | j < |w| ensures w[j].size > 0 || w[j].kind == UsableReservedOnBoot {
      if j < k {
        assert w[j] == v[j];
      } else if j < k + |p| {
        assert w[j] == p[j - k];
      } else {
        assert w[j] == v[j - |p| + 1];
      }
    }
  }

  /** Reserving nothing at an inner page boundary of the only usable region leaves an empty region there. */
  lemma EmptyReservationExample()
    ensures var v := [Region(0x10000, 0x4000, Usable)];
      && Tidy(v) && NoneEmpty(v) && Fits(v, 0, 0x12000, 0)
      && Carved(v, 0, 0x12000, 0) == [Region(0x10000, 0x2000, Usable), Region(0x12000, 0, UsableReservedOnBoot), Region(0x12000, 0x2000, Usable)]
  {
    var v := [Region(0x10000, 0x4000, Usable)];
    assert Clean(v[0]);
    CarvedParts(v, 0, 0x12000, 0);
  }

  /** Carving leaves no region empty exactly when the reserved range is not. */
  lemma CarvedNoneEmpty(v: seq<Region>, k: nat, s: nat, n: nat)
    requires Fits(v, k, s, n) && NoneEmpty(v)
    ensures NoneEmpty(Carved(v, k, s, n)) <==> n > 0
  {
    CarvedParts(v, k, s, n);
    var p := PiecesOf(v[k], s, n);
    var w := v[..k] + p + v[k + 1..];
    hide Carved;
    var i: nat := if v[k].start == s then 0 else 1;
    assert w[k + i] == p[i] == Region(s, n, UsableReservedOnBoot);
    if n > 0 {
      forall j: nat | j < |w| ensures w[j].size > 0 {
        if j < k {
          assert w[j] == v[j];
        } else if j < k + |p| {
          assert w[j] == p[j - k];
        } else {
          assert w[j] == v[j - |p| + 1];
        }
      }
    }
  }
}
