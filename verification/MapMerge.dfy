/** When resolving overlaps leaves two touching regions of one kind. */
module MapMerge {
  import opened FirmwareMap
  import opened MapSteps

  /** Region r starts where one of the regions in o of its kind starts. */
  ghost predicate Starts(o: seq<Region>, r: Region) {
    exists q :: q in o && q.start == r.start && q.kind == r.kind
  }

  /** Regions of two kinds start at s. */
  ghost predicate Contested(o: seq<Region>, s: nat) {
    exists a, b :: a in o && b in o && a.start == b.start == s && a.kind != b.kind
  }

  /** Region r is less restrictive than the address before it. */
  ghost predicate Eases(o: seq<Region>, r: Region) {
    r.start > 0 && LevelAt(o, r.start - 1) > Rank(r.kind)
  }

  /** A region that was cut off from another one comes after those that start with it. */
  ghost predicate Placed(o: seq<Region>, v: seq<Region>) {
    && (forall j: nat {:trigger v[j]} | j < |v| :: Eases(o, v[j]) || Starts(o, v[j]))
    && forall j: nat, k: nat {:trigger v[j], v[k]} | j < k < |v| && v[j].start == v[k].start ::
         Eases(o, v[j]) && !Eases(o, v[k]) ==> Contested(o, v[j].start)
  }

  /** Region j and the next one do not touch or are of different kinds, unless regions of two kinds started there. */
  ghost predicate Parted(o: seq<Region>, v: seq<Region>, j: nat)
    requires j + 1 < |v|
  {
    End(v[j]) == v[j + 1].start && v[j].kind == v[j + 1].kind ==> Contested(o, v[j + 1].start)
  }

  /** Regions up to index i are merged. */
  ghost predicate Merged(o: seq<Region>, v: seq<Region>, i: nat) {
    forall j: nat {:trigger Parted(o, v, j)} | j < i && j + 1 < |v| :: Parted(o, v, j)
  }

  /** What the normaliser keeps at index i, where o is the map that it started with. */
  ghost predicate Merging(o: seq<Region>, v: seq<Region>, i: nat) {
    SameMeaning(o, v) && Placed(o, v) && Merged(o, v, i)
  }

  lemma MergingStarts(o: seq<Region>)
    ensures Merging(o, o, 0)
  {
    forall j: nat | j < |o| ensures Starts(o, o[j]) { assert o[j] in o; }
    forall j: nat, k: nat | j < k < |o| && o[j].start == o[k].start && Eases(o, o[j]) && !Eases(o, o[k])
      ensures Contested(o, o[j].start)
    {
      assert o[j] in o && o[k] in o && o[j].kind != o[k].kind;
    }
  }

  lemma MergingOn(o: seq<Region>, v: seq<Region>, i: nat)
    requires Merging(o, v, i) && i + 1 < |v| && (End(v[i]) < v[i + 1].start || v[i].kind != v[i + 1].kind)
    ensures Merging(o, v, i + 1)
  {
    hide SameMeaning, Placed;
    forall j: nat | j < i + 1 && j + 1 < |v| ensures Parted(o, v, j) { assert j < i ==> Parted(o, v, j); }
  }

  // ----- editing a map

  lemma PlacedErased(o: seq<Region>, v: seq<Region>, k: nat)
    requires Placed(o, v) && k < |v|
    ensures Placed(o, Erased(v, k))
  {
    hide Eases, Starts, Contested;
  }

  lemma PlacedInserted(o: seq<Region>, v: seq<Region>, k: nat, r: Region)
    requires Placed(o, v) && Upper(v, k, r.start) && Eases(o, r)
    ensures Placed(o, Inserted(v, k, r))
  {
    hide Eases, Starts, Contested;
  }

  lemma PlacedUpdated(o: seq<Region>, v: seq<Region>, k: nat, n: nat)
    requires Placed(o, v) && k < |v|
    ensures Placed(o, v[k := v[k].(size := n)])
  {
    var w := v[k := v[k].(size := n)];
    forall j: nat | j < |w| ensures Eases(o, w[j]) == Eases(o, v[j]) && Starts(o, w[j]) == Starts(o, v[j]) { }
  }

  /** What lies before i stays merged as long as region i keeps its start and kind. */
  lemma MergedKept(o: seq<Region>, v: seq<Region>, w: seq<Region>, i: nat)
    requires Merged(o, v, i) && i < |v| && i < |w| && w[..i] == v[..i] && w[i].start == v[i].start
    requires i > 0 ==> w[i].kind == v[i].kind || (End(v[i - 1]) == w[i].start && v[i - 1].kind == w[i].kind ==> Contested(o, w[i].start))
    ensures Merged(o, w, i)
  {
    hide Contested;
    forall j: nat | j < i && j + 1 < |w| ensures Parted(o, w, j) {
      assert Parted(o, v, j);
      assert w[j] == w[..i][j] == v[..i][j];
      assert j + 1 < i ==> w[j + 1] == w[..i][j + 1] == v[..i][j + 1];
    }
  }

  lemma Meaning(o: seq<Region>, v: seq<Region>, w: seq<Region>)
    requires SameMeaning(o, v) && SameMeaning(v, w)
    ensures SameMeaning(o, w)
  {
    forall x: nat ensures LevelAt(w, x) == LevelAt(o, x) { assert LevelAt(v, x) == LevelAt(o, x); }
  }

  lemma RanksDiffer(a: Kind, b: Kind)
    requires a != b && a != Unknown && b != Unknown
    ensures Rank(a) != Rank(b)
  {
  }

  /** What is left of r after a more restrictive region n eases. */
  lemma TailEases(o: seq<Region>, v: seq<Region>, r: Region, n: Region)
    requires SameMeaning(o, v) && n in v && n.size > 0 && End(n) < End(r) && Rank(n.kind) > Rank(r.kind)
    ensures Eases(o, Tail(r, n))
  {
    hide LevelAt;
    LevelMeans(v, End(n) - 1);
    assert LevelAt(v, End(n) - 1) == LevelAt(o, End(n) - 1);
  }

  // ----- the steps

  lemma JoinMerging(o: seq<Region>, v: seq<Region>, i: nat)
    requires Good(v, i) && i + 1 < |v| && v[i].kind == v[i + 1].kind && v[i + 1].start <= End(v[i]) && Merging(o, v, i)
    ensures Merging(o, Joined(v, i), i)
  {
    hide SameMeaning, Placed, Merged, RegionOk, Settled;
    var r, n := v[i], v[i + 1];
    var size := Max(End(r), End(n)) - r.start;
    JoinKept(v, i);
    Meaning(o, v, Joined(v, i));
    PlacedUpdated(o, v, i, size);
    PlacedErased(o, v[i := r.(size := size)], i + 1);
    MergedKept(o, v, Joined(v, i), i);
  }

  /** The region before i gives the address before region i its level. */
  lemma LevelBefore(v: seq<Region>, i: nat)
    requires Good(v, i) && i > 0 && End(v[i - 1]) == v[i].start
    ensures v[i].start > 0 && LevelAt(v, v[i].start - 1) == Rank(v[i - 1].kind)
  {
    hide LevelAt, PageAligned;
    assert RegionOk(v[i - 1]);
    var x := v[i].start - 1;
    LevelMeans(v, x);
    assert v[i - 1] in v && Covers(v[i - 1], x);
    var r :| r in v && Covers(r, x) && Rank(r.kind) == LevelAt(v, x);
    var j: nat :| j < |v| && v[j] == r;
    if j < i - 1 { ClearBefore(v, i, j, i - 1); }
  }

  lemma {:induction false} ClearBefore(v: seq<Region>, i: nat, j: nat, k: nat)
    requires Good(v, i) && j < k <= i
    ensures End(v[j]) <= v[k].start
    decreases k - j
  {
    hide RegionOk;
    assert Clear(v, j);
    if j + 1 < k { assert v[j + 1].start <= v[k].start; }
  }

  /** Region i gives way to the next one, of another kind, that starts with it. */
  lemma TurnParted(o: seq<Region>, v: seq<Region>, i: nat)
    requires Good(v, i) && Merging(o, v, i) && 0 < i && i + 1 < |v| && v[i].start == v[i + 1].start && v[i].kind != v[i + 1].kind
    requires End(v[i - 1]) == v[i].start && v[i - 1].kind == v[i + 1].kind
    ensures Contested(o, v[i].start)
  {
    hide RegionOk, Settled, Merged, LevelAt;
    var r, n, s := v[i], v[i + 1], v[i].start;
    LevelBefore(v, i);
    assert LevelAt(v, s - 1) == LevelAt(o, s - 1);
    assert !Eases(o, n);
    if !Eases(o, r) {
      var a :| a in o && a.start == s && a.kind == r.kind;
      var b :| b in o && b.start == s && b.kind == n.kind;
    }
  }

  /** One of two regions of different kinds with the same start goes, and what sticks out of it stays. */
  lemma OutMerging(o: seq<Region>, v: seq<Region>, w: seq<Region>, i: nat, k: nat)
    requires Good(v, i) && Merging(o, v, i) && i + 1 < |v| && v[i].start == v[i + 1].start && v[i].kind != v[i + 1].kind
    requires i <= k <= i + 1 && SameMeaning(v, w) && Placed(o, w)
    requires |w| > i && w[..i] == v[..i] && w[i].start == v[i].start && w[i].kind == v[2 * i + 1 - k].kind
    ensures Merging(o, w, i)
  {
    hide SameMeaning, Placed, Merged, Good, Contested;
    Meaning(o, v, w);
    if k == i && 0 < i && End(v[i - 1]) == v[i].start && v[i - 1].kind == v[i + 1].kind { TurnParted(o, v, i); }
    MergedKept(o, v, w, i);
  }

  lemma HiddenMerging(o: seq<Region>, v: seq<Region>, i: nat, k: nat)
    requires Good(v, i) && Merging(o, v, i) && i + 1 < |v| && v[i].start == v[i + 1].start && v[i].kind != v[i + 1].kind
    requires i <= k <= i + 1 && SameMeaning(v, Erased(v, k))
    ensures Merging(o, Erased(v, k), i)
  {
    hide SameMeaning, Placed, Merged, Good;
    PlacedErased(o, v, k);
    OutMerging(o, v, Erased(v, k), i, k);
  }

  lemma StickOutMerging(o: seq<Region>, v: seq<Region>, i: nat, k: nat, it: nat)
    requires Good(v, i) && Merging(o, v, i) && i + 1 < |v| && v[i].start == v[i + 1].start && v[i].kind != v[i + 1].kind
    requires i <= k <= i + 1 && v[k].size > v[2 * i + 1 - k].size && !MoreRestrictive(v[k].kind, v[2 * i + 1 - k].kind)
    requires i + 2 <= it && Upper(v, it, End(v[2 * i + 1 - k]))
    requires SameMeaning(v, Inserted(Erased(v, k), it - 1, Tail(v[k], v[2 * i + 1 - k])))
    ensures Merging(o, Inserted(Erased(v, k), it - 1, Tail(v[k], v[2 * i + 1 - k])), i)
  {
    hide SameMeaning, Placed, Merged, Settled, PageAligned;
    var r, n := v[k], v[2 * i + 1 - k];
    assert RegionOk(r) && RegionOk(n);
    RanksDiffer(r.kind, n.kind);
    TailEases(o, v, r, n);
    PlacedErased(o, v, k);
    PlacedInserted(o, Erased(v, k), it - 1, Tail(r, n));
    OutMerging(o, v, Inserted(Erased(v, k), it - 1, Tail(r, n)), i, k);
  }

  lemma CutShortMerging(o: seq<Region>, v: seq<Region>, i: nat, n: nat)
    requires Good(v, i) && Merging(o, v, i) && SameMeaning(v, v[i := v[i].(size := n)])
    ensures Merging(o, v[i := v[i].(size := n)], i)
  {
    hide SameMeaning, Placed, Merged;
    var w := v[i := v[i].(size := n)];
    Meaning(o, v, w);
    PlacedUpdated(o, v, i, n);
    MergedKept(o, v, w, i);
  }

  lemma SplitMerging(o: seq<Region>, v: seq<Region>, i: nat, it: nat)
    requires Good(v, i) && Merging(o, v, i) && i + 1 < |v| && v[i].start < v[i + 1].start && End(v[i]) > End(v[i + 1])
    requires v[i].kind != v[i + 1].kind && !MoreRestrictive(v[i].kind, v[i + 1].kind) && i + 2 <= it && Upper(v, it, End(v[i + 1]))
    ensures Merging(o, Inserted(v, it, Tail(v[i], v[i + 1]))[i := v[i].(size := v[i + 1].start - v[i].start)], i)
  {
    hide SameMeaning, Placed, Merged, Settled, PageAligned;
    var r, n := v[i], v[i + 1];
    var w := Inserted(v, it, Tail(r, n));
    var u := w[i := r.(size := n.start - r.start)];
    assert RegionOk(r) && RegionOk(n);
    RanksDiffer(r.kind, n.kind);
    TailEases(o, v, r, n);
    PlacedInserted(o, v, it, Tail(r, n));
    PlacedUpdated(o, w, i, n.start - r.start);
    SplitKept(v, i, it);
    Meaning(o, v, u);
    MergedKept(o, v, u, i);
  }

  lemma SwallowMerging(o: seq<Region>, v: seq<Region>, i: nat)
    requires Good(v, i) && Merging(o, v, i) && i + 1 < |v| && SameMeaning(v, Erased(v, i + 1))
    ensures Merging(o, Erased(v, i + 1), i)
  {
    hide SameMeaning, Placed, Merged;
    Meaning(o, v, Erased(v, i + 1));
    PlacedErased(o, v, i + 1);
    MergedKept(o, v, Erased(v, i + 1), i);
  }

  lemma BeheadMerging(o: seq<Region>, v: seq<Region>, i: nat, it: nat)
    requires Good(v, i) && Merging(o, v, i) && i + 1 < |v| && End(v[i]) < End(v[i + 1])
    requires MoreRestrictive(v[i].kind, v[i + 1].kind) && i + 2 <= it && Upper(v, it, End(v[i]))
    requires SameMeaning(v, Inserted(Erased(v, i + 1), it - 1, Tail(v[i + 1], v[i])))
    ensures Merging(o, Inserted(Erased(v, i + 1), it - 1, Tail(v[i + 1], v[i])), i)
  {
    hide SameMeaning, Placed, Merged, Settled, PageAligned;
    var r, n := v[i], v[i + 1];
    var w := Inserted(Erased(v, i + 1), it - 1, Tail(n, r));
    assert RegionOk(r);
    TailEases(o, v, n, r);
    PlacedErased(o, v, i + 1);
    PlacedInserted(o, Erased(v, i + 1), it - 1, Tail(n, r));
    Meaning(o, v, w);
    MergedKept(o, v, w, i);
  }
}
