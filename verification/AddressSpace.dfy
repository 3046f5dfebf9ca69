/** An address space as its ordered regions, and the release of a range of it. */
module AddressSpace {
  import opened Words
  import opened MemObject
  import opened MemRegions

  datatype Option<T> = None | Some(value: T)

  function End(r: Region): (e: nat) {
    r.start + r.size
  }

  /** Regions of whole pages, in order and apart. */
  ghost predicate Laid(rs: seq<Region>) {
    && (forall k: nat {:trigger rs[k]} | k < |rs| :: OnPages(rs[k]))
    && (forall j: nat, k: nat {:trigger rs[j], rs[k]} | j < k < |rs| :: End(rs[j]) <= rs[k].start)
  }

  /** A space with regions as the mapping calls make them. */
  ghost predicate WideOk(rs: seq<Region>) {
    Laid(rs) && forall k: nat {:trigger rs[k]} | k < |rs| :: Ordered(rs[k])
  }

  /** A space in which trimming is always right. */
  ghost predicate SpaceOk(rs: seq<Region>) {
    Laid(rs) && forall k: nat {:trigger rs[k]} | k < |rs| :: RegionOk(rs[k])
  }

  /** What a mapped byte shows, and whether it is copied on a write. */
  datatype Shown = Shown(source: Source, cow: bool)

  ghost function ShownBy(r: Region, a: nat): (m: Option<Shown>)
    requires Holds(r, a)
  {
    Some(Shown(Denotes(r, a), IsCow(r)))
  }

  /** What the byte at a shows, if it is in a region. */
  ghost function Meaning(rs: seq<Region>, a: nat): (m: Option<Shown>) {
    if rs == [] then None else if Holds(rs[0], a) then ShownBy(rs[0], a) else Meaning(rs[1..], a)
  }

  lemma {:induction false} MeaningAt(rs: seq<Region>, k: nat, a: nat)
    requires Laid(rs) && k < |rs| && Holds(rs[k], a)
    ensures Meaning(rs, a) == ShownBy(rs[k], a)
  {
    hide OnPages;
    if k > 0 {
      assert !Holds(rs[0], a);
      MeaningAt(rs[1..], k - 1, a);
    }
  }

  lemma {:induction false} MeaningNone(rs: seq<Region>, a: nat)
    ensures Meaning(rs, a) == None <==> forall k: nat | k < |rs| :: !Holds(rs[k], a)
  {
    if rs != [] {
      MeaningNone(rs[1..], a);
      if k: nat :| k < |rs| && Holds(rs[k], a) {
        assert k > 0 ==> rs[k] == rs[1..][k - 1];
      }
    }
  }

  /** Some region holds both a and s. */
  ghost predicate Together(rs: seq<Region>, s: nat, a: nat) {
    exists k: nat :: k < |rs| && Holds(rs[k], s) && Holds(rs[k], a)
  }

  /** What a release of n bytes at s does: of the range, only the part in the region that holds s is unmapped. */
  ghost predicate Released(rs: seq<Region>, rs': seq<Region>, s: nat, n: nat) {
    forall a: nat {:trigger Meaning(rs', a)} ::
      Meaning(rs', a) == if s <= a < s + n && Together(rs, s, a) then None else Meaning(rs, a)
  }

  /** The addresses that a release of n bytes at s takes away. */
  ghost predicate Unmapped(rs: seq<Region>, rs': seq<Region>, s: nat, n: nat) {
    forall a: nat {:trigger Meaning(rs', a)} ::
      Meaning(rs', a) == None <==> (s <= a < s + n && Together(rs, s, a)) || Meaning(rs, a) == None
  }

  /** What the region that holds s keeps behind the range has a safe front. */
  ghost predicate FrontKept(rs: seq<Region>, s: nat, n: nat) {
    forall k: nat {:trigger rs[k]} | k < |rs| && Holds(rs[k], s) && s + n < End(rs[k]) ::
      FrontSafe(rs[k], s + n, End(rs[k]) - (s + n))
  }

  /** What the region that holds s shows of an address behind the range. */
  ghost predicate BehindShows(rs: seq<Region>, rs': seq<Region>, s: nat, n: nat, a: nat) {
    forall k: nat {:trigger rs[k]} | k < |rs| && Holds(rs[k], s) && Holds(rs[k], a) && s + n <= a ::
      Meaning(rs', a) == Some(Shown(Moved(rs[k], s + n, a), IsCow(rs[k])))
  }

  /** What every address shows after a release of n bytes at s: only the region that holds s changes, from s on. */
  ghost predicate After(rs: seq<Region>, rs': seq<Region>, s: nat, n: nat, a: nat) {
    && (!Together(rs, s, a) || a < s ==> Meaning(rs', a) == Meaning(rs, a))
    && (s <= a < s + n && Together(rs, s, a) ==> Meaning(rs', a) == None)
    && BehindShows(rs, rs', s, n, a)
  }

  /** The outcome of a release: what every address shows, which addresses go, and exactly when all others keep their meaning. */
  ghost predicate Outcome(rs: seq<Region>, rs': seq<Region>, s: nat, n: nat) {
    && Laid(rs') && Unmapped(rs, rs', s, n) && (forall a: nat :: After(rs, rs', s, n, a))
    && (Released(rs, rs', s, n) <==> FrontKept(rs, s, n))
    && (SpaceOk(rs) ==> SpaceOk(rs') && Released(rs, rs', s, n))
  }

  /** The range lies strictly inside one region, which has to become two. */
  ghost predicate Divides(rs: seq<Region>, s: nat, n: nat) {
    exists k: nat :: k < |rs| && rs[k].start < s && s + n < End(rs[k])
  }

  /**
   * A release empties its whole range exactly if no region starts inside the range; regions that start
   * after the first address of the range are passed over.
   */
  lemma ReleaseExact(rs: seq<Region>, rs': seq<Region>, s: nat, n: nat)
    requires Laid(rs) && Unmapped(rs, rs', s, n)
    ensures (forall a: nat | s <= a < s + n :: Meaning(rs', a) == None) <==> forall k: nat | k < |rs| :: !(s < rs[k].start < s + n)
  {
    hide Laid, Unmapped, Meaning;
    if k: nat :| k < |rs| && s < rs[k].start < s + n {
      StartsStay(rs, rs', s, n, k);
    } else {
      forall a: nat | s <= a < s + n ensures Meaning(rs', a) == None { NoneStays(rs, rs', s, n, a); }
    }
  }

  lemma StartsStay(rs: seq<Region>, rs': seq<Region>, s: nat, n: nat, k: nat)
    requires Laid(rs) && Unmapped(rs, rs', s, n) && k < |rs| && s < rs[k].start < s + n
    ensures Meaning(rs', rs[k].start) != None
  {
    hide Meaning;
    var a := rs[k].start;
    assert OnPages(rs[k]);
    MeaningAt(rs, k, a);
    OnlyRegion(rs, k, a, s);
    assert !Together(rs, a, s);
    assert Together(rs, s, a) ==> Together(rs, a, s);
  }

  lemma NoneStays(rs: seq<Region>, rs': seq<Region>, s: nat, n: nat, a: nat)
    requires Laid(rs) && Unmapped(rs, rs', s, n) && s <= a < s + n && forall k: nat | k < |rs| :: !(s < rs[k].start < s + n)
    ensures Meaning(rs', a) == None
  {
    hide Meaning, Laid;
    MeaningNone(rs, a);
    if k: nat :| k < |rs| && Holds(rs[k], a) {
      assert Together(rs, s, a);
    }
  }

  /** Two neighbouring regions: releasing the range of both leaves the second mapped. */
  lemma ReleaseSkipsExample()
    ensures var rs := [Phys(0x1000, 0x1000, 0x8000), Phys(0x2000, 0x1000, 0x9000)];
      && SpaceOk(rs)
      && forall rs' | Released(rs, rs', 0x1000, 0x2000) :: Meaning(rs', 0x2000) == Some(Shown(PhysByte(0x9000), false))
  {
    var rs := [Phys(0x1000, 0x1000, 0x8000), Phys(0x2000, 0x1000, 0x9000)];
    forall rs' | Released(rs, rs', 0x1000, 0x2000) ensures Meaning(rs', 0x2000) == Some(Shown(PhysByte(0x9000), false)) {
      MeaningAt(rs, 1, 0x2000);
    }
  }

  // ----- replacing one region by parts of itself

  /** The regions ps lie inside r, in order. */
  ghost predicate PartsOf(r: Region, ps: seq<Region>) {
    Laid(ps) && forall k: nat {:trigger ps[k]} | k < |ps| :: r.start <= ps[k].start && End(ps[k]) <= End(r)
  }

  ghost predicate AllSame(r: Region, ps: seq<Region>) {
    forall k: nat {:trigger ps[k]} | k < |ps| :: SameBytes(r, ps[k])
  }

  ghost predicate AllOk(ps: seq<Region>) {
    forall k: nat {:trigger ps[k]} | k < |ps| :: RegionOk(ps[k])
  }

  /** The parts show what trimming leaves: the part before s is as it was, the part behind the range may have moved. */
  ghost predicate PartShows(r: Region, ps: seq<Region>, s: nat, n: nat, j: nat, a: nat)
    requires j < |ps|
  {
    Holds(ps[j], a) ==> Holds(r, a) && IsCow(ps[j]) == IsCow(r) && Denotes(ps[j], a) == if a < s then Denotes(r, a) else Moved(r, s + n, a)
  }

  ghost predicate AllShow(r: Region, ps: seq<Region>, s: nat, n: nat) {
    forall j: nat, a: nat {:trigger PartShows(r, ps, s, n, j, a)} | j < |ps| :: PartShows(r, ps, s, n, j, a)
  }

  /** Some part holds a. */
  ghost predicate PartAt(ps: seq<Region>, a: nat) {
    exists j: nat :: j < |ps| && Holds(ps[j], a)
  }

  ghost function Replaced(rs: seq<Region>, k: nat, ps: seq<Region>): seq<Region>
    requires k < |rs|
  {
    rs[..k] + ps + rs[k + 1..]
  }

  lemma ReplacedLaid(rs: seq<Region>, k: nat, ps: seq<Region>)
    requires Laid(rs) && k < |rs| && PartsOf(rs[k], ps)
    ensures Laid(Replaced(rs, k, ps))
    ensures SpaceOk(rs) && AllOk(ps) ==> SpaceOk(Replaced(rs, k, ps))
  {
    hide OnPages, RegionOk;
    var rs' := Replaced(rs, k, ps);
    forall i: nat, j: nat | i < j < |rs'| ensures End(rs'[i]) <= rs'[j].start {
      PlaceOf(rs, k, ps, i);
      PlaceOf(rs, k, ps, j);
    }
    forall i: nat | i < |rs'| ensures OnPages(rs'[i]) { PlaceOf(rs, k, ps, i); }
    if SpaceOk(rs) && AllOk(ps) {
      forall i: nat | i < |rs'| ensures RegionOk(rs'[i]) { PlaceOf(rs, k, ps, i); }
    }
  }

  /** Where a region of the new space comes from. */
  lemma PlaceOf(rs: seq<Region>, k: nat, ps: seq<Region>, i: nat)
    requires k < |rs| && i < |Replaced(rs, k, ps)|
    ensures Replaced(rs, k, ps)[i] == if i < k then rs[i] else if i < k + |ps| then ps[i - k] else rs[i - |ps| + 1]
  {
  }

  /** Addresses in a part mean what the part says. */
  lemma PartMeaning(rs: seq<Region>, k: nat, ps: seq<Region>, j: nat, a: nat)
    requires Laid(rs) && k < |rs| && PartsOf(rs[k], ps) && j < |ps| && Holds(ps[j], a)
    ensures Meaning(Replaced(rs, k, ps), a) == ShownBy(ps[j], a)
    ensures Holds(rs[k], a) && Meaning(rs, a) == ShownBy(rs[k], a)
  {
    hide OnPages, Meaning, ShownBy;
    ReplacedLaid(rs, k, ps);
    PlaceOf(rs, k, ps, k + j);
    MeaningAt(Replaced(rs, k, ps), k + j, a);
    MeaningAt(rs, k, a);
  }

  /** Addresses in no part mean what they did, or nothing if region k held them. */
  lemma ElsewhereMeaning(rs: seq<Region>, k: nat, ps: seq<Region>, a: nat)
    requires Laid(rs) && k < |rs| && PartsOf(rs[k], ps) && !PartAt(ps, a)
    ensures Meaning(Replaced(rs, k, ps), a) == if Holds(rs[k], a) then None else Meaning(rs, a)
  {
    hide OnPages;
    var rs' := Replaced(rs, k, ps);
    ReplacedLaid(rs, k, ps);
    MeaningNone(rs', a);
    MeaningNone(rs, a);
    if i: nat :| i < |rs'| && Holds(rs'[i], a) {
      PlaceOf(rs, k, ps, i);
      assert !(k <= i < k + |ps|);
      var m := if i < k then i else i - |ps| + 1;
      MeaningAt(rs', i, a);
      MeaningAt(rs, m, a);
      Others(rs, m, a);
    } else if m: nat :| m < |rs| && m != k && Holds(rs[m], a) {
      PlaceOf(rs, k, ps, if m < k then m else m + |ps| - 1);
      assert false;
    }
  }

  /** Replacing the region that holds s by its parts outside the range is a release. */
  lemma ReplacedOutcome(rs: seq<Region>, k: nat, ps: seq<Region>, s: nat, n: nat)
    requires Laid(rs) && k < |rs| && Holds(rs[k], s) && PartsOf(rs[k], ps)
    requires forall a: nat {:trigger PartAt(ps, a)} :: PartAt(ps, a) <==> Holds(rs[k], a) && !(s <= a < s + n)
    requires AllSame(rs[k], ps) <==> (s + n < End(rs[k]) ==> FrontSafe(rs[k], s + n, End(rs[k]) - (s + n)))
    requires RegionOk(rs[k]) ==> AllOk(ps) && AllSame(rs[k], ps)
    requires AllShow(rs[k], ps, s, n)
    ensures Outcome(rs, Replaced(rs, k, ps), s, n)
  {
    hide OnPages, RegionOk, FrontSafe, After, Moved;
    var rs' := Replaced(rs, k, ps);
    ReplacedLaid(rs, k, ps);
    Others(rs, k, s);
    assert FrontKept(rs, s, n) <==> AllSame(rs[k], ps);
    forall a: nat ensures Meaning(rs', a) == None <==> (s <= a < s + n && Together(rs, s, a)) || Meaning(rs, a) == None {
      ReplacedNone(rs, k, ps, s, n, a);
    }
    forall a: nat ensures After(rs, rs', s, n, a) { ReplacedAfter(rs, k, ps, s, n, a); }
    if AllSame(rs[k], ps) {
      ReplacedSame(rs, k, ps, s, n);
    } else {
      var j: nat :| j < |ps| && !SameBytes(rs[k], ps[j]);
      var a: nat :| Holds(ps[j], a) && !(Holds(rs[k], a) && Denotes(ps[j], a) == Denotes(rs[k], a));
      PartMeaning(rs, k, ps, j, a);
      assert PartAt(ps, a);
    }
  }

  lemma ReplacedAfter(rs: seq<Region>, k: nat, ps: seq<Region>, s: nat, n: nat, a: nat)
    requires Laid(rs) && k < |rs| && Holds(rs[k], s) && PartsOf(rs[k], ps) && AllShow(rs[k], ps, s, n)
    requires PartAt(ps, a) <==> Holds(rs[k], a) && !(s <= a < s + n)
    ensures After(rs, Replaced(rs, k, ps), s, n, a)
  {
    hide OnPages, Moved;
    OnlyRegion(rs, k, s, a);
    Others(rs, k, s);
    if PartAt(ps, a) {
      var j: nat :| j < |ps| && Holds(ps[j], a);
      PartMeaning(rs, k, ps, j, a);
      assert PartShows(rs[k], ps, s, n, j, a);
    } else {
      ElsewhereMeaning(rs, k, ps, a);
    }
  }

  lemma ReplacedNone(rs: seq<Region>, k: nat, ps: seq<Region>, s: nat, n: nat, a: nat)
    requires Laid(rs) && k < |rs| && Holds(rs[k], s) && PartsOf(rs[k], ps)
    requires PartAt(ps, a) <==> Holds(rs[k], a) && !(s <= a < s + n)
    ensures Meaning(Replaced(rs, k, ps), a) == None <==> (s <= a < s + n && Together(rs, s, a)) || Meaning(rs, a) == None
  {
    hide OnPages;
    OnlyRegion(rs, k, s, a);
    if PartAt(ps, a) {
      var j: nat :| j < |ps| && Holds(ps[j], a);
      PartMeaning(rs, k, ps, j, a);
    } else {
      ElsewhereMeaning(rs, k, ps, a);
    }
  }

  lemma ReplacedSame(rs: seq<Region>, k: nat, ps: seq<Region>, s: nat, n: nat)
    requires Laid(rs) && k < |rs| && Holds(rs[k], s) && PartsOf(rs[k], ps) && AllSame(rs[k], ps) && AllShow(rs[k], ps, s, n)
    requires forall a: nat {:trigger PartAt(ps, a)} :: PartAt(ps, a) <==> Holds(rs[k], a) && !(s <= a < s + n)
    ensures Released(rs, Replaced(rs, k, ps), s, n)
  {
    hide OnPages;
    var rs' := Replaced(rs, k, ps);
    forall a: nat ensures Meaning(rs', a) == if s <= a < s + n && Together(rs, s, a) then None else Meaning(rs, a) {
      OnlyRegion(rs, k, s, a);
      if PartAt(ps, a) {
        var j: nat :| j < |ps| && Holds(ps[j], a);
        PartMeaning(rs, k, ps, j, a);
        assert SameBytes(rs[k], ps[j]) && PartShows(rs[k], ps, s, n, j, a);
      } else {
        ElsewhereMeaning(rs, k, ps, a);
      }
    }
  }

  class Space {
    /** The regions in the order of the tree. */
    var regions: seq<Region>

    constructor ()
      ensures regions == []
    {
      regions := [];
    }

    /** The last region that starts at or before s, or |regions|. */
    method GetSmallerOrEqual(s: nat) returns (k: nat)
      requires Laid(regions)
      ensures k <= |regions| && (k < |regions| ==> regions[k].start <= s)
      ensures forall j: nat | j < |regions| && (k == |regions| || k < j) :: s < regions[j].start
    {
      k := |regions|;
      var j := 0;
      while j < |regions| && regions[j].start <= s
        invariant j <= |regions|
        invariant if j == 0 then k == |regions| else k == j - 1 && regions[k].start <= s
      {
        k := j;
        j := j + 1;
      }
      forall i: nat | j <= i < |regions| ensures s < regions[i].start {
        assert j < i ==> End(regions[j]) <= regions[i].start;
      }
    }

    /** Unmap n bytes at s; the only failure is lack of memory for splitting a region. */
    method ReleaseInRange(s: nat, n: nat, memory: bool) returns (ok: bool)
      requires WideOk(regions) && s % PAGE == 0 && n % PAGE == 0
      modifies this
      ensures ok ==> Outcome(old(regions), regions, s, n)
      ensures ok <==> memory || !Divides(old(regions), s, n)
      ensures !ok ==> regions == old(regions)
    {
      hide OnPages, Ordered, Outcome;
      var k := GetSmallerOrEqual(s);
      if k < |regions| && regions[k].start < s && End(regions[k]) > s + n {
        if !memory {
          return false;
        }
        PunchHole(k, s, n);
      } else {
        ReleaseFrom(if k == |regions| then 0 else k, s, n);
      }
      ok := true;
    }

    /** Split region k around the range. */
    method PunchHole(k: nat, s: nat, n: nat)
      requires WideOk(regions) && k < |regions| && s % PAGE == 0 && n % PAGE == 0
      requires regions[k].start < s && s + n < End(regions[k])
      modifies this
      ensures Outcome(old(regions), regions, s, n)
    {
      hide OnPages, Ordered, Outcome;
      var r := regions[k];
      var after := AfterHole(r, s, n);
      var before := BeforeHole(r, s);
      ghost var rs, ps := regions, [before, after];
      regions := regions[..k] + [before] + [after] + regions[k + 1..];
      assert regions == Replaced(rs, k, ps);
      PunchParts(r, s, n);
      ReplacedOutcome(rs, k, ps, s, n);
    }

    /** The loop over the regions from index i on; all but the one that holds s are passed over. */
    method ReleaseFrom(from: nat, s: nat, n: nat)
      requires WideOk(regions) && s % PAGE == 0 && n % PAGE == 0
      requires forall j: nat | j < from && j < |regions| :: !Holds(regions[j], s)
      requires forall j: nat | j < |regions| && Holds(regions[j], s) :: !(regions[j].start < s && s + n < End(regions[j]))
      modifies this
      ensures Outcome(old(regions), regions, s, n)
    {
      hide OnPages, Ordered, Outcome;
      ghost var rs := regions;
      var i: nat := from;
      ghost var seen := false;
      while i < |regions| && regions[i].start < s + n
        invariant !seen ==> regions == rs && forall j: nat | j < i && j < |regions| :: !Holds(regions[j], s)
        invariant seen ==> Outcome(rs, regions, s, n) && forall j: nat | i <= j < |regions| :: !Holds(regions[j], s)
        decreases |regions| - i
      {
        var r := regions[i];
        if !Holds(r, s) {
          i := i + 1;
        } else {
          seen := true;
          TrimPlaces(regions, i, s, n);
          if r.start < s {
            TrimTo(i, r.start, s - r.start, s, n);
            i := i + 1;
          } else if End(r) > s + n {
            TrimTo(i, s + n, End(r) - (s + n), s, n);
            i := i + 1;
          } else {
            Erase(i, s, n);
          }
        }
      }
      if !seen {
        AfterRange(rs, i, s, n);
        NothingThere(rs, s, n);
      }
    }

    /** Cut region i, which holds s, down to what lies outside the range. */
    method TrimTo(i: nat, newStart: nat, newSize: nat, s: nat, n: nat)
      requires WideOk(regions) && i < |regions| && Holds(regions[i], s) && TrimOk(regions[i], newStart, newSize)
      requires forall a: nat :: Holds(regions[i], a) && !(s <= a < s + n) <==> newStart <= a < newStart + newSize
      requires newStart == if s + n < End(regions[i]) then s + n else regions[i].start
      requires s + n < End(regions[i]) ==> newSize == End(regions[i]) - (s + n)
      modifies this
      ensures Outcome(old(regions), regions, s, n) && |regions| == |old(regions)|
      ensures forall j: nat | i < j < |regions| :: !Holds(regions[j], s)
    {
      hide OnPages, Ordered, Outcome, TrimmedWindow;
      ghost var rs := regions;
      var w := Trimmed(regions[i], newStart, newSize);
      regions := regions[i := w];
      assert regions == Replaced(rs, i, [w]);
      TrimParted(rs[i], newStart, newSize, s, n);
      ReplacedOutcome(rs, i, [w], s, n);
      Others(rs, i, s);
    }

    /** Remove region i, which lies inside the range and holds s. */
    method Erase(i: nat, s: nat, n: nat)
      requires Laid(regions) && i < |regions| && Holds(regions[i], s) && regions[i].start == s && End(regions[i]) <= s + n
      modifies this
      ensures Outcome(old(regions), regions, s, n) && |regions| == |old(regions)| - 1
      ensures forall j: nat | i <= j < |regions| :: !Holds(regions[j], s)
    {
      hide OnPages, Outcome, RegionOk;
      ghost var rs := regions;
      regions := regions[..i] + regions[i + 1..];
      assert regions == Replaced(rs, i, []);
      ReplacedOutcome(rs, i, [], s, n);
      Others(rs, i, s);
    }
  }

  /** The one part that a trim leaves. */
  lemma TrimParted(r: Region, newStart: nat, newSize: nat, s: nat, n: nat)
    requires OnPages(r) && Ordered(r) && TrimOk(r, newStart, newSize) && r.start <= s
    requires forall a: nat :: Holds(r, a) && !(s <= a < s + n) <==> newStart <= a < newStart + newSize
    requires newStart == if s + n < End(r) then s + n else r.start
    requires s + n < End(r) ==> newSize == End(r) - (s + n)
    ensures var ps := [Trimmed(r, newStart, newSize)];
      && PartsOf(r, ps) && ps[0].start == newStart && ps[0].size == newSize
      && (forall a: nat {:trigger PartAt(ps, a)} :: PartAt(ps, a) <==> Holds(r, a) && !(s <= a < s + n))
      && (AllSame(r, ps) <==> (s + n < End(r) ==> FrontSafe(r, s + n, End(r) - (s + n))))
      && (RegionOk(r) ==> AllOk(ps) && AllSame(r, ps)) && AllShow(r, ps, s, n)
  {
    var w := Trimmed(r, newStart, newSize);
    var last := newStart + newSize - 1;
    assert Holds(r, last) && !(s <= last < s + n);
    TrimShows(r, newStart, newSize, s, n);
    if r.Window? { TrimExact(r, newStart, newSize); }
    if RegionOk(r) { TrimKeeps(r, newStart, newSize); }
    assert OnPages(w);
    hide OnPages, Ordered, SameBytes, TrimmedWindow;
    forall a: nat ensures PartAt([w], a) <==> Holds(r, a) && !(s <= a < s + n) { OneOf(w, a); }
    assert [w][0] == w;
  }

  /** What a trim leaves shows what it should. */
  lemma TrimShows(r: Region, newStart: nat, newSize: nat, s: nat, n: nat)
    requires OnPages(r) && Ordered(r) && TrimOk(r, newStart, newSize)
    requires if newStart == r.start then r.start + newSize <= s || (newStart == s + n && n == 0) else newStart == s + n
    ensures AllShow(r, [Trimmed(r, newStart, newSize)], s, n)
  {
    hide OnPages, Ordered, Trimmed, PartShows;
    var w := Trimmed(r, newStart, newSize);
    forall a: nat ensures PartShows(r, [w], s, n, 0, a) { TrimShowsAt(r, newStart, newSize, s, n, a); }
  }

  lemma TrimShowsAt(r: Region, newStart: nat, newSize: nat, s: nat, n: nat, a: nat)
    requires OnPages(r) && Ordered(r) && TrimOk(r, newStart, newSize)
    requires if newStart == r.start then r.start + newSize <= s || (newStart == s + n && n == 0) else newStart == s + n
    ensures PartShows(r, [Trimmed(r, newStart, newSize)], s, n, 0, a)
  {
    hide OnPages, Ordered, Trimmed, TrimmedWindow, Moved, Denotes, IsCow;
    TrimSpan(r, newStart, newSize);
    if Holds(Trimmed(r, newStart, newSize), a) {
      TrimDenotes(r, newStart, newSize, a);
      UnmovedAtStart(r, a);
    }
  }

  lemma UnmovedAtStart(r: Region, a: nat)
    requires Ordered(r) && Holds(r, a)
    ensures Moved(r, r.start, a) == Denotes(r, a)
  {
  }

  lemma OneOf(w: Region, a: nat)
    ensures PartAt([w], a) <==> Holds(w, a)
  {
    assert [w][0] == w;
  }

  /** Only region k can hold s, so what shares a region with s is in k. */
  lemma OnlyRegion(rs: seq<Region>, k: nat, s: nat, a: nat)
    requires Laid(rs) && k < |rs| && Holds(rs[k], s)
    ensures Together(rs, s, a) <==> Holds(rs[k], a)
  {
    hide OnPages;
    if Together(rs, s, a) {
      var j: nat :| j < |rs| && Holds(rs[j], s) && Holds(rs[j], a);
      assert j < k || j == k || k < j;
    }
  }

  lemma Others(rs: seq<Region>, i: nat, s: nat)
    requires Laid(rs) && i < |rs| && Holds(rs[i], s)
    ensures forall j: nat | j < |rs| && j != i :: !Holds(rs[j], s)
  {
    hide OnPages;
  }

  /** Regions from i on start after the range. */
  lemma AfterRange(rs: seq<Region>, i: nat, s: nat, n: nat)
    requires Laid(rs) && (i < |rs| ==> rs[i].start >= s + n)
    ensures n > 0 ==> forall j: nat | i <= j < |rs| :: !Holds(rs[j], s)
  {
    hide OnPages;
    forall j: nat | i <= j < |rs| && n > 0 ensures !Holds(rs[j], s) {
      assert i < j ==> End(rs[i]) <= rs[j].start;
    }
  }

  /** The parts of a region before and after a range of pages can be trimmed to. */
  lemma TrimPlaces(rs: seq<Region>, i: nat, s: nat, n: nat)
    requires Laid(rs) && i < |rs| && s % PAGE == 0 && n % PAGE == 0
    ensures rs[i].start < s <= End(rs[i]) ==> TrimOk(rs[i], rs[i].start, s - rs[i].start)
    ensures rs[i].start <= s && s + n < End(rs[i]) ==> TrimOk(rs[i], s + n, End(rs[i]) - (s + n))
  {
    assert OnPages(rs[i]);
    AddPages(s, n);
    AddPages(rs[i].start, rs[i].size);
    if rs[i].start < s { PageApart(rs[i].start, s); }
    if s + n < End(rs[i]) { PageApart(s + n, End(rs[i])); }
  }

  /** A range whose first address is unmapped, or an empty range at the start of a region. */
  lemma NothingThere(rs: seq<Region>, s: nat, n: nat)
    requires WideOk(rs)
    requires if n > 0 then forall j: nat | j < |rs| :: !Holds(rs[j], s) else forall j: nat | j < |rs| && Holds(rs[j], s) :: rs[j].start == s
    ensures Outcome(rs, rs, s, n)
  {
    hide OnPages, RegionOk;
    forall a: nat ensures After(rs, rs, s, n, a) {
      forall k: nat | k < |rs| && Holds(rs[k], s) && Holds(rs[k], a) && s + n <= a
        ensures Meaning(rs, a) == Some(Shown(Moved(rs[k], s + n, a), IsCow(rs[k])))
      {
        MeaningAt(rs, k, a);
        UnmovedAtStart(rs[k], a);
      }
    }
  }

  lemma PunchFacts(r: Region, s: nat, n: nat)
    requires OnPages(r) && Ordered(r) && HoleOk(r, s, n)
    ensures var before, after := BeforeHole(r, s), AfterHole(r, s, n);
      && before.start == r.start && before.size == s - r.start && after.start == s + n && after.size == End(r) - (s + n)
      && OnPages(before) && OnPages(after) && SameBytes(r, before)
      && (SameBytes(r, after) <==> FrontSafe(r, s + n, End(r) - (s + n)))
      && (RegionOk(r) ==> RegionOk(before) && RegionOk(after) && SameBytes(r, after))
      && AllShow(r, [before], s, n) && AllShow(r, [after], s, n)
  {
    hide Ordered, SameBytes, TrimmedWindow, RegionOk, FrontSafe, BeforeHole, AfterHole;
    PunchTrims(r, s, n);
    TrimSpan(r, r.start, s - r.start);
    TrimSpan(r, s + n, End(r) - (s + n));
    TrimShows(r, r.start, s - r.start, s, n);
    TrimShows(r, s + n, End(r) - (s + n), s, n);
    PunchExact(r, s, n);
    if RegionOk(r) { PunchKeeps(r, s, n); }
  }

  lemma TrimSpan(r: Region, newStart: nat, newSize: nat)
    requires r.start <= newStart
    ensures Trimmed(r, newStart, newSize).start == newStart && Trimmed(r, newStart, newSize).size == newSize
  {
    hide Wrap, Low;
  }

  /** The two parts around a hole. */
  lemma PunchParts(r: Region, s: nat, n: nat)
    requires OnPages(r) && Ordered(r) && HoleOk(r, s, n)
    ensures var ps := [BeforeHole(r, s), AfterHole(r, s, n)];
      && PartsOf(r, ps)
      && (forall a: nat {:trigger PartAt(ps, a)} :: PartAt(ps, a) <==> Holds(r, a) && !(s <= a < s + n))
      && (AllSame(r, ps) <==> FrontSafe(r, s + n, End(r) - (s + n)))
      && (RegionOk(r) ==> AllOk(ps) && AllSame(r, ps)) && AllShow(r, ps, s, n)
  {
    PunchFacts(r, s, n);
    hide OnPages, Ordered, SameBytes, RegionOk, FrontSafe, BeforeHole, AfterHole;
    var before, after := BeforeHole(r, s), AfterHole(r, s, n);
    var ps := [before, after];
    assert ps[0] == before && ps[1] == after;
    forall a: nat ensures PartAt(ps, a) <==> Holds(r, a) && !(s <= a < s + n) {
      assert Holds(ps[0], a) ==> PartAt(ps, a);
      assert Holds(ps[1], a) ==> PartAt(ps, a);
    }
    forall j: nat, a: nat | j < |ps| ensures PartShows(r, ps, s, n, j, a) {
      assert PartShows(r, [before], s, n, 0, a) && PartShows(r, [after], s, n, 0, a);
    }
  }
}
