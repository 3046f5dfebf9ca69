/** Handing RAM to the page allocator: runs of RAM are cut at the zones of the allocator, and each piece is set up. */
module InitPmm {
  import opened Words
  import opened FirmwareMap
  import opened MapSteps
  import opened MapReserve
  import PageArray
  import MM = MemoryMap

  predicate IsRam(k: Kind) {
    k == Usable || k == UsableReservedOnBoot || k == ACPIReclaimable
  }

  /** The end of the allocator zone that holds an address, as a 64-bit word: 0 for the last zone. */
  function ZoneEnd(x: nat): (e: nat)
    ensures (e == 0 || x < e) && e % PAGE == 0
  {
    if x < 0x100000 then 0x100000 else if x < 0x1_0000_0000 then 0x1_0000_0000 else 0
  }

  /** A stretch of RAM that becomes one page array. */
  datatype Piece = Piece(lo: nat, hi: nat)

  ghost predicate PieceOk(p: Piece) {
    && p.lo < p.hi && p.lo % PAGE == 0 && p.hi % PAGE == 0
    && (forall x: nat | p.lo <= x < p.hi :: ZoneEnd(x) == ZoneEnd(p.lo))
  }

  /** The pieces follow one another from lo to hi, and are cut only at zones or at end. */
  ghost predicate Chain(ps: seq<Piece>, lo: nat, hi: nat, end: nat) {
    if ps == [] then lo == hi
    else
      var p := ps[|ps| - 1];
      Chain(ps[..|ps| - 1], lo, p.lo, end) && PieceOk(p) && p.hi == hi && (hi == end || hi == ZoneEnd(p.lo))
  }

  ghost predicate In(p: Piece, x: nat) {
    p.lo <= x < p.hi
  }

  ghost predicate Covered(ps: seq<Piece>, x: nat) {
    exists k: nat :: k < |ps| && In(ps[k], x)
  }

  /** A chain covers exactly its stretch, in order. */
  lemma {:induction false} ChainCovers(ps: seq<Piece>, lo: nat, hi: nat, end: nat)
    requires Chain(ps, lo, hi, end)
    ensures lo <= hi && (forall x: nat :: Covered(ps, x) <==> lo <= x < hi)
    ensures InOrder(ps) && forall k: nat | k < |ps| :: PieceOk(ps[k]) && lo <= ps[k].lo && ps[k].hi <= hi && CutOk(ps[k], end)
    decreases |ps|
  {
    if ps != [] {
      var qs, p := ps[..|ps| - 1], ps[|ps| - 1];
      ChainCovers(qs, lo, p.lo, end);
      forall x: nat ensures Covered(ps, x) <==> Covered(qs, x) || In(p, x) {
        if k: nat :| k < |ps| && In(ps[k], x) { assert k < |qs| ==> In(qs[k], x); }
        if k: nat :| k < |qs| && In(qs[k], x) { assert In(ps[k], x); }
        assert In(p, x) ==> In(ps[|ps| - 1], x);
      }
      forall k: nat | k < |ps| ensures PieceOk(ps[k]) && lo <= ps[k].lo && ps[k].hi <= hi && CutOk(ps[k], end) {
        assert k < |qs| ==> ps[k] == qs[k];
      }
      forall j: nat, k: nat | j < k < |ps| ensures ps[j].hi <= ps[k].lo {
        assert ps[j] == qs[j];
        assert k < |qs| ==> ps[k] == qs[k];
      }
    }
  }

  ghost predicate InOrder(ps: seq<Piece>) {
    forall j: nat, k: nat {:trigger ps[j], ps[k]} | j < k < |ps| :: ps[j].hi <= ps[k].lo
  }

  ghost predicate CutOk(p: Piece, end: nat) {
    p.hi == end || p.hi == ZoneEnd(p.lo)
  }

  /** Regions first to last follow one another without a gap; only reservations may be empty. */
  ghost predicate Contiguous(v: seq<Region>, first: nat, last: nat) {
    && first <= last < |v|
    && (forall k: nat {:trigger v[k]} | first <= k <= last :: Clean(v[k]) && (v[k].size > 0 || v[k].kind == UsableReservedOnBoot))
    && (forall k: nat {:trigger Touching(v, k)} | first <= k < last :: Touching(v, k))
  }

  ghost predicate Touching(v: seq<Region>, k: nat)
    requires k + 1 < |v|
  {
    End(v[k]) == v[k + 1].start
  }

  lemma {:induction false} RunOrder(v: seq<Region>, first: nat, last: nat, j: nat, k: nat)
    requires Contiguous(v, first, last) && first <= j <= k <= last
    ensures v[j].start <= v[k].start && End(v[j]) <= End(v[k]) && (j < k ==> End(v[j]) <= v[k].start)
    decreases k - j
  {
    if j < k {
      assert Touching(v, j);
      RunOrder(v, first, last, j + 1, k);
    }
  }

  // ----- which pages the allocator gets

  /** A usable region other than the temporary pool covers a, among regions first to last. */
  ghost predicate UsableIn(v: seq<Region>, temp: int, first: nat, last: nat, a: nat) {
    exists k: nat :: first <= k <= last && k < |v| && UsableAt(v, temp, k, a)
  }

  ghost predicate UsableAt(v: seq<Region>, temp: int, k: nat, a: nat)
    requires k < |v|
  {
    k != temp && v[k].kind == Usable && Covers(v[k], a)
  }

  /** A usable region other than the temporary pool covers a. */
  ghost predicate UsableAny(v: seq<Region>, temp: int, a: nat) {
    exists k: nat :: k < |v| && UsableAt(v, temp, k, a)
  }

  ghost predicate InRooms(rooms: seq<Piece>, a: nat) {
    exists j: nat :: j < |rooms| && In(rooms[j], a)
  }

  /** The page at a is for the allocator: usable, outside the temporary pool and outside every page array. */
  ghost predicate ForAllocator(v: seq<Region>, temp: int, rooms: seq<Piece>, a: nat) {
    a % PAGE == 0 && UsableAny(v, temp, a) && !InRooms(rooms, a)
  }

  /** The part of region r that lies in piece p. */
  function Part(r: Region, p: Piece): (c: Piece) {
    Piece(if r.start < p.lo then p.lo else r.start, if End(r) < p.hi then End(r) else p.hi)
  }

  /** The part of region k that lies in piece p has need bytes of usable memory outside the temporary pool. */
  ghost predicate HasRoom(v: seq<Region>, temp: int, p: Piece, need: nat, k: nat) {
    && k < |v| && k != temp && v[k].kind == Usable
    && var c := Part(v[k], p); c.lo < c.hi && c.lo + need <= c.hi
  }

  ghost predicate FirstRoom(v: seq<Region>, temp: int, p: Piece, need: nat, k: nat) {
    HasRoom(v, temp, p, need, k) && forall j: nat | j < k :: !HasRoom(v, temp, p, need, j)
  }

  /** A room of need bytes: the start of the first region of the piece that has them, else none. */
  ghost predicate RoomIs(v: seq<Region>, temp: int, p: Piece, need: nat, room: Piece) {
    || ((forall k: nat :: !HasRoom(v, temp, p, need, k)) && room == Piece(p.lo, p.lo))
    || (exists k: nat :: FirstRoom(v, temp, p, need, k) && room == Piece(Part(v[k], p).lo, Part(v[k], p).lo + need))
  }

  /** The bytes of x in whole pages. */
  ghost predicate WholePages(x: nat, need: nat) {
    x <= need < x + PAGE && need % PAGE == 0
  }

  /** The room of a page array: usable pages of its own piece for a structure per page and two more, if one region has them. */
  ghost predicate RoomOk(v: seq<Region>, temp: int, structSize: nat, p: Piece, room: Piece) {
    && p.lo <= room.lo <= room.hi <= p.hi
    && (forall a: nat | In(room, a) :: UsableAny(v, temp, a))
    && (exists need: nat :: WholePages(((p.hi - p.lo) / PAGE + 2) * structSize, need) && RoomIs(v, temp, p, need, room))
  }

  /** Below hi, every page for the allocator was given to it once, and no other page was. */
  ghost predicate Accounted(v: seq<Region>, temp: int, rooms: seq<Piece>, freed: multiset<nat>, hi: nat) {
    && (forall a: nat {:trigger freed[a]} :: freed[a] == if a < hi && ForAllocator(v, temp, rooms, a) then 1 else 0)
    && (forall j: nat | j < |rooms| :: rooms[j].hi <= hi)
  }

  lemma NothingAccounted(v: seq<Region>, temp: int)
    ensures Accounted(v, temp, [], multiset{}, 0)
  {
  }

  /** Addresses without usable memory need no account. */
  lemma AccountSkip(v: seq<Region>, temp: int, rooms: seq<Piece>, freed: multiset<nat>, lo: nat, hi: nat)
    requires Accounted(v, temp, rooms, freed, lo) && lo <= hi && forall a: nat | lo <= a < hi :: !UsableAny(v, temp, a)
    ensures Accounted(v, temp, rooms, freed, hi)
  {
  }

  /** One more piece. */
  lemma AccountPiece(v: seq<Region>, temp: int, rooms: seq<Piece>, freed: multiset<nat>, p: Piece, room: Piece, added: set<nat>)
    requires Accounted(v, temp, rooms, freed, p.lo) && p.lo <= room.lo <= room.hi <= p.hi
    requires forall a: nat :: a in added <==> a % PAGE == 0 && In(p, a) && UsableAny(v, temp, a) && !In(room, a)
    ensures Accounted(v, temp, rooms + [room], freed + multiset(added), p.hi)
  {
    hide UsableAny;
    var rooms', freed' := rooms + [room], freed + multiset(added);
    forall a: nat ensures freed'[a] == if a < p.hi && ForAllocator(v, temp, rooms', a) then 1 else 0 {
      OneMoreRoom(rooms, room, a);
      if a >= p.lo { NotInRooms(rooms, p.lo, a); }
      assert a in added ==> a >= p.lo;
    }
  }

  lemma OneMoreRoom(rooms: seq<Piece>, room: Piece, a: nat)
    ensures InRooms(rooms + [room], a) <==> InRooms(rooms, a) || In(room, a)
  {
    var rs := rooms + [room];
    if j: nat :| j < |rs| && In(rs[j], a) { assert j < |rooms| ==> In(rooms[j], a); }
    if j: nat :| j < |rooms| && In(rooms[j], a) { assert In(rs[j], a); }
    assert In(room, a) ==> In(rs[|rooms|], a);
  }

  lemma NotInRooms(rooms: seq<Piece>, lo: nat, a: nat)
    requires (forall j: nat | j < |rooms| :: rooms[j].hi <= lo) && lo <= a
    ensures !InRooms(rooms, a)
  {
  }

  // ----- cutting a run at the zones

  class Setup {
    /** The boot memory map, which is changed for a while and restored. */
    const regions: array<Region>
    /** The pieces that were set up, in order. */
    var pieces: seq<Piece>
    /** The entry of the temporary pool, or a negative number. */
    const temp: int
    /** The size of a page structure. */
    const structSize: nat
    /** Where the page arrays of the pieces lie; an empty room for an array in the temporary pool. */
    ghost var rooms: seq<Piece>
    /** The pages given to the allocator, by address, as often as they were given. */
    ghost var freed: multiset<nat>

    ghost predicate Placed(v: seq<Region>)
      reads this
    {
      |rooms| == |pieces| && forall j: nat {:trigger rooms[j]} | j < |rooms| :: RoomOk(v, temp, structSize, pieces[j], rooms[j])
    }

    constructor (v: seq<Region>, temp: int, structSize: nat)
      ensures regions[..] == v && pieces == [] && fresh(regions) && rooms == [] && freed == multiset{}
      ensures this.temp == temp && this.structSize == structSize
    {
      rooms, freed := [], multiset{};
      this.temp, this.structSize := temp, structSize;
      regions := new Region[|v|](k requires 0 <= k < |v| => v[k]);
      pieces := [];
    }

    /** Set up the page array for regions first to last, which lie in one zone, and free its pages. */
    method NewRegion(first: nat, last: nat) returns (ghost room: Piece, ghost added: set<nat>)
      requires Contiguous(regions[..], first, last) && PieceOk(Piece(regions[first].start, End(regions[last])))
      modifies this`pieces, this`rooms, this`freed
      ensures pieces == old(pieces) + [Piece(regions[first].start, End(regions[last]))]
      ensures rooms == old(rooms) + [room] && freed == old(freed) + multiset(added)
      ensures SetUpOk(regions[..], temp, structSize, first, last, room, added)
    {
      ghost var v := regions[..];
      var rs := regions[first..last + 1];
      hide Contiguous, PieceOk;
      assert rs == v[first..last + 1];
      SliceRun(v, first, last);
      var pages, plan;
      ghost var done;
      pages, plan, done := PageArray.SetUp(rs, temp - first, structSize);
      room := RoomOf(rs, plan);
      added := PageArray.Addresses(done, rs[0].start);
      PieceFreed(v, temp, structSize, first, last, pages[..], done, plan);
      pieces := pieces + [Piece(regions[first].start, End(regions[last]))];
      rooms, freed := rooms + [room], freed + multiset(added);
    }

    /** Cut the run of regions first to last where zones of the allocator end. */
    method SplitIntoRegions(first: nat, last: nat)
      requires Tidy(regions[..]) && Contiguous(regions[..], first, last)
      requires Placed(regions[..]) && Accounted(regions[..], temp, rooms, freed, regions[first].start)
      modifies regions, this`pieces, this`rooms, this`freed
      ensures Placed(regions[..]) && Accounted(regions[..], temp, rooms, freed, End(regions[last]))
      ensures regions[..] == old(regions[..]) && |pieces| >= |old(pieces)| && pieces[..|old(pieces)|] == old(pieces)
      ensures Chain(pieces[|old(pieces)|..], regions[first].start, End(regions[last]), End(regions[last]))
    {
      hide Tidy, Accounted, RoomOk;
      ghost var v, n := regions[..], |pieces|;
      var current, end, index := regions[first].start, End(regions[last]), first;
      RunOrder(v, first, last, first, last);
      assert pieces[n..] == [];
      while current < end
        invariant regions[..] == v && n <= |pieces| && pieces[..n] == old(pieces)
        invariant first <= index <= last && v[index].start <= current <= end && current % PAGE == 0
        invariant Chain(pieces[n..], v[first].start, current, end)
        invariant Placed(v) && Accounted(v, temp, rooms, freed, current)
        decreases end - current
      {
        index := FindRegion(index, last, current, first);
        var i := FindLast(index, last, ZoneEnd(current), first);
        ghost var ps := pieces[n..];
        current := CutPiece(index, i, current, first, last);
        assert pieces[n..] == ps + [pieces[|pieces| - 1]];
        assert pieces[n..][..|ps|] == ps;
        index := i;
      }
    }

    /** Advance to the region that holds current. */
    method FindRegion(from: nat, last: nat, current: nat, ghost first: nat) returns (index: nat)
      requires Contiguous(regions[..], first, last) && first <= from <= last && regions[from].start <= current < End(regions[last])
      ensures from <= index <= last && regions[index].start <= current < End(regions[index])
    {
      index := from;
      while index != last && regions[index + 1].start <= current
        invariant from <= index <= last && regions[index].start <= current
        decreases last - index
      {
        index := index + 1;
      }
      if index != last { assert Touching(regions[..], index); }
    }

    /** The last region of the run that starts before the end of the zone. */
    method FindLast(index: nat, last: nat, final: nat, ghost first: nat) returns (i: nat)
      requires Contiguous(regions[..], first, last) && first <= index <= last && (final == 0 || regions[index].start < final)
      ensures index <= i <= last && (final == 0 || regions[i].start < final)
      ensures i == last || (final != 0 && End(regions[i]) >= final)
    {
      i := index + 1;
      while i <= last && (final == 0 || regions[i].start < final)
        invariant index < i <= last + 1 && (final == 0 || regions[i - 1].start < final)
      {
        i := i + 1;
      }
      i := i - 1;
      if i != last { assert Touching(regions[..], i); }
    }

    /** Set up the piece from current to the end of the zone or of region last; the map is trimmed meanwhile. */
    method CutPiece(index: nat, i: nat, current: nat, ghost first: nat, ghost last: nat) returns (next: nat)
      requires Tidy(regions[..]) && Placed(regions[..]) && Accounted(regions[..], temp, rooms, freed, current)
      requires Contiguous(regions[..], first, last) && first <= index <= i <= last && current % PAGE == 0
      requires regions[index].start <= current < End(regions[index])
      requires ZoneEnd(current) == 0 || regions[i].start < ZoneEnd(current)
      requires i == last || (ZoneEnd(current) != 0 && End(regions[i]) >= ZoneEnd(current))
      modifies regions, this`pieces, this`rooms, this`freed
      ensures regions[..] == old(regions[..])
      ensures Placed(regions[..]) && Accounted(regions[..], temp, rooms, freed, next)
      ensures current < next <= End(regions[last]) && next % PAGE == 0 && regions[i].start <= next
      ensures pieces == old(pieces) + [Piece(current, next)] && PieceOk(Piece(current, next)) && CutOk(Piece(current, next), End(regions[last]))
    {
      hide Tidy, Accounted, RoomOk, SetUpOk, PieceOk;
      ghost var v := regions[..];
      RunOrder(v, first, last, index, i);
      RunOrder(v, first, last, i, last);
      var final := ZoneEnd(current);
      var savedFirst, savedLast := regions[index], regions[i];
      TrimEnds(index, i, current, final, first, last);
      ghost var w := regions[..];
      TrimmedEnds(v, w, first, last, index, i, current, final);
      hide TrimmedOf, Contiguous;
      TrimmedRun(v, w, first, last, index, i, current, final);
      next := End(regions[i]);
      ghost var rooms0, freed0 := rooms, freed;
      ghost var room, added := NewRegion(index, i);
      regions[index] := savedFirst;
      regions[i] := savedLast;
      assert regions[..] == v;
      PieceAccounted(v, w, temp, structSize, first, last, index, i, current, final, rooms0, freed0, room, added);
    }

    /** Cut off what lies before current in the first region and beyond the zone in the last one. */
    method TrimEnds(index: nat, i: nat, current: nat, final: nat, ghost first: nat, ghost last: nat)
      requires first <= index <= i <= last < regions.Length && regions[index].start <= current < End(regions[index])
      requires final == 0 || (regions[i].start < final && current < final)
      requires regions[index].start <= regions[i].start && (index < i ==> End(regions[index]) <= regions[i].start)
      modifies regions
      ensures TrimmedOf(old(regions[..]), regions[..], first, last, index, i, current, final)
    {
      if current > regions[index].start {
        var diff := current - regions[index].start;
        regions[index] := Region(current, regions[index].size - diff, regions[index].kind);
      }
      if final != 0 && End(regions[i]) > final {
        var diff := End(regions[i]) - final;
        regions[i] := regions[i].(size := regions[i].size - diff);
      }
    }

    /**
     * Set up every maximal run of RAM of the memory map.  Over the whole map, each usable page outside the
     * page arrays and the temporary pool is given to the allocator exactly once, and no other page is.
     */
    method CreateRegions()
      requires Tidy(regions[..]) && EmptyReserved(regions[..]) && pieces == [] && rooms == [] && freed == multiset{}
      modifies regions, this`pieces, this`rooms, this`freed
      ensures regions[..] == old(regions[..]) && Handled(regions[..], pieces, |regions[..]|) && Placed(regions[..])
      ensures forall a: nat :: freed[a] == if ForAllocator(regions[..], temp, rooms, a) then 1 else 0
    {
      hide Tidy, Chain, Handled, Contiguous, EmptyReserved, Accounted, ForAllocator, RoomOk, RamRun;
      ghost var v := regions[..];
      var n := regions.Length;
      var first := -1;
      NothingHandled(v);
      NothingAccounted(v, temp);
      var i := 0;
      while i < n
        invariant i <= n && -1 <= first < n && regions[..] == v
        invariant Handled(v, pieces, if first == -1 || i == n then i else first)
        invariant Placed(v) && Accounted(v, temp, rooms, freed, Frontier(v, if first == -1 || i == n then i else first))
        invariant first != -1 && i < n ==> first < i && RamRun(v, first, i - 1)
      {
        ghost var old0 := pieces;
        assert v[i] == regions[i];
        if IsRam(regions[i].kind) {
          if first == -1 {
            first := i;
            RunStarts(v, i);
          } else {
            assert v[i - 1] == regions[i - 1];
            if End(regions[i - 1]) < regions[i].start {
              SplitRun(first, i - 1);
              first := i;
              RunStarts(v, i);
            } else {
              RunGrows(v, first, i);
            }
          }
          if i == n - 1 {
            SplitRun(first, i);
          }
        } else if first != -1 {
          SplitRun(first, i - 1);
          first := -1;
          NotRam(v, pieces, i);
          NotUsable(v, temp, rooms, freed, i);
        } else {
          NotRam(v, pieces, i);
          NotUsable(v, temp, rooms, freed, i);
        }
        i := i + 1;
      }
      AllAccounted(v, temp, rooms, freed);
    }

    /** Cut a maximal run of RAM. */
    method SplitRun(first: nat, last: nat)
      requires Tidy(regions[..]) && EmptyReserved(regions[..]) && RamRun(regions[..], first, last) && Handled(regions[..], pieces, first)
      requires last + 1 < regions.Length ==> !IsRam(regions[last + 1].kind) || End(regions[last]) < regions[last + 1].start
      requires Placed(regions[..]) && Accounted(regions[..], temp, rooms, freed, Frontier(regions[..], first))
      modifies regions, this`pieces, this`rooms, this`freed
      ensures regions[..] == old(regions[..]) && Handled(regions[..], pieces, last + 1)
      ensures Placed(regions[..]) && Accounted(regions[..], temp, rooms, freed, Frontier(regions[..], last + 1))
    {
      hide Tidy, Chain, Handled, Accounted, RoomOk;
      ghost var v, ps := regions[..], pieces;
      GapSkipped(v, temp, rooms, freed, first);
      SplitIntoRegions(first, last);
      assert v[first] == regions[first] && v[last] == regions[last];
      assert pieces == ps + pieces[|ps|..];
      RunHandled(v, ps, pieces[|ps|..], first, last);
    }
  }

  lemma SliceRun(v: seq<Region>, first: nat, last: nat)
    requires Contiguous(v, first, last)
    ensures PageArray.Run(v[first..last + 1])
  {
    var rs := v[first..last + 1];
    forall k: nat | k < |rs| ensures (rs[k].size > 0 || rs[k].kind != Usable) && rs[k].size % PAGE == 0 {
      assert rs[k] == v[first + k] && Clean(v[first + k]);
    }
    forall k: nat | k + 1 < |rs| ensures PageArray.Next(rs, k) { assert Touching(v, first + k); }
  }

  /** Where the page array of a piece lies. */
  ghost function RoomOf(rs: seq<Region>, plan: PageArray.Plan): (p: Piece)
    requires rs != [] && PageArray.PlanOk(rs, plan)
  {
    if plan.alloc >= 0 then Piece(rs[plan.alloc].start, rs[plan.alloc].start + plan.occupied * PAGE) else Piece(rs[0].start, rs[0].start)
  }

  /** What setting up regions first to last does: the usable pages outside the room of the array are freed. */
  ghost predicate SetUpOk(v: seq<Region>, temp: int, structSize: nat, first: nat, last: nat, room: Piece, added: set<nat>)
    requires first <= last < |v|
  {
    && v[first].start <= room.lo <= room.hi <= End(v[last])
    && (forall a: nat | In(room, a) :: UsableIn(v, temp, first, last, a))
    && (exists need: nat :: WholePages(((End(v[last]) - v[first].start) / PAGE + 2) * structSize, need) && RoomIn(v, temp, first, last, need, room))
    && (forall a: nat :: a in added <==> a % PAGE == 0 && UsableIn(v, temp, first, last, a) && !In(room, a))
  }

  /** Region k, among those from first on, is the first with need bytes of usable memory. */
  ghost predicate FirstIn(v: seq<Region>, temp: int, first: nat, need: nat, k: nat) {
    && first <= k < |v| && PageArray.Roomy(v, k, temp, need)
    && forall j: nat | first <= j < k :: !PageArray.Roomy(v, j, temp, need)
  }

  ghost predicate RoomIn(v: seq<Region>, temp: int, first: nat, last: nat, need: nat, room: Piece)
    requires first <= last < |v|
  {
    || ((forall k: nat | first <= k <= last :: !PageArray.Roomy(v, k, temp, need)) && room == Piece(v[first].start, v[first].start))
    || (exists k: nat :: FirstIn(v, temp, first, need, k) && k <= last && room == Piece(v[k].start, v[k].start + need))
  }

  /** The plan for a piece puts the room where the regions of the piece first have it. */
  lemma PlanRoom(v: seq<Region>, temp: int, structSize: nat, first: nat, last: nat, plan: PageArray.Plan)
    requires first <= last < |v| && v[first].start <= End(v[last])
    requires var rs := v[first..last + 1];
      && PageArray.PlanOk(rs, plan) && plan.temp == temp - first && PageArray.Chosen(rs, plan, structSize)
      && (End(v[last]) - v[first].start) / PAGE == PageArray.Base(rs, |rs|)
    ensures var need := plan.occupied * PAGE;
      && WholePages(((End(v[last]) - v[first].start) / PAGE + 2) * structSize, need)
      && RoomIn(v, temp, first, last, need, RoomOf(v[first..last + 1], plan))
  {
    hide PageArray.Base, PageArray.PlanOk;
    var rs, need := v[first..last + 1], plan.occupied * PAGE;
    DivUnique(need, PAGE, plan.occupied, 0);
    forall k: nat | first <= k <= last ensures PageArray.Roomy(v, k, temp, need) <==> PageArray.Roomy(rs, k - first, plan.temp, need) {
      assert rs[k - first] == v[k];
    }
    if plan.alloc >= 0 {
      var k := first + plan.alloc;
      assert rs[plan.alloc] == v[k];
      assert FirstIn(v, temp, first, need, k);
    }
  }

  lemma PieceFreed(v: seq<Region>, temp: int, structSize: nat, first: nat, last: nat,
    pages: seq<PageArray.PageState>, done: set<nat>, plan: PageArray.Plan)
    requires Contiguous(v, first, last)
    requires var rs := v[first..last + 1];
      && PageArray.Run(rs) && PageArray.PlanOk(rs, plan) && plan.temp == temp - first && PageArray.Done(pages, done, rs, |rs|, plan)
      && PageArray.Chosen(rs, plan, structSize)
    ensures var rs := v[first..last + 1];
      SetUpOk(v, temp, structSize, first, last, RoomOf(rs, plan), PageArray.Addresses(done, rs[0].start))
  {
    var rs := v[first..last + 1];
    assert Clean(v[first]) && rs[0] == v[first];
    RoomPlace(v, temp, first, last, plan);
    PieceSize(v, first, last);
    PlanRoom(v, temp, structSize, first, last, plan);
    hide Contiguous, PageArray.Run, PageArray.Done, PageArray.Base, PageArray.Addresses;
    var room := RoomOf(rs, plan);
    forall a: nat
      ensures a in PageArray.Addresses(done, rs[0].start) <==> a % PAGE == 0 && UsableIn(v, temp, first, last, a) && !In(room, a)
    {
      PageArray.FreedExact(pages, done, rs, plan, a);
      FreeMeans(v, temp, first, last, plan, a);
    }
  }

  /** The piece has as many pages as its regions together. */
  lemma PieceSize(v: seq<Region>, first: nat, last: nat)
    requires Contiguous(v, first, last) && PageArray.Run(v[first..last + 1])
    ensures var rs := v[first..last + 1];
      v[first].start <= End(v[last]) && (End(v[last]) - v[first].start) / PAGE == PageArray.Base(rs, |rs|)
  {
    var rs := v[first..last + 1];
    var n := |rs| - 1;
    assert rs[0] == v[first] && rs[n] == v[last];
    PageArray.BaseIs(rs, n);
    PageArray.Whole(rs[n]);
    assert PageArray.Base(rs, n + 1) == PageArray.Base(rs, n) + PageArray.Pages(rs[n]);
    PageArray.TimesPage(PageArray.Base(rs, n + 1));
    assert End(v[last]) - v[first].start == PageArray.Base(rs, n + 1) * PAGE;
  }

  /** The room lies in one usable region of the piece. */
  lemma RoomPlace(v: seq<Region>, temp: int, first: nat, last: nat, plan: PageArray.Plan)
    requires Contiguous(v, first, last)
    requires var rs := v[first..last + 1]; PageArray.PlanOk(rs, plan) && plan.temp == temp - first
    ensures var rs := v[first..last + 1]; var room := RoomOf(rs, plan);
      && v[first].start <= room.lo <= room.hi <= End(v[last])
      && (forall a: nat | In(room, a) :: UsableIn(v, temp, first, last, a))
  {
    var rs := v[first..last + 1];
    assert rs[0] == v[first];
    RunOrder(v, first, last, first, last);
    if plan.alloc >= 0 {
      var k := first + plan.alloc;
      assert rs[plan.alloc] == v[k] && Clean(v[k]);
      RunOrder(v, first, last, first, k);
      RunOrder(v, first, last, k, last);
      PageArray.Whole(v[k]);
      OccupiedFits(plan.occupied, PageArray.Pages(v[k]));
      var room := RoomOf(rs, plan);
      forall a: nat | In(room, a) ensures UsableIn(v, temp, first, last, a) { assert UsableAt(v, temp, k, a); }
    }
  }

  lemma OccupiedFits(a: nat, b: nat)
    requires a <= b
    ensures a * PAGE <= b * PAGE
  {
  }

  /** The pages to free of the piece are the usable ones outside the room. */
  lemma FreeMeans(v: seq<Region>, temp: int, first: nat, last: nat, plan: PageArray.Plan, a: nat)
    requires first <= last < |v|
    requires var rs := v[first..last + 1]; PageArray.Run(rs) && PageArray.PlanOk(rs, plan) && plan.temp == temp - first
    ensures var rs := v[first..last + 1];
      (exists k: nat | k < |rs| :: PageArray.FreeAt(rs, k, plan, a)) <==>
        a % PAGE == 0 && UsableIn(v, temp, first, last, a) && !In(RoomOf(rs, plan), a)
  {
    var rs := v[first..last + 1];
    if k: nat :| k < |rs| && PageArray.FreeAt(rs, k, plan, a) {
      assert UsableAt(v, temp, first + k, a);
      if plan.alloc >= 0 { RoomApart(rs, plan, k, a); }
    }
    if a % PAGE == 0 && UsableIn(v, temp, first, last, a) && !In(RoomOf(rs, plan), a) {
      var k: nat :| first <= k <= last && k < |v| && UsableAt(v, temp, k, a);
      assert rs[k - first] == v[k];
      assert PageArray.FreeAt(rs, k - first, plan, a);
    }
  }

  lemma RoomApart(rs: seq<Region>, plan: PageArray.Plan, k: nat, a: nat)
    requires PageArray.Run(rs) && PageArray.PlanOk(rs, plan) && plan.alloc >= 0 && k < |rs| && PageArray.FreeAt(rs, k, plan, a)
    ensures !In(RoomOf(rs, plan), a)
  {
    var r := rs[plan.alloc];
    PageArray.Whole(r);
    OccupiedFits(plan.occupied, PageArray.Pages(r));
    if k < plan.alloc { SliceOrder(rs, k, plan.alloc); }
    if plan.alloc < k { SliceOrder(rs, plan.alloc, k); }
  }

  lemma {:induction false} SliceOrder(rs: seq<Region>, j: nat, k: nat)
    requires PageArray.Run(rs) && j < k < |rs|
    ensures End(rs[j]) <= rs[k].start
    decreases k - j
  {
    assert PageArray.Next(rs, k - 1);
    if j + 1 < k { SliceOrder(rs, j, k - 1); }
  }

  /** In a trimmed run, the usable addresses are those of the map between the cuts. */
  lemma TrimmedUsable(v: seq<Region>, w: seq<Region>, temp: int, index: nat, i: nat, current: nat, next: nat, a: nat)
    requires Tidy(v) && index <= i < |v| == |w| && v[index].start <= current && next <= End(v[i])
    requires forall k: nat | index < k < i :: w[k] == v[k]
    requires w[index].kind == v[index].kind && w[i].kind == v[i].kind && w[index].start == current && End(w[i]) == next
    requires index < i ==> End(w[index]) == End(v[index]) && w[i].start == v[i].start
    requires forall k: nat | index <= k <= i :: current <= w[k].start && End(w[k]) <= next
    ensures UsableIn(w, temp, index, i, a) <==> current <= a < next && UsableAny(v, temp, a)
  {
    hide Tidy;
    if k: nat :| index <= k <= i && k < |w| && UsableAt(w, temp, k, a) {
      assert k == index || k == i || w[k] == v[k];
      assert UsableAt(v, temp, k, a);
    }
    if k: nat :| k < |v| && UsableAt(v, temp, k, a) && current <= a < next {
      if k < index { MapReserve.InOrder(v, k, index); }
      if i < k { MapReserve.InOrder(v, i, k); }
      assert k == index || k == i || w[k] == v[k];
      assert UsableAt(w, temp, k, a);
    }
  }

  lemma PieceAccounted(v: seq<Region>, w: seq<Region>, temp: int, structSize: nat, first: nat, last: nat, index: nat, i: nat,
                       current: nat, final: nat, rooms: seq<Piece>, freed: multiset<nat>, room: Piece, added: set<nat>)
    requires Tidy(v) && TrimmedOf(v, w, first, last, index, i, current, final)
    requires Contiguous(w, index, i) && w[index].start == current
    requires Accounted(v, temp, rooms, freed, current) && SetUpOk(w, temp, structSize, index, i, room, added)
    ensures RoomOk(v, temp, structSize, Piece(current, End(w[i])), room)
    ensures Accounted(v, temp, rooms + [room], freed + multiset(added), End(w[i]))
  {
    var next := End(w[i]);
    forall k: nat | index <= k <= i ensures current <= w[k].start && End(w[k]) <= next {
      RunOrder(w, index, i, index, k);
      RunOrder(w, index, i, k, i);
    }
    hide Tidy, Contiguous, Accounted, UsableAny, UsableIn;
    forall a: nat ensures UsableIn(w, temp, index, i, a) <==> current <= a < next && UsableAny(v, temp, a) {
      TrimmedUsable(v, w, temp, index, i, current, next, a);
    }
    AccountPiece(v, temp, rooms, freed, Piece(current, next), room, added);
    var need: nat :| WholePages(((next - current) / PAGE + 2) * structSize, need) && RoomIn(w, temp, index, i, need, room);
    RoomKept(v, w, temp, first, last, index, i, current, final, need, room);
  }

  /** The room found in the trimmed regions is where the map first has it inside the piece. */
  lemma RoomKept(v: seq<Region>, w: seq<Region>, temp: int, first: nat, last: nat, index: nat, i: nat,
    current: nat, final: nat, need: nat, room: Piece)
    requires Tidy(v) && TrimmedOf(v, w, first, last, index, i, current, final) && Contiguous(w, index, i) && w[index].start == current
    requires RoomIn(w, temp, index, i, need, room)
    ensures RoomIs(v, temp, Piece(current, End(w[i])), need, room)
  {
    var p := Piece(current, End(w[i]));
    forall k: nat ensures HasRoom(v, temp, p, need, k) <==> index <= k <= i && PageArray.Roomy(w, k, temp, need) {
      if k < |v| { PartKept(v, w, temp, first, last, index, i, current, final, need, k); }
    }
    hide Tidy, Contiguous, TrimmedOf, HasRoom;
    if !(forall k: nat | index <= k <= i :: !PageArray.Roomy(w, k, temp, need)) {
      var k: nat :| FirstIn(w, temp, index, need, k) && k <= i && room == Piece(w[k].start, w[k].start + need);
      assert FirstRoom(v, temp, p, need, k);
      assert Part(v[k], p).lo == w[k].start by { PartKept(v, w, temp, first, last, index, i, current, final, need, k); }
    }
  }

  lemma PartKept(v: seq<Region>, w: seq<Region>, temp: int, first: nat, last: nat, index: nat, i: nat, current: nat, final: nat, need: nat, k: nat)
    requires Tidy(v) && TrimmedOf(v, w, first, last, index, i, current, final) && Contiguous(w, index, i) && w[index].start == current
    requires k < |v|
    ensures HasRoom(v, temp, Piece(current, End(w[i])), need, k) <==> index <= k <= i && PageArray.Roomy(w, k, temp, need)
    ensures index <= k <= i ==> Part(v[k], Piece(current, End(w[i]))).lo == w[k].start
  {
    hide Tidy;
    if k < index {
      MapReserve.InOrder(v, k, index);
    } else if i < k {
      MapReserve.InOrder(v, i, k);
    } else {
      RunOrder(w, index, i, index, k);
      RunOrder(w, index, i, k, i);
      assert Clean(w[k]);
    }
  }

  /** The map w is v with region index trimmed at current and region i at the end of the zone. */
  ghost predicate TrimmedOf(v: seq<Region>, w: seq<Region>, first: nat, last: nat, index: nat, i: nat, current: nat, final: nat) {
    && first <= index <= i <= last < |v| == |w|
    && v[index].start <= current < End(v[index]) && (final == 0 || v[i].start < final) && v[index].start <= v[i].start
    && (forall k: nat | k < |v| && k != index && k != i :: w[k] == v[k])
    && (index != i ==> w[index] == Region(current, End(v[index]) - current, v[index].kind))
    && var hi := if final != 0 && End(v[i]) > final then final else End(v[i]);
       var lo := if index == i then current else v[i].start;
       lo <= hi && (lo < hi || v[i].size == 0) && w[i] == Region(lo, hi - lo, v[i].kind)
  }

  /** The trimmed regions still form a run, in one zone. */
  lemma TrimmedRun(v: seq<Region>, w: seq<Region>, first: nat, last: nat, index: nat, i: nat, current: nat, final: nat)
    requires Contiguous(v, first, last) && current % PAGE == 0 && final == ZoneEnd(current)
    requires TrimmedOf(v, w, first, last, index, i, current, final)
    ensures Contiguous(w, index, i) && w[index].start == current && PieceOk(Piece(current, End(w[i]))) && (final == 0 || End(w[i]) <= final)
  {
    RunOrder(v, first, last, index, i);
    TrimmedClean(v[index], v[i], current, final);
    hide Clean;
    forall k: nat | index <= k < i ensures Touching(w, k) { assert Touching(v, k); }
    SameZone(current, End(w[i]));
  }

  lemma SameZone(lo: nat, hi: nat)
    requires ZoneEnd(lo) == 0 || hi <= ZoneEnd(lo)
    ensures forall x: nat | lo <= x < hi :: ZoneEnd(x) == ZoneEnd(lo)
  {
  }

  lemma TrimmedClean(a: Region, b: Region, current: nat, final: nat)
    requires Clean(a) && Clean(b) && current % PAGE == 0 && final % PAGE == 0 && a.start <= current < End(a)
    ensures Clean(Region(current, End(a) - current, a.kind))
    ensures var hi := if final != 0 && End(b) > final then final else End(b);
      && hi % PAGE == 0 && (b.start <= hi ==> Clean(Region(b.start, hi - b.start, b.kind)))
      && (current <= hi ==> Clean(Region(current, hi - current, b.kind)))
  {
    AlignedAdd(a.start, a.size);
    AlignedAdd(b.start, b.size);
    AlignedAdd(End(a), current);
    var hi := if final != 0 && End(b) > final then final else End(b);
    AlignedAdd(hi, b.start);
    AlignedAdd(hi, current);
  }

  /** What trimming does to the ends of the stretch. */
  lemma TrimmedEnds(v: seq<Region>, w: seq<Region>, first: nat, last: nat, index: nat, i: nat, current: nat, final: nat)
    requires TrimmedOf(v, w, first, last, index, i, current, final) && Contiguous(v, first, last) && End(v[i]) <= End(v[last])
    requires final == ZoneEnd(current) && (i == last || (final != 0 && End(v[i]) >= final)) && (index < i ==> End(v[index]) <= v[i].start)
    ensures current < End(w[i]) <= End(v[last]) && v[i].start <= End(w[i]) && CutOk(Piece(current, End(w[i])), End(v[last]))
  {
  }

  // ----- all runs

  /** Where the first m regions end. */
  ghost function Frontier(v: seq<Region>, m: nat): (x: nat)
    requires m <= |v|
  {
    if m == 0 then 0 else End(v[m - 1])
  }

  /** A usable region that covers an address from the frontier on comes later. */
  lemma BeyondFrontier(v: seq<Region>, m: nat, k: nat, a: nat)
    requires Tidy(v) && m <= |v| && k < |v| && a >= Frontier(v, m) && Covers(v[k], a)
    ensures k >= m
  {
    hide Tidy;
    if k + 1 < m { MapReserve.InOrder(v, k, m - 1); }
  }

  lemma GapSkipped(v: seq<Region>, temp: int, rooms: seq<Piece>, freed: multiset<nat>, m: nat)
    requires Tidy(v) && m < |v| && Accounted(v, temp, rooms, freed, Frontier(v, m))
    ensures Frontier(v, m) <= v[m].start && Accounted(v, temp, rooms, freed, v[m].start)
  {
    if m > 0 { MapReserve.InOrder(v, m - 1, m); }
    hide Tidy;
    forall a: nat | Frontier(v, m) <= a < v[m].start ensures !UsableAny(v, temp, a) {
      forall k: nat | k < |v| ensures !UsableAt(v, temp, k, a) {
        if Covers(v[k], a) { BeyondFrontier(v, m, k, a); }
        if m < k { MapReserve.InOrder(v, m, k); }
      }
    }
    AccountSkip(v, temp, rooms, freed, Frontier(v, m), v[m].start);
  }

  lemma NotUsable(v: seq<Region>, temp: int, rooms: seq<Piece>, freed: multiset<nat>, m: nat)
    requires Tidy(v) && m < |v| && v[m].kind != Usable && Accounted(v, temp, rooms, freed, Frontier(v, m))
    ensures Accounted(v, temp, rooms, freed, Frontier(v, m + 1))
  {
    hide Accounted, Tidy;
    GapSkipped(v, temp, rooms, freed, m);
    forall a: nat | v[m].start <= a < End(v[m]) ensures !UsableAny(v, temp, a) {
      forall k: nat | k < |v| ensures !UsableAt(v, temp, k, a) {
        if k < m { MapReserve.InOrder(v, k, m); }
        if m < k { MapReserve.InOrder(v, m, k); }
      }
    }
    AccountSkip(v, temp, rooms, freed, v[m].start, End(v[m]));
  }

  lemma AllAccounted(v: seq<Region>, temp: int, rooms: seq<Piece>, freed: multiset<nat>)
    requires Tidy(v) && Accounted(v, temp, rooms, freed, Frontier(v, |v|))
    ensures forall a: nat :: freed[a] == if ForAllocator(v, temp, rooms, a) then 1 else 0
  {
    hide Tidy;
    forall a: nat ensures freed[a] == if ForAllocator(v, temp, rooms, a) then 1 else 0 {
      if k: nat :| k < |v| && UsableAt(v, temp, k, a) && a >= Frontier(v, |v|) { BeyondFrontier(v, |v|, k, a); assert false; }
    }
  }

  /** The zones end at one mebibyte and at four gibibytes: no piece reaches across either. */
  lemma PieceInZone(p: Piece)
    requires PieceOk(p)
    ensures !(p.lo < 0x10_0000 < p.hi) && !(p.lo < 0x1_0000_0000 < p.hi)
    ensures p.hi == ZoneEnd(p.lo) ==> p.hi == 0x10_0000 || p.hi == 0x1_0000_0000
  {
    assert ZoneEnd(p.hi - 1) == ZoneEnd(p.lo);
  }

  /** Some RAM region among the first m covers x. */
  ghost predicate RamAt(v: seq<Region>, x: nat, m: nat)
    requires m <= |v|
  {
    exists k: nat :: k < m && IsRam(v[k].kind) && Covers(v[k], x)
  }

  /**
   * What counts as RAM after start-up: memory reserved then, and pages that no bad, non-volatile or
   * reserved entry touches and that a reclaimable entry touches or an available one contains.
   */
  lemma RamByCodes(v: seq<Region>, entries: seq<Entry>, ranges: seq<MM.Range>, x: nat)
    requires MM.Shows(v, x, MM.BootKind(entries, ranges, x))
    ensures RamAt(v, x, |v|) <==>
      || (exists g :: g in ranges && MM.InRange(g, x))
      || (&& !MM.Touched(entries, 5, x) && !MM.Touched(entries, 4, x) && !MM.TouchedReserved(entries, x)
          && (MM.Touched(entries, 3, x) || MM.Available(entries, x)))
  {
    hide MM.Touched, MM.TouchedReserved, MM.Available, MM.InRange;
    var k := MM.BootKind(entries, ranges, x);
    if k != MM.Nothing {
      var r :| r in v && Covers(r, x);
      var i: nat :| i < |v| && v[i] == r;
      assert v[i].kind == k.kind;
    }
  }

  /**
   * The pieces are in order, each inside one zone, and cover exactly the RAM of the first m regions;
   * a piece ends only where its zone or its RAM ends.
   */
  ghost predicate Handled(v: seq<Region>, ps: seq<Piece>, m: nat) {
    && m <= |v| && InOrder(ps)
    && (forall x: nat {:trigger Covered(ps, x)} :: Covered(ps, x) <==> RamAt(v, x, m))
    && (forall k: nat {:trigger ps[k]} | k < |ps| ::
         PieceOk(ps[k]) && ps[k].hi <= (if m == 0 then 0 else End(v[m - 1])) && (ps[k].hi == ZoneEnd(ps[k].lo) || !RamAt(v, ps[k].hi, |v|)))
  }

  ghost predicate RamRun(v: seq<Region>, first: nat, last: nat) {
    Contiguous(v, first, last) && forall k: nat {:trigger v[k]} | first <= k <= last :: IsRam(v[k].kind)
  }

  lemma NothingHandled(v: seq<Region>)
    ensures Handled(v, [], 0)
  {
  }

  lemma RunStarts(v: seq<Region>, i: nat)
    requires Tidy(v) && EmptyReserved(v) && i < |v| && IsRam(v[i].kind)
    ensures RamRun(v, i, i)
  {
    hide Clean;
  }

  lemma RunGrows(v: seq<Region>, first: nat, i: nat)
    requires Tidy(v) && EmptyReserved(v) && first < i < |v| && RamRun(v, first, i - 1) && IsRam(v[i].kind) && End(v[i - 1]) >= v[i].start
    ensures RamRun(v, first, i)
  {
    hide Clean;
    forall k: nat | first <= k < i ensures Touching(v, k) {
      assert Clear(v, k);
      assert k < i - 1 ==> Touching(v, k);
    }
  }

  /** A region that is not RAM adds nothing. */
  lemma NotRam(v: seq<Region>, ps: seq<Piece>, i: nat)
    requires Tidy(v) && Handled(v, ps, i) && i < |v| && !IsRam(v[i].kind)
    ensures Handled(v, ps, i + 1)
  {
    hide Clean, PieceOk;
    assert i > 0 ==> Clear(v, i - 1);
    forall x: nat ensures RamAt(v, x, i + 1) <==> RamAt(v, x, i) {
      if k: nat :| k < i + 1 && IsRam(v[k].kind) && Covers(v[k], x) { assert k < i; }
    }
  }

  /** A run covers the addresses from its start to its end. */
  lemma {:induction false} RunCovers(v: seq<Region>, first: nat, last: nat, x: nat)
    requires RamRun(v, first, last) && v[first].start <= x < End(v[last])
    ensures exists k: nat :: first <= k <= last && Covers(v[k], x)
    decreases last - first
  {
    if x < End(v[first]) {
      assert Covers(v[first], x);
    } else {
      if first < last { assert Touching(v, first); }
      RunCovers(v, first + 1, last, x);
    }
  }

  /** After a maximal run there is no RAM. */
  lemma NoRamAfter(v: seq<Region>, last: nat)
    requires Tidy(v) && EmptyReserved(v) && last < |v|
    requires last + 1 < |v| ==> !IsRam(v[last + 1].kind) || End(v[last]) < v[last + 1].start
    ensures !RamAt(v, End(v[last]), |v|)
  {
    hide Clean;
    var e := End(v[last]);
    forall k: nat | k < |v| ensures !(IsRam(v[k].kind) && Covers(v[k], e)) {
      if k < last {
        MapReserve.InOrder(v, k, last);
      } else if k > last + 1 {
        MapReserve.InOrder(v, last + 1, k);
        assert Clear(v, last);
      } else if k == last + 1 {
        assert Clear(v, last);
      }
    }
  }

  lemma RunHandled(v: seq<Region>, ps: seq<Piece>, cs: seq<Piece>, first: nat, last: nat)
    requires Tidy(v) && EmptyReserved(v) && RamRun(v, first, last) && Handled(v, ps, first)
    requires Chain(cs, v[first].start, End(v[last]), End(v[last]))
    requires last + 1 < |v| ==> !IsRam(v[last + 1].kind) || End(v[last]) < v[last + 1].start
    ensures Handled(v, ps + cs, last + 1)
  {
    hide Clean, PieceOk, Chain;
    var lo, hi, qs := v[first].start, End(v[last]), ps + cs;
    ChainCovers(cs, lo, hi, hi);
    NoRamAfter(v, last);
    assert first > 0 ==> Clear(v, first - 1);
    forall x: nat ensures Covered(qs, x) <==> RamAt(v, x, last + 1) {
      CoveredBoth(ps, cs, x);
      RamBoth(v, first, last, x);
    }
    JoinOrder(ps, cs, lo);
    forall k: nat | k < |qs| ensures PieceOk(qs[k]) && qs[k].hi <= hi && (qs[k].hi == ZoneEnd(qs[k].lo) || !RamAt(v, qs[k].hi, |v|)) {
      assert qs[k] == if k < |ps| then ps[k] else cs[k - |ps|];
      assert k >= |ps| ==> CutOk(qs[k], hi);
    }
  }

  lemma CoveredBoth(ps: seq<Piece>, cs: seq<Piece>, x: nat)
    ensures Covered(ps + cs, x) <==> Covered(ps, x) || Covered(cs, x)
  {
    if k: nat :| k < |ps + cs| && In((ps + cs)[k], x) { assert if k < |ps| then In(ps[k], x) else In(cs[k - |ps|], x); }
    if k: nat :| k < |ps| && In(ps[k], x) { assert In((ps + cs)[k], x); }
    if k: nat :| k < |cs| && In(cs[k], x) { assert In((ps + cs)[|ps| + k], x); }
  }

  lemma RamBoth(v: seq<Region>, first: nat, last: nat, x: nat)
    requires RamRun(v, first, last)
    ensures RamAt(v, x, last + 1) <==> RamAt(v, x, first) || v[first].start <= x < End(v[last])
  {
    hide Clean;
    if v[first].start <= x < End(v[last]) {
      RunCovers(v, first, last, x);
      var k: nat :| first <= k <= last && Covers(v[k], x);
      assert IsRam(v[k].kind);
    }
    if k: nat :| k < last + 1 && IsRam(v[k].kind) && Covers(v[k], x) {
      if k >= first { RunOrder(v, first, last, first, k); RunOrder(v, first, last, k, last); }
    }
  }

  lemma JoinOrder(ps: seq<Piece>, cs: seq<Piece>, lo: nat)
    requires InOrder(ps) && InOrder(cs) && (forall k: nat | k < |ps| :: ps[k].hi <= lo) && (forall k: nat | k < |cs| :: lo <= cs[k].lo)
    ensures InOrder(ps + cs)
  {
    var qs := ps + cs;
    forall j: nat, k: nat | j < k < |qs| ensures qs[j].hi <= qs[k].lo {
      assert qs[j] == if j < |ps| then ps[j] else cs[j - |ps|];
      assert qs[k] == if k < |ps| then ps[k] else cs[k - |ps|];
    }
  }
}
