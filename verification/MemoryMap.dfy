/** The boot memory map, normalised in place in the temporary area. */
module MemoryMap {
  import opened Words
  import opened FirmwareMap
  import opened MapMerge
  import opened MapSteps
  import opened MapReserve

  const TEMP_AREA_SIZE: nat := 0x400000
  const REGIONS_PER_PAGE: nat := PAGE / 24

  datatype Outcome = Done | Absent | NotUsable | Full

  datatype Range = Range(start: nat, length: nat)

  /** The length of the pages from the page of start through the end of the range. */
  function PagesOf(start: nat, length: nat): (n: nat) {
    (length + start % PAGE + (PAGE - 1)) / PAGE * PAGE
  }

  predicate InRange(g: Range, x: nat) {
    PageOf(g.start) <= x < PageOf(g.start) + PagesOf(g.start, g.length)
  }

  /** The reserved pages are those that the range touches, and a range is only empty at a page start. */
  lemma RangeMeans(g: Range, x: nat)
    ensures g.length > 0 ==> (InRange(g, x) <==> TouchesPage(Entry(g.start, g.length, 0), x))
    ensures PagesOf(g.start, g.length) == 0 <==> g.length == 0 && g.start % PAGE == 0
  {
    DownTo(g.length + g.start % PAGE + (PAGE - 1));
    if g.length > 0 { AlignOutwards(g.start, g.length, x); }
  }

  /** The same length in 64-bit words. */
  function WordPages(start: nat, length: nat): (n: nat) {
    ((length + start % PAGE) % WORD + (PAGE - 1)) % WORD / PAGE * PAGE
  }

  /** The test, in words, that region r contains the pages of the range. */
  predicate PassesTest(r: Region, g: Range) {
    r.start <= PageOf(g.start) && (PageOf(g.start) + WordPages(g.start, g.length)) % WORD <= End(r)
  }

  predicate ContainsPages(r: Region, g: Range) {
    r.start <= PageOf(g.start) && PageOf(g.start) + PagesOf(g.start, g.length) <= End(r)
  }

  lemma NoWrap(g: Range)
    requires g.start + g.length + (PAGE - 1) < WORD
    ensures WordPages(g.start, g.length) == PagesOf(g.start, g.length)
    ensures PageOf(g.start) + PagesOf(g.start, g.length) < WORD
  {
    OutwardsEnd(g.start, g.length);
    Unwrapped(g.length + g.start % PAGE);
    Unwrapped(g.length + g.start % PAGE + (PAGE - 1));
  }

  lemma TestRight(r: Region, g: Range)
    requires g.start + g.length + (PAGE - 1) < WORD
    ensures PassesTest(r, g) <==> ContainsPages(r, g)
  {
    NoWrap(g);
    Unwrapped(PageOf(g.start) + PagesOf(g.start, g.length));
  }

  /** The test is right for every region exactly if the range does not reach into the last page of the address space or beyond. */
  lemma TestExact(g: Range)
    requires g.start < WORD
    ensures (forall r: Region | End(r) < WORD :: PassesTest(r, g) <==> ContainsPages(r, g))
      <==> g.start + g.length + (PAGE - 1) < WORD
  {
    hide PassesTest, ContainsPages;
    if g.start + g.length + (PAGE - 1) < WORD {
      forall r: Region ensures PassesTest(r, g) <==> ContainsPages(r, g) {
        TestRight(r, g);
      }
    } else {
      var r := TestWraps(g);
    }
  }

  lemma TestWraps(g: Range) returns (r: Region)
    requires g.start < WORD <= g.start + g.length + (PAGE - 1)
    ensures End(r) < WORD && PassesTest(r, g) && !ContainsPages(r, g)
  {
    hide PagesOf, WordPages;
    var s, e := PageOf(g.start), (PageOf(g.start) + WordPages(g.start, g.length)) % WORD;
    r := Region(0, if s < e then e else s, Usable);
    OutwardsEnd(g.start, g.length);
    assert PagesOf(g.start, g.length) == (g.length + g.start % PAGE + (PAGE - 1)) / PAGE * PAGE by { PagesAre(g); }
  }

  lemma PagesAre(g: Range)
    ensures PagesOf(g.start, g.length) == (g.length + g.start % PAGE + (PAGE - 1)) / PAGE * PAGE
  {
  }

  /** A range that ends with the address space passes for a region of two pages. */
  lemma TestWrapsExample()
    ensures var r, g := Region(0x1000, 0x2000, Usable), Range(0x1000, WORD - 0x1000);
      PassesTest(r, g) && !ContainsPages(r, g)
  {
  }

  lemma RangePages(g: Range)
    ensures PageOf(g.start) % PAGE == 0 && PagesOf(g.start, g.length) % PAGE == 0
  {
    DownTo(g.start);
    DownTo(g.length + g.start % PAGE + (PAGE - 1));
  }

  /** How many regions the unused pages of the temporary area can hold. */
  function Room(used: nat): (n: nat)
    requires used <= TEMP_AREA_SIZE
  {
    (TEMP_AREA_SIZE - used) / PAGE * REGIONS_PER_PAGE
  }

  lemma RoomUsed(used: nat, pages: nat)
    requires used + pages * PAGE <= TEMP_AREA_SIZE
    ensures Room(used + pages * PAGE) + pages * REGIONS_PER_PAGE == Room(used)
  {
    var x := TEMP_AREA_SIZE - used;
    DivUnique(x - pages * PAGE, PAGE, x / PAGE - pages, x % PAGE) by {
      assert x == x / PAGE * PAGE + x % PAGE;
      FloorBelow(x, PAGE, pages);
    }
  }

  lemma PagesFor(missing: nat)
    ensures (missing + REGIONS_PER_PAGE - 1) / REGIONS_PER_PAGE * REGIONS_PER_PAGE >= missing
  {
  }

  class Map {
    const regions: array<Region>
    var count: nat
    var capacity: nat
    var used: nat

    ghost predicate Valid()
      reads this
    {
      && used <= TEMP_AREA_SIZE && count <= capacity
      && capacity + Room(used) <= regions.Length
    }

    /** How many regions can be stored in all. */
    ghost function Limit(): nat
      reads this
      requires used <= TEMP_AREA_SIZE
    {
      capacity + Room(used)
    }

    ghost function View(): seq<Region>
      reads this, regions
      requires count <= regions.Length
    {
      regions[..count]
    }

    constructor (taken: nat)
      requires taken <= TEMP_AREA_SIZE
      ensures Valid() && View() == [] && fresh(regions)
    {
      regions := new Region[Room(taken)](_ => Region(0, 0, Unknown));
      count, capacity, used := 0, 0, taken;
    }

    /** Make room for n regions in the temporary area; false stands for the panic. */
    method TempRegionsReserve(n: nat) returns (ok: bool)
      requires Valid()
      modifies this`capacity, this`used
      ensures Valid() && capacity >= old(capacity) && Limit() == old(Limit())
      ensures ok <==> n <= Limit()
      ensures ok ==> n <= capacity
    {
      if n <= capacity {
        return true;
      }
      var missing := n - capacity;
      var pages := (missing + REGIONS_PER_PAGE - 1) / REGIONS_PER_PAGE;
      var bytes := pages * PAGE;
      PagesFor(missing);
      if TEMP_AREA_SIZE - used < bytes {
        TooFew(missing, TEMP_AREA_SIZE - used);
        return false;
      }
      RoomUsed(used, pages);
      used := used + bytes;
      capacity := capacity + pages * REGIONS_PER_PAGE;
      return true;
    }

    /** Insert r before index k. */
    method InsertRegion(k: nat, r: Region) returns (ok: bool)
      requires Valid() && k <= count
      modifies this, regions
      ensures Valid() && Limit() == old(Limit()) && (ok <==> old(count) < Limit()) && count >= old(count)
      ensures ok ==> View() == Inserted(old(View()), k, r)
    {
      hide Inserted, Room;
      ok := TempRegionsReserve(count + 1);
      if !ok {
        return;
      }
      var j := count;
      while j > k
        invariant k <= j <= count
        invariant forall t: nat | t <= j && t < regions.Length :: regions[t] == old(regions[t])
        invariant forall t: nat | j < t <= count :: regions[t] == old(regions[t - 1])
        modifies regions
      {
        regions[j] := regions[j - 1];
        j := j - 1;
      }
      regions[k] := r;
      count := count + 1;
      InsertedIs(old(View()), k, r, View());
    }

    /** Overwrite region k by moving the ones after it down. */
    method EraseRegion(k: nat)
      requires Valid() && k < count
      modifies this`count, regions
      ensures Valid() && View() == Erased(old(View()), k) && count == old(count) - 1
    {
      hide Erased, Room;
      CopyDown(k, count);
      count := count - 1;
      ErasedIs(old(View()), k, View());
    }

    /** Move the regions from k + 1 up to it down by one place. */
    method CopyDown(k: nat, it: nat)
      requires k < it <= count <= regions.Length
      modifies regions
      ensures forall t: nat | k <= t < it - 1 :: regions[t] == old(regions[t + 1])
      ensures forall t: nat | t < k || it - 1 <= t < regions.Length :: regions[t] == old(regions[t])
    {
      var j := k;
      while j + 1 < it
        invariant k <= j <= it - 1
        invariant forall t: nat | k <= t < j :: regions[t] == old(regions[t + 1])
        invariant forall t: nat | t < k || j <= t < regions.Length :: regions[t] == old(regions[t])
      {
        regions[j] := regions[j + 1];
        j := j + 1;
      }
    }

    /** Replace region k by r at the place before it. */
    method MoveRegion(k: nat, it: nat, r: Region)
      requires Valid() && k < it <= count
      modifies regions
      ensures Valid() && View() == Inserted(Erased(old(View()), k), it - 1, r)
    {
      hide Inserted, Erased, Room;
      CopyDown(k, it);
      regions[it - 1] := r;
      MovedDownIs(old(View()), k, it, r, View());
    }

    /** The first of the first n regions that starts after key, by binary search. */
    method UpperBound(n: nat, key: nat) returns (it: nat)
      requires n <= count <= regions.Length && Sorted(regions[..n])
      ensures it <= n && Upper(regions[..n], it, key)
    {
      var hi := n;
      it := 0;
      while it < hi
        invariant it <= hi <= n
        invariant forall j: nat | j < it :: regions[..n][j].start <= key
        invariant forall j: nat | hi <= j < n :: key < regions[..n][j].start
      {
        var mid := (it + hi) / 2;
        assert regions[..n][mid] == regions[mid];
        if key < regions[mid].start {
          hi := mid;
        } else {
          it := mid + 1;
        }
      }
    }

    // ----- building the map

    /** Align the firmware entries to pages and store those that are not empty. */
    method AddEntries(entries: seq<Entry>) returns (ok: bool)
      requires Valid() && count == 0 && forall e | e in entries :: FitsWord(e)
      modifies this, regions
      ensures Valid() && Limit() == old(Limit()) && (ok <==> |entries| <= Limit())
      ensures ok ==> count <= |entries|
      ensures ok ==> Fine(View()) && forall x: nat :: LevelAt(View(), x) == EntryLevel(entries, x)
      ensures ok ==> FromEntries(View(), entries)
    {
      hide FitsWord, LevelAt, EntryLevel, Fine, FromEntries, Room, Added;
      ok := TempRegionsReserve(|entries|);
      if ok {
        StoreEntries(entries);
        AllAdded(View(), entries);
      }
    }

    /** Store the aligned entries, for which there is room. */
    method StoreEntries(entries: seq<Entry>)
      requires Valid() && count == 0 && |entries| <= capacity && forall e | e in entries :: FitsWord(e)
      modifies this`count, regions
      ensures Valid() && count <= |entries| && Added(View(), entries, |entries|)
    {
      hide WordAligned, AlignEntry, Added, Room;
      NoneAdded(entries);
      var i := 0;
      while i < |entries|
        invariant i <= |entries| && count <= i && Added(View(), entries, i)
      {
        assert entries[i] in entries;
        AlignExact(entries[i]);
        var region := WordAligned(entries[i]);
        AddedOn(View(), entries, i);
        if region.size > 0 {
          ghost var v := View();
          regions[count] := region;
          count := count + 1;
          assert View() == v + [region];
        }
        i := i + 1;
      }
    }

    /** Sort the regions by start. */
    method SortRegions()
      requires Valid() && Fine(View())
      modifies regions
      ensures Sorted(View()) && Fine(View()) && SameMeaning(old(View()), View())
      ensures Permuted(old(View()), View())
    {
      hide Fine, SameMeaning, LevelAt, Permuted, Sorted;
      ghost var v0 := View();
      PermutedSelf(v0);
      SameRefl(v0);
      var k := 0;
      NoneSorted(v0);
      while k < count
        invariant k <= count && Sorted(View()[..k]) && Fine(View()) && SameMeaning(v0, View())
        invariant Permuted(v0, View())
      {
        ghost var v := View();
        SortOne(k);
        SameTwice(v0, v, View());
        PermutedOn(v0, v, View());
        k := k + 1;
      }
      assert View()[..count] == View();
    }

    /** Move region k down to its place among the regions before it. */
    method SortOne(k: nat)
      requires Valid() && k < count && Sorted(View()[..k]) && Fine(View())
      modifies regions
      ensures Sorted(View()[..k + 1]) && Fine(View()) && SameMeaning(old(View()), View()) && Permuted(old(View()), View())
    {
      hide Fine, SameMeaning, LevelAt, Permuted, Sorted, Inserted, Erased, Upper;
      ghost var v := View();
      var r := regions[k];
      assert regions[..k] == v[..k] && v[k] == r;
      var it := UpperBound(k, r.start);
      MoveUp(it, k, r);
      SortStep(v, View(), it, k);
      SortPermutes(v, it, k);
    }

    /** Move the regions from it up to k up by one place, and put r at it. */
    method MoveUp(it: nat, k: nat, r: Region)
      requires Valid() && it <= k < count && r == regions[k]
      modifies regions
      ensures View() == Inserted(Erased(old(View()), k), it, r)
    {
      hide Inserted, Erased;
      var j := k;
      while j > it
        invariant it <= j <= k
        invariant forall t: nat | t <= j :: regions[t] == old(regions[t])
        invariant forall t: nat | j < t <= k :: regions[t] == old(regions[t - 1])
        invariant forall t: nat | k < t < regions.Length :: regions[t] == old(regions[t])
      {
        regions[j] := regions[j - 1];
        j := j - 1;
      }
      regions[it] := r;
      MovedUpIs(old(View()), it, k, View());
    }

    /** Merge the next region, of the same kind, into region i. */
    method JoinNext(i: nat, ghost es: set<nat>, ghost o: seq<Region>)
      requires Valid() && Merging(o, View(), i) && Good(View(), i) && i + 1 < count && Bounds(View(), es)
      requires regions[i].kind == regions[i + 1].kind && regions[i + 1].start <= End(regions[i])
      modifies this`count, regions
      ensures Valid() && Good(View(), i) && SameMeaning(old(View()), View()) && Bounds(View(), es)
      ensures count == old(count) - 1 && Total(View()) <= Total(old(View())) && Merging(o, View(), i)
    {
      hide Merging, Good, SameMeaning, Total, Bounds, Erased;
      ghost var v := View();
      assert v[i] == regions[i] && v[i + 1] == regions[i + 1];
      JoinKept(v, i);
      JoinMerging(o, v, i);
      JoinedBounds(v, i, es);
      var region, next := regions[i], regions[i + 1];
      if End(region) == next.start {
        regions[i] := region.(size := region.size + next.size);
      } else {
        var end := if End(region) < End(next) then End(next) else End(region);
        regions[i] := region.(size := end - region.start);
      }
      assert View() == v[i := Region(v[i].start, Max(End(v[i]), End(v[i + 1])) - v[i].start, v[i].kind)];
      EraseRegion(i + 1);
      assert View() == Joined(v, i);
    }

    /** Put the more restrictive one of two regions that start together second. */
    method OrderPair(i: nat, ghost es: set<nat>) returns (ghost k: nat)
      requires Valid() && Good(View(), i) && i + 1 < count && regions[i].start == regions[i + 1].start && Bounds(View(), es)
      requires regions[i].kind != regions[i + 1].kind
      modifies regions
      ensures Good(View(), i) && SameMeaning(old(View()), View()) && Total(View()) == Total(old(View())) && Bounds(View(), es)
      ensures MaybeSwapped(old(View()), View(), i, k)
      ensures regions[i].start == regions[i + 1].start && !MoreRestrictive(regions[i].kind, regions[i + 1].kind)
    {
      hide SameMeaning, Total, LevelAt, Good, Bounds, Swapped;
      ghost var v := View();
      assert v[i] == regions[i] && v[i + 1] == regions[i + 1];
      k := i;
      SameRefl(v);
      if MoreRestrictive(regions[i].kind, regions[i + 1].kind) {
        SwapKept(v, i);
        SwappedBounds(v, i, es);
        regions[i], regions[i + 1] := regions[i + 1], regions[i];
        SwappedIs(v, View(), i);
        k := i + 1;
      }
    }

    /** Resolve the overlap of two regions of different kinds that start together. */
    method ResolveSameStart(i: nat, ghost es: set<nat>, ghost o: seq<Region>)
      requires Valid() && Good(View(), i) && i + 1 < count && regions[i].start == regions[i + 1].start && Bounds(View(), es)
      requires regions[i].kind != regions[i + 1].kind && Merging(o, View(), i)
      modifies this`count, regions
      ensures Valid() && Good(View(), i) && SameMeaning(old(View()), View()) && Total(View()) < Total(old(View()))
      ensures Bounds(View(), es) && count <= old(count) && Merging(o, View(), i)
    {
      hide SameMeaning, Total, LevelAt, Good, Bounds, Upper, Erased, Inserted, Sorted, Merging, MoreRestrictive, MaybeSwapped;
      ghost var v := View();
      ghost var k := OrderPair(i, es);
      ghost var w := View();
      var region, next := regions[i], regions[i + 1];
      assert w[i] == region && w[i + 1] == next;
      BoundsAt(w, i, es);
      GoodSorted(w, i);
      if region.size > next.size {
        var newStart := next.start + next.size;
        var tail := Region(newStart, End(region) - newStart, region.kind);
        var it := UpperBound(count, newStart);
        StickOutKept(w, i, it);
        MovedBounds(w, i, it - 1, tail, es);
        MoveRegion(i, it, tail);
        SameTwice(v, w, View());
        StickOutSwapped(o, v, w, i, k, it);
      } else {
        HiddenKept(w, i);
        ErasedBounds(w, i, es);
        EraseRegion(i);
        SameTwice(v, w, View());
        HiddenSwapped(o, v, w, i, k);
      }
    }

    /** The next region is more restrictive than region i, which gives way. */
    method ResolveNextWins(i: nat, ghost es: set<nat>, ghost o: seq<Region>) returns (ok: bool)
      requires Valid() && Good(View(), i) && i + 1 < count && regions[i].start < regions[i + 1].start < End(regions[i])
      requires !MoreRestrictive(regions[i].kind, regions[i + 1].kind) && regions[i].kind != regions[i + 1].kind && Bounds(View(), es)
      requires Merging(o, View(), i)
      modifies this, regions
      ensures Valid() && Limit() == old(Limit())
      ensures ok ==> Good(View(), i) && SameMeaning(old(View()), View()) && Total(View()) < Total(old(View()))
      ensures ok ==> Bounds(View(), es) && count <= old(count) + (if Passing(View(), i) then 1 else 0) && Merging(o, View(), i)
      ensures !ok ==> old(count) == Limit()
    {
      hide SameMeaning, Total, LevelAt, Good, Bounds, Upper, Erased, Sorted, Merging;
      ghost var v := View();
      var region, next := regions[i], regions[i + 1];
      assert v[i] == region && v[i + 1] == next;
      BoundsAt(v, i, es);
      GoodSorted(v, i);
      ok := true;
      if End(region) > End(next) {
        var newStart := End(next);
        var tail := Region(newStart, End(region) - newStart, region.kind);
        var it := UpperBound(count, newStart);
        SplitKept(v, i, it);
        SplitMerging(o, v, i, it);
        SplitBounds(v, i, it, tail, es);
        ok := InsertRegion(it, tail);
        if !ok {
          return;
        }
        ghost var w := View();
        assert w[i] == v[i];
        regions[i] := regions[i].(size := next.start - region.start);
        assert View() == w[i := v[i].(size := next.start - region.start)];
      } else {
        CutShortKept(v, i);
        CutShortMerging(o, v, i, next.start - region.start);
        UpdatedBounds(v, i, v[i].(size := next.start - region.start), es);
        regions[i] := regions[i].(size := next.start - region.start);
        assert View() == v[i := v[i].(size := next.start - region.start)];
      }
    }

    /** Region i is more restrictive than the next one, which gives way. */
    method ResolveRegionWins(i: nat, ghost es: set<nat>, ghost o: seq<Region>)
      requires Valid() && Good(View(), i) && i + 1 < count && regions[i + 1].start < End(regions[i]) && Bounds(View(), es)
      requires MoreRestrictive(regions[i].kind, regions[i + 1].kind) && Merging(o, View(), i)
      modifies this`count, regions
      ensures Valid() && Good(View(), i) && SameMeaning(old(View()), View()) && Total(View()) < Total(old(View()))
      ensures Bounds(View(), es) && count <= old(count) && Merging(o, View(), i)
    {
      hide SameMeaning, Total, LevelAt, Good, Bounds, Upper, Erased, Inserted, Sorted, Merging;
      ghost var v := View();
      var region, next := regions[i], regions[i + 1];
      assert v[i] == region && v[i + 1] == next;
      BoundsAt(v, i, es);
      GoodSorted(v, i);
      if End(next) > End(region) {
        var copy := Region(End(region), End(next) - End(region), next.kind);
        var it := UpperBound(count, copy.start);
        BeheadKept(v, i, it);
        BeheadMerging(o, v, i, it);
        MovedBounds(v, i + 1, it - 1, copy, es);
        MoveRegion(i + 1, it, copy);
      } else {
        SwallowKept(v, i);
        SwallowMerging(o, v, i);
        ErasedBounds(v, i + 1, es);
        EraseRegion(i + 1);
      }
    }

    /**
     * Split, merge and move regions until none overlap.  The loop does not always advance and may insert
     * regions, but each round shortens the total length or gets closer to the end of the map.
     */
    method ResolveOverlaps() returns (ok: bool)
      requires Valid() && Sorted(View()) && Fine(View())
      modifies this, regions
      ensures Valid() && Limit() == old(Limit())
      ensures ok ==> Normal(View()) && Fine(View()) && SameMeaning(old(View()), View())
      ensures ok ==> Merged(old(View()), View(), count)
      ensures !ok ==> Limit() < 3 * old(count)
    {
      hide SameMeaning, Total, LevelAt, Fine, Bounds, Merging, Merged;
      ghost var v, n, es := View(), count, BoundsOf(View());
      BoundsOfBounds(v);
      SameRefl(v);
      MergingStarts(v);
      var i := 0;
      while i + 1 < count
        invariant Valid() && Merging(v, View(), i) && SameMeaning(v, View()) && (if count == 0 then i == 0 else Good(View(), i))
        invariant count == 0 ==> Fine(View())
        invariant Bounds(View(), es) && |es| <= 2 * n && Limit() == old(Limit())
        invariant count <= i + n + (if Passing(View(), i) then 1 else 0)
        decreases Total(View()), count - i
      {
        ghost var w := View();
        var region, next := regions[i], regions[i + 1];
        assert w[i] == region && w[i + 1] == next;
        StartsInOrder(w, i);
        if End(region) < next.start || (End(region) == next.start && region.kind != next.kind) {
          Advance(w, i);
          MergingOn(v, w, i);
          i := i + 1;
        } else if region.kind == next.kind {
          JoinNext(i, es, v);
        } else if region.start == next.start {
          ResolveSameStart(i, es, v);
        } else if !MoreRestrictive(region.kind, next.kind) {
          SettledFew(w, i, es);
          ok := ResolveNextWins(i, es, v);
          if !ok {
            return;
          }
        } else {
          ResolveRegionWins(i, es, v);
        }
        SameTwice(v, w, View());
      }
      ok := true;
      AllSettled(View(), i);
      AllMerged(v, View(), i);
    }

    /** Build the map from the firmware entries; false stands for the panic when the area is full. */
    method BuildMemoryMap(entries: seq<Entry>) returns (ok: bool)
      requires Valid() && count == 0 && forall e | e in entries :: FitsWord(e)
      modifies this, regions
      ensures Valid() && Limit() == old(Limit())
      ensures ok ==> Normal(View()) && Fine(View()) && forall x: nat :: LevelAt(View(), x) == EntryLevel(entries, x)
      ensures ok ==> forall x: nat :: Shows(View(), x, FirmwareKind(entries, x))
      ensures ok ==> NeighboursJoined(View(), entries)
      ensures !ok ==> Limit() < 3 * |entries|
    {
      ok := AddEntries(entries);
      if !ok {
        return;
      }
      ghost var v := View();
      SortRegions();
      ghost var w := View();
      SameElements(v, w, entries);
      hide LevelAt, EntryLevel, Fine, Sorted, Normal, Merged, Permuted, FromEntries, NeighboursJoined;
      ok := ResolveOverlaps();
      if ok {
        BuiltJoined(View(), w, entries);
        BuiltTidy(View());
        hide Tidy, Shows, FirmwareKind;
        forall x: nat ensures LevelAt(View(), x) == EntryLevel(entries, x) && Shows(View(), x, FirmwareKind(entries, x)) {
          assert LevelAt(w, x) == LevelAt(v, x);
          BuiltShows(View(), entries, x);
        }
      }
    }

    // ----- reserving boot memory

    /** Reserve the pages of a range; anything but Done stands for a panic. */
    method MemoryMapReserve(start: nat, length: nat) returns (outcome: Outcome)
      requires Valid() && Tidy(View()) && start + length + (PAGE - 1) < WORD
      modifies this, regions
      ensures Valid() && Limit() == old(Limit())
      ensures outcome == Done || outcome == Full <==> exists k: nat :: Fits(old(View()), k, PageOf(start), PagesOf(start, length))
      ensures outcome == Full ==> old(count) + 2 > Limit() && count >= old(count)
      ensures outcome == Absent || outcome == NotUsable ==> View() == old(View())
      ensures outcome == Done ==> exists k: nat ::
        Fits(old(View()), k, PageOf(start), PagesOf(start, length)) && View() == Carved(old(View()), k, PageOf(start), PagesOf(start, length))
      ensures outcome == Done && old(NoneEmpty(View())) ==> (NoneEmpty(View()) <==> length > 0 || start % PAGE != 0)
    {
      hide Tidy, Sorted, PagesOf, WordPages, PassesTest, NoneEmpty, Carved;
      ghost var v := View();
      TidySorted(v);
      NoWrap(Range(start, length));
      var s, n := PageOf(start), WordPages(start, length);
      var it := UpperBound(count, s);
      LastBefore(v, it, s, n);
      if it == 0 {
        return Absent;
      }
      var k := it - 1;
      var r := regions[k];
      assert v[k] == r;
      TestRight(r, Range(start, length));
      if !PassesTest(r, Range(start, length)) {
        return Absent;
      }
      if r.kind != Usable {
        return NotUsable;
      }
      assert Fits(v, k, s, n);
      outcome := CarveRegion(k, s, n);
      if outcome == Done && NoneEmpty(v) {
        CarvedNoneEmpty(v, k, s, n);
        RangeMeans(Range(start, length), start);
      }
    }

    /** Take n bytes at s out of region k. */
    method CarveRegion(k: nat, s: nat, n: nat) returns (outcome: Outcome)
      requires Valid() && Fits(View(), k, s, n)
      modifies this, regions
      ensures Valid() && Limit() == old(Limit())
      ensures outcome == Done || outcome == Full
      ensures outcome == Full ==> old(count) + 2 > Limit() && count >= old(count)
      ensures outcome == Done ==> View() == Carved(old(View()), k, s, n)
    {
      hide Inserted;
      ghost var v := View();
      var r := regions[k];
      assert v[k] == r;
      var middle := Region(s, n, UsableReservedOnBoot);
      var ok := true;
      if r.start == s && r.size == n {
        regions[k] := r.(kind := UsableReservedOnBoot);
        assert View() == v[k := middle];
      } else if r.start == s {
        regions[k] := Region(s + n, r.size - n, r.kind);
        assert View() == v[k := Region(s + n, r.size - n, Usable)];
        ok := InsertRegion(k, middle);
      } else if End(r) == s + n {
        regions[k] := r.(size := r.size - n);
        assert View() == v[k := r.(size := r.size - n)];
        ok := InsertRegion(k + 1, middle);
      } else {
        ok := SplitInThree(k, s, n);
      }
      outcome := if ok then Done else Full;
    }

    /** Split region k into what is before s, n reserved bytes, and the rest. */
    method SplitInThree(k: nat, s: nat, n: nat) returns (ok: bool)
      requires Valid() && k < count && regions[k].start < s && s + n < End(regions[k])
      modifies this, regions
      ensures Valid() && Limit() == old(Limit()) && (!ok ==> old(count) + 2 > Limit() && count >= old(count))
      ensures ok ==> var r := old(regions[k]);
        View() == Inserted(Inserted(old(View())[k := r.(size := s - r.start)], k + 1, Region(s, n, UsableReservedOnBoot)),
                           k + 2, Region(s + n, End(r) - (s + n), Usable))
    {
      hide Inserted;
      ghost var v := View();
      var r := regions[k];
      var middle, end := Region(s, n, UsableReservedOnBoot), Region(s + n, End(r) - (s + n), Usable);
      regions[k] := r.(size := s - r.start);
      assert View() == v[k := r.(size := s - r.start)];
      ok := InsertRegion(k + 1, middle);
      if ok {
        InsertedLength(v[k := r.(size := s - r.start)], k + 1, middle);
        ok := InsertRegion(k + 2, end);
      }
    }

    /**
     * Start-up: build the map, then reserve the kernel and the boot modules.  The pages of the ranges
     * become reserved and every other address keeps the level of the firmware entries.
     */
    method InitMemory(entries: seq<Entry>, ranges: seq<Range>) returns (ok: bool)
      requires Valid() && count == 0 && forall e | e in entries :: FitsWord(e)
      requires forall g | g in ranges :: g.start + g.length + (PAGE - 1) < WORD
      modifies this, regions
      ensures Valid() && Limit() == old(Limit())
      ensures ok ==> Tidy(View()) && EmptyReserved(View())
      ensures ok ==> forall x: nat :: LevelAt(View(), x) == BootLevel(entries, ranges, x)
      ensures ok ==> forall x: nat :: Shows(View(), x, BootKind(entries, ranges, x))
      ensures !ok ==> Limit() < 3 * |entries| || Limit() < count + 2 || exists g :: g in ranges && NoPlace(View(), g)
    {
      hide Tidy, EmptyReserved, EntryLevel, BootLevel, LevelAt, PagesOf, Fine, Normal, NoPlace, Carved, Shows, BootKind, FirmwareKind;
      ok := BuildMemoryMap(entries);
      if !ok {
        return;
      }
      BuiltTidy(View());
      NothingReserved(entries);
      var i := 0;
      while i < |ranges|
        invariant i <= |ranges| && Valid() && Tidy(View()) && EmptyReserved(View()) && Limit() == old(Limit())
        invariant forall x: nat :: LevelAt(View(), x) == BootLevel(entries, ranges[..i], x)
      {
        ghost var v := View();
        var g := ranges[i];
        var outcome := MemoryMapReserve(g.start, g.length);
        if outcome != Done {
          NoPlaceLeft(v, g);
          assert g in ranges;
          return false;
        }
        ghost var k: nat :| Fits(v, k, PageOf(g.start), PagesOf(g.start, g.length))
          && View() == Carved(v, k, PageOf(g.start), PagesOf(g.start, g.length));
        OneMoreRange(v, k, entries, ranges[..i], g);
        assert ranges[..i + 1] == ranges[..i] + [g];
        i := i + 1;
      }
      assert ranges[..i] == ranges;
      forall x: nat ensures Shows(View(), x, BootKind(entries, ranges, x)) { BootShows(View(), entries, ranges, x); }
    }
  }

  /** The most restrictive level among the aligned entries that cover x. */
  ghost function EntryLevel(entries: seq<Entry>, x: nat): (l: int)
    requires forall e | e in entries :: FitsWord(e)
  {
    LevelAt(AlignAll(entries), x)
  }

  function AlignAll(entries: seq<Entry>): (rs: seq<Region>)
    requires forall e | e in entries :: FitsWord(e)
    ensures |rs| == |entries| && forall k: nat | k < |entries| :: rs[k] == AlignEntry(entries[k])
  {
    seq(|entries|, k requires 0 <= k < |entries| => AlignEntry(entries[k]))
  }

  /** The map after i entries. */
  ghost predicate Added(v: seq<Region>, entries: seq<Entry>, i: nat)
    requires i <= |entries| && forall e | e in entries :: FitsWord(e)
  {
    Fine(v) && FromEntries(v, entries) && forall x: nat :: LevelAt(v, x) == EntryLevel(entries[..i], x)
  }

  lemma NoneAdded(entries: seq<Entry>)
    requires forall e | e in entries :: FitsWord(e)
    ensures Added([], entries, 0)
  {
  }

  lemma AllAdded(v: seq<Region>, entries: seq<Entry>)
    requires forall e | e in entries :: FitsWord(e)
    requires Added(v, entries, |entries|)
    ensures Fine(v) && FromEntries(v, entries) && forall x: nat :: LevelAt(v, x) == EntryLevel(entries, x)
  {
    hide Fine, FromEntries, LevelAt, EntryLevel;
    assert entries[..|entries|] == entries;
  }

  lemma AddedOn(v: seq<Region>, entries: seq<Entry>, i: nat)
    requires forall e | e in entries :: FitsWord(e)
    requires i < |entries| && Added(v, entries, i)
    ensures var r := AlignEntry(entries[i]); Added(if r.size > 0 then v + [r] else v, entries, i + 1)
  {
    hide FitsWord, AlignEntry, EntryLevel, RegionOk, LevelAt;
    var r := AlignEntry(entries[i]);
    AlignedOk(entries[i]);
    var w := if r.size > 0 then v + [r] else v;
    forall x: nat ensures LevelAt(w, x) == EntryLevel(entries[..i + 1], x) {
      EntryAdded(entries, i, x);
      LevelConcat(v, [r], x);
      LevelOne(r, x);
    }
  }

  lemma LevelOne(r: Region, x: nat)
    ensures LevelAt([r], x) == Level(r, x) >= -1 && (r.size == 0 ==> Level(r, x) == -1)
  {
    assert [r][1..] == [];
  }

  lemma NoneSorted(v: seq<Region>)
    ensures Sorted(v[..0])
  {
  }

  lemma EntryAdded(entries: seq<Entry>, i: nat, x: nat)
    requires i < |entries| && forall e | e in entries :: FitsWord(e)
    ensures EntryLevel(entries[..i + 1], x) == Max(EntryLevel(entries[..i], x), Level(AlignEntry(entries[i]), x))
  {
    var a := AlignAll(entries[..i]);
    assert AlignAll(entries[..i + 1]) == a + [AlignEntry(entries[i])];
    LevelConcat(a, [AlignEntry(entries[i])], x);
    assert LevelAt([AlignEntry(entries[i])], x) == Max(Level(AlignEntry(entries[i]), x), LevelAt([], x));
  }

  lemma AlignedOk(e: Entry)
    requires FitsWord(e)
    ensures AlignEntry(e).size > 0 ==> RegionOk(AlignEntry(e))
  {
    AlignMeans(e, 0);
  }

  /** One step of the insertion sort. */
  lemma SortStep(v: seq<Region>, v': seq<Region>, it: nat, k: nat)
    requires it <= k < |v| && Sorted(v[..k]) && Fine(v) && Upper(v[..k], it, v[k].start)
    requires v' == Inserted(Erased(v, k), it, v[k])
    ensures |v'| == |v| && Sorted(v'[..k + 1]) && Fine(v') && SameMeaning(v, v')
  {
    hide RegionOk;
    var w := v'[..k + 1];
    assert w == v[..it] + [v[k]] + v[it..k];
    forall a: nat, b: nat | a < b < |w| ensures w[a].start <= w[b].start {
      assert a < it ==> w[a] == v[..k][a];
      assert it < a ==> w[a] == v[..k][a - 1];
      assert b < it ==> w[b] == v[..k][b];
      assert it < b ==> w[b] == v[..k][b - 1];
    }
    forall x: nat ensures LevelAt(v', x) == LevelAt(v, x) {
      LevelErased(v, k, x);
      LevelInserted(Erased(v, k), it, v[k], x);
    }
  }

  lemma SortPermutes(v: seq<Region>, it: nat, k: nat)
    requires it <= k < |v|
    ensures Permuted(v, Inserted(Erased(v, k), it, v[k]))
  {
    var e, w := Erased(v, k), Inserted(Erased(v, k), it, v[k]);
    calc {
      multiset(v);
      { assert v == v[..k] + [v[k]] + v[k + 1..]; }
      multiset(v[..k]) + multiset([v[k]]) + multiset(v[k + 1..]);
      multiset(e) + multiset([v[k]]);
      { assert e == e[..it] + e[it..]; }
      multiset(e[..it]) + multiset(e[it..]) + multiset([v[k]]);
      multiset(w);
    }
  }

  ghost predicate Permuted(v: seq<Region>, w: seq<Region>) {
    multiset(v) == multiset(w)
  }

  lemma PermutedOn(u: seq<Region>, v: seq<Region>, w: seq<Region>)
    requires Permuted(u, v) && Permuted(v, w)
    ensures Permuted(u, w)
  {
  }

  lemma PermutedSelf(v: seq<Region>)
    ensures Permuted(v, v)
  {
  }

  /** Every region is one of the aligned entries. */
  ghost predicate FromEntries(v: seq<Region>, entries: seq<Entry>)
    requires forall e | e in entries :: FitsWord(e)
  {
    forall r | r in v :: exists e :: e in entries && r == AlignEntry(e) && r.size > 0
  }

  lemma SameElements(v: seq<Region>, w: seq<Region>, entries: seq<Entry>)
    requires forall e | e in entries :: FitsWord(e)
    requires Permuted(v, w) && FromEntries(v, entries)
    ensures FromEntries(w, entries)
  {
    forall r | r in w ensures r in v { assert r in multiset(w); }
  }

  /** Entries of two kinds start, once aligned, at s. */
  ghost predicate TwoStart(entries: seq<Entry>, s: nat)
    requires forall e | e in entries :: FitsWord(e)
  {
    exists a, b ::
      && a in entries && b in entries && AlignEntry(a).kind != AlignEntry(b).kind
      && AlignEntry(a).start == AlignEntry(b).start == s && AlignEntry(a).size > 0 && AlignEntry(b).size > 0
  }

  /** Touching regions have different kinds, except where entries of two kinds start together. */
  ghost predicate NeighboursJoined(v: seq<Region>, entries: seq<Entry>)
    requires forall e | e in entries :: FitsWord(e)
  {
    forall j: nat {:trigger Clear(v, j)} | j + 1 < |v| && End(v[j]) == v[j + 1].start && v[j].kind == v[j + 1].kind ::
      TwoStart(entries, v[j + 1].start)
  }

  lemma BuiltJoined(v: seq<Region>, o: seq<Region>, entries: seq<Entry>)
    requires forall e | e in entries :: FitsWord(e)
    requires FromEntries(o, entries) && Merged(o, v, |v|)
    ensures NeighboursJoined(v, entries)
  {
    hide AlignEntry;
    forall j: nat | j + 1 < |v| && End(v[j]) == v[j + 1].start && v[j].kind == v[j + 1].kind ensures TwoStart(entries, v[j + 1].start) {
      assert Parted(o, v, j);
      var a, b :| a in o && b in o && a.start == b.start == v[j + 1].start && a.kind != b.kind;
      var c :| c in entries && a == AlignEntry(c) && a.size > 0;
      var d :| d in entries && b == AlignEntry(d) && b.size > 0;
    }
  }

  lemma TidySorted(v: seq<Region>)
    requires Tidy(v)
    ensures Sorted(v)
  {
  }

  /** A range fits in the region before the upper bound of its start, or nowhere. */
  lemma LastBefore(v: seq<Region>, it: nat, s: nat, n: nat)
    requires Tidy(v) && Upper(v, it, s)
    ensures forall k: nat | Fits(v, k, s, n) :: k + 1 == it
    ensures it > 0 ==> LastFrom(v, it - 1, s)
  {
    hide Clean;
    forall k: nat | Fits(v, k, s, n) ensures k + 1 == it {
      assert k + 1 < |v| ==> s < v[k + 1].start;
    }
  }

  lemma InsertedIs(v: seq<Region>, k: nat, r: Region, w: seq<Region>)
    requires k <= |v| && |w| == |v| + 1 && w[k] == r
    requires forall t: nat | t < k :: w[t] == v[t]
    requires forall t: nat | k < t <= |v| :: w[t] == v[t - 1]
    ensures w == Inserted(v, k, r)
  {
    assert w[..k] == v[..k] && w[k + 1..] == v[k..];
  }

  lemma ErasedIs(v: seq<Region>, k: nat, w: seq<Region>)
    requires k < |v| && |w| == |v| - 1
    requires forall t: nat | t < k :: w[t] == v[t]
    requires forall t: nat | k <= t < |w| :: w[t] == v[t + 1]
    ensures w == Erased(v, k)
  {
    assert w[..k] == v[..k] && w[k..] == v[k + 1..];
  }

  lemma MovedDownIs(v: seq<Region>, k: nat, it: nat, r: Region, w: seq<Region>)
    requires k < it <= |v| == |w| && w[it - 1] == r
    requires forall t: nat | t < k || it <= t < |v| :: w[t] == v[t]
    requires forall t: nat | k <= t < it - 1 :: w[t] == v[t + 1]
    ensures w == Inserted(Erased(v, k), it - 1, r)
  {
    var e := Erased(v, k);
    forall t: nat | t < it - 1 ensures w[t] == e[t] { assert e[t] == if t < k then v[t] else v[t + 1]; }
    forall t: nat | it - 1 < t <= |e| ensures w[t] == e[t - 1] { assert e[t - 1] == v[t]; }
    InsertedIs(e, it - 1, r, w);
  }

  lemma MovedUpIs(v: seq<Region>, it: nat, k: nat, w: seq<Region>)
    requires it <= k < |v| == |w| && w[it] == v[k]
    requires forall t: nat | t < it || k < t < |v| :: w[t] == v[t]
    requires forall t: nat | it < t <= k :: w[t] == v[t - 1]
    ensures w == Inserted(Erased(v, k), it, v[k])
  {
    var e := Erased(v, k);
    forall t: nat | it < t <= |e| ensures w[t] == e[t - 1] { assert e[t - 1] == if t - 1 < k then v[t - 1] else v[t]; }
    InsertedIs(e, it, v[k], w);
  }

  lemma BuiltTidy(v: seq<Region>)
    requires Normal(v) && Fine(v)
    ensures Tidy(v) && EmptyReserved(v)
  {
    forall j: nat | j < |v| ensures Clean(v[j]) && v[j].size > 0 { assert RegionOk(v[j]); }
    OrderFromClear(v);
  }

  /** The level of x after start-up. */
  ghost function BootLevel(entries: seq<Entry>, ranges: seq<Range>, x: nat): (l: int)
    requires forall e | e in entries :: FitsWord(e)
  {
    if exists g :: g in ranges && InRange(g, x) then Rank(UsableReservedOnBoot) else EntryLevel(entries, x)
  }

  /** No usable region has the pages of the range. */
  ghost predicate NoPlace(v: seq<Region>, g: Range) {
    forall k: nat :: !Fits(v, k, PageOf(g.start), PagesOf(g.start, g.length))
  }

  lemma NothingReserved(entries: seq<Entry>)
    requires forall e | e in entries :: FitsWord(e)
    ensures forall x: nat :: BootLevel(entries, [], x) == EntryLevel(entries, x)
  {
  }

  /** One more reservation. */
  lemma OneMoreRange(v: seq<Region>, k: nat, entries: seq<Entry>, done: seq<Range>, g: Range)
    requires Tidy(v) && EmptyReserved(v) && Fits(v, k, PageOf(g.start), PagesOf(g.start, g.length))
    requires forall e | e in entries :: FitsWord(e)
    requires forall x: nat :: LevelAt(v, x) == BootLevel(entries, done, x)
    ensures var w := Carved(v, k, PageOf(g.start), PagesOf(g.start, g.length));
      Tidy(w) && EmptyReserved(w) && forall x: nat :: LevelAt(w, x) == BootLevel(entries, done + [g], x)
  {
    hide Tidy, EmptyReserved, EntryLevel, LevelAt, PagesOf, Carved, Fits;
    var s, n := PageOf(g.start), PagesOf(g.start, g.length);
    RangePages(g);
    CarvedTidy(v, k, s, n);
    CarvedEmpty(v, k, s, n);
    forall x: nat ensures LevelAt(Carved(v, k, s, n), x) == BootLevel(entries, done + [g], x) {
      CarvedLevel(v, k, s, n, x);
      assert g in done + [g];
    }
  }

  lemma NoPlaceLeft(v: seq<Region>, g: Range)
    ensures NoPlace(v, g) || exists k: nat :: Fits(v, k, PageOf(g.start), PagesOf(g.start, g.length))
  {
  }

  /**
   * An address is usable after start-up exactly if an available entry contains its page, no entry of
   * another kind touches that page, and no reserved range includes it.
   */
  lemma UsableAfterBoot(entries: seq<Entry>, ranges: seq<Range>, x: nat)
    requires forall e | e in entries :: FitsWord(e)
    ensures BootLevel(entries, ranges, x) == Rank(Usable) <==>
      && (exists e :: e in entries && e.code == 1 && ContainsPage(e, x))
      && (forall e | e in entries && e.code != 1 :: !TouchesPage(e, x))
      && (forall g | g in ranges :: !InRange(g, x))
  {
    hide InRange, ContainsPage, TouchesPage, EntryLevel;
    UsableEntries(entries, x);
  }

  /** The entries make x usable exactly if one of them contains its page and none of another kind touches it. */
  lemma UsableEntries(entries: seq<Entry>, x: nat)
    requires forall e | e in entries :: FitsWord(e)
    ensures EntryLevel(entries, x) == Rank(Usable) <==>
      && (exists e :: e in entries && e.code == 1 && ContainsPage(e, x))
      && (forall e | e in entries && e.code != 1 :: !TouchesPage(e, x))
  {
    hide ContainsPage, TouchesPage, AlignEntry, LevelAt, Covers;
    var rs := AlignAll(entries);
    LevelMeans(rs, x);
    forall e | e in entries ensures AlignEntry(e) in rs && CoversBy(e, x) { AlignedIn(entries, e, x); }
    if LevelAt(rs, x) != -1 {
      var r :| r in rs && Covers(r, x) && Rank(r.kind) == LevelAt(rs, x);
      var k: nat :| k < |rs| && rs[k] == r;
      assert entries[k] in entries && CoversBy(entries[k], x);
    }
    if e :| e in entries && e.code == 1 && ContainsPage(e, x) { assert CoversBy(e, x); }
  }

  lemma AlignedIn(entries: seq<Entry>, e: Entry, x: nat)
    requires (forall f | f in entries :: FitsWord(f)) && e in entries
    ensures AlignEntry(e) in AlignAll(entries) && CoversBy(e, x)
  {
    hide AlignEntry, ContainsPage, TouchesPage, Covers;
    var j: nat :| j < |entries| && entries[j] == e;
    assert AlignAll(entries)[j] in AlignAll(entries);
    AlignMeans(e, x);
  }

  /** What an aligned entry covers, by its kind. */
  ghost predicate CoversBy(e: Entry, x: nat)
    requires FitsWord(e)
  {
    && AlignEntry(e).kind == TypeFromMultiboot(e.code)
    && (Covers(AlignEntry(e), x) <==> if e.code == 1 then ContainsPage(e, x) else TouchesPage(e, x))
  }

  // ----- the kind of an address, by the codes of the firmware entries

  /** What a map says of an address. */
  datatype Found = Nothing | Of(kind: Kind)

  ghost predicate Touched(entries: seq<Entry>, code: nat, x: nat) {
    exists e :: e in entries && e.code == code && TouchesPage(e, x)
  }

  /** Entries of code 2, and of any code without a meaning of its own, stand for reserved memory. */
  ghost predicate TouchedReserved(entries: seq<Entry>, x: nat) {
    exists e :: e in entries && (e.code == 2 || e.code < 1 || e.code > 5) && TouchesPage(e, x)
  }

  ghost predicate Available(entries: seq<Entry>, x: nat) {
    exists e :: e in entries && e.code == 1 && ContainsPage(e, x)
  }

  /** What the firmware says of x: the worst thing that any entry says of its page. */
  ghost function FirmwareKind(entries: seq<Entry>, x: nat): (k: Found) {
    if Touched(entries, 5, x) then Of(BadMemory)
    else if Touched(entries, 4, x) then Of(ACPINVS)
    else if TouchedReserved(entries, x) then Of(Reserved)
    else if Touched(entries, 3, x) then Of(ACPIReclaimable)
    else if Available(entries, x) then Of(Usable)
    else Nothing
  }

  /** The same after start-up, which reserves the pages of the ranges. */
  ghost function BootKind(entries: seq<Entry>, ranges: seq<Range>, x: nat): (k: Found) {
    if exists g :: g in ranges && InRange(g, x) then Of(UsableReservedOnBoot) else FirmwareKind(entries, x)
  }

  /** The regions that cover x, if any, are of the given kind. */
  ghost predicate Shows(v: seq<Region>, x: nat, k: Found) {
    match k
    case Nothing => forall r | r in v :: !Covers(r, x)
    case Of(kind) => (exists r :: r in v && Covers(r, x)) && forall r | r in v && Covers(r, x) :: r.kind == kind
  }

  ghost function RankOf(k: Found): (l: int) {
    match k
    case Nothing => -1
    case Of(kind) => Rank(kind)
  }

  lemma EntryKind(entries: seq<Entry>, x: nat)
    requires forall e | e in entries :: FitsWord(e)
    ensures EntryLevel(entries, x) == RankOf(FirmwareKind(entries, x))
  {
    hide ContainsPage, TouchesPage, AlignEntry, LevelAt, Covers;
    var rs := AlignAll(entries);
    LevelMeans(rs, x);
    forall e | e in entries ensures AlignEntry(e) in rs && CoversBy(e, x) { AlignedIn(entries, e, x); }
    if LevelAt(rs, x) != -1 {
      var r :| r in rs && Covers(r, x) && Rank(r.kind) == LevelAt(rs, x);
      var k: nat :| k < |rs| && rs[k] == r;
      assert entries[k] in entries && CoversBy(entries[k], x);
    }
  }

  /** In a map without overlap, the level of an address is that of the one region that covers it. */
  lemma LevelShows(v: seq<Region>, x: nat, k: Found)
    requires Tidy(v) && LevelAt(v, x) == RankOf(k) && k != Of(Unknown)
    ensures Shows(v, x, k)
  {
    LevelMeans(v, x);
    if k != Nothing {
      var r :| r in v && Covers(r, x) && Rank(r.kind) == LevelAt(v, x);
      var i: nat :| i < |v| && v[i] == r;
      forall q | q in v && Covers(q, x) ensures q.kind == k.kind {
        var j: nat :| j < |v| && v[j] == q;
        OneCovers(v, i, j, x);
        assert Clean(v[i]);
        SameRank(r.kind, k.kind);
      }
    }
  }

  lemma SameRank(a: Kind, b: Kind)
    requires Rank(a) == Rank(b) && a != Unknown && b != Unknown
    ensures a == b
  {
  }

  lemma EndsBefore(v: seq<Region>, i: nat, j: nat)
    requires Tidy(v) && i < j < |v|
    ensures End(v[i]) <= v[j].start
  {
    assert Clear(v, i) && v[i + 1].start <= v[j].start;
  }

  lemma OneCovers(v: seq<Region>, i: nat, j: nat, x: nat)
    requires Tidy(v) && i < |v| && j < |v| && Covers(v[i], x) && Covers(v[j], x)
    ensures i == j
  {
    hide Tidy;
    if i < j { EndsBefore(v, i, j); }
    if j < i { EndsBefore(v, j, i); }
  }

  /** The built map says of every address what the firmware does. */
  lemma BuiltShows(v: seq<Region>, entries: seq<Entry>, x: nat)
    requires Tidy(v) && (forall e | e in entries :: FitsWord(e)) && LevelAt(v, x) == EntryLevel(entries, x)
    ensures Shows(v, x, FirmwareKind(entries, x))
  {
    EntryKind(entries, x);
    LevelShows(v, x, FirmwareKind(entries, x));
  }

  lemma BootShows(v: seq<Region>, entries: seq<Entry>, ranges: seq<Range>, x: nat)
    requires Tidy(v) && (forall e | e in entries :: FitsWord(e)) && LevelAt(v, x) == BootLevel(entries, ranges, x)
    ensures Shows(v, x, BootKind(entries, ranges, x))
  {
    hide FirmwareKind, InRange, Tidy, EntryLevel;
    EntryKind(entries, x);
    assert FirmwareKind(entries, x) != Of(Unknown) by { KnownKind(entries, x); }
    LevelShows(v, x, BootKind(entries, ranges, x));
  }

  lemma KnownKind(entries: seq<Entry>, x: nat)
    ensures FirmwareKind(entries, x) != Of(Unknown)
  {
  }

  // ----- how many regions there can be

  /** Regions start and end at the given addresses. */
  ghost predicate Bounds(v: seq<Region>, es: set<nat>) {
    forall j: nat {:trigger v[j]} | j < |v| :: v[j].start in es && End(v[j]) in es
  }

  ghost function BoundsOf(v: seq<Region>): set<nat> {
    if v == [] then {} else BoundsOf(v[1..]) + {v[0].start, End(v[0])}
  }

  lemma {:induction false} BoundsOfBounds(v: seq<Region>)
    ensures Bounds(v, BoundsOf(v)) && |BoundsOf(v)| <= 2 * |v|
  {
    if v != [] {
      BoundsOfBounds(v[1..]);
      var a, b := BoundsOf(v[1..]), {v[0].start, End(v[0])};
      UnionSize(a, b);
      TwoSize(v[0].start, End(v[0]));
      forall j: nat | j < |v| ensures v[j].start in a + b && End(v[j]) in a + b {
        assert j > 0 ==> v[j] == v[1..][j - 1];
      }
    }
  }

  lemma UnionSize(a: set<nat>, b: set<nat>)
    ensures |a + b| <= |a| + |b|
  {
    assert a + b == a + (b - a) && a * (b - a) == {};
    assert (b - a) <= b && |b| == |b - a| + |b * a| by { assert b == (b - a) + (b * a); }
  }

  lemma TwoSize(x: nat, y: nat)
    ensures |{x, y}| <= 2
  {
    UnionSize({x}, {y});
    assert {x, y} == {x} + {y};
  }

  /** The settled regions start at different addresses. */
  lemma {:induction false} SettledFew(v: seq<Region>, i: nat, es: set<nat>)
    requires Good(v, i) && Bounds(v, es)
    ensures i + 1 <= |set x | x in es && x <= v[i].start|
    ensures i + 1 <= |es|
  {
    var below := set x | x in es && x <= v[i].start;
    Subset(below, es);
    if i == 0 {
      assert v[0].start in below;
    } else {
      assert Clear(v, i - 1) && RegionOk(v[i - 1]);
      assert Good(v, i - 1);
      SettledFew(v, i - 1, es);
      var less := set x | x in es && x <= v[i - 1].start;
      Subset(less + {v[i].start}, below);
    }
  }

  lemma Subset(a: set<nat>, b: set<nat>)
    requires a <= b
    ensures |a| <= |b|
  {
    assert b == a + (b - a);
  }

  /** Region i ends exactly where the next one, of another kind, starts, so that the loop moves on. */
  ghost predicate Passing(v: seq<Region>, i: nat) {
    i + 1 < |v| && End(v[i]) == v[i + 1].start && v[i].kind != v[i + 1].kind
  }

  lemma ErasedBounds(v: seq<Region>, k: nat, es: set<nat>)
    requires k < |v| && Bounds(v, es)
    ensures Bounds(Erased(v, k), es)
  {
  }

  lemma InsertedBounds(v: seq<Region>, k: nat, r: Region, es: set<nat>)
    requires k <= |v| && Bounds(v, es) && r.start in es && End(r) in es
    ensures Bounds(Inserted(v, k, r), es)
  {
  }

  lemma MovedBounds(v: seq<Region>, k: nat, it: nat, r: Region, es: set<nat>)
    requires k < |v| && it < |v| && Bounds(v, es) && r.start in es && End(r) in es
    ensures Bounds(Inserted(Erased(v, k), it, r), es)
  {
    ErasedBounds(v, k, es);
    InsertedBounds(Erased(v, k), it, r, es);
  }

  lemma UpdatedBounds(v: seq<Region>, k: nat, r: Region, es: set<nat>)
    requires k < |v| && Bounds(v, es) && r.start in es && End(r) in es
    ensures Bounds(v[k := r], es)
  {
  }

  lemma JoinedBounds(v: seq<Region>, i: nat, es: set<nat>)
    requires i + 1 < |v| && Bounds(v, es)
    ensures Bounds(Joined(v, i), es)
  {
    var r, n := v[i], v[i + 1];
    var m := Region(r.start, Max(End(r), End(n)) - r.start, r.kind);
    UpdatedBounds(v, i, m, es);
    ErasedBounds(v[i := m], i + 1, es);
  }

  lemma BoundsAt(v: seq<Region>, i: nat, es: set<nat>)
    requires i + 1 < |v| && Bounds(v, es)
    ensures v[i].start in es && End(v[i]) in es && v[i + 1].start in es && End(v[i + 1]) in es
  {
  }

  lemma GoodSorted(v: seq<Region>, i: nat)
    requires Good(v, i)
    ensures Sorted(v)
  {
  }

  lemma SwappedIs(v: seq<Region>, w: seq<Region>, i: nat)
    requires i + 1 < |v| && |w| == |v| && w[i] == v[i + 1] && w[i + 1] == v[i]
    requires forall j: nat | j < |v| && j != i && j != i + 1 :: w[j] == v[j]
    ensures w == Swapped(v, i)
  {
  }

  lemma SwappedBounds(v: seq<Region>, i: nat, es: set<nat>)
    requires i + 1 < |v| && Bounds(v, es)
    ensures Bounds(Swapped(v, i), es)
  {
  }

  lemma SplitBounds(v: seq<Region>, i: nat, it: nat, t: Region, es: set<nat>)
    requires i + 1 < it <= |v| && Bounds(v, es) && t.start in es && End(t) in es && v[i].start < v[i + 1].start
    ensures var m := v[i].(size := v[i + 1].start - v[i].start);
      Bounds(Inserted(v, it, t)[i := m], es) && Passing(Inserted(v, it, t)[i := m], i) == (v[i].kind != v[i + 1].kind)
  {
    InsertedBounds(v, it, t, es);
    UpdatedBounds(Inserted(v, it, t), i, v[i].(size := v[i + 1].start - v[i].start), es);
  }

  lemma SameRefl(v: seq<Region>)
    ensures SameMeaning(v, v)
  {
  }

  lemma SameTwice(u: seq<Region>, v: seq<Region>, w: seq<Region>)
    ensures SameMeaning(u, v) && SameMeaning(v, w) ==> SameMeaning(u, w)
    ensures SameMeaning(u, u)
  {
    if SameMeaning(u, v) && SameMeaning(v, w) {
      forall x: nat ensures LevelAt(w, x) == LevelAt(u, x) { assert LevelAt(v, x) == LevelAt(u, x); }
    }
  }

  lemma StartsInOrder(v: seq<Region>, i: nat)
    requires Good(v, i) && i + 1 < |v|
    ensures v[i].start <= v[i + 1].start
  {
  }

  lemma Advance(v: seq<Region>, i: nat)
    requires Good(v, i) && i + 1 < |v| && End(v[i]) <= v[i + 1].start
    ensures Good(v, i + 1)
  {
    forall j: nat | j < i + 1 ensures Clear(v, j) {
      assert j < i ==> Clear(v, j);
    }
  }

  /** A normalised map: each region ends before the next one starts. */
  ghost predicate Normal(v: seq<Region>) {
    forall j: nat {:trigger Clear(v, j)} | j + 1 < |v| :: Clear(v, j)
  }

  lemma AllSettled(v: seq<Region>, i: nat)
    requires if v == [] then Fine(v) else Good(v, i)
    requires i + 1 >= |v|
    ensures Normal(v) && Fine(v)
  {
    forall j: nat | j + 1 < |v| ensures Clear(v, j) {
    }
  }

  lemma AllMerged(o: seq<Region>, v: seq<Region>, i: nat)
    requires Merging(o, v, i) && i + 1 >= |v|
    ensures Merged(o, v, |v|)
  {
    forall j: nat | j + 1 < |v| ensures Parted(o, v, j) { }
  }

  /** Map w is v, in which the regions i and i + 1, of different kinds, were swapped if k is i + 1. */
  ghost predicate MaybeSwapped(v: seq<Region>, w: seq<Region>, i: nat, k: nat) {
    && i + 1 < |v| && v[i].start == v[i + 1].start && v[i].kind != v[i + 1].kind
    && ((k == i && w == v) || (k == i + 1 && w == Swapped(v, i)))
  }

  /** Without the region that gives way, it does not matter that the two were swapped. */
  lemma WithoutLoser(v: seq<Region>, w: seq<Region>, i: nat, k: nat)
    requires MaybeSwapped(v, w, i, k)
    ensures |w| == |v| && Erased(w, i) == Erased(v, k) && w[i] == v[k] && w[i + 1] == v[2 * i + 1 - k]
    ensures forall j: nat | j < |v| :: w[j].start == v[j].start
  {
  }

  lemma UpperSwapped(v: seq<Region>, w: seq<Region>, it: nat, key: nat)
    requires |w| == |v| && (forall j: nat | j < |v| :: w[j].start == v[j].start) && Upper(w, it, key)
    ensures Upper(v, it, key)
  {
    forall j: nat | j < |v| ensures (j < it ==> v[j].start <= key) && (it <= j ==> key < v[j].start) {
      assert w[j].start == v[j].start;
    }
  }

  lemma HiddenSwapped(o: seq<Region>, v: seq<Region>, w: seq<Region>, i: nat, k: nat)
    requires MaybeSwapped(v, w, i, k) && Good(v, i) && Merging(o, v, i) && SameMeaning(v, Erased(w, i))
    ensures Merging(o, Erased(w, i), i)
  {
    hide Good, Merging, SameMeaning, Erased, Swapped;
    WithoutLoser(v, w, i, k);
    HiddenMerging(o, v, i, k);
  }

  lemma StickOutSwapped(o: seq<Region>, v: seq<Region>, w: seq<Region>, i: nat, k: nat, it: nat)
    requires MaybeSwapped(v, w, i, k) && Good(v, i) && Merging(o, v, i)
    requires w[i].size > w[i + 1].size && w[i].start == w[i + 1].start && !MoreRestrictive(w[i].kind, w[i + 1].kind)
    requires i + 2 <= it && Upper(w, it, End(w[i + 1])) && SameMeaning(v, Inserted(Erased(w, i), it - 1, Tail(w[i], w[i + 1])))
    ensures Merging(o, Inserted(Erased(w, i), it - 1, Tail(w[i], w[i + 1])), i)
  {
    hide Good, Merging, SameMeaning, Erased, Inserted, Swapped, MoreRestrictive, Upper;
    WithoutLoser(v, w, i, k);
    UpperSwapped(v, w, it, End(w[i + 1]));
    assert Upper(v, it, End(v[2 * i + 1 - k])) && it <= |v| by { UpperIn(v, it, End(w[i + 1])); }
    StickOutMerging(o, v, i, k, it);
  }

  lemma UpperIn(v: seq<Region>, it: nat, key: nat)
    requires Upper(v, it, key)
    ensures it <= |v|
  {
  }

  lemma MulLess(a: nat, b: nat, d: nat)
    requires a < b
    ensures a * d + d <= b * d
  {
    var k: nat := b - a - 1;
    assert b * d == a * d + d + k * d;
  }

  lemma DivParts(x: nat, d: nat) returns (q: nat, r: nat)
    requires d > 0
    ensures q == x / d && r < d && x == q * d + r
  {
    q, r := x / d, x % d;
  }

  lemma CeilBound(m: nat, d: nat, q: nat)
    requires d > 0 && q < (m + d - 1) / d
    ensures q * d < m
  {
    var p, r := DivParts(m + d - 1, d);
    MulLess(q, p, d);
  }

  lemma FloorBelow(x: nat, d: nat, p: nat)
    requires d > 0
    ensures x < p * d ==> x / d < p
    ensures p * d <= x ==> p <= x / d
  {
    var q, r := DivParts(x, d);
    if p < q { MulLess(p, q, d); }
    if q < p { MulLess(q, p, d); }
  }

  lemma TooFew(missing: nat, left: nat)
    requires left < (missing + REGIONS_PER_PAGE - 1) / REGIONS_PER_PAGE * PAGE
    ensures missing > left / PAGE * REGIONS_PER_PAGE
  {
    FloorBelow(left, PAGE, (missing + REGIONS_PER_PAGE - 1) / REGIONS_PER_PAGE);
    CeilBound(missing, REGIONS_PER_PAGE, left / PAGE);
  }
}
