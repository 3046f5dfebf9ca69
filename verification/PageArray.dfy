/** The page structures of one piece of RAM: which pages go to the allocator and which stay allocated. */
module PageArray {
  import opened Words
  import opened FirmwareMap

  datatype PageState = Unset | Reserved | Allocated | PendingFree | Free

  /** Regions that follow one another, of whole pages; usable ones are not empty. */
  ghost predicate Run(rs: seq<Region>) {
    && rs != []
    && (forall k: nat {:trigger rs[k]} | k < |rs| :: (rs[k].size > 0 || rs[k].kind != Usable) && rs[k].size % PAGE == 0)
    && (forall k: nat {:trigger Next(rs, k)} | k + 1 < |rs| :: Next(rs, k))
  }

  ghost predicate Next(rs: seq<Region>, k: nat)
    requires k + 1 < |rs|
  {
    End(rs[k]) == rs[k + 1].start
  }

  function Pages(r: Region): (n: nat) {
    r.size / PAGE
  }

  /** The number of pages before region k. */
  ghost function Base(rs: seq<Region>, k: nat): (n: nat)
    requires k <= |rs|
  {
    if k == 0 then 0 else Base(rs, k - 1) + Pages(rs[k - 1])
  }

  lemma {:induction false} BaseIs(rs: seq<Region>, k: nat)
    requires Run(rs) && k < |rs|
    ensures rs[0].start <= rs[k].start && rs[k].start - rs[0].start == Base(rs, k) * PAGE
  {
    if k > 0 {
      BaseIs(rs, k - 1);
      assert Next(rs, k - 1);
      Whole(rs[k - 1]);
    }
  }

  lemma Whole(r: Region)
    requires r.size % PAGE == 0
    ensures r.size == Pages(r) * PAGE && (r.size > 0 ==> Pages(r) > 0)
  {
  }

  lemma {:induction false} BaseOrder(rs: seq<Region>, j: nat, k: nat)
    requires j <= k <= |rs|
    ensures Base(rs, j) <= Base(rs, k) && (j < k ==> Base(rs, j) + Pages(rs[j]) <= Base(rs, k))
    decreases k - j
  {
    if j < k { BaseOrder(rs, j, k - 1); }
  }

  lemma TimesPage(n: nat)
    ensures n * PAGE / PAGE == n
  {
    DivUnique(n * PAGE, PAGE, n, 0);
  }

  /** How the piece is used: the entry of the temporary pool, and the one that holds the page structures. */
  datatype Plan = Plan(temp: int, alloc: int, occupied: nat)

  /** Page o of region k is to be given to the allocator. */
  predicate ToFree(rs: seq<Region>, k: nat, o: nat, plan: Plan)
    requires k < |rs|
  {
    rs[k].kind == Usable && k != plan.temp && (k == plan.alloc ==> o >= plan.occupied)
  }

  /** The final state of page o of region k; of the temporary pool only the first and the last page are set. */
  ghost predicate PageDone(rs: seq<Region>, k: nat, o: nat, plan: Plan, s: PageState)
    requires k < |rs|
  {
    if ToFree(rs, k, o, plan) then s == Free
    else if rs[k].kind == Usable && k == plan.temp && 0 < o < Pages(rs[k]) - 1 then s == Unset
    else s == Allocated
  }

  ghost predicate RegionDone(pages: seq<PageState>, freed: set<nat>, rs: seq<Region>, k: nat, plan: Plan)
    requires k < |rs|
  {
    forall o: nat {:trigger PageAt(pages, freed, rs, k, plan, o)} | o < Pages(rs[k]) :: PageAt(pages, freed, rs, k, plan, o)
  }

  ghost predicate PageAt(pages: seq<PageState>, freed: set<nat>, rs: seq<Region>, k: nat, plan: Plan, o: nat)
    requires k < |rs|
  {
    var j := Base(rs, k) + o;
    j + 1 < |pages| && PageDone(rs, k, o, plan, pages[j + 1]) && (j in freed <==> ToFree(rs, k, o, plan))
  }

  /** The piece is set up through region k - 1: the pages freed are exactly those to free, and the sentinels stand. */
  ghost predicate Done(pages: seq<PageState>, freed: set<nat>, rs: seq<Region>, k: nat, plan: Plan)
    requires k <= |rs|
  {
    && |pages| == Base(rs, |rs|) + 2
    && (forall i: nat {:trigger RegionDone(pages, freed, rs, i, plan)} | i < k :: RegionDone(pages, freed, rs, i, plan))
    && (forall j: nat | j in freed :: j < Base(rs, k))
    && (forall j: nat | Base(rs, k) + 1 < j < |pages| - 1 :: pages[j] == Unset)
    && pages[0] == PageState.Reserved && pages[|pages| - 1] == PageState.Reserved
  }

  /** What the search for room for the page structures may find. */
  ghost predicate PlanOk(rs: seq<Region>, plan: Plan) {
    plan.alloc >= 0 ==> plan.alloc < |rs| && plan.alloc != plan.temp && rs[plan.alloc].kind == Usable && plan.occupied <= Pages(rs[plan.alloc])
  }

  /** Region k can hold the page structures. */
  predicate Roomy(rs: seq<Region>, k: nat, temp: int, need: nat)
    requires k < |rs|
  {
    k != temp && rs[k].kind == Usable && rs[k].size >= need
  }

  /** The structures take no more whole pages than they need, in the first region that has room. */
  ghost predicate Chosen(rs: seq<Region>, plan: Plan, structSize: nat) {
    var x, need := (Base(rs, |rs|) + 2) * structSize, plan.occupied * PAGE;
    && x <= need < x + PAGE && -1 <= plan.alloc < |rs|
    && (forall k: nat | k < (if plan.alloc < 0 then |rs| else plan.alloc) :: !Roomy(rs, k, plan.temp, need))
    && (plan.alloc >= 0 ==> Roomy(rs, plan.alloc, plan.temp, need))
  }

  /** Changes from page Base(k) on leave the regions before k done. */
  lemma {:induction false} DoneBefore(pages: seq<PageState>, freed: set<nat>, pages': seq<PageState>, freed': set<nat>,
    rs: seq<Region>, k: nat, plan: Plan)
    requires k <= |rs| && Done(pages, freed, rs, k, plan) && |pages'| == |pages|
    requires forall j: nat | j <= Base(rs, k) && j < |pages| :: pages'[j] == pages[j]
    requires forall j: nat | j < Base(rs, k) :: j in freed' <==> j in freed
    ensures forall i: nat {:trigger RegionDone(pages', freed', rs, i, plan)} | i < k :: RegionDone(pages', freed', rs, i, plan)
  {
    BaseOrder(rs, k, |rs|);
    forall i: nat | i < k ensures RegionDone(pages', freed', rs, i, plan) {
      assert RegionDone(pages, freed, rs, i, plan);
      BaseOrder(rs, i, k);
      forall o: nat | o < Pages(rs[i]) ensures PageAt(pages', freed', rs, i, plan, o) { assert PageAt(pages, freed, rs, i, plan, o); }
    }
  }

  /** The first region other than the temporary pool that can hold the page structures, or -1. */
  method ChooseRoom(rs: seq<Region>, temp: int, need: nat) returns (alloc: int)
    ensures -1 <= alloc < |rs| && (alloc >= 0 ==> Roomy(rs, alloc, temp, need))
    ensures forall k: nat | k < (if alloc < 0 then |rs| else alloc) :: !Roomy(rs, k, temp, need)
  {
    var i := 0;
    while i < |rs|
      invariant i <= |rs| && forall k: nat | k < i :: !Roomy(rs, k, temp, need)
    {
      if i != temp && rs[i].kind == Usable && rs[i].size >= need {
        return i;
      }
      i := i + 1;
    }
    return -1;
  }

  /** Mark pages lo up to hi as allocated. */
  method MarkAllocated(pages: array<PageState>, lo: nat, hi: nat)
    requires lo <= hi && hi + 1 < pages.Length
    modifies pages
    ensures forall j: nat | j < pages.Length :: pages[j] == if lo < j <= hi then Allocated else old(pages[j])
  {
    var j := lo;
    while j < hi
      invariant lo <= j <= hi
      invariant forall i: nat | i < pages.Length :: pages[i] == if lo < i <= j then Allocated else old(pages[i])
    {
      pages[j + 1] := Allocated;
      j := j + 1;
    }
  }

  /** Give pages lo up to hi to the allocator, after fencing them off from what follows. */
  method FreePages(pages: array<PageState>, lo: nat, hi: nat, ghost freed: set<nat>) returns (ghost freed': set<nat>)
    requires lo < hi && hi + 1 < pages.Length && forall j: nat | lo <= j < hi :: j !in freed
    modifies pages
    ensures forall j: nat | j < pages.Length :: pages[j] == if lo < j <= hi then Free else if j == hi + 1 then PageState.Reserved else old(pages[j])
    ensures forall j: nat :: j in freed' <==> j in freed || lo <= j < hi
  {
    pages[hi + 1] := PageState.Reserved;
    pages[lo + 1] := PendingFree;
    freed' := freed;
    var j := lo;
    while j < hi
      invariant lo <= j <= hi
      invariant forall i: nat | i < pages.Length ::
        pages[i] == if lo < i <= j then Free else if i == lo + 1 then PendingFree else if i == hi + 1 then PageState.Reserved else old(pages[i])
      invariant forall i: nat :: i in freed' <==> i in freed || lo <= i < j
    {
      pages[j + 1] := Free;
      freed' := freed' + {j};
      j := j + 1;
    }
  }

  /** Set up the pages of region k. */
  method SetUpRegion(pages: array<PageState>, rs: seq<Region>, k: nat, plan: Plan, ghost freed: set<nat>) returns (ghost freed': set<nat>)
    requires Run(rs) && k < |rs| && PlanOk(rs, plan) && Done(pages[..], freed, rs, k, plan)
    modifies pages
    ensures Done(pages[..], freed', rs, k + 1, plan)
  {
    hide RegionDone, Touched;
    BaseIs(rs, k);
    Whole(rs[k]);
    BaseOrder(rs, k + 1, |rs|);
    assert Base(rs, k + 1) == Base(rs, k) + Pages(rs[k]);
    ghost var was := pages[..];
    var base := (rs[k].start - rs[0].start) / PAGE;
    TimesPage(Base(rs, k));
    assert pages[..][pages.Length - 1] == pages[pages.Length - 1];
    assert forall j: nat | base + 1 < j < pages.Length - 1 :: pages[..][j] == pages[j];
    if rs[k].kind == Usable {
      freed' := SetUpUsable(pages, rs, k, plan, base, freed);
    } else {
      SetUpOther(pages, rs, k, plan, base, freed);
      freed' := freed;
    }
    TouchedDone(was, freed, pages[..], freed', rs, k, plan);
  }

  method SetUpUsable(pages: array<PageState>, rs: seq<Region>, k: nat, plan: Plan, base: nat, ghost freed: set<nat>) returns (ghost freed': set<nat>)
    requires k < |rs| && PlanOk(rs, plan) && base == Base(rs, k) && base + Pages(rs[k]) + 1 < pages.Length && rs[k].kind == Usable && Pages(rs[k]) > 0
    requires pages[pages.Length - 1] == PageState.Reserved && forall j: nat | base + 1 < j < pages.Length - 1 :: pages[j] == Unset
    requires forall j: nat | j in freed :: j < base
    modifies pages
    ensures Touched(old(pages[..]), freed, pages[..], freed', rs, k, plan)
  {
    hide Base, Pages;
    ghost var was := pages[..];
    var n := Pages(rs[k]);
    freed' := freed;
    if k == plan.temp {
      pages[base + 1] := Allocated;
      pages[base + n] := Allocated;
    } else if k == plan.alloc {
      MarkAllocated(pages, base, base + plan.occupied);
      if plan.occupied != n {
        freed' := FreePages(pages, base + plan.occupied, base + n, freed);
      }
    } else {
      freed' := FreePages(pages, base, base + n, freed);
    }
    assert forall j: nat {:trigger pages[..][j]} | j < |pages[..]| :: pages[..][j] == pages[j];
  }

  method SetUpOther(pages: array<PageState>, rs: seq<Region>, k: nat, plan: Plan, base: nat, ghost freed: set<nat>)
    requires k < |rs| && base == Base(rs, k) && base + Pages(rs[k]) + 1 < pages.Length && rs[k].kind != Usable
    requires pages[pages.Length - 1] == PageState.Reserved
    modifies pages
    ensures Touched(old(pages[..]), freed, pages[..], freed, rs, k, plan)
  {
    hide Base, Pages;
    MarkAllocated(pages, base, base + Pages(rs[k]));
    assert forall j: nat {:trigger pages[..][j]} | j < |pages[..]| :: pages[..][j] == pages[j];
  }

  /** Only the pages of region k and the fence after them change, and they become what they should be. */
  ghost predicate Touched(was: seq<PageState>, freed: set<nat>, now: seq<PageState>, freed': set<nat>, rs: seq<Region>, k: nat, plan: Plan)
    requires k < |rs|
  {
    var base, n := Base(rs, k), Pages(rs[k]);
    && |now| == |was| && base + n + 1 < |was| && now[|now| - 1] == PageState.Reserved
    && (forall j: nat {:trigger now[j]} | j < |now| && (j <= base || base + n + 1 < j) :: now[j] == was[j])
    && (forall j: nat {:trigger now[j]} | base < j <= base + n :: PageDone(rs, k, j - base - 1, plan, now[j]))
    && (forall j: nat {:trigger j in freed'} :: j in freed' <==> j in freed || (base <= j < base + n && ToFree(rs, k, j - base, plan)))
  }

  lemma {:induction false} TouchedDone(was: seq<PageState>, freed: set<nat>, now: seq<PageState>, freed': set<nat>,
    rs: seq<Region>, k: nat, plan: Plan)
    requires k < |rs| && Done(was, freed, rs, k, plan) && Touched(was, freed, now, freed', rs, k, plan)
    ensures Done(now, freed', rs, k + 1, plan)
  {
    hide PageDone, RegionDone;
    DoneBefore(was, freed, now, freed', rs, k, plan);
    var base := Base(rs, k);
    forall o: nat | o < Pages(rs[k]) ensures PageAt(now, freed', rs, k, plan, o) {
      assert PageDone(rs, k, o, plan, now[base + o + 1]);
      assert base + o in freed' <==> ToFree(rs, k, o, plan);
    }
    DoneNext(now, freed', rs, k, plan);
  }

  lemma {:induction false} DoneNext(pages: seq<PageState>, freed: set<nat>, rs: seq<Region>, k: nat, plan: Plan)
    requires k < |rs| && forall o: nat {:trigger PageAt(pages, freed, rs, k, plan, o)} | o < Pages(rs[k]) :: PageAt(pages, freed, rs, k, plan, o)
    requires |pages| == Base(rs, |rs|) + 2 && pages[0] == PageState.Reserved && pages[|pages| - 1] == PageState.Reserved
    requires forall i: nat {:trigger RegionDone(pages, freed, rs, i, plan)} | i < k :: RegionDone(pages, freed, rs, i, plan)
    requires forall j: nat | j in freed :: j < Base(rs, k) + Pages(rs[k])
    requires forall j: nat | Base(rs, k) + Pages(rs[k]) + 1 < j < |pages| - 1 :: pages[j] == Unset
    ensures Done(pages, freed, rs, k + 1, plan)
  {
    assert RegionDone(pages, freed, rs, k, plan);
    assert Base(rs, k + 1) == Base(rs, k) + Pages(rs[k]);
  }

  /**
   * Set up the page structures of a piece.  The pages given to the allocator are exactly the usable ones
   * outside the temporary pool that do not hold the structures themselves, each once.
   */
  method SetUp(rs: seq<Region>, temp: int, structSize: nat) returns (pages: array<PageState>, plan: Plan, ghost freed: set<nat>)
    requires Run(rs)
    ensures fresh(pages) && PlanOk(rs, plan) && plan.temp == temp && Done(pages[..], freed, rs, |rs|, plan)
    ensures Chosen(rs, plan, structSize)
  {
    hide RegionDone;
    var last := rs[|rs| - 1];
    BaseIs(rs, |rs| - 1);
    Whole(last);
    var size := End(last) - rs[0].start;
    assert size == (Base(rs, |rs| - 1) + Pages(last)) * PAGE;
    TimesPage(Base(rs, |rs|));
    var entries := size / PAGE + 2;
    var occupied := (entries * structSize + (PAGE - 1)) / PAGE;
    RoundedUp(entries * structSize);
    var alloc := ChooseRoom(rs, temp, occupied * PAGE);
    plan := Plan(temp, alloc, occupied);
    if alloc >= 0 { RoomEnough(rs[alloc], occupied); }
    pages := new PageState[entries](_ => Unset);
    pages[0] := PageState.Reserved;
    pages[entries - 1] := PageState.Reserved;
    freed := {};
    var k := 0;
    while k < |rs|
      invariant k <= |rs| && Done(pages[..], freed, rs, k, plan)
    {
      freed := SetUpRegion(pages, rs, k, plan, freed);
      k := k + 1;
    }
  }

  // ----- which pages the allocator gets, by address

  /** Address a starts a page of region k that is to be given to the allocator. */
  ghost predicate FreeAt(rs: seq<Region>, k: nat, plan: Plan, a: nat)
    requires k < |rs|
  {
    && a % PAGE == 0 && Covers(rs[k], a) && rs[k].kind == Usable && k != plan.temp
    && (k == plan.alloc ==> a >= rs[k].start + plan.occupied * PAGE)
  }

  /** The pages freed in a piece that starts at lo, by address. */
  ghost function Addresses(freed: set<nat>, lo: nat): (r: set<nat>) {
    set j | j in freed :: lo + j * PAGE
  }

  lemma PageIn(r: Region, o: nat)
    requires r.size % PAGE == 0
    ensures o < Pages(r) <==> o * PAGE < r.size
  {
    Whole(r);
    if o < Pages(r) { MulLess(o, Pages(r)); } else { MulLess(Pages(r), o + 1); }
  }

  lemma MulLess(a: nat, b: nat)
    requires a < b
    ensures a * PAGE + PAGE <= b * PAGE
  {
  }

  /** Page o of region k by its address. */
  lemma {:induction false} PageAddress(rs: seq<Region>, k: nat, o: nat)
    requires Run(rs) && k < |rs| && rs[0].start % PAGE == 0
    ensures rs[0].start + (Base(rs, k) + o) * PAGE == rs[k].start + o * PAGE && (rs[k].start + o * PAGE) % PAGE == 0
  {
    BaseIs(rs, k);
    var q := rs[0].start / PAGE + Base(rs, k) + o;
    DivUnique(rs[k].start + o * PAGE, PAGE, q, 0);
  }

  /** A page of the piece is a page of one of its regions. */
  lemma {:induction false} PageOwner(rs: seq<Region>, k: nat, j: nat) returns (i: nat)
    requires k <= |rs| && j < Base(rs, k)
    ensures i < k && Base(rs, i) <= j < Base(rs, i) + Pages(rs[i])
    decreases k
  {
    if j >= Base(rs, k - 1) {
      i := k - 1;
    } else {
      i := PageOwner(rs, k - 1, j);
    }
  }

  /** Once a piece is done, the pages that were freed are exactly those to free. */
  lemma {:induction false} FreedExact(pages: seq<PageState>, freed: set<nat>, rs: seq<Region>, plan: Plan, a: nat)
    requires Run(rs) && rs[0].start % PAGE == 0 && Done(pages, freed, rs, |rs|, plan)
    ensures a in Addresses(freed, rs[0].start) <==> exists k: nat | k < |rs| :: FreeAt(rs, k, plan, a)
  {
    assert rs != [];
    hide PageDone, Run, Base;
    if j :| j in freed && a == rs[0].start + j * PAGE {
      var k := PageOwner(rs, |rs|, j);
      FreedPage(pages, freed, rs, plan, k, j - Base(rs, k));
    }
    if k: nat :| k < |rs| && FreeAt(rs, k, plan, a) {
      var o: nat := (a - rs[k].start) / PAGE;
      RegionPage(rs, k, a);
      FreedPage(pages, freed, rs, plan, k, o);
      assert Base(rs, k) + o in freed;
    }
  }

  /** A page-aligned address of a region is the start of one of its pages. */
  lemma {:induction false} RegionPage(rs: seq<Region>, k: nat, a: nat)
    requires Run(rs) && k < |rs| && rs[0].start % PAGE == 0 && a % PAGE == 0 && Covers(rs[k], a)
    ensures a == rs[k].start + (a - rs[k].start) / PAGE * PAGE && (a - rs[k].start) / PAGE < Pages(rs[k])
  {
    PageAddress(rs, k, 0);
    var o := a / PAGE - rs[k].start / PAGE;
    DivUnique(a - rs[k].start, PAGE, o, 0);
    PageIn(rs[k], o);
  }

  lemma {:induction false} FreedPage(pages: seq<PageState>, freed: set<nat>, rs: seq<Region>, plan: Plan, k: nat, o: nat)
    requires Run(rs) && rs[0].start % PAGE == 0 && Done(pages, freed, rs, |rs|, plan) && k < |rs| && o < Pages(rs[k])
    ensures Base(rs, k) + o in freed <==> FreeAt(rs, k, plan, rs[k].start + o * PAGE)
    ensures rs[0].start + (Base(rs, k) + o) * PAGE == rs[k].start + o * PAGE
  {
    hide PageDone, Base;
    PageAddress(rs, k, o);
    PageIn(rs[k], o);
    assert RegionDone(pages, freed, rs, k, plan);
    assert PageAt(pages, freed, rs, k, plan, o);
    assert o >= plan.occupied <==> o * PAGE >= plan.occupied * PAGE by {
      if o < plan.occupied { MulLess(o, plan.occupied); }
    }
  }

  lemma RoundedUp(x: nat)
    ensures x <= (x + (PAGE - 1)) / PAGE * PAGE < x + PAGE
  {
  }

  lemma RoomEnough(r: Region, occupied: nat)
    requires r.size >= occupied * PAGE
    ensures occupied <= Pages(r)
  {
  }
}
