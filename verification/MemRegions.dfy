/** Regions of an address space: what each virtual byte stands for, and how regions are cut. */
module MemRegions {
  import opened Words
  import opened MemObject

  /** What a virtual byte stands for. */
  datatype Source = Zero | ObjectByte(offset: nat) | PhysByte(addr: nat)

  /**
   * A region: a window of a memory object, preceded and followed by zeros, or a range of physical memory.
   */
  datatype Region =
    | Window(start: nat, size: nat, startOffset: nat, objectOffset: nat, objectSize: nat, cow: bool)
    | Phys(start: nat, size: nat, physStart: nat)

  /** x as a 64-bit word. */
  function Wrap(x: nat): (y: nat)
    ensures x < WORD ==> y == x
    ensures WORD <= x < 2 * WORD ==> y == x - WORD
  {
    x % WORD
  }

  /** The offset of x within its page. */
  function Low(x: nat): (y: nat)
    ensures y <= x && y < PAGE && (x < PAGE ==> y == x)
  {
    x % PAGE
  }

  predicate Holds(r: Region, a: nat) {
    r.start <= a < r.start + r.size
  }

  /** The end of the window in the region, as the code computes it. */
  function WindowEnd(r: Region): (e: nat)
    requires r.Window?
  {
    Wrap(r.startOffset + r.objectSize)
  }

  /** What the byte at a, in region r, stands for. */
  function Denotes(r: Region, a: nat): (s: Source)
    requires Holds(r, a)
  {
    var rel := a - r.start;
    match r
    case Phys(_, _, p) => PhysByte(p + rel)
    case Window(_, _, so, oo, _, _) => if so <= rel < WindowEnd(r) then ObjectByte(oo + (rel - so)) else Zero
  }

  ghost predicate OnPages(r: Region) {
    r.start % PAGE == 0 && r.size % PAGE == 0 && r.size > 0 && r.start + r.size < WORD
  }

  /** Offsets that do not wrap, and that agree within a page as the constructor demands. */
  ghost predicate Ordered(r: Region) {
    match r
    case Phys(_, _, p) => p + r.size < WORD
    case Window(_, _, so, oo, os, cow) =>
      && so + os < WORD && oo + os < WORD && oo + r.size < WORD
      && Low(oo) == Low(so)
      && (cow || (so == 0 && os == r.size))
  }

  /** The regions that trimming always treats right: less than a page of zeros precedes the window. */
  ghost predicate RegionOk(r: Region) {
    OnPages(r) && Ordered(r) && (r.Window? ==> r.startOffset < PAGE)
  }

  // ----- trim

  /** The result of cutting a window down to newSize bytes at newStart. */
  function TrimmedWindow(r: Region, newStart: nat, newSize: nat): (w: Region)
    requires r.Window? && r.start <= newStart
  {
    var diff := newStart - r.start;
    var (so, oo, os) :=
      if diff == 0 then (r.startOffset, r.objectOffset, r.objectSize)
      else if diff <= r.startOffset then
        (r.startOffset - diff, Wrap(r.objectOffset + diff), if r.objectSize < diff then 0 else r.objectSize - diff)
      else
        var t := Low(r.startOffset);
        var so1, oo1, os1 := r.startOffset - t, Sub64(Wrap(r.objectOffset), t), Wrap(r.objectSize + t);
        (if so1 < diff then 0 else so1 - diff, Wrap(oo1 + diff), if os1 < diff then 0 else os1 - diff);
    Window(newStart, newSize, so, oo, if newSize < Wrap(so + os) then Sub64(Wrap(newSize), Wrap(so)) else os, r.cow)
  }

  function Trimmed(r: Region, newStart: nat, newSize: nat): (w: Region)
    requires r.start <= newStart
  {
    if r.Phys? then Phys(newStart, newSize, r.physStart + (newStart - r.start)) else TrimmedWindow(r, newStart, newSize)
  }

  ghost predicate TrimOk(r: Region, newStart: nat, newSize: nat) {
    newStart % PAGE == 0 && newSize % PAGE == 0 && newSize > 0 && r.start <= newStart && newStart + newSize <= r.start + r.size
  }

  /** Every byte that is left stands for what it did. */
  ghost predicate SameBytes(r: Region, w: Region) {
    forall a: nat {:trigger Holds(w, a)} | Holds(w, a) :: Holds(r, a) && Denotes(w, a) == Denotes(r, a)
  }

  lemma TrimKeeps(r: Region, newStart: nat, newSize: nat)
    requires RegionOk(r) && TrimOk(r, newStart, newSize)
    ensures RegionOk(Trimmed(r, newStart, newSize)) && SameBytes(r, Trimmed(r, newStart, newSize))
  {
    if r.Window? {
      if newStart > r.start { PageApart(r.start, newStart); TrimFront(r, newStart, newSize); } else { TrimBack(r, newSize); }
    }
  }

  lemma PageApart(a: nat, b: nat)
    requires a % PAGE == 0 && b % PAGE == 0 && a < b
    ensures a + PAGE <= b && (b - a) % PAGE == 0
  {
    DivUnique(b - a, PAGE, b / PAGE - a / PAGE, 0);
  }

  lemma LowBits(oo: nat, so: nat)
    requires so < PAGE && Low(oo) == Low(so)
    ensures so <= oo && (oo - so) % PAGE == 0
  {
    DivUnique(oo - so, PAGE, oo / PAGE, 0);
  }

  lemma AddPages(x: nat, y: nat)
    requires x % PAGE == 0 && y % PAGE == 0
    ensures (x + y) % PAGE == 0
  {
    DivUnique(x + y, PAGE, x / PAGE + y / PAGE, 0);
  }

  lemma TrimFront(r: Region, newStart: nat, newSize: nat)
    requires RegionOk(r) && TrimOk(r, newStart, newSize) && r.Window? && newStart >= r.start + PAGE && (newStart - r.start) % PAGE == 0
    ensures RegionOk(TrimmedWindow(r, newStart, newSize)) && SameBytes(r, TrimmedWindow(r, newStart, newSize))
  {
    LowBits(r.objectOffset, r.startOffset);
    AddPages(r.objectOffset - r.startOffset, newStart - r.start);
    assert Low(r.objectOffset - r.startOffset + (newStart - r.start)) == 0;
    hide Wrap, Low;
  }

  lemma TrimBack(r: Region, newSize: nat)
    requires RegionOk(r) && TrimOk(r, r.start, newSize) && r.Window?
    ensures RegionOk(TrimmedWindow(r, r.start, newSize)) && SameBytes(r, TrimmedWindow(r, r.start, newSize))
  {
    hide Wrap, Low;
  }

  /** No byte of the object is visible in what remains. */
  predicate WindowGone(r: Region, newStart: nat, newSize: nat)
    requires r.Window? && r.start <= newStart
  {
    var diff := newStart - r.start;
    r.objectSize == 0 || r.startOffset >= diff + newSize || r.startOffset + r.objectSize <= diff
  }

  /**
   * With a page or more of zeros in front, trimming at the front moves the bytes of the object: it keeps
   * the meaning exactly if the front stays, less than a page of zeros precedes the window, or no byte of
   * the window is left.
   */
  lemma TrimExact(r: Region, newStart: nat, newSize: nat)
    requires OnPages(r) && Ordered(r) && r.Window? && TrimOk(r, newStart, newSize)
    ensures SameBytes(r, Trimmed(r, newStart, newSize)) <==>
      newStart == r.start || r.startOffset < PAGE || WindowGone(r, newStart, newSize)
  {
    if newStart == r.start {
      TrimAtStart(r, newSize);
    } else if r.startOffset < PAGE {
      TrimKeeps(r, newStart, newSize);
    } else if WindowGone(r, newStart, newSize) {
      TrimGone(r, newStart, newSize);
    } else {
      TrimShifts(r, newStart, newSize);
    }
  }

  lemma TrimAtStart(r: Region, newSize: nat)
    requires OnPages(r) && Ordered(r) && r.Window? && TrimOk(r, r.start, newSize)
    ensures SameBytes(r, Trimmed(r, r.start, newSize))
  {
    hide OnPages, Wrap, Low;
  }

  /** The parts of a window after a trim of at least a page at the front. */
  lemma TrimParts(r: Region, newStart: nat, newSize: nat)
    requires OnPages(r) && Ordered(r) && r.Window? && TrimOk(r, newStart, newSize) && r.start < newStart
    ensures var w, diff, t := Trimmed(r, newStart, newSize), newStart - r.start, Low(r.startOffset);
      if diff <= r.startOffset then
        && w.startOffset == r.startOffset - diff && w.objectOffset == r.objectOffset + diff
        && WindowEnd(w) == (if newSize < w.startOffset + Less(r.objectSize, diff) then newSize else w.startOffset + Less(r.objectSize, diff))
      else
        && w.startOffset == 0 && r.objectOffset >= t && w.objectOffset == r.objectOffset - t + diff
        && WindowEnd(w) == (if newSize < Less(r.objectSize + t, diff) then newSize else Less(r.objectSize + t, diff))
  {
    PageApart(r.start, newStart);
    LowBitsBelow(r.objectOffset, r.startOffset);
    hide OnPages, Wrap, Low;
  }

  function Less(a: nat, b: nat): (d: nat) {
    if a < b then 0 else a - b
  }

  lemma LowBitsBelow(oo: nat, so: nat)
    requires Low(oo) == Low(so)
    ensures Low(so) <= oo && Low(so) <= so
  {
  }

  lemma TrimGone(r: Region, newStart: nat, newSize: nat)
    requires OnPages(r) && Ordered(r) && r.Window? && TrimOk(r, newStart, newSize) && r.start < newStart
    requires WindowGone(r, newStart, newSize)
    ensures SameBytes(r, Trimmed(r, newStart, newSize))
  {
    TrimParts(r, newStart, newSize);
    hide OnPages, TrimmedWindow;
    assert WindowEnd(r) == r.startOffset + r.objectSize;
    LowBitsBelow(r.objectOffset, r.startOffset);
  }

  lemma TrimShifts(r: Region, newStart: nat, newSize: nat)
    requires OnPages(r) && Ordered(r) && r.Window? && TrimOk(r, newStart, newSize) && r.start < newStart
    requires r.startOffset >= PAGE && !WindowGone(r, newStart, newSize)
    ensures !SameBytes(r, Trimmed(r, newStart, newSize))
  {
    TrimParts(r, newStart, newSize);
    var w, diff := Trimmed(r, newStart, newSize), newStart - r.start;
    assert WindowEnd(r) == r.startOffset + r.objectSize;
    hide OnPages, TrimmedWindow, WindowEnd;
    var a := if diff <= r.startOffset then r.start + r.startOffset else newStart;
    assert Holds(w, a) && Holds(r, a);
    assert Denotes(w, a) != Denotes(r, a);
  }

  predicate IsCow(r: Region) {
    r.Window? && r.cow
  }

  /** By how much trimming to newStart moves the bytes of the window: what is cut off, but at most the whole pages of zeros in front. */
  function Shift(r: Region, newStart: nat): (d: nat) {
    if r.Phys? || newStart <= r.start then 0
    else if newStart - r.start < PageOf(r.startOffset) then newStart - r.start
    else PageOf(r.startOffset)
  }

  /** What the byte at a stands for after trimming to newStart. */
  function Moved(r: Region, newStart: nat, a: nat): (s: Source)
    requires Holds(r, a)
  {
    var rel, shift := a - r.start, Shift(r, newStart);
    match r
    case Phys(_, _, p) => PhysByte(p + rel)
    case Window(_, _, so, oo, os, _) => if so <= rel && rel + shift < so + os then ObjectByte(oo + (rel + shift - so)) else Zero
  }

  /** What trimming does to every byte that is left, for any start offset. */
  lemma TrimDenotes(r: Region, newStart: nat, newSize: nat, a: nat)
    requires OnPages(r) && Ordered(r) && TrimOk(r, newStart, newSize) && newStart <= a < newStart + newSize
    ensures var w := Trimmed(r, newStart, newSize);
      Holds(w, a) && Holds(r, a) && Denotes(w, a) == Moved(r, newStart, a) && w.Window? == r.Window? && IsCow(w) == IsCow(r)
  {
    if r.Window? {
      if newStart == r.start {
        hide OnPages, Wrap, Low;
      } else {
        TrimParts(r, newStart, newSize);
        ShiftIs(r, newStart);
        hide OnPages, Wrap, Low, Shift, PageOf;
      }
    }
  }

  lemma ShiftIs(r: Region, newStart: nat)
    requires OnPages(r) && r.Window? && newStart % PAGE == 0 && r.start < newStart
    ensures var diff, so := newStart - r.start, r.startOffset;
      Shift(r, newStart) == if diff <= so then diff else so - Low(so)
  {
    var diff, so := newStart - r.start, r.startOffset;
    PageApart(r.start, newStart);
    assert PageOf(so) == so - Low(so);
    if diff <= so { WholeBelow(diff, so); }
  }

  lemma WholeBelow(d: nat, x: nat)
    requires d % PAGE == 0 && d <= x
    ensures d <= PageOf(x)
  {
  }

  /** A window behind a page of zeros, cut by one page: its first byte is not what it was. */
  lemma TrimShiftsExample()
    ensures var r := Window(0x10000, 0x4000, 0x1000, 0x5000, 0x3000, true);
      && OnPages(r) && Ordered(r) && TrimOk(r, 0x11000, 0x3000)
      && Denotes(r, 0x11000) == ObjectByte(0x5000) && Denotes(Trimmed(r, 0x11000, 0x3000), 0x11000) == ObjectByte(0x6000)
  {
  }

  // ----- punch_hole

  /** The part of a region after a hole. */
  function AfterHole(r: Region, hole: nat, n: nat): (w: Region)
    requires r.start < hole && hole + n < r.start + r.size
  {
    if r.Phys? then
      Phys(hole + n, r.size - (hole + n - r.start), r.physStart + (hole + n - r.start))
    else
      Trimmed(r, hole + n, r.size - (hole + n - r.start))
  }

  function BeforeHole(r: Region, hole: nat): (w: Region)
    requires r.start < hole
  {
    if r.Phys? then r.(size := hole - r.start) else Trimmed(r, r.start, hole - r.start)
  }

  /** A hole of whole pages strictly inside a region. */
  ghost predicate HoleOk(r: Region, hole: nat, n: nat) {
    hole % PAGE == 0 && n % PAGE == 0 && r.start < hole && hole + n < r.start + r.size
  }

  /** Both parts around a hole are trims of the region. */
  lemma PunchTrims(r: Region, hole: nat, n: nat)
    requires OnPages(r) && HoleOk(r, hole, n)
    ensures var m := r.size - (hole + n - r.start);
      && BeforeHole(r, hole) == Trimmed(r, r.start, hole - r.start) && TrimOk(r, r.start, hole - r.start)
      && AfterHole(r, hole, n) == Trimmed(r, hole + n, m) && TrimOk(r, hole + n, m)
  {
    AddPages(hole, n);
    AddPages(r.start, r.size);
    PageApart(r.start, hole);
    PageApart(hole + n, r.start + r.size);
  }

  lemma PunchKeeps(r: Region, hole: nat, n: nat)
    requires RegionOk(r) && HoleOk(r, hole, n)
    ensures RegionOk(BeforeHole(r, hole)) && SameBytes(r, BeforeHole(r, hole))
    ensures RegionOk(AfterHole(r, hole, n)) && SameBytes(r, AfterHole(r, hole, n))
    ensures forall a: nat :: Holds(r, a) && !(hole <= a < hole + n) <==> Holds(BeforeHole(r, hole), a) || Holds(AfterHole(r, hole, n), a)
  {
    PunchTrims(r, hole, n);
    TrimKeeps(r, r.start, hole - r.start);
    TrimKeeps(r, hole + n, r.size - (hole + n - r.start));
  }

  /** Trimming to newStart moves no byte of the window. */
  predicate FrontSafe(r: Region, newStart: nat, newSize: nat)
    requires r.start <= newStart
  {
    r.Phys? || newStart == r.start || r.startOffset < PAGE || WindowGone(r, newStart, newSize)
  }

  /** For any start offset: the part before a hole keeps its bytes, the part after it exactly if its front is safe. */
  lemma PunchExact(r: Region, hole: nat, n: nat)
    requires OnPages(r) && Ordered(r) && HoleOk(r, hole, n)
    ensures SameBytes(r, BeforeHole(r, hole))
    ensures SameBytes(r, AfterHole(r, hole, n)) <==> FrontSafe(r, hole + n, r.size - (hole + n - r.start))
  {
    PunchTrims(r, hole, n);
    if r.Window? {
      TrimExact(r, r.start, hole - r.start);
      TrimExact(r, hole + n, r.size - (hole + n - r.start));
    }
  }
}
