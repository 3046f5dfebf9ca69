/** Page faults in a region over a memory object: the page that is installed shows the bytes of the region. */
module PageFault {
  import opened Words
  import opened MemObject
  import opened MemRegions

  /** Where an installed page comes from: made for this region, or the object's own page at an offset. */
  datatype Origin = Private | Shared(offset: nat)

  /** The page handed to the page table. */
  datatype Fault = Mapped(data: seq<byte>, origin: Origin) | Failed(status: Status)

  /** The value of a byte of the region; a copy-on-write region of an anonymous object starts from zeros. */
  ghost function ValueOf(obj: Object, r: Region, s: Source): (b: byte)
    requires obj.Valid() && r.Window?
    reads obj
  {
    if s.ObjectByte? && !(obj.anonymous && r.cow) then obj.ByteAt(s.offset) else 0
  }

  ghost predicate ShowsAt(obj: Object, r: Region, page: nat, data: seq<byte>, k: nat)
    requires obj.Valid() && k < |data| && r.Window?
    reads obj
  {
    Holds(r, page + k) && data[k] == ValueOf(obj, r, Denotes(r, page + k))
  }

  /** Byte k of the page stands for a byte of the object in a page beyond its size. */
  ghost predicate MissingAt(r: Region, page: nat, size: nat, k: nat) {
    && k < PAGE && Holds(r, page + k)
    && var s := Denotes(r, page + k); s.ObjectByte? && PageOf(s.offset) >= size * PAGE
  }

  /** A fault in this page asks for a page of the object. */
  predicate AsksObject(r: Region, page: nat)
    requires r.Window? && r.start <= page
  {
    !r.cow || (page - r.start + PAGE > r.startOffset && page - r.start < r.startOffset + r.objectSize)
  }

  /** The page of the object for this page of the region lies beyond its size. */
  predicate Beyond(r: Region, page: nat, size: nat)
    requires r.Window? && r.start <= page
  {
    page - r.start + r.objectOffset >= r.startOffset + size * PAGE
  }

  /** The whole page of the region lies in its window. */
  predicate Inside(r: Region, page: nat)
    requires r.Window? && r.start <= page
  {
    r.startOffset <= page - r.start && page - r.start + PAGE <= r.startOffset + r.objectSize
  }

  /** The offset in the object of the page for this page of the region. */
  function PlaceInObject(r: Region, page: nat): (offset: int)
    requires r.Window? && r.start <= page
  {
    page - r.start - r.startOffset + r.objectOffset
  }

  /** The object's own page is installed: always, except that copy-on-write shares only whole pages, for reading. */
  predicate Shares(r: Region, page: nat, anonymous: bool, write: bool)
    requires r.Window? && r.start <= page
  {
    !r.cow || (Inside(r, page) && !write && !anonymous)
  }

  /** How many new pages a fault needs: a private one unless it shares, and the object's if that is asked for and not there. */
  function NewPages(r: Region, page: nat, anonymous: bool, write: bool, has: bool): (n: nat)
    requires r.Window? && r.start <= page
  {
    (if Shares(r, page, anonymous, write) then 0 else 1) + (if AsksObject(r, page) && !(anonymous && r.cow) && !has then 1 else 0)
  }

  /** A window of no bytes lies strictly inside the page. */
  predicate EmptyInside(r: Region, page: nat)
    requires r.Window? && r.start <= page
  {
    r.cow && r.objectSize == 0 && page - r.start < r.startOffset < page - r.start + PAGE
  }

  ghost predicate SomeMissing(r: Region, page: nat, size: nat) {
    exists k: nat :: MissingAt(r, page, size, k)
  }

  /** The page at address page shows what the region says. */
  ghost predicate Shows(obj: Object, r: Region, page: nat, data: seq<byte>)
    requires obj.Valid() && r.Window?
    reads obj
  {
    |data| == PAGE && forall k: nat | k < PAGE :: ShowsAt(obj, r, page, data, k)
  }

  ghost predicate HasAt(ps: seq<Page>, offset: int) {
    offset >= 0 && HasPage(ps, offset)
  }

  /** The pages of an object after a zeroed page was added at the offset, if it was. */
  ghost function PagesAfter(ps: seq<Page>, added: bool, offset: int): (ps': seq<Page>) {
    if added && offset >= 0 then [Page(offset, Zeros())] + ps else ps
  }

  /** A page of zeros, or a copy of a page of the object. */
  method RequestAnonymousPage(obj: Object, offset: nat, empty: bool) returns (status: Status, data: seq<byte>)
    requires obj.Valid() && offset % PAGE == 0
    modifies obj
    ensures obj.Valid() && forall x: nat :: obj.ByteAt(x) == old(obj.ByteAt(x))
    ensures status == Ok ==>
      |data| == PAGE && forall k: nat | k < PAGE :: data[k] == if empty || obj.anonymous then 0 else obj.ByteAt(offset + k)
    ensures status == EInval <==> !empty && !obj.anonymous && offset >= obj.pagesSize * PAGE
    ensures status == ENoMem <==>
      status != EInval && old(obj.freePages) < 1 + (if !empty && !obj.anonymous && !old(obj.Has(offset)) then 1 else 0)
    ensures |obj.pages| + obj.privatePages + obj.freePages == old(|obj.pages| + obj.privatePages + obj.freePages)
    ensures status == Ok ==> obj.privatePages == old(obj.privatePages) + 1
    ensures status == Ok ==> obj.pages == PagesAfter(old(obj.pages), !empty && !obj.anonymous && !old(obj.Has(offset)), offset)
  {
    PageStart(offset, obj.pagesSize);
    data := Zeros();
    if !empty && !obj.anonymous {
      var k;
      status, k := obj.RequestPage(offset);
      if status != Ok {
        return;
      }
      data := obj.pages[k].data;
      PageBytes(obj, k);
    }
    var ok := obj.PushPrivatePage();
    status := if ok then Ok else ENoMem;
  }

  lemma PageBytes(obj: Object, k: nat)
    requires obj.Valid() && k < |obj.pages|
    ensures |obj.pages[k].data| == PAGE
    ensures forall j: nat | j < PAGE :: obj.pages[k].data[j] == obj.ByteAt(obj.pages[k].offset + j)
  {
    LookAt(obj.pages, k);
    forall j: nat | j < PAGE ensures obj.pages[k].data[j] == obj.ByteAt(obj.pages[k].offset + j) {
      InPage(obj.pages[k].offset, obj.pages[k].offset + j);
    }
  }

  /**
   * Handle a fault at addr: the page that is installed shows the bytes of the region.  The fault is refused
   * exactly if it asks for a page beyond the size of the object; see RefusedExact for when that is.
   */
  method AllocPage(r: Region, obj: Object, addr: nat, write: bool) returns (result: Fault)
    requires r.Window? && OnPages(r) && Ordered(r) && Holds(r, addr) && obj.Valid()
    modifies obj
    ensures obj.Valid() && forall x: nat :: obj.ByteAt(x) == old(obj.ByteAt(x))
    ensures result.Mapped? ==> Shows(obj, r, PageOf(addr), result.data)
    ensures r.start <= PageOf(addr) && (result == Failed(EInval) <==>
      AsksObject(r, PageOf(addr)) && Beyond(r, PageOf(addr), obj.pagesSize) && !(obj.anonymous && r.cow))
    ensures result.Mapped? ==> (result.origin.Shared? <==> Shares(r, PageOf(addr), obj.anonymous, write))
    ensures result.Mapped? && result.origin.Shared? ==> result.origin.offset == PlaceInObject(r, PageOf(addr)) && obj.Has(result.origin.offset)
    ensures result == Failed(ENoMem) <==>
      result != Failed(EInval) &&
      old(obj.freePages) < NewPages(r, PageOf(addr), obj.anonymous, write, HasAt(old(obj.pages), PlaceInObject(r, PageOf(addr))))
    ensures result != Failed(Ok)
    ensures |obj.pages| + obj.privatePages + obj.freePages == old(|obj.pages| + obj.privatePages + obj.freePages)
    ensures result.Mapped? ==> obj.privatePages == old(obj.privatePages) + if result.origin == Private then 1 else 0
    ensures result.Mapped? ==> var place := PlaceInObject(r, PageOf(addr));
      obj.pages == PagesAfter(old(obj.pages), AsksObject(r, PageOf(addr)) && !(obj.anonymous && r.cow) && !HasAt(old(obj.pages), place), place)
  {
    var page := PageOf(addr);
    FaultPage(r, addr);
    if !r.cow {
      result := MapObjectPage(r, obj, page);
      return;
    }
    var regAddr := page - r.start;
    var limit := r.startOffset + r.objectSize;
    if regAddr + PAGE <= r.startOffset || regAddr >= limit {
      result := MapEmpty(r, obj, page);
    } else if regAddr >= r.startOffset && regAddr + PAGE <= limit && !write {
      result := MapObjectPage(r, obj, page);
    } else {
      result := MapCopy(r, obj, page);
    }
  }

  method MapEmpty(r: Region, obj: Object, page: nat) returns (result: Fault)
    requires r.Window? && Ordered(r) && obj.Valid() && r.start <= page && page + PAGE <= r.start + r.size
    requires page - r.start + PAGE <= r.startOffset || page - r.start >= r.startOffset + r.objectSize
    modifies obj
    ensures obj.Valid() && forall x: nat :: obj.ByteAt(x) == old(obj.ByteAt(x))
    ensures result.Mapped? ==> Shows(obj, r, page, result.data) && result.origin == Private
    ensures result.Failed? ==> result.status == ENoMem
    ensures result.Failed? <==> old(obj.freePages) < 1
    ensures |obj.pages| + obj.privatePages + obj.freePages == old(|obj.pages| + obj.privatePages + obj.freePages)
    ensures result.Mapped? ==> obj.privatePages == old(obj.privatePages) + 1 && obj.pages == old(obj.pages)
  {
    hide Low;
    var status, data := RequestAnonymousPage(obj, 0, true);
    if status == Ok {
      forall k: nat | k < PAGE ensures ShowsAt(obj, r, page, data, k) {
        InsideWindow(r, page, k);
      }
    }
    result := if status == Ok then Mapped(data, Private) else Failed(status);
  }

  /** The page lies inside the window: show the object's own page, or a private one if the object is anonymous. */
  method MapObjectPage(r: Region, obj: Object, page: nat) returns (result: Fault)
    requires r.Window? && Ordered(r) && obj.Valid() && r.start <= page && page + PAGE <= r.start + r.size
    requires r.startOffset <= page - r.start && page - r.start + PAGE <= r.startOffset + r.objectSize
    requires (page - r.start) % PAGE == 0
    modifies obj
    ensures obj.Valid() && forall x: nat :: obj.ByteAt(x) == old(obj.ByteAt(x))
    ensures result.Mapped? ==> Shows(obj, r, page, result.data)
    ensures result.Mapped? ==> result.origin == if obj.anonymous && r.cow then Private else Shared(PlaceInObject(r, page))
    ensures result.Mapped? && result.origin.Shared? ==> obj.Has(result.origin.offset)
    ensures result == Failed(EInval) <==> Beyond(r, page, obj.pagesSize) && !(obj.anonymous && r.cow)
    ensures result == Failed(ENoMem) <==>
      result != Failed(EInval) && old(obj.freePages) == 0 && ((obj.anonymous && r.cow) || !HasAt(old(obj.pages), PlaceInObject(r, page)))
    ensures result != Failed(Ok)
    ensures |obj.pages| + obj.privatePages + obj.freePages == old(|obj.pages| + obj.privatePages + obj.freePages)
    ensures result.Mapped? ==> obj.privatePages == old(obj.privatePages) + if result.origin == Private then 1 else 0
    ensures result.Mapped? ==> var place := PlaceInObject(r, page);
      obj.pages == PagesAfter(old(obj.pages), !(obj.anonymous && r.cow) && !HasAt(old(obj.pages), place), place)
  {
    var offset := page - r.start - r.startOffset + r.objectOffset;
    OffsetAligned(r, page - r.start);
    PageStart(offset, obj.pagesSize);
    var status, k, zeros;
    if r.cow {
      status, k, zeros := obj.RequestPageCow(offset);
    } else {
      status, k := obj.RequestPage(offset);
      zeros := false;
    }
    if status != Ok {
      return Failed(status);
    }
    if zeros {
      forall j: nat | j < PAGE ensures ShowsAt(obj, r, page, Zeros(), j) { InsideWindow(r, page, j); }
      return Mapped(Zeros(), Private);
    }
    PageBytes(obj, k);
    var data := obj.pages[k].data;
    forall j: nat | j < PAGE ensures ShowsAt(obj, r, page, data, j) {
      InsideWindow(r, page, j);
      assert data[j] == obj.ByteAt(offset + j);
    }
    result := Mapped(data, Shared(offset));
  }

  /** Copy the object's page and clear what lies outside the window. */
  method MapCopy(r: Region, obj: Object, page: nat) returns (result: Fault)
    requires r.Window? && r.cow && Ordered(r) && obj.Valid() && r.start <= page && page + PAGE <= r.start + r.size
    requires page - r.start + PAGE > r.startOffset && page - r.start < r.startOffset + r.objectSize
    requires (page - r.start) % PAGE == 0
    modifies obj
    ensures obj.Valid() && forall x: nat :: obj.ByteAt(x) == old(obj.ByteAt(x))
    ensures result.Mapped? ==> Shows(obj, r, page, result.data) && result.origin == Private
    ensures result == Failed(EInval) <==> Beyond(r, page, obj.pagesSize) && !obj.anonymous
    ensures result == Failed(ENoMem) <==>
      result != Failed(EInval) && old(obj.freePages) < 1 + (if !obj.anonymous && !HasAt(old(obj.pages), PlaceInObject(r, page)) then 1 else 0)
    ensures result != Failed(Ok)
    ensures |obj.pages| + obj.privatePages + obj.freePages == old(|obj.pages| + obj.privatePages + obj.freePages)
    ensures result.Mapped? ==> obj.privatePages == old(obj.privatePages) + 1
    ensures result.Mapped? ==> var place := PlaceInObject(r, page);
      obj.pages == PagesAfter(old(obj.pages), !obj.anonymous && !HasAt(old(obj.pages), place), place)
  {
    var regAddr := page - r.start;
    OffsetAligned(r, regAddr);
    var offset := regAddr + r.objectOffset - r.startOffset;
    var status, data := RequestAnonymousPage(obj, offset, false);
    if status != Ok {
      return Failed(status);
    }
    hide Low;
    var buffer := new byte[PAGE](k requires 0 <= k < PAGE && |data| == PAGE => data[k]);
    var startSize := if regAddr < r.startOffset then r.startOffset - regAddr else 0;
    Clear(buffer, 0, startSize);
    var limit := r.startOffset + r.objectSize;
    var endSize := if regAddr + PAGE > limit then regAddr + PAGE - limit else 0;
    Clear(buffer, PAGE - endSize, PAGE);
    forall k: nat | k < PAGE ensures ShowsAt(obj, r, page, buffer[..], k) {
      InsideWindow(r, page, k);
      assert data[k] == if obj.anonymous then 0 else obj.ByteAt(offset + k);
    }
    result := Mapped(buffer[..], Private);
  }

  /** Fill part of a page with zeros. */
  method Clear(buffer: array<byte>, lo: nat, hi: nat)
    requires lo <= hi <= buffer.Length
    modifies buffer
    ensures forall k: nat | k < buffer.Length :: buffer[k] == if lo <= k < hi then 0 else old(buffer[k])
  {
    var k := lo;
    while k < hi
      invariant lo <= k <= hi
      invariant forall j: nat | j < buffer.Length :: buffer[j] == if lo <= j < k then 0 else old(buffer[j])
    {
      buffer[k] := 0;
      k := k + 1;
    }
  }

  // ----- when a fault is refused

  /** A page that asks for a missing page of the object shows a byte of it, unless its window is empty. */
  lemma SomeByteMissing(r: Region, page: nat, size: nat)
    requires r.Window? && Ordered(r) && r.start <= page && page + PAGE <= r.start + r.size && (page - r.start) % PAGE == 0
    requires AsksObject(r, page) && Beyond(r, page, size) && !EmptyInside(r, page)
    ensures SomeMissing(r, page, size)
  {
    var reg := page - r.start;
    OffsetAligned(r, reg);
    var k: nat := if reg < r.startOffset then r.startOffset - reg else 0;
    InsideWindow(r, page, k);
    var off: nat := reg + r.objectOffset - r.startOffset;
    InPage(off, off + k);
    assert MissingAt(r, page, size, k);
  }

  lemma MissingAsks(r: Region, page: nat, size: nat, k: nat)
    requires r.Window? && Ordered(r) && r.start <= page && page + PAGE <= r.start + r.size && (page - r.start) % PAGE == 0
    requires MissingAt(r, page, size, k)
    ensures AsksObject(r, page) && Beyond(r, page, size)
  {
    var reg := page - r.start;
    InsideWindow(r, page, k);
    OffsetAligned(r, reg);
    var off: nat := reg + r.objectOffset - r.startOffset;
    InPage(off, off + k);
  }

  /**
   * A fault is refused exactly if some byte of the page is in a missing page of the object, or a window of
   * no bytes lies strictly inside the page and its place in the object is missing.
   */
  lemma RefusedExact(r: Region, page: nat, size: nat)
    requires r.Window? && Ordered(r) && r.start <= page && page + PAGE <= r.start + r.size && (page - r.start) % PAGE == 0
    ensures AsksObject(r, page) && Beyond(r, page, size) <==>
      SomeMissing(r, page, size) || (EmptyInside(r, page) && Beyond(r, page, size))
  {
    if AsksObject(r, page) && Beyond(r, page, size) && !EmptyInside(r, page) {
      SomeByteMissing(r, page, size);
    }
    if k: nat :| MissingAt(r, page, size, k) {
      MissingAsks(r, page, size, k);
    }
  }

  /** A page of which every byte is zero is refused exactly in the case of the empty window. */
  lemma ZerosRefused(r: Region, page: nat, size: nat)
    requires r.Window? && Ordered(r) && r.start <= page && page + PAGE <= r.start + r.size && (page - r.start) % PAGE == 0
    requires forall a: nat | page <= a < page + PAGE :: Holds(r, a) && Denotes(r, a) == Zero
    ensures AsksObject(r, page) && Beyond(r, page, size) <==> EmptyInside(r, page) && Beyond(r, page, size)
  {
    RefusedExact(r, page, size);
    assert forall k: nat :: MissingAt(r, page, size, k) ==> Denotes(r, page + k) == Zero;
  }

  /** An empty window in the middle of the only page of a region over an empty object. */
  const EMPTY_WINDOW: Region := Window(0x10000, 0x1000, 0x800, 0x800, 0, true)

  lemma EmptyWindowExample()
    ensures OnPages(EMPTY_WINDOW) && Ordered(EMPTY_WINDOW)
    ensures forall a: nat | Holds(EMPTY_WINDOW, a) :: Denotes(EMPTY_WINDOW, a) == Zero
    ensures AsksObject(EMPTY_WINDOW, 0x10000) && Beyond(EMPTY_WINDOW, 0x10000, 0) && !SomeMissing(EMPTY_WINDOW, 0x10000, 0)
  {
  }

  /** Touching that region fails although all of its bytes are zeros and memory is at hand. */
  method EmptyWindowFault() returns (result: Fault)
    ensures result == Failed(EInval)
  {
    EmptyWindowExample();
    var obj := new Object(0, false, 10);
    result := AllocPage(EMPTY_WINDOW, obj, 0x10000, false);
  }

  // ----- regions of physical memory

  /** The physical page for a fault at addr shows the bytes of the region. */
  method AllocPhysPage(r: Region, addr: nat) returns (phys: nat)
    requires r.Phys? && OnPages(r) && Holds(r, addr)
    ensures forall a: nat | PageOf(addr) <= a < PageOf(addr) + PAGE ::
      Holds(r, a) && Denotes(r, a) == PhysByte(phys + (a - PageOf(addr)))
  {
    FaultPage(r, addr);
    phys := PageOf(addr) - r.start + r.physStart;
  }

  /** What byte k of a page of the region stands for. */
  lemma InsideWindow(r: Region, page: nat, k: nat)
    requires r.Window? && Ordered(r) && r.start <= page && page + PAGE <= r.start + r.size && k < PAGE
    ensures var rel := page + k - r.start;
      Holds(r, page + k) && Denotes(r, page + k) ==
        if r.startOffset <= rel < r.startOffset + r.objectSize then ObjectByte(r.objectOffset + (rel - r.startOffset)) else Zero
  {
    hide Low;
  }

  /** The page of a held address lies in the region. */
  lemma FaultPage(r: Region, addr: nat)
    requires OnPages(r) && Holds(r, addr)
    ensures r.start <= PageOf(addr) && PageOf(addr) + PAGE <= r.start + r.size && (PageOf(addr) - r.start) % PAGE == 0
  {
    PageMod(addr);
    AddPages(r.start, r.size);
    var p := PageOf(addr);
    if p < r.start { PageApart(p, r.start); }
    if r.start < p { PageApart(r.start, p); }
    if p < r.start + r.size { PageApart(p, r.start + r.size); }
  }

  /** The page of the region corresponds to a page of the object. */
  lemma OffsetAligned(r: Region, regAddr: nat)
    requires r.Window? && Ordered(r) && regAddr % PAGE == 0 && regAddr + PAGE > r.startOffset
    ensures regAddr + r.objectOffset >= r.startOffset && (regAddr + r.objectOffset - r.startOffset) % PAGE == 0
  {
    var so, oo := r.startOffset, r.objectOffset;
    assert Low(oo) == oo % PAGE && Low(so) == so % PAGE;
    var q := regAddr / PAGE + oo / PAGE - so / PAGE;
    assert regAddr + oo - so == q * PAGE;
    if q >= 0 { DivUnique(regAddr + oo - so, PAGE, q, 0); }
  }
}
