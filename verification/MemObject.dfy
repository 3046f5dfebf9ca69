/** Memory objects without a pager: pages appear on first use and hold zeros until written. */
module MemObject {
  import opened Words

  const PAGE: nat := 0x1000

  type byte = b: int | 0 <= b < 256

  datatype Page = Page(offset: nat, data: seq<byte>)

  datatype Status = Ok | EInval | ENoMem

  function PageOf(x: nat): (p: nat)
    ensures p <= x < p + PAGE
  {
    x - x % PAGE
  }

  function Zeros(): (z: seq<byte>)
    ensures |z| == PAGE && forall i | 0 <= i < PAGE :: z[i] == 0
  {
    seq(PAGE, _ => 0)
  }

  /** The contents of the page at an offset: that of the first page with this offset, or zeros. */
  ghost function Look(ps: seq<Page>, off: nat): (d: seq<byte>) {
    if ps == [] then Zeros() else if ps[0].offset == off then ps[0].data else Look(ps[1..], off)
  }

  ghost predicate PageOk(p: Page, size: nat) {
    p.offset % PAGE == 0 && p.offset + PAGE <= size * PAGE && |p.data| == PAGE
  }

  /** Page offsets are unique. */
  ghost predicate Unique(ps: seq<Page>) {
    forall i: nat, j: nat {:trigger ps[i], ps[j]} | i < j < |ps| :: ps[i].offset != ps[j].offset
  }

  lemma {:induction false} LookAt(ps: seq<Page>, k: nat)
    requires Unique(ps) && k < |ps|
    ensures Look(ps, ps[k].offset) == ps[k].data
  {
    if k > 0 {
      LookAt(ps[1..], k - 1);
    }
  }

  lemma {:induction false} LookAbsent(ps: seq<Page>, off: nat)
    requires forall j: nat | j < |ps| :: ps[j].offset != off
    ensures Look(ps, off) == Zeros()
  {
    if ps != [] { LookAbsent(ps[1..], off); }
  }

  lemma {:induction false} LookUpdated(ps: seq<Page>, k: nat, d: seq<byte>, off: nat)
    requires Unique(ps) && k < |ps|
    ensures Look(ps[k := ps[k].(data := d)], off) == if off == ps[k].offset then d else Look(ps, off)
  {
    var qs := ps[k := ps[k].(data := d)];
    if k > 0 {
      LookUpdated(ps[1..], k - 1, d, off);
      assert qs[1..] == ps[1..][k - 1 := ps[1..][k - 1].(data := d)];
    } else {
      assert qs[1..] == ps[1..];
    }
  }

  lemma {:induction false} LookLength(ps: seq<Page>, size: nat, off: nat)
    requires forall j: nat | j < |ps| :: PageOk(ps[j], size)
    ensures |Look(ps, off)| == PAGE
  {
    if ps != [] { LookLength(ps[1..], size, off); }
  }

  ghost predicate HasPage(ps: seq<Page>, off: nat) {
    exists j: nat :: j < |ps| && ps[j].offset == off
  }

  lemma HasMore(ps: seq<Page>, off: nat)
    ensures forall o: nat :: HasPage([Page(off, Zeros())] + ps, o) <==> HasPage(ps, o) || o == off
  {
    var qs := [Page(off, Zeros())] + ps;
    assert qs[0].offset == off;
    forall o: nat | HasPage(ps, o) ensures HasPage(qs, o) {
      var j: nat :| j < |ps| && ps[j].offset == o;
      assert qs[j + 1].offset == o;
    }
    forall o: nat | HasPage(qs, o) ensures HasPage(ps, o) || o == off {
      var j: nat :| j < |qs| && qs[j].offset == o;
      assert j > 0 ==> ps[j - 1].offset == o;
    }
  }

  /** The page at o holds one of the first done bytes from offset on. */
  ghost predicate PageIn(offset: nat, done: nat, o: nat) {
    done > 0 && o % PAGE == 0 && PageOf(offset) <= o < offset + done
  }

  lemma NoPages(offset: nat)
    ensures forall o: nat :: !PageIn(offset, 0, o)
  {
  }

  /** Going on through the page at i, up to end. */
  lemma MorePages(offset: nat, done: nat, i: nat, end: nat)
    requires i % PAGE == 0 && ((i == PageOf(offset) && done == 0) || (i == offset + done && done > 0)) && offset < end && i < end <= i + PAGE
    ensures forall o: nat :: PageIn(offset, end - offset, o) <==> PageIn(offset, done, o) || o == i
  {
    PageMod(offset);
    forall o: nat | o % PAGE == 0 ensures o < i + PAGE ==> o <= i { PagesApart(o, i); }
  }

  lemma PagesApart(a: nat, b: nat)
    requires a % PAGE == 0 && b % PAGE == 0
    ensures a < b + PAGE ==> a <= b
  {
  }

  class Object {
    /** The size in pages. */
    const pagesSize: nat
    /** The list of pages, the newest first. */
    var pages: seq<Page>
    /** Copy-on-write regions of an anonymous object start from zeros. */
    const anonymous: bool
    /** How many private pages are on the second list. */
    var privatePages: nat
    /** How many pages the page allocator can still provide. */
    var freePages: nat

    ghost predicate Valid()
      reads this
    {
      && pagesSize * PAGE + PAGE <= WORD
      && (forall j: nat {:trigger pages[j]} | j < |pages| :: PageOk(pages[j], pagesSize)) && Unique(pages)
    }

    ghost function ByteAt(x: nat): (b: byte)
      reads this
      requires Valid()
    {
      LookLength(pages, pagesSize, PageOf(x));
      Look(pages, PageOf(x))[x % PAGE]
    }

    /** The object has the page at an offset. */
    ghost predicate Has(off: nat)
      reads this
    {
      HasPage(pages, off)
    }

    constructor (size: nat, anonymous: bool, supply: nat)
      requires size * PAGE + PAGE <= WORD
      ensures Valid() && pagesSize == size && this.anonymous == anonymous && freePages == supply
      ensures (forall x: nat :: ByteAt(x) == 0) && pages == [] && privatePages == 0
    {
      this.anonymous, privatePages := anonymous, 0;
      pagesSize, pages, freePages := size, [], supply;
    }

    /** A zeroed page that belongs to one region; false if there is no memory. */
    method PushPrivatePage() returns (ok: bool)
      requires Valid()
      modifies this`privatePages, this`freePages
      ensures Valid() && ok == (old(freePages) > 0)
      ensures privatePages + freePages == old(privatePages + freePages) && privatePages == old(privatePages) + if ok then 1 else 0
    {
      ok := freePages > 0;
      if ok {
        freePages, privatePages := freePages - 1, privatePages + 1;
      }
    }

    /** A request that an anonymous object answers with a private page of zeros. */
    method RequestPageCow(offset: nat) returns (status: Status, k: nat, zeros: bool)
      requires Valid()
      modifies this
      ensures Valid() && forall x: nat :: ByteAt(x) == old(ByteAt(x))
      ensures zeros == anonymous
      ensures status == EInval <==> !anonymous && offset >= pagesSize * PAGE
      ensures status == ENoMem <==> status != EInval && old(freePages == 0 && (anonymous || !Has(PageOf(offset))))
      ensures pages == if status == Ok && !anonymous && !old(Has(PageOf(offset))) then [Page(PageOf(offset), Zeros())] + old(pages) else old(pages)
      ensures |pages| + privatePages + freePages == old(|pages| + privatePages + freePages)
      ensures privatePages == old(privatePages) + if status == Ok && anonymous then 1 else 0
      ensures status == Ok && !zeros ==> k < |pages| && pages[k].offset == PageOf(offset)
    {
      k, zeros := 0, anonymous;
      if anonymous {
        var ok := PushPrivatePage();
        status := if ok then Ok else ENoMem;
      } else {
        status, k := RequestPage(offset);
      }
    }

    /** Find the page at an offset, or add a zeroed one; k is its place in the list. */
    method RequestPage(offset: nat) returns (status: Status, k: nat)
      requires Valid()
      modifies this
      ensures Valid() && forall x: nat :: ByteAt(x) == old(ByteAt(x))
      ensures |pages| + freePages == old(|pages| + freePages) && privatePages == old(privatePages)
      ensures status == EInval <==> offset >= pagesSize * PAGE
      ensures status == ENoMem <==> status != EInval && old(freePages == 0 && !Has(PageOf(offset)))
      ensures pages == if status == Ok && !old(Has(PageOf(offset))) then [Page(PageOf(offset), Zeros())] + old(pages) else old(pages)
      ensures status == Ok ==> k < |pages| && pages[k].offset == PageOf(offset)
    {
      var index := offset / PAGE;
      IndexBound(offset, pagesSize);
      if pagesSize <= index {
        return EInval, 0;
      }
      var off := PageOf(offset);
      k := 0;
      while k < |pages| && pages[k].offset != off
        invariant k <= |pages| && forall j: nat | j < k :: pages[j].offset != off
      {
        k := k + 1;
      }
      if k < |pages| {
        return Ok, k;
      }
      if freePages == 0 {
        return ENoMem, 0;
      }
      ghost var was := pages;
      LookAbsent(was, off);
      freePages := freePages - 1;
      pages := [Page(off, Zeros())] + pages;
      assert pages[1..] == was;
      PageAligned(offset, pagesSize);
      assert forall x: nat :: Look(pages, PageOf(x)) == Look(was, PageOf(x));
      return Ok, 0;
    }

    /**
     * Copy size bytes at offset into a buffer, page by page.  The first `done` bytes arrive; a call that
     * fails stops at a page that does not exist or cannot be allocated.  If the end of the range wraps
     * around, nothing is read and the call succeeds all the same.
     */
    method ReadToKernel(offset: nat, buffer: array<byte>, size: nat) returns (status: Status, ghost done: nat)
      requires Valid() && !anonymous && size <= buffer.Length && offset < WORD && size + PAGE <= WORD
      modifies this, buffer
      ensures Valid() && forall x: nat :: ByteAt(x) == old(ByteAt(x))
      ensures done <= size && forall j: nat | j < done :: buffer[j] == old(ByteAt(offset + j))
      ensures forall j: nat | done <= j < buffer.Length :: buffer[j] == old(buffer[j])
      ensures status == Ok ==> (done == size <==> size == 0 || offset + size < WORD)
      ensures size > 0 && offset + size >= WORD ==> status == Ok && done == 0
      ensures status != EInval && size > 0 && offset + size < WORD ==> offset + done <= pagesSize * PAGE
      ensures status == EInval ==> done < size && PageOf(offset + done) >= pagesSize * PAGE
      ensures status == ENoMem ==> freePages == 0 && !Has(PageOf(offset + done))
      ensures forall o: nat :: Has(o) <==> old(Has(o)) || PageIn(offset, done, o)
      ensures |pages| + freePages == old(|pages| + freePages) && privatePages == old(privatePages)
    {
      hide PageIn, HasPage;
      assert forall o: nat :: !PageIn(offset, 0, o) by { NoPages(offset); }
      done := 0;
      status := Ok;
      if size == 0 {
        return;
      }
      var i := PageOf(offset);
      PageMod(offset);
      if offset + size >= WORD {
        WrappedEnd(offset, size);
      }
      while i < (offset + size) % WORD
        invariant offset + size < WORD || (done == 0 && i == PageOf(offset))
        invariant Valid() && i % PAGE == 0 && (forall x: nat :: ByteAt(x) == old(ByteAt(x)))
        invariant (i == PageOf(offset) && done == 0) || i == offset + done || (done == size && i >= offset + size)
        invariant done <= size && forall j: nat | j < done :: buffer[j] == old(ByteAt(offset + j))
        invariant forall j: nat | done <= j < buffer.Length :: buffer[j] == old(buffer[j])
        invariant status == Ok && (offset + done <= pagesSize * PAGE || done == 0)
        invariant forall o: nat :: Has(o) <==> old(Has(o)) || PageIn(offset, done, o)
        invariant |pages| + freePages == old(|pages| + freePages) && privatePages == old(privatePages)
        decreases offset + size + PAGE - i
      {
        var k;
        ghost var was := pages;
        status, k := RequestPage(i);
        PageStart(i, pagesSize);
        if status != Ok {
          return;
        }
        HasMore(was, i);
        var start := if i < offset then offset else i;
        var end := if i + PAGE < offset + size then i + PAGE else offset + size;
        MorePages(offset, done, i, end);
        CopyOut(k, start, end, offset, buffer);
        done := end - offset;
        i := i + PAGE;
        NextPage(i);
      }
    }

    /** Copy the bytes from start up to end, all in page k, to the place in the buffer that they belong to. */
    method CopyOut(k: nat, start: nat, end: nat, offset: nat, buffer: array<byte>)
      requires Valid() && k < |pages| && pages[k].offset <= start <= end <= pages[k].offset + PAGE
      requires offset <= start && end - offset <= buffer.Length
      modifies buffer
      ensures forall j: nat | start - offset <= j < end - offset :: buffer[j] == ByteAt(offset + j)
      ensures forall j: nat | j < buffer.Length && !(start - offset <= j < end - offset) :: buffer[j] == old(buffer[j])
    {
      var t := start;
      LookAt(pages, k);
      while t < end
        invariant start <= t <= end
        invariant forall j: nat | start - offset <= j < t - offset :: buffer[j] == ByteAt(offset + j)
        invariant forall j: nat | j < buffer.Length && !(start - offset <= j < t - offset) :: buffer[j] == old(buffer[j])
      {
        InPage(pages[k].offset, t);
        buffer[t - offset] := pages[k].data[t % PAGE];
        t := t + 1;
      }
    }

    /** Store the data at offset, page by page; the first `done` bytes are stored, none if the end wraps around. */
    method WriteFromKernel(offset: nat, data: seq<byte>) returns (status: Status, ghost done: nat)
      requires Valid() && !anonymous && offset < WORD && |data| + PAGE <= WORD
      modifies this
      ensures Valid() && done <= |data|
      ensures forall x: nat :: ByteAt(x) == if offset <= x < offset + done then data[x - offset] else old(ByteAt(x))
      ensures status == Ok ==> (done == |data| <==> |data| == 0 || offset + |data| < WORD)
      ensures |data| > 0 && offset + |data| >= WORD ==> status == Ok && done == 0
      ensures status != EInval && |data| > 0 && offset + |data| < WORD ==> offset + done <= pagesSize * PAGE
      ensures status == EInval ==> done < |data| && PageOf(offset + done) >= pagesSize * PAGE
      ensures status == ENoMem ==> freePages == 0 && !Has(PageOf(offset + done))
      ensures forall o: nat :: Has(o) <==> old(Has(o)) || PageIn(offset, done, o)
      ensures |pages| + freePages == old(|pages| + freePages) && privatePages == old(privatePages)
    {
      hide PageIn, HasPage;
      assert forall o: nat :: !PageIn(offset, 0, o) by { NoPages(offset); }
      done := 0;
      status := Ok;
      var size := |data|;
      if size == 0 {
        return;
      }
      var i := PageOf(offset);
      PageMod(offset);
      if offset + size >= WORD {
        WrappedEnd(offset, size);
      }
      while i < (offset + size) % WORD
        invariant offset + size < WORD || (done == 0 && i == PageOf(offset))
        invariant Valid() && i % PAGE == 0 && done <= size
        invariant (i == PageOf(offset) && done == 0) || i == offset + done || (done == size && i >= offset + size)
        invariant forall x: nat :: ByteAt(x) == if offset <= x < offset + done then data[x - offset] else old(ByteAt(x))
        invariant status == Ok && (offset + done <= pagesSize * PAGE || done == 0)
        invariant forall o: nat :: Has(o) <==> old(Has(o)) || PageIn(offset, done, o)
        invariant |pages| + freePages == old(|pages| + freePages) && privatePages == old(privatePages)
        decreases offset + size + PAGE - i
      {
        var start := if i < offset then offset else i;
        var end := if i + PAGE < offset + size then i + PAGE else offset + size;
        PageStart(i, pagesSize);
        status := StorePage(i, start, end, data[start - offset..end - offset]);
        if status != Ok {
          return;
        }
        MorePages(offset, done, i, end);
        done := end - offset;
        i := i + PAGE;
        NextPage(i);
      }
    }

    /** Find or add the page at i, and overwrite its bytes from start up to end. */
    method StorePage(i: nat, start: nat, end: nat, part: seq<byte>) returns (status: Status)
      requires Valid() && i % PAGE == 0 && i <= start <= end <= i + PAGE && |part| == end - start
      modifies this
      ensures Valid() && |pages| + freePages == old(|pages| + freePages) && privatePages == old(privatePages)
      ensures status == EInval <==> i >= pagesSize * PAGE
      ensures status == ENoMem ==> freePages == 0 && !Has(i)
      ensures forall o: nat :: Has(o) <==> old(Has(o)) || (status == Ok && o == i)
      ensures forall x: nat :: ByteAt(x) == if status == Ok && start <= x < end then part[x - start] else old(ByteAt(x))
    {
      hide HasPage;
      var k;
      ghost var was := pages;
      PageStart(i, pagesSize);
      status, k := RequestPage(i);
      if status == Ok {
        HasMore(was, i);
        StorePart(k, start, end, part);
      }
    }

    /** Overwrite the bytes from start up to end, all in page k. */
    method StorePart(k: nat, start: nat, end: nat, part: seq<byte>)
      requires Valid() && k < |pages| && pages[k].offset <= start <= end <= pages[k].offset + PAGE && |part| == end - start
      modifies this`pages
      ensures Valid() && |pages| == |old(pages)| && forall o: nat :: Has(o) <==> old(Has(o))
      ensures forall x: nat :: ByteAt(x) == if start <= x < end then part[x - start] else old(ByteAt(x))
    {
      ghost var was := pages;
      var p := pages[k];
      var lo := start - p.offset;
      var d := p.data[..lo] + part + p.data[lo + |part|..];
      pages := pages[k := p.(data := d)];
      assert forall j: nat | j < |pages| :: pages[j].offset == was[j].offset;
      forall x: nat ensures ByteAt(x) == if start <= x < end then part[x - start] else old(ByteAt(x)) {
        LookUpdated(was, k, d, PageOf(x));
        LookAt(was, k);
        if PageOf(x) == p.offset { InPage(p.offset, x); } else { OutOfPage(p.offset, x); }
      }
    }
  }

  /** A range whose end wraps around ends before its first page. */
  lemma WrappedEnd(offset: nat, size: nat)
    requires offset < WORD <= offset + size && size + PAGE <= WORD
    ensures (offset + size) % WORD <= PageOf(offset)
  {
    DivUnique(offset + size, WORD, 1, offset + size - WORD);
  }

  /** Sixteen bytes across the end of the address range: the read succeeds and leaves the buffer as it was. */
  method ReadWrapsExample(buffer: array<byte>) returns (status: Status)
    requires buffer.Length == 16
    modifies buffer
    ensures status == Ok && buffer[..] == old(buffer[..])
  {
    var obj := new Object(1, false, 1);
    ghost var done;
    status, done := obj.ReadToKernel(WORD - 8, buffer, 16);
  }

  lemma IndexBound(offset: nat, size: nat)
    ensures size <= offset / PAGE <==> offset >= size * PAGE
  {
  }

  lemma PageMod(x: nat)
    ensures PageOf(x) % PAGE == 0
  {
    DivUnique(PageOf(x), PAGE, x / PAGE, 0);
  }

  lemma PageAligned(x: nat, size: nat)
    requires x < size * PAGE
    ensures PageOf(x) % PAGE == 0 && PageOf(x) + PAGE <= size * PAGE
  {
    PageMod(x);
    PageStart(PageOf(x), size);
  }

  lemma PageStart(i: nat, size: nat)
    requires i % PAGE == 0
    ensures PageOf(i) == i && (i < size * PAGE ==> i + PAGE <= size * PAGE)
  {
  }

  lemma NextPage(i: nat)
    ensures i >= PAGE && (i - PAGE) % PAGE == 0 ==> i % PAGE == 0
  {
  }

  lemma InPage(off: nat, x: nat)
    requires off % PAGE == 0 && off <= x < off + PAGE
    ensures PageOf(x) == off && x % PAGE == x - off
  {
    DivUnique(x, PAGE, off / PAGE, x - off);
  }

  lemma OutOfPage(off: nat, x: nat)
    requires off % PAGE == 0 && PageOf(x) != off
    ensures !(off <= x < off + PAGE)
  {
    if off <= x < off + PAGE { InPage(off, x); }
  }
}
