/** The firmware memory map and its meaning: which type each physical address has. */
module FirmwareMap {
  import opened Words

  const PAGE: nat := 0x1000

  datatype Kind = Unknown | Reserved | ACPIReclaimable | ACPINVS | BadMemory | Usable | UsableReservedOnBoot | Framebuffer

  datatype Region = Region(start: nat, size: nat, kind: Kind)

  /** An entry of the map that the boot loader passes on. */
  datatype Entry = Entry(addr: nat, len: nat, code: nat)

  function TypeFromMultiboot(code: nat): (k: Kind) {
    match code
    case 1 => Usable
    case 2 => Reserved
    case 3 => ACPIReclaimable
    case 4 => ACPINVS
    case 5 => BadMemory
    case _ => Reserved
  }

  function Rank(k: Kind): (r: nat) {
    match k
    case Usable => 0
    case UsableReservedOnBoot => 1
    case ACPIReclaimable => 2
    case Reserved => 3
    case Unknown => 3
    case ACPINVS => 4
    case Framebuffer => 5
    case BadMemory => 6
  }

  predicate MoreRestrictive(a: Kind, b: Kind) {
    Rank(a) > Rank(b)
  }

  /** The kinds from the least to the most restrictive one; kinds in one set are equally so. */
  const ORDER: seq<set<Kind>> :=
    [{Usable}, {UsableReservedOnBoot}, {ACPIReclaimable}, {Reserved, Unknown}, {ACPINVS}, {Framebuffer}, {BadMemory}]

  lemma RestrictiveOrder(a: Kind, b: Kind, i: nat, j: nat)
    requires i < |ORDER| && j < |ORDER| && a in ORDER[i] && b in ORDER[j]
    ensures MoreRestrictive(a, b) <==> i > j
  {
    RankIs(a, i);
    RankIs(b, j);
  }

  lemma RankIs(a: Kind, i: nat)
    requires i < |ORDER| && a in ORDER[i]
    ensures Rank(a) == i
  {
  }

  function End(r: Region): (e: nat) {
    r.start + r.size
  }

  predicate Covers(r: Region, x: nat) {
    r.start <= x < End(r)
  }

  function Max(a: int, b: int): (m: int) {
    if a < b then b else a
  }

  /** How restrictive region r makes address x, or -1 if it does not cover x. */
  function Level(r: Region, x: nat): (l: int) {
    if Covers(r, x) then Rank(r.kind) else -1
  }

  /** The most restrictive level that the regions give to x, or -1 if none covers it. */
  ghost function LevelAt(rs: seq<Region>, x: nat): (l: int) {
    if rs == [] then -1 else Max(Level(rs[0], x), LevelAt(rs[1..], x))
  }

  /** The level is that of some covering region and at least that of all of them. */
  lemma {:induction false} LevelMeans(rs: seq<Region>, x: nat)
    ensures LevelAt(rs, x) == -1 <==> forall r | r in rs :: !Covers(r, x)
    ensures forall r | r in rs && Covers(r, x) :: Rank(r.kind) <= LevelAt(rs, x)
    ensures LevelAt(rs, x) != -1 ==> exists r :: r in rs && Covers(r, x) && Rank(r.kind) == LevelAt(rs, x)
  {
    if rs != [] {
      LevelMeans(rs[1..], x);
      assert forall r | r in rs :: r == rs[0] || r in rs[1..];
      assert rs[0] in rs && forall r | r in rs[1..] :: r in rs;
      if LevelAt(rs, x) != -1 && LevelAt(rs, x) != Level(rs[0], x) {
        var r :| r in rs[1..] && Covers(r, x) && Rank(r.kind) == LevelAt(rs[1..], x);
        assert r in rs;
      }
    }
  }

  lemma {:induction false} LevelConcat(a: seq<Region>, b: seq<Region>, x: nat)
    ensures LevelAt(a + b, x) == Max(LevelAt(a, x), LevelAt(b, x))
    ensures LevelAt(a, x) >= -1
  {
    if a == [] {
      assert a + b == b;
      Floor(b, x);
    } else {
      LevelConcat(a[1..], b, x);
      assert (a + b)[1..] == a[1..] + b;
    }
  }

  lemma {:induction false} Floor(a: seq<Region>, x: nat)
    ensures LevelAt(a, x) >= -1
  {
    if a != [] { Floor(a[1..], x); }
  }

  // ----- editing a map

  function Erased(v: seq<Region>, k: nat): (w: seq<Region>)
    requires k < |v|
  {
    v[..k] + v[k + 1..]
  }

  function Inserted(v: seq<Region>, k: nat, r: Region): (w: seq<Region>)
    requires k <= |v|
  {
    v[..k] + [r] + v[k..]
  }

  lemma InsertedLength(v: seq<Region>, k: nat, r: Region)
    requires k <= |v|
    ensures |Inserted(v, k, r)| == |v| + 1
  {
  }

  lemma LevelErased(v: seq<Region>, k: nat, x: nat)
    requires k < |v|
    ensures LevelAt(v, x) == Max(LevelAt(Erased(v, k), x), Level(v[k], x))
  {
    assert v == v[..k] + ([v[k]] + v[k + 1..]);
    LevelConcat(v[..k], [v[k]] + v[k + 1..], x);
    LevelConcat(v[..k], v[k + 1..], x);
    assert ([v[k]] + v[k + 1..])[1..] == v[k + 1..];
  }

  lemma LevelInserted(v: seq<Region>, k: nat, r: Region, x: nat)
    requires k <= |v|
    ensures LevelAt(Inserted(v, k, r), x) == Max(LevelAt(v, x), Level(r, x))
  {
    var w := Inserted(v, k, r);
    LevelErased(w, k, x);
    assert Erased(w, k) == v;
  }

  lemma LevelUpdated(v: seq<Region>, k: nat, r: Region, x: nat)
    requires k < |v|
    ensures LevelAt(v[k := r], x) == Max(LevelAt(Erased(v, k), x), Level(r, x))
  {
    LevelErased(v[k := r], k, x);
    assert Erased(v[k := r], k) == Erased(v, k);
  }

  /** The meaning of a map in terms of two neighbours and the rest. */
  lemma LevelTwo(v: seq<Region>, i: nat, x: nat)
    requires i + 1 < |v|
    ensures LevelAt(v, x) == Max(LevelAt(v[..i] + v[i + 2..], x), Max(Level(v[i], x), Level(v[i + 1], x)))
    ensures LevelAt(v[..i] + v[i + 2..], x) >= -1
  {
    LevelErased(v, i + 1, x);
    var w := Erased(v, i + 1);
    LevelErased(w, i, x);
    assert Erased(w, i) == v[..i] + v[i + 2..];
    Floor(v[..i] + v[i + 2..], x);
  }

  // ----- total length

  ghost function Total(v: seq<Region>): (t: nat) {
    if v == [] then 0 else v[0].size + Total(v[1..])
  }

  lemma {:induction false} TotalConcat(a: seq<Region>, b: seq<Region>)
    ensures Total(a + b) == Total(a) + Total(b)
  {
    if a == [] {
      assert a + b == b;
    } else {
      TotalConcat(a[1..], b);
      assert (a + b)[1..] == a[1..] + b;
    }
  }

  lemma {:induction false} TotalErased(v: seq<Region>, k: nat)
    requires k < |v|
    ensures Total(v) == Total(Erased(v, k)) + v[k].size
  {
    assert v == v[..k] + ([v[k]] + v[k + 1..]);
    TotalConcat(v[..k], [v[k]] + v[k + 1..]);
    TotalConcat(v[..k], v[k + 1..]);
    assert ([v[k]] + v[k + 1..])[1..] == v[k + 1..];
  }

  lemma {:induction false} TotalInserted(v: seq<Region>, k: nat, r: Region)
    requires k <= |v|
    ensures Total(Inserted(v, k, r)) == Total(v) + r.size
  {
    var w := Inserted(v, k, r);
    TotalErased(w, k);
    assert Erased(w, k) == v;
  }

  lemma {:induction false} TotalUpdated(v: seq<Region>, k: nat, r: Region)
    requires k < |v|
    ensures Total(v[k := r]) + v[k].size == Total(v) + r.size
  {
    TotalErased(v, k);
    TotalErased(v[k := r], k);
    assert Erased(v[k := r], k) == Erased(v, k);
  }

  // ----- aligning entries to pages

  /** The aligned entry ends within the address space. */
  predicate FitsWord(e: Entry) {
    if TypeFromMultiboot(e.code) == Usable then e.addr + (PAGE - 1) < WORD && e.addr + e.len < WORD
    else if e.len > 0 then e.addr + e.len + (PAGE - 1) < WORD
    else e.addr < WORD
  }

  /** Usable memory is cut down to whole pages; any other kind grows to whole pages. */
  function AlignEntry(e: Entry): (r: Region) {
    var kind := TypeFromMultiboot(e.code);
    if kind == Usable then
      var start := (e.addr + (PAGE - 1)) / PAGE * PAGE;
      var diff := start - e.addr;
      var size := if diff > e.len then 0 else e.len - diff;
      Region(start, size / PAGE * PAGE, kind)
    else
      var offset := e.addr % PAGE;
      var size := if e.len > 0 then (e.len + offset + (PAGE - 1)) / PAGE * PAGE else e.len;
      Region(e.addr - offset, size, kind)
  }

  /** The same in 64-bit words. */
  function WordAligned(e: Entry): (r: Region) {
    var kind := TypeFromMultiboot(e.code);
    if kind == Usable then
      var start := (e.addr + (PAGE - 1)) % WORD / PAGE * PAGE;
      var diff := (start + WORD - e.addr) % WORD;
      var size := if diff > e.len then 0 else e.len - diff;
      Region(start, size / PAGE * PAGE, kind)
    else
      var offset := e.addr % PAGE;
      var size := if e.len > 0 then ((e.len + offset) % WORD + (PAGE - 1)) % WORD / PAGE * PAGE else e.len;
      Region(e.addr - offset, size, kind)
  }

  function PageOf(x: nat): (p: nat) {
    x - x % PAGE
  }

  /** The entry contains the whole page of x. */
  predicate ContainsPage(e: Entry, x: nat) {
    e.addr <= PageOf(x) && PageOf(x) + PAGE <= e.addr + e.len
  }

  /** The entry shares a byte with the page of x. */
  predicate TouchesPage(e: Entry, x: nat) {
    e.len > 0 && e.addr < PageOf(x) + PAGE && PageOf(x) < e.addr + e.len
  }

  predicate PageAligned(r: Region) {
    r.start % PAGE == 0 && r.size % PAGE == 0
  }

  /** An aligned usable entry covers the pages it contains, and any other one the pages it touches. */
  lemma AlignMeans(e: Entry, x: nat)
    requires FitsWord(e)
    ensures var r := AlignEntry(e);
      && PageAligned(r) && End(r) < WORD && r.kind == TypeFromMultiboot(e.code)
      && (Covers(r, x) <==> if r.kind == Usable then ContainsPage(e, x) else TouchesPage(e, x))
  {
    if TypeFromMultiboot(e.code) == Usable {
      AlignInwards(e.addr, e.len, x);
    } else {
      AlignOutwards(e.addr, e.len, x);
    }
  }

  /** Aligning in words is right, and the result has an end, exactly for the entries that fit. */
  lemma AlignExact(e: Entry)
    requires e.addr < WORD && e.len < WORD
    ensures WordAligned(e) == AlignEntry(e) && End(AlignEntry(e)) < WORD <==> FitsWord(e)
  {
    if TypeFromMultiboot(e.code) == Usable {
      InwardsExact(e);
    } else {
      OutwardsExact(e);
    }
  }

  lemma InwardsExact(e: Entry)
    requires e.addr < WORD && e.len < WORD && TypeFromMultiboot(e.code) == Usable
    ensures WordAligned(e) == AlignEntry(e) && End(AlignEntry(e)) < WORD <==> FitsWord(e)
  {
    InwardsEnd(e.addr, e.len);
    var x := e.addr + (PAGE - 1);
    DownTo(x % WORD);
    if x < WORD {
      Unwrapped(x);
      Unwrapped(x / PAGE * PAGE - e.addr);
    }
  }

  lemma OutwardsExact(e: Entry)
    requires e.addr < WORD && e.len < WORD && TypeFromMultiboot(e.code) != Usable
    ensures WordAligned(e) == AlignEntry(e) && End(AlignEntry(e)) < WORD <==> FitsWord(e)
  {
    OutwardsEnd(e.addr, e.len);
    if FitsWord(e) && e.len > 0 {
      Unwrapped(e.len + e.addr % PAGE);
      Unwrapped(e.len + e.addr % PAGE + (PAGE - 1));
    }
  }

  lemma Unwrapped(x: nat)
    requires x < WORD
    ensures x % WORD == x && (x + WORD) % WORD == x
  {
  }

  /** An entry in the last page of the address space: its aligned end is 2^64, which no word holds. */
  lemma AlignWrapsExample()
    ensures var e := Entry(WORD - PAGE, 1, 2);
      WordAligned(e) == AlignEntry(e) && End(AlignEntry(e)) == WORD && !FitsWord(e)
  {
  }

  lemma DownTo(x: nat)
    ensures x / PAGE * PAGE == PageOf(x) && PageOf(x) <= x < PageOf(x) + PAGE && PageOf(x) % PAGE == 0
  {
    assert x == x / PAGE * PAGE + x % PAGE;
    DivUnique(x / PAGE * PAGE, PAGE, x / PAGE, 0);
  }

  /** Page numbers of aligned addresses compare like the addresses. */
  lemma AlignedLess(a: nat, b: nat)
    requires a % PAGE == 0 && b % PAGE == 0 && a < b
    ensures a + PAGE <= b
  {
    assert a == a / PAGE * PAGE && b == b / PAGE * PAGE;
  }

  lemma AlignedAdd(a: nat, b: nat)
    requires a % PAGE == 0 && b % PAGE == 0
    ensures (a + b) % PAGE == 0 && (a >= b ==> (a - b) % PAGE == 0)
  {
    assert a == a / PAGE * PAGE && b == b / PAGE * PAGE;
    DivUnique(a + b, PAGE, a / PAGE + b / PAGE, 0);
    if a >= b { DivUnique(a - b, PAGE, a / PAGE - b / PAGE, 0); }
  }

  lemma AlignInwards(addr: nat, len: nat, x: nat)
    ensures var start := (addr + (PAGE - 1)) / PAGE * PAGE;
      var diff := start - addr;
      var size := (if diff > len then 0 else len - diff) / PAGE * PAGE;
      && 0 <= diff < PAGE && start % PAGE == 0 && size % PAGE == 0 && start + size <= addr + len + (PAGE - 1)
      && (start <= x < start + size <==> addr <= PageOf(x) && PageOf(x) + PAGE <= addr + len)
  {
    var start := (addr + (PAGE - 1)) / PAGE * PAGE;
    DownTo(addr + (PAGE - 1));
    var diff := start - addr;
    var room := if diff > len then 0 else len - diff;
    var size := room / PAGE * PAGE;
    DownTo(room);
    DownTo(x);
    AlignedAdd(start, size);
    var p := PageOf(x);
    if p < start { AlignedLess(p, start); } else if start < p { AlignedLess(start, p); }
    if p < start + size { AlignedLess(p, start + size); } else if start + size < p { AlignedLess(start + size, p); }
  }

  lemma InwardsEnd(addr: nat, len: nat)
    ensures var start := (addr + (PAGE - 1)) / PAGE * PAGE;
      var diff := start - addr;
      && 0 <= diff < PAGE && (start < WORD <==> addr + (PAGE - 1) < WORD)
      && (diff <= len ==> (start + (len - diff) / PAGE * PAGE < WORD <==> addr + len < WORD))
  {
    var start := (addr + (PAGE - 1)) / PAGE * PAGE;
    DownTo(addr + (PAGE - 1));
    assert WORD % PAGE == 0;
    if start < WORD { AlignedLess(start, WORD); }
    var diff := start - addr;
    if diff <= len {
      DownTo(len - diff);
      var end := start + (len - diff) / PAGE * PAGE;
      AlignedAdd(start, (len - diff) / PAGE * PAGE);
      if end < WORD { AlignedLess(end, WORD); }
    }
  }

  lemma OutwardsEnd(addr: nat, len: nat)
    ensures var offset := addr % PAGE;
      var size := (len + offset + (PAGE - 1)) / PAGE * PAGE;
      addr - offset + size < WORD <==> addr + len + (PAGE - 1) < WORD
  {
    var offset := addr % PAGE;
    var size := (len + offset + (PAGE - 1)) / PAGE * PAGE;
    DownTo(addr);
    DownTo(len + offset + (PAGE - 1));
    AlignedAdd(addr - offset, size);
    assert WORD % PAGE == 0;
    if addr - offset + size < WORD { AlignedLess(addr - offset + size, WORD); }
  }

  lemma AlignOutwards(addr: nat, len: nat, x: nat)
    ensures var offset := addr % PAGE;
      var size := if len > 0 then (len + offset + (PAGE - 1)) / PAGE * PAGE else len;
      && (addr - offset) % PAGE == 0 && size % PAGE == 0 && addr - offset + size <= addr + len + (PAGE - 1)
      && (addr - offset <= x < addr - offset + size <==> len > 0 && addr < PageOf(x) + PAGE && PageOf(x) < addr + len)
  {
    DownTo(addr);
    DownTo(x);
    if len > 0 {
      var s, p := PageOf(addr), PageOf(x);
      DownTo(len + addr % PAGE + (PAGE - 1));
      var size := PageOf(len + addr % PAGE + (PAGE - 1));
      AlignedAdd(s, size);
      if p < s { AlignedLess(p, s); } else if s < p { AlignedLess(s, p); }
      if p < s + size { AlignedLess(p, s + size); } else if s + size < p { AlignedLess(s + size, p); }
    }
  }
}
