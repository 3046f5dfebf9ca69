/** The devicetree parser: a cursor over the cells and two bump allocators. */
module DtbParser {
  import opened DeviceTree

  /** How reading a property went: read, no slot for it, or its header cut short by the end of the block. */
  datatype PropStatus = PropRead | NoSlot | CutShort

  class Parser {
    const cells: seq<nat>
    var nodeHead: nat
    var nodeMax: nat
    var propHead: nat
    var propMax: nat
    /** The root nodes, the latest first. */
    var roots: seq<Tree>

    constructor (cells: seq<nat>)
      ensures this.cells == cells && roots == []
    {
      this.cells, roots := cells, [];
      nodeHead, nodeMax, propHead, propMax := 0, 0, 0, 0;
    }

    ghost function Used(): Heads
      reads this
    {
      Heads(nodeHead, propHead)
    }

    ghost function Max(): Heads
      reads this
    {
      Heads(nodeMax, propMax)
    }

    /** Count the cells that look like node and property tokens. */
    method AllocBuffers()
      modifies this`nodeHead, this`nodeMax, this`propHead, this`propMax
      ensures Used() == Heads(0, 0)
      ensures Max() == Limits(cells)
    {
      nodeMax, propMax := 0, 0;
      var i := 0;
      while i < |cells|
        invariant i <= |cells|
        invariant nodeMax + Occurs(cells, BEGIN_NODE, i, |cells|) == Occurs(cells, BEGIN_NODE, 0, |cells|)
        invariant propMax + Occurs(cells, PROP, i, |cells|) == Occurs(cells, PROP, 0, |cells|)
      {
        if cells[i] == BEGIN_NODE {
          nodeMax := nodeMax + 1;
        } else if cells[i] == PROP {
          propMax := propMax + 1;
        }
        i := i + 1;
      }
      nodeHead, propHead := 0, 0;
    }

    /** The length of the string at byte k, or -1 if it does not end inside the cells. */
    method StringLength(k: nat) returns (n: int)
      ensures n == NameLength(cells, k)
    {
      n := 0;
      while InCells(cells, k + n) && ByteAt(cells, k + n) != 0
        invariant n >= 0
        invariant NameLength(cells, k) == if NameLength(cells, k + n) < 0 then -1 else n + NameLength(cells, k + n)
        decreases 4 * |cells| - (k + n)
      {
        n := n + 1;
      }
      if !InCells(cells, k + n) {
        n := -1;
      }
    }

    /** Parse the property at off, which must have been checked to be one. */
    method ParseProp(off: nat) returns (status: PropStatus, prop: Prop, next: nat)
      requires off < |cells| && cells[off] == PROP
      modifies this`propHead
      ensures status == NoSlot <==> old(propHead) + 1 >= propMax
      ensures status == CutShort <==> off + 2 >= |cells| && old(propHead) + 1 < propMax
      ensures propHead == old(propHead) + if status == NoSlot then 0 else 1
      ensures status == PropRead ==> next == off + 1 + CellsFor(cells[off + 1]) + 2
      ensures status == PropRead && next <= |cells| ==> prop == Prop(cells[off + 2], ReadBytes(cells, 4 * (off + 3), cells[off + 1]))
    {
      prop, next := Prop(0, []), off;
      if propHead + 1 >= propMax {
        return NoSlot, prop, next;
      }
      propHead := propHead + 1;
      if off + 2 >= |cells| {
        return CutShort, prop, next;
      }
      var length := cells[off + 1];
      prop := Prop(cells[off + 2], ReadBytes(cells, 4 * (off + 3), length));
      next := off + 1 + CellsFor(length) + 2;
      return PropRead, prop, next;
    }

    /** Parse the node at off: the recursive descent of the source equals its specification. */
    method ParseNodeAt(off: nat) returns (r: Result)
      requires off < |cells| && cells[off] == BEGIN_NODE
      modifies this`nodeHead, this`propHead
      ensures r == ParseNode(cells, off, old(Used()), Max())
      ensures r.Parsed? ==> Used() == r.heads
      decreases |cells| - off
    {
      hide ByteAt, InCells, ReadBytes, NameLength, CellsFor;
      ghost var h, goal := Used(), ParseNode(cells, off, Used(), Max());
      if nodeHead + 1 >= nodeMax {
        return OutOfSpace;
      }
      nodeHead := nodeHead + 1;
      var n := StringLength(4 * (off + 1));
      if n < 0 {
        return Overrun;
      }
      var node := Node(ReadBytes(cells, 4 * (off + 1), n), [], []);
      var o := off + 1 + CellsFor(n + 1);
      while o < |cells|
        invariant o > off && Max() == old(Max())
        invariant goal == ParseBody(cells, o, Used(), Max(), node)
        decreases |cells| - o
      {
        var test := cells[o];
        if test == END_NODE {
          return Parsed(node, o + 1, Heads(nodeHead, propHead));
        } else if test == BEGIN_NODE {
          var child := ParseNodeAt(o);
          if !child.Parsed? {
            return child;
          }
          node := node.(children := [child.node] + node.children);
          o := child.offset;
        } else if test == PROP {
          var status, prop, next := ParseProp(o);
          if status != PropRead {
            return if status == NoSlot then OutOfSpace else Overrun;
          }
          if next > |cells| {
            return NoEnd;
          }
          node := node.(props := [prop] + node.props);
          o := next;
        } else {
          o := o + 1;
        }
      }
      return NoEnd;
    }

    /** Parse a structure block: every node found at the top becomes a root. */
    method DtbInit() returns (r: Scan)
      modifies this
      ensures Max() == Limits(cells) && r == ScanFrom(cells, 0, Heads(0, 0), Max(), old(roots))
      ensures r.Scanned? ==> roots == r.roots
    {
      hide ParseNode;
      AllocBuffers();
      ghost var goal := ScanFrom(cells, 0, Heads(0, 0), Max(), roots);
      var i := 0;
      while i < |cells|
        invariant Max() == Limits(cells) && goal == ScanFrom(cells, i, Used(), Max(), roots)
        decreases |cells| - i
      {
        if cells[i] != BEGIN_NODE {
          i := i + 1;
          continue;
        }
        var sub := ParseNodeAt(i);
        match sub {
          case Parsed(node, next, _) =>
            roots := [node] + roots;
            i := next + 1;
          case NoEnd =>
            return Scanned(roots);
          case OutOfSpace =>
            return Crashed;
          case Overrun =>
            return Crashed;
        }
      }
      return Scanned(roots);
    }
  }

  /** What a scan of a structure block leaves; a crash is a dereference of a failed allocation or of memory beyond the block. */
  datatype Scan = Scanned(roots: seq<Tree>) | Crashed

  ghost function Limits(cells: seq<nat>): Heads {
    Heads(Occurs(cells, BEGIN_NODE, 0, |cells|), Occurs(cells, PROP, 0, |cells|))
  }

  ghost function ScanFrom(cells: seq<nat>, i: nat, h: Heads, max: Heads, roots: seq<Tree>): (r: Scan)
    decreases |cells| - i
  {
    if i >= |cells| then Scanned(roots)
    else if cells[i] != BEGIN_NODE then ScanFrom(cells, i + 1, h, max, roots)
    else
      match ParseNode(cells, i, h, max)
      case Parsed(node, next, h') => ScanFrom(cells, next + 1, h', max, [node] + roots)
      case NoEnd => Scanned(roots)
      case OutOfSpace => Crashed
      case Overrun => Crashed
  }

  /** Cells in which no node starts. */
  predicate Quiet(cells: seq<nat>) {
    forall i: nat | i < |cells| :: cells[i] != BEGIN_NODE
  }

  /** A structure block: any number of root nodes, with other cells before, between and after them. */
  datatype Forest = Last(trail: seq<nat>) | Root(lead: seq<nat>, node: Source, rest: Forest)

  function ForestCells(f: Forest): (cells: seq<nat>) {
    match f
    case Last(trail) => trail
    case Root(lead, node, rest) => lead + (Encode(node) + ForestCells(rest))
  }

  predicate ForestOk(f: Forest) {
    match f
    case Last(trail) => Quiet(trail)
    case Root(lead, node, rest) => Quiet(lead) && SourceOk(node) && ForestOk(rest)
  }

  /** No root follows another directly. */
  predicate Spaced(f: Forest) {
    match f
    case Last(_) => true
    case Root(_, _, rest) => (rest.Root? ==> rest.lead != []) && Spaced(rest)
  }

  /** The trees of a forest, the latest first, before those found earlier. */
  function MirrorAll(f: Forest, roots: seq<Tree>): (ts: seq<Tree>) {
    match f
    case Last(_) => roots
    case Root(_, node, rest) => MirrorAll(rest, [Mirror(node)] + roots)
  }

  function CountAll(f: Forest): (h: Heads) {
    match f
    case Last(_) => Heads(0, 0)
    case Root(_, node, rest) => Plus(Count(node), CountAll(rest))
  }

  /** From i on no node starts, so a scan changes nothing. */
  lemma {:induction false} ScanRest(cells: seq<nat>, i: nat, h: Heads, max: Heads, roots: seq<Tree>)
    requires forall j: nat | i <= j < |cells| :: cells[j] != BEGIN_NODE
    ensures ScanFrom(cells, i, h, max, roots) == Scanned(roots)
    decreases |cells| - i
  {
    if i < |cells| { ScanRest(cells, i + 1, h, max, roots); }
  }

  lemma {:induction false} ScanLead(cells: seq<nat>, i: nat, k: nat, h: Heads, max: Heads, roots: seq<Tree>)
    requires i <= k <= |cells| && forall j: nat | i <= j < k :: cells[j] != BEGIN_NODE
    ensures ScanFrom(cells, i, h, max, roots) == ScanFrom(cells, k, h, max, roots)
    decreases k - i
  {
    if i < k { ScanLead(cells, i + 1, k, h, max, roots); }
  }

  lemma ScanNode(cells: seq<nat>, i: nat, h: Heads, max: Heads, roots: seq<Tree>)
    requires i < |cells| && cells[i] == BEGIN_NODE
    ensures ScanFrom(cells, i, h, max, roots) ==
      match ParseNode(cells, i, h, max)
      case Parsed(node, next, h') => ScanFrom(cells, next + 1, h', max, [node] + roots)
      case NoEnd => Scanned(roots)
      case OutOfSpace => Crashed
      case Overrun => Crashed
  {
    hide ParseNode;
  }

  lemma QuietFrom(cells: seq<nat>, off: nat, part: seq<nat>)
    requires At(cells, off, part) && Quiet(part)
    ensures forall j: nat | off <= j < off + |part| :: cells[j] != BEGIN_NODE
  {
    forall j: nat | off <= j < off + |part| ensures cells[j] != BEGIN_NODE { assert cells[j] == cells[off..off + |part|][j - off]; }
  }

  /**
   * The scan from offset off finds the roots of the forest there, unless a slot is missing.  After a root
   * it starts one cell further on, which is why no root may follow another directly.
   */
  lemma {:induction false} ForestScan(cells: seq<nat>, off: nat, d: nat, f: Forest, h: Heads, max: Heads, roots: seq<Tree>)
    requires ForestOk(f) && Spaced(f) && At(cells, off, ForestCells(f)) && off + |ForestCells(f)| == |cells|
    requires d <= 1 && (f.Root? ==> d <= |f.lead|)
    ensures ScanFrom(cells, off + d, h, max, roots) == if Room(h, CountAll(f), max) then Scanned(MirrorAll(f, roots)) else Crashed
    decreases f
  {
    hide Encode, Mirror, Count, SourceOk, ParseNode, ScanFrom, At, Room;
    match f
    case Last(trail) =>
      QuietFrom(cells, off, trail);
      ScanRest(cells, off + d, h, max, roots);
      RoomForNone(h, max);
    case Root(lead, node, rest) =>
      var e := off + |lead|;
      AtSplit(cells, off, lead, Encode(node) + ForestCells(rest));
      AtSplit(cells, e, Encode(node), ForestCells(rest));
      QuietFrom(cells, off, lead);
      ScanLead(cells, off + d, e, h, max, roots);
      RoundTrip(cells, e, node, h, max);
      ScanNode(cells, e, h, max, roots);
      RoomTwice(h, Count(node), CountAll(rest), max);
      if Room(h, Count(node), max) {
        ForestScan(cells, e + |Encode(node)|, 1, rest, Plus(h, Count(node)), max, [Mirror(node)] + roots);
      }
  }

  /**
   * On a structure block the parser gives the trees, with roots, siblings and properties in reverse order,
   * exactly if some cell that is not a node token looks like one, and likewise for properties if there
   * are any: the allocators never hand out their last slot.
   */
  lemma {:induction false} BlockParsed(f: Forest, roots: seq<Tree>)
    requires ForestOk(f) && Spaced(f)
    ensures var cells := ForestCells(f); var max := Limits(cells);
      && CountAll(f).nodes <= max.nodes && CountAll(f).props <= max.props
      && ScanFrom(cells, 0, Heads(0, 0), max, roots) ==
         if (CountAll(f).nodes == 0 || CountAll(f).nodes < max.nodes) && (CountAll(f).props == 0 || CountAll(f).props < max.props)
         then Scanned(MirrorAll(f, roots)) else Crashed
  {
    hide ForestCells, ForestOk, Spaced, CountAll, MirrorAll, ScanFrom, Limits;
    var cells := ForestCells(f);
    assert cells[0..0 + |cells|] == cells;
    ForestScan(cells, 0, 0, f, Heads(0, 0), Limits(cells), roots);
    EnoughSlots(cells, 0, f);
    assert Limits(cells) == Heads(Occurs(cells, BEGIN_NODE, 0, |cells|), Occurs(cells, PROP, 0, |cells|)) by { LimitsAre(cells); }
  }

  lemma LimitsAre(cells: seq<nat>)
    ensures Limits(cells) == Heads(Occurs(cells, BEGIN_NODE, 0, |cells|), Occurs(cells, PROP, 0, |cells|))
  {
  }

  /** The counted tokens suffice for the forest. */
  lemma {:induction false} EnoughSlots(cells: seq<nat>, off: nat, f: Forest)
    requires ForestOk(f) && At(cells, off, ForestCells(f)) && off + |ForestCells(f)| == |cells|
    ensures CountAll(f).nodes <= Occurs(cells, BEGIN_NODE, off, |cells|) && CountAll(f).props <= Occurs(cells, PROP, off, |cells|)
    decreases f
  {
    hide Encode, Count, SourceOk, At, Occurs;
    if f.Root? {
      var e := off + |f.lead|;
      AtSplit(cells, off, f.lead, Encode(f.node) + ForestCells(f.rest));
      AtSplit(cells, e, Encode(f.node), ForestCells(f.rest));
      NodeSlots(cells, off, e, f.node);
      EnoughSlots(cells, e + |Encode(f.node)|, f.rest);
    }
  }

  /** The tokens from off on include those of the node at e. */
  lemma {:induction false} NodeSlots(cells: seq<nat>, off: nat, e: nat, s: Source)
    requires off <= e && SourceOk(s) && At(cells, e, Encode(s))
    ensures var next := e + |Encode(s)|;
      && next <= |cells|
      && Occurs(cells, BEGIN_NODE, off, |cells|) >= Count(s).nodes + Occurs(cells, BEGIN_NODE, next, |cells|)
      && Occurs(cells, PROP, off, |cells|) >= Count(s).props + Occurs(cells, PROP, next, |cells|)
  {
    hide Encode, Count, SourceOk, Occurs;
    var next := e + |Encode(s)|;
    OwnSlots(cells, e, s);
    OccursSplit(cells, BEGIN_NODE, off, e, |cells|);
    OccursSplit(cells, PROP, off, e, |cells|);
    OccursSplit(cells, BEGIN_NODE, e, next, |cells|);
    OccursSplit(cells, PROP, e, next, |cells|);
  }

  lemma {:induction false} OwnSlots(cells: seq<nat>, e: nat, s: Source)
    requires SourceOk(s) && At(cells, e, Encode(s))
    ensures e + |Encode(s)| <= |cells|
    ensures Occurs(cells, BEGIN_NODE, e, e + |Encode(s)|) >= Count(s).nodes
    ensures Occurs(cells, PROP, e, e + |Encode(s)|) >= Count(s).props
  {
    hide Encode, Mirror, Count, SourceOk, ParseNode, Occurs, At, Paid, Expected;
    var big := Heads(Count(s).nodes + 1, Count(s).props + 1);
    RoundTrip(cells, e, s, Heads(0, 0), big);
    NodePaid(cells, e, Heads(0, 0), big);
    WithRoom(s, e + |Encode(s)|);
    AtEnds(cells, e, Encode(s));
    PaidIs(cells, e, e + |Encode(s)|, Count(s), ParseNode(cells, e, Heads(0, 0), big));
  }

  lemma {:induction false} WithRoom(s: Source, next: nat)
    ensures Expected(s, next, Heads(0, 0), Heads(Count(s).nodes + 1, Count(s).props + 1)) == Parsed(Mirror(s), next, Count(s))
  {
    hide Mirror, Count;
  }

  lemma AtEnds(cells: seq<nat>, off: nat, part: seq<nat>)
    requires At(cells, off, part)
    ensures off + |part| <= |cells|
  {
  }

  lemma PaidIs(cells: seq<nat>, off: nat, next: nat, h: Heads, r: Result)
    requires off <= next <= |cells| && r.Parsed? && r.offset == next && r.heads == h && Paid(cells, off, Heads(0, 0), r)
    ensures Occurs(cells, BEGIN_NODE, off, next) >= h.nodes && Occurs(cells, PROP, off, next) >= h.props
  {
    hide Occurs;
  }

  /** A root without inner nodes that follows another root directly is not found. */
  lemma {:induction false} AdjacentLost(s: Source, body: seq<nat>, max: Heads, roots: seq<Tree>)
    requires SourceOk(s) && Room(Heads(0, 0), Count(s), max) && Quiet(body)
    ensures ScanFrom(Encode(s) + [BEGIN_NODE] + body, 0, Heads(0, 0), max, roots) == Scanned([Mirror(s)] + roots)
  {
    hide Encode, Mirror, Count, SourceOk, ParseNode, ScanFrom;
    var cells, e := Encode(s) + [BEGIN_NODE] + body, |Encode(s)|;
    assert cells[0..0 + e] == Encode(s);
    RoundTrip(cells, 0, s, Heads(0, 0), max);
    ScanNode(cells, 0, Heads(0, 0), max, roots);
    assert cells[e + 1..e + 1 + |body|] == body;
    QuietFrom(cells, e + 1, body);
    ScanRest(cells, e + 1, Plus(Heads(0, 0), Count(s)), max, [Mirror(s)] + roots);
  }

  /** A root without contents: one node token, and the parser has no slot for it. */
  lemma NoSpareExample()
    ensures ScanFrom([BEGIN_NODE, 0, END_NODE, END], 0, Heads(0, 0), Limits([BEGIN_NODE, 0, END_NODE, END]), []) == Crashed
  {
    var f := Root([], Source([], Nil), Last([END]));
    var c := [BEGIN_NODE, 0, END_NODE, END];
    assert Pack([0]) == [0];
    assert [] + [0] == [0];
    assert Encode(f.node) == [BEGIN_NODE, 0, END_NODE];
    assert ForestCells(f) == c;
    BlockParsed(f, []);
    assert Occurs(c, BEGIN_NODE, 1, 4) == Occurs(c, BEGIN_NODE, 2, 4) == Occurs(c, BEGIN_NODE, 3, 4) == Occurs(c, BEGIN_NODE, 4, 4) == 0;
  }

  // ----- blocks that are not well-formed

  /** The block ends with a cell in which a name would end, and with no property token in its last two cells. */
  ghost predicate Closed(cells: seq<nat>) {
    && |cells| >= 2 && ByteAt(cells, 4 * (|cells| - 1)) == 0
    && cells[|cells| - 1] != PROP && cells[|cells| - 2] != PROP && cells[|cells| - 1] != BEGIN_NODE
  }

  lemma {:induction false} NameEnds(cells: seq<nat>, k: nat)
    requires Closed(cells) && k <= 4 * (|cells| - 1)
    ensures NameLength(cells, k) >= 0
    decreases 4 * |cells| - k
  {
    hide ByteAt;
    assert InCells(cells, k);
    if k < 4 * (|cells| - 1) { NameEnds(cells, k + 1); }
  }

  /** On such a block, whatever it holds, nothing beyond the block is read. */
  lemma {:induction false} NodeStays(cells: seq<nat>, off: nat, h: Heads, max: Heads)
    requires Closed(cells) && off < |cells| && cells[off] == BEGIN_NODE
    ensures ParseNode(cells, off, h, max) != Overrun
    decreases |cells| - off, 0
  {
    hide ByteAt, InCells, ReadBytes, NameLength, CellsFor, ParseBody;
    NameEnds(cells, 4 * (off + 1));
    if h.nodes + 1 < max.nodes {
      var n := NameLength(cells, 4 * (off + 1));
      BodyStays(cells, off + 1 + CellsFor(n + 1), h.(nodes := h.nodes + 1), max, Node(ReadBytes(cells, 4 * (off + 1), n), [], []));
    }
  }

  lemma {:induction false} BodyStays(cells: seq<nat>, off: nat, h: Heads, max: Heads, node: Tree)
    requires Closed(cells)
    ensures ParseBody(cells, off, h, max, node) != Overrun
    decreases |cells| - off, 1
  {
    hide ByteAt, InCells, ReadBytes, NameLength, CellsFor, ParseNode;
    if off >= |cells| || cells[off] == END_NODE {
    } else if cells[off] == BEGIN_NODE {
      NodeStays(cells, off, h, max);
      var c := ParseNode(cells, off, h, max);
      if c.Parsed? { BodyStays(cells, c.offset, c.heads, max, node.(children := [c.node] + node.children)); }
    } else if cells[off] == PROP {
      if h.props + 1 < max.props && off + 1 + CellsFor(cells[off + 1]) + 2 <= |cells| {
        var p := Prop(cells[off + 2], ReadBytes(cells, 4 * (off + 3), cells[off + 1]));
        BodyStays(cells, off + 1 + CellsFor(cells[off + 1]) + 2, h.(props := h.props + 1), max, node.(props := [p] + node.props));
      }
    } else {
      BodyStays(cells, off + 1, h, max, node);
    }
  }
}
