/** Flattened devicetrees (section 5.4 of the Devicetree Specification): encoding, parsing, and that they agree. */
module DeviceTree {
  import opened Words

  const BEGIN_NODE: nat := 1
  const END_NODE: nat := 2
  const PROP: nat := 3
  const NOP: nat := 4
  const END: nat := 9

  datatype Prop = Prop(nameOffset: nat, value: seq<nat>)

  datatype Tree = Node(name: seq<nat>, props: seq<Prop>, children: seq<Tree>)

  /** How many nodes and properties have been allocated, or may be. */
  datatype Heads = Heads(nodes: nat, props: nat)

  datatype Result = Parsed(node: Tree, offset: nat, heads: Heads) | NoEnd | OutOfSpace | Overrun

  // ----- bytes in cells

  function Pow256(i: nat): (p: nat)
    requires i < 4
    ensures p > 0
  {
    if i == 0 then 1 else if i == 1 then 0x100 else if i == 2 then 0x10000 else 0x1000000
  }

  predicate InCells(cells: seq<nat>, k: nat) {
    k / 4 < |cells|
  }

  /** Byte k of the memory that the cells occupy; cells are big-endian. */
  function ByteAt(cells: seq<nat>, k: nat): (b: nat)
    ensures b < 256
  {
    if InCells(cells, k) then cells[k / 4] / Pow256(3 - k % 4) % 256 else 0
  }

  function Nth(b: seq<nat>, i: nat): (x: nat) {
    if i < |b| then b[i] else 0
  }

  function Cell(b: seq<nat>): (c: nat) {
    Nth(b, 0) * 0x1000000 + Nth(b, 1) * 0x10000 + Nth(b, 2) * 0x100 + Nth(b, 3)
  }

  function Drop4(b: seq<nat>): (r: seq<nat>) {
    if |b| <= 4 then [] else b[4..]
  }

  /** Bytes as cells, padded with zeros. */
  function Pack(b: seq<nat>): (cells: seq<nat>)
    decreases |b|
  {
    if b == [] then [] else [Cell(b)] + Pack(Drop4(b))
  }

  lemma {:induction false} PackLength(b: seq<nat>)
    ensures |Pack(b)| == CellsFor(|b|)
    decreases |b|
  {
    if b != [] { PackLength(Drop4(b)); }
  }

  predicate Bytes(b: seq<nat>) {
    forall i: nat | i < |b| :: b[i] < 256
  }

  lemma CellByte(b: seq<nat>, i: nat)
    requires Bytes(b) && i < 4
    ensures Cell(b) / Pow256(3 - i) % 256 == Nth(b, i)
  {
    var x, y, z, w := Nth(b, 0), Nth(b, 1), Nth(b, 2), Nth(b, 3);
    var c := Cell(b);
    if i == 0 {
      DivUnique(c, 0x1000000, x, y * 0x10000 + z * 0x100 + w);
    } else if i == 1 {
      DivUnique(c, 0x10000, x * 0x100 + y, z * 0x100 + w);
      DivUnique(x * 0x100 + y, 0x100, x, y);
    } else if i == 2 {
      DivUnique(c, 0x100, x * 0x10000 + y * 0x100 + z, w);
      DivUnique(x * 0x10000 + y * 0x100 + z, 0x100, x * 0x100 + y, z);
    } else {
      DivUnique(c, 0x100, x * 0x10000 + y * 0x100 + z, w);
    }
  }

  /** Reading packed bytes gives them back, followed by zeros. */
  lemma {:induction false} PackByte(b: seq<nat>, k: nat)
    requires Bytes(b) && InCells(Pack(b), k)
    ensures ByteAt(Pack(b), k) == Nth(b, k)
    decreases |b|
  {
    var p := Pack(b);
    if k < 4 {
      CellByte(b, k);
    } else {
      var r := Drop4(b);
      assert k / 4 == 1 + (k - 4) / 4 && k % 4 == (k - 4) % 4;
      PackByte(r, k - 4);
      assert p == [Cell(b)] + Pack(r);
      assert Nth(b, k) == Nth(r, k - 4);
    }
  }

  // ----- encoding

  /** The contents of a node in order, with cells that mean nothing, such as NOP, anywhere between them. */
  datatype Items = Nil | Property(prop: Prop, rest: Items) | Skip(cell: nat, rest: Items) | Child(node: Source, rest: Items)

  datatype Source = Source(name: seq<nat>, items: Items)

  predicate Filler(cell: nat) {
    cell != BEGIN_NODE && cell != END_NODE && cell != PROP
  }

  predicate NameOk(name: seq<nat>) {
    forall i: nat | i < |name| :: 0 < name[i] < 256
  }

  predicate ItemsOk(items: Items) {
    match items
    case Nil => true
    case Property(p, rest) => Bytes(p.value) && ItemsOk(rest)
    case Skip(c, rest) => Filler(c) && ItemsOk(rest)
    case Child(n, rest) => SourceOk(n) && ItemsOk(rest)
  }

  predicate SourceOk(s: Source) {
    NameOk(s.name) && ItemsOk(s.items)
  }

  function EncodeItems(items: Items): (cells: seq<nat>) {
    match items
    case Nil => []
    case Property(p, rest) => [PROP, |p.value|, p.nameOffset] + Pack(p.value) + EncodeItems(rest)
    case Skip(c, rest) => [c] + EncodeItems(rest)
    case Child(n, rest) => Encode(n) + EncodeItems(rest)
  }

  function Encode(s: Source): (cells: seq<nat>)
    ensures |cells| > 0 && cells[0] == BEGIN_NODE
  {
    [BEGIN_NODE] + Pack(s.name + [0]) + EncodeItems(s.items) + [END_NODE]
  }

  // ----- the tree that an encoding stands for, with siblings and properties in reverse order

  function ReverseProps(items: Items): (ps: seq<Prop>) {
    match items
    case Nil => []
    case Property(p, rest) => ReverseProps(rest) + [p]
    case Skip(_, rest) => ReverseProps(rest)
    case Child(_, rest) => ReverseProps(rest)
  }

  function ReverseChildren(items: Items): (ts: seq<Tree>) {
    match items
    case Nil => []
    case Property(_, rest) => ReverseChildren(rest)
    case Skip(_, rest) => ReverseChildren(rest)
    case Child(n, rest) => ReverseChildren(rest) + [Mirror(n)]
  }

  function Mirror(s: Source): (t: Tree) {
    Node(s.name, ReverseProps(s.items), ReverseChildren(s.items))
  }

  function CountItems(items: Items): (h: Heads) {
    match items
    case Nil => Heads(0, 0)
    case Property(_, rest) => Plus(Heads(0, 1), CountItems(rest))
    case Skip(_, rest) => CountItems(rest)
    case Child(n, rest) => Plus(Count(n), CountItems(rest))
  }

  function Count(s: Source): (h: Heads) {
    var h := CountItems(s.items);
    Heads(h.nodes + 1, h.props)
  }

  function Plus(a: Heads, b: Heads): (c: Heads) {
    Heads(a.nodes + b.nodes, a.props + b.props)
  }

  // ----- parsing

  /** The number of bytes before the next zero byte from byte k on, or -1 if there is none. */
  function NameLength(cells: seq<nat>, k: nat): (n: int)
    decreases 4 * |cells| - k
  {
    if !InCells(cells, k) then -1
    else if ByteAt(cells, k) == 0 then 0
    else
      var n := NameLength(cells, k + 1);
      if n < 0 then -1 else n + 1
  }

  function ReadBytes(cells: seq<nat>, k: nat, n: nat): (b: seq<nat>)
    ensures |b| == n && forall j: nat | j < n :: b[j] == ByteAt(cells, k + j)
  {
    seq<nat>(n, (j: nat) => ByteAt(cells, k + j))
  }

  function CellsFor(n: nat): (c: nat) {
    (n + 3) / 4
  }

  function ParseNode(cells: seq<nat>, off: nat, h: Heads, max: Heads): (r: Result)
    requires off < |cells| && cells[off] == BEGIN_NODE
    ensures r.Parsed? ==> off < r.offset <= |cells|
    decreases |cells| - off, 0
  {
    if h.nodes + 1 >= max.nodes then OutOfSpace
    else
      var n := NameLength(cells, 4 * (off + 1));
      if n < 0 then Overrun
      else
        ParseBody(cells, off + 1 + CellsFor(n + 1), h.(nodes := h.nodes + 1), max,
                  Node(ReadBytes(cells, 4 * (off + 1), n), [], []))
  }

  /** The loop of parse_node from offset off, with node built so far. */
  function ParseBody(cells: seq<nat>, off: nat, h: Heads, max: Heads, node: Tree): (r: Result)
    ensures r.Parsed? ==> off < r.offset <= |cells|
    decreases |cells| - off, 1
  {
    if off >= |cells| then NoEnd
    else if cells[off] == END_NODE then Parsed(node, off + 1, h)
    else if cells[off] == BEGIN_NODE then
      match ParseNode(cells, off, h, max)
      case Parsed(child, next, h') => ParseBody(cells, next, h', max, node.(children := [child] + node.children))
      case other => other
    else if cells[off] == PROP then
      if h.props + 1 >= max.props then OutOfSpace
      else if off + 2 >= |cells| then Overrun
      else
        var next := off + 1 + CellsFor(cells[off + 1]) + 2;
        if next > |cells| then NoEnd
        else
          var p := Prop(cells[off + 2], ReadBytes(cells, 4 * (off + 3), cells[off + 1]));
          ParseBody(cells, next, h.(props := h.props + 1), max, node.(props := [p] + node.props))
    else ParseBody(cells, off + 1, h, max, node)
  }

  // ----- round trip

  predicate At(cells: seq<nat>, off: nat, x: seq<nat>) {
    off + |x| <= |cells| && cells[off..off + |x|] == x
  }

  lemma AtSplit(cells: seq<nat>, off: nat, a: seq<nat>, b: seq<nat>)
    requires At(cells, off, a + b)
    ensures At(cells, off, a) && At(cells, off + |a|, b)
  {
    var x := cells[off..off + |a + b|];
    assert cells[off..off + |a|] == x[..|a|] == a;
    assert cells[off + |a|..off + |a| + |b|] == x[|a|..] == b;
  }

  lemma AtByte(cells: seq<nat>, off: nat, b: seq<nat>, k: nat)
    requires At(cells, off, Pack(b)) && Bytes(b) && InCells(Pack(b), k)
    ensures InCells(cells, 4 * off + k) && ByteAt(cells, 4 * off + k) == Nth(b, k)
  {
    hide Pack;
    PackByte(b, k);
    assert cells[off + k / 4] == cells[off..off + |Pack(b)|][k / 4];
    assert (4 * off + k) / 4 == off + k / 4 && (4 * off + k) % 4 == k % 4;
  }

  lemma PackHolds(b: seq<nat>, k: nat)
    requires k < |b|
    ensures InCells(Pack(b), k)
  {
    PackLength(b);
  }

  lemma AtBytes(cells: seq<nat>, off: nat, b: seq<nat>)
    requires At(cells, off, Pack(b)) && Bytes(b)
    ensures ReadBytes(cells, 4 * off, |b|) == b
  {
    hide Pack, ByteAt, InCells;
    forall k: nat | k < |b| ensures ReadBytes(cells, 4 * off, |b|)[k] == b[k] {
      PackHolds(b, k);
      AtByte(cells, off, b, k);
    }
  }

  /** There is room for c more, beyond the slot that the allocators leave unused. */
  predicate Room(h: Heads, c: Heads, max: Heads) {
    && (c.nodes > 0 ==> h.nodes + c.nodes < max.nodes)
    && (c.props > 0 ==> h.props + c.props < max.props)
  }

  function Extended(node: Tree, items: Items): (t: Tree) {
    node.(props := ReverseProps(items) + node.props, children := ReverseChildren(items) + node.children)
  }

  // ----- which cells hold a node, whatever the padding of names and values

  /** The bytes from k on are a name and the zero that ends it. */
  ghost predicate NameIn(cells: seq<nat>, k: nat, name: seq<nat>) {
    NameOk(name) && InCells(cells, k + |name|) && ByteAt(cells, k + |name|) == 0 && name == ReadBytes(cells, k, |name|)
  }

  ghost predicate PropIn(cells: seq<nat>, off: nat, p: Prop) {
    && off + 3 <= |cells| && cells[off] == PROP && cells[off + 1] == |p.value| && cells[off + 2] == p.nameOffset
    && off + 3 + CellsFor(|p.value|) <= |cells| && p.value == ReadBytes(cells, 4 * (off + 3), |p.value|)
  }

  /** The cells from off up to end are the given contents of a node. */
  ghost predicate ItemsIn(cells: seq<nat>, off: nat, end: nat, items: Items)
    decreases items, 0
  {
    match items
    case Nil => off == end
    case Property(p, rest) => PropIn(cells, off, p) && ItemsIn(cells, off + 3 + CellsFor(|p.value|), end, rest)
    case Skip(c, rest) => off < |cells| && cells[off] == c && Filler(c) && ItemsIn(cells, off + 1, end, rest)
    case Child(n, rest) => exists mid: nat :: NodeIn(cells, off, mid, n) && ItemsIn(cells, mid, end, rest)
  }

  /** The cells from off up to next are the given node. */
  ghost predicate NodeIn(cells: seq<nat>, off: nat, next: nat, s: Source)
    decreases s, 1
  {
    && off < next <= |cells| && cells[off] == BEGIN_NODE && cells[next - 1] == END_NODE
    && NameIn(cells, 4 * (off + 1), s.name)
    && ItemsIn(cells, off + 1 + CellsFor(|s.name| + 1), next - 1, s.items)
  }

  lemma {:induction false} NameKnown(cells: seq<nat>, k: nat, name: seq<nat>, j: nat)
    requires NameIn(cells, k, name) && j <= |name|
    ensures NameLength(cells, k + j) == |name| - j
    decreases |name| - j
  {
    hide ByteAt;
    if j < |name| {
      assert ByteAt(cells, k + j) == name[j];
      assert InCells(cells, k + j);
      NameKnown(cells, k, name, j + 1);
    }
  }

  /** A name that the parser finds is there. */
  lemma {:induction false} NameFound(cells: seq<nat>, k: nat)
    requires NameLength(cells, k) >= 0
    ensures NameIn(cells, k, ReadBytes(cells, k, NameLength(cells, k)))
    decreases 4 * |cells| - k
  {
    hide ByteAt;
    if ByteAt(cells, k) != 0 {
      NameFound(cells, k + 1);
      var n := NameLength(cells, k + 1);
      var a, b := ReadBytes(cells, k, n + 1), ReadBytes(cells, k + 1, n);
      forall i: nat | i < |a| ensures 0 < a[i] < 256 { assert i > 0 ==> a[i] == b[i - 1]; ByteBound(cells, k + i); }
    }
  }

  lemma ByteBound(cells: seq<nat>, k: nat)
    ensures ByteAt(cells, k) < 256
  {
  }

  /** What parsing must give for a node in the cells from off up to next. */
  function Expected(s: Source, next: nat, h: Heads, max: Heads): (r: Result) {
    if Room(h, Count(s), max) then Parsed(Mirror(s), next, Plus(h, Count(s))) else OutOfSpace
  }

  /** Parsing a node that is there gives the node, mirrored, exactly if there is room. */
  lemma {:induction false} NodeParsed(cells: seq<nat>, off: nat, next: nat, s: Source, h: Heads, max: Heads)
    requires NodeIn(cells, off, next, s)
    ensures ParseNode(cells, off, h, max) == Expected(s, next, h, max)
    decreases s, 1
  {
    hide ByteAt, InCells, ReadBytes, NameLength, CellsFor, ItemsIn, ParseBody, Extended;
    var body, h1, node := off + 1 + CellsFor(|s.name| + 1), h.(nodes := h.nodes + 1), Node(s.name, [], []);
    NameKnown(cells, 4 * (off + 1), s.name, 0);
    ReadName(cells, 4 * (off + 1), s.name);
    if h.nodes + 1 < max.nodes {
      BodyRound(cells, body, next - 1, s.items, h1, max, node);
      EndParsed(cells, next - 1, Plus(h1, CountItems(s.items)), max, Extended(node, s.items));
      ExtendedRoot(s);
    }
  }

  lemma ReadName(cells: seq<nat>, k: nat, name: seq<nat>)
    requires NameIn(cells, k, name)
    ensures name == ReadBytes(cells, k, |name|)
  {
  }

  lemma EndParsed(cells: seq<nat>, off: nat, h: Heads, max: Heads, node: Tree)
    requires off < |cells| && cells[off] == END_NODE
    ensures ParseBody(cells, off, h, max, node) == Parsed(node, off + 1, h)
  {
  }

  lemma ExtendedRoot(s: Source)
    ensures Extended(Node(s.name, [], []), s.items) == Mirror(s)
  {
  }

  /** What parsing must give for the given contents of a node, which end before cell end. */
  function BodyIs(cells: seq<nat>, end: nat, items: Items, h: Heads, max: Heads, node: Tree): (r: Result) {
    if Room(h, CountItems(items), max) then ParseBody(cells, end, Plus(h, CountItems(items)), max, Extended(node, items))
    else OutOfSpace
  }

  /** The parser over the contents of a node adds them to the node, exactly if there is room. */
  lemma {:induction false} BodyRound(cells: seq<nat>, off: nat, end: nat, items: Items, h: Heads, max: Heads, node: Tree)
    requires ItemsIn(cells, off, end, items)
    ensures ParseBody(cells, off, h, max, node) == BodyIs(cells, end, items, h, max, node)
    decreases items, 0
  {
    hide Mirror, ParseNode, ParseBody, CellsFor, NodeIn, PropIn, Room, Plus, Count, BodyIs;
    match items
    case Nil =>
      NilIs(cells, end, h, max, node);
    case Skip(c, rest) =>
      SkipRound(cells, off, h, max, node);
      BodyRound(cells, off + 1, end, rest, h, max, node);
      SkipIs(cells, end, c, rest, h, max, node);
    case Property(p, rest) =>
      PropRound(cells, off, p, h, max, node);
      PropertyIs(cells, end, p, rest, h, max, node);
      if h.props + 1 < max.props {
        BodyRound(cells, off + 3 + CellsFor(|p.value|), end, rest, h.(props := h.props + 1), max, node.(props := [p] + node.props));
      }
    case Child(n, rest) =>
      var mid: nat :| NodeIn(cells, off, mid, n) && ItemsIn(cells, mid, end, rest);
      NodeParsed(cells, off, mid, n, h, max);
      NodeStarts(cells, off, mid, n);
      ChildRound(cells, off, h, max, node);
      ChildIs(cells, end, n, rest, h, max, node);
      if Room(h, Count(n), max) {
        BodyRound(cells, mid, end, rest, Plus(h, Count(n)), max, node.(children := [Mirror(n)] + node.children));
      }
  }

  lemma NilIs(cells: seq<nat>, end: nat, h: Heads, max: Heads, node: Tree)
    ensures BodyIs(cells, end, Nil, h, max, node) == ParseBody(cells, end, h, max, node)
  {
    hide ParseBody, Extended;
    ExtendedNil(node);
    RoomForNone(h, max);
  }

  lemma {:induction false} SkipIs(cells: seq<nat>, end: nat, c: nat, rest: Items, h: Heads, max: Heads, node: Tree)
    ensures BodyIs(cells, end, Skip(c, rest), h, max, node) == BodyIs(cells, end, rest, h, max, node)
  {
    hide ParseBody, Extended, Room;
    ExtendedSkip(node, c, rest);
  }

  lemma {:induction false} PropertyIs(cells: seq<nat>, end: nat, p: Prop, rest: Items, h: Heads, max: Heads, node: Tree)
    ensures BodyIs(cells, end, Property(p, rest), h, max, node) ==
      if h.props + 1 < max.props
      then BodyIs(cells, end, rest, h.(props := h.props + 1), max, node.(props := [p] + node.props))
      else OutOfSpace
  {
    hide ParseBody, Extended, Room, Plus;
    OneProperty(h);
    ExtendedProp(node, p, rest);
    RoomTwice(h, Heads(0, 1), CountItems(rest), max);
    RoomForProp(h, max);
  }

  lemma OneProperty(h: Heads)
    ensures Plus(h, Heads(0, 1)) == h.(props := h.props + 1)
  {
  }

  lemma {:induction false} ChildIs(cells: seq<nat>, end: nat, n: Source, rest: Items, h: Heads, max: Heads, node: Tree)
    ensures BodyIs(cells, end, Child(n, rest), h, max, node) ==
      if Room(h, Count(n), max)
      then BodyIs(cells, end, rest, Plus(h, Count(n)), max, node.(children := [Mirror(n)] + node.children))
      else OutOfSpace
  {
    hide ParseBody, Extended, Room, Count, Mirror;
    ExtendedChild(node, n, rest);
    RoomTwice(h, Count(n), CountItems(rest), max);
  }

  lemma RoomForNone(h: Heads, max: Heads)
    ensures Room(h, Heads(0, 0), max) && Plus(h, Heads(0, 0)) == h
  {
  }

  lemma RoomForProp(h: Heads, max: Heads)
    ensures Room(h, Heads(0, 1), max) <==> h.props + 1 < max.props
  {
  }

  /** There is room for two if there is room for one and then for the other. */
  lemma RoomTwice(h: Heads, a: Heads, b: Heads, max: Heads)
    ensures Room(h, Plus(a, b), max) <==> Room(h, a, max) && Room(Plus(h, a), b, max)
    ensures Plus(Plus(h, a), b) == Plus(h, Plus(a, b))
  {
  }

  lemma NodeStarts(cells: seq<nat>, off: nat, next: nat, s: Source)
    requires NodeIn(cells, off, next, s)
    ensures off < |cells| && cells[off] == BEGIN_NODE
  {
  }

  lemma SkipRound(cells: seq<nat>, off: nat, h: Heads, max: Heads, node: Tree)
    requires off < |cells| && Filler(cells[off])
    ensures ParseBody(cells, off, h, max, node) == ParseBody(cells, off + 1, h, max, node)
  {
  }

  lemma ChildRound(cells: seq<nat>, off: nat, h: Heads, max: Heads, node: Tree)
    requires off < |cells| && cells[off] == BEGIN_NODE
    ensures ParseBody(cells, off, h, max, node) ==
      var r := ParseNode(cells, off, h, max);
      if r.Parsed? then ParseBody(cells, r.offset, r.heads, max, node.(children := [r.node] + node.children)) else r
  {
    hide ParseNode;
  }

  /** One step of the parser over a property. */
  lemma PropRound(cells: seq<nat>, off: nat, p: Prop, h: Heads, max: Heads, node: Tree)
    requires PropIn(cells, off, p)
    ensures ParseBody(cells, off, h, max, node) ==
      if h.props + 1 >= max.props then OutOfSpace
      else ParseBody(cells, off + 3 + CellsFor(|p.value|), h.(props := h.props + 1), max, node.(props := [p] + node.props))
  {
    hide ReadBytes, CellsFor;
  }

  lemma ExtendedNil(node: Tree)
    ensures Extended(node, Nil) == node
  {
  }

  lemma ExtendedSkip(node: Tree, c: nat, rest: Items)
    ensures Extended(node, Skip(c, rest)) == Extended(node, rest)
  {
  }

  lemma ExtendedProp(node: Tree, p: Prop, rest: Items)
    ensures Extended(node.(props := [p] + node.props), rest) == Extended(node, Property(p, rest))
  {
    assert ReverseProps(rest) + ([p] + node.props) == (ReverseProps(rest) + [p]) + node.props;
  }

  lemma ExtendedChild(node: Tree, n: Source, rest: Items)
    ensures Extended(node.(children := [Mirror(n)] + node.children), rest) == Extended(node, Child(n, rest))
  {
    assert ReverseChildren(rest) + ([Mirror(n)] + node.children) == (ReverseChildren(rest) + [Mirror(n)]) + node.children;
  }

  /** Whatever the parser accepts is a node: the tree it gives is that node, mirrored, and the slots used are counted. */
  lemma {:induction false} ParsedMeans(cells: seq<nat>, off: nat, h: Heads, max: Heads) returns (s: Source)
    requires off < |cells| && cells[off] == BEGIN_NODE && ParseNode(cells, off, h, max).Parsed?
    ensures NodeIn(cells, off, ParseNode(cells, off, h, max).offset, s)
    ensures ParseNode(cells, off, h, max) == Expected(s, ParseNode(cells, off, h, max).offset, h, max)
    decreases |cells| - off, 0
  {
    hide ByteAt, InCells, ReadBytes, NameLength, CellsFor, ParseBody, ItemsIn;
    var n := NameLength(cells, 4 * (off + 1));
    var name := ReadBytes(cells, 4 * (off + 1), n);
    NameFound(cells, 4 * (off + 1));
    var body, h1, node := off + 1 + CellsFor(n + 1), h.(nodes := h.nodes + 1), Node(name, [], []);
    var items := BodyMeans(cells, body, h1, max, node);
    s := Source(name, items);
    NodeParsed(cells, off, ParseNode(cells, off, h, max).offset, s, h, max);
  }

  /** The contents that the parser accepts, up to the end token. */
  lemma {:induction false} BodyMeans(cells: seq<nat>, off: nat, h: Heads, max: Heads, node: Tree) returns (items: Items)
    requires ParseBody(cells, off, h, max, node).Parsed?
    ensures var next := ParseBody(cells, off, h, max, node).offset;
      off < next <= |cells| && cells[next - 1] == END_NODE && ItemsIn(cells, off, next - 1, items)
    decreases |cells| - off, 1
  {
    hide ByteAt, InCells, NameLength, CellsFor, ParseNode, NodeIn;
    if cells[off] == END_NODE {
      items := Nil;
    } else if cells[off] == BEGIN_NODE {
      ChildRound(cells, off, h, max, node);
      var c := ParseNode(cells, off, h, max);
      var n := ParsedMeans(cells, off, h, max);
      var rest := BodyMeans(cells, c.offset, c.heads, max, node.(children := [c.node] + node.children));
      items := Child(n, rest);
    } else if cells[off] == PROP {
      var p := Prop(cells[off + 2], ReadBytes(cells, 4 * (off + 3), cells[off + 1]));
      assert PropIn(cells, off, p);
      var rest := BodyMeans(cells, off + 3 + CellsFor(cells[off + 1]), h.(props := h.props + 1), max, node.(props := [p] + node.props));
      items := Property(p, rest);
    } else {
      var rest := BodyMeans(cells, off + 1, h, max, node);
      items := Skip(cells[off], rest);
    }
  }

  // ----- encoded nodes are there

  lemma {:induction false} NodeAt(cells: seq<nat>, off: nat, s: Source)
    requires SourceOk(s) && At(cells, off, Encode(s))
    ensures NodeIn(cells, off, off + |Encode(s)|, s)
    decreases s, 1
  {
    hide Pack, EncodeItems, CellsFor, At, ItemsIn;
    PackLength(s.name + [0]);
    NodeParts(cells, off, s);
    NameInAt(cells, off + 1, s.name);
    ItemsAt(cells, off + 1 + |Pack(s.name + [0])|, s.items);
  }

  lemma NameInAt(cells: seq<nat>, off: nat, name: seq<nat>)
    requires At(cells, off, Pack(name + [0])) && NameOk(name)
    ensures NameIn(cells, 4 * off, name)
  {
    hide Pack;
    AtPrefix(cells, off, name);
    PackHolds(name + [0], |name|);
    AtByte(cells, off, name + [0], |name|);
  }

  lemma {:induction false} ItemsAt(cells: seq<nat>, off: nat, items: Items)
    requires ItemsOk(items) && At(cells, off, EncodeItems(items) + [END_NODE])
    ensures ItemsIn(cells, off, off + |EncodeItems(items)|, items)
    decreases items, 0
  {
    hide Pack, Encode, At, NodeIn, CellsFor;
    match items
    case Nil =>
    case Skip(c, rest) =>
      SkipAt(cells, off, c, rest);
      ItemsAt(cells, off + 1, rest);
    case Property(p, rest) =>
      PackLength(p.value);
      PropParts(cells, off, p, rest);
      PropInAt(cells, off, p);
      ItemsAt(cells, off + 3 + |Pack(p.value)|, rest);
    case Child(n, rest) =>
      ChildAt(cells, off, n, rest);
      NodeAt(cells, off, n);
      ItemsAt(cells, off + |Encode(n)|, rest);
  }

  lemma PropInAt(cells: seq<nat>, off: nat, p: Prop)
    requires off + 3 <= |cells| && cells[off] == PROP && cells[off + 1] == |p.value| && cells[off + 2] == p.nameOffset
    requires Bytes(p.value) && At(cells, off + 3, Pack(p.value))
    ensures PropIn(cells, off, p)
  {
    hide Pack;
    PackLength(p.value);
    AtBytes(cells, off + 3, p.value);
  }

  lemma SkipAt(cells: seq<nat>, off: nat, c: nat, rest: Items)
    requires At(cells, off, EncodeItems(Skip(c, rest)) + [END_NODE])
    ensures off < |cells| && cells[off] == c && At(cells, off + 1, EncodeItems(rest) + [END_NODE])
  {
    assert EncodeItems(Skip(c, rest)) + [END_NODE] == [c] + (EncodeItems(rest) + [END_NODE]);
    AtSplit(cells, off, [c], EncodeItems(rest) + [END_NODE]);
    assert cells[off] == cells[off..off + 1][0];
  }

  /** The cells of a node: its token, its name, its items and the end token. */
  lemma NodeParts(cells: seq<nat>, off: nat, s: Source)
    requires At(cells, off, Encode(s))
    ensures off < |cells| && cells[off] == BEGIN_NODE && At(cells, off + 1, Pack(s.name + [0]))
    ensures var next := off + 1 + |Pack(s.name + [0])|;
      && At(cells, next, EncodeItems(s.items) + [END_NODE])
      && next + |EncodeItems(s.items)| < |cells| && cells[next + |EncodeItems(s.items)|] == END_NODE
  {
    hide Pack, EncodeItems, At;
    var name, body := Pack(s.name + [0]), EncodeItems(s.items);
    assert Encode(s) == [BEGIN_NODE] + (name + (body + [END_NODE]));
    AtSplit(cells, off, [BEGIN_NODE], name + (body + [END_NODE]));
    AtSplit(cells, off + 1, name, body + [END_NODE]);
    AtSplit(cells, off + 1 + |name|, body, [END_NODE]);
    AtOne(cells, off, BEGIN_NODE);
    AtOne(cells, off + 1 + |name| + |body|, END_NODE);
  }

  lemma AtOne(cells: seq<nat>, off: nat, c: nat)
    requires At(cells, off, [c])
    ensures off < |cells| && cells[off] == c
  {
    assert cells[off] == cells[off..off + 1][0];
  }

  lemma AtPrefix(cells: seq<nat>, off: nat, name: seq<nat>)
    requires At(cells, off, Pack(name + [0])) && NameOk(name)
    ensures ReadBytes(cells, 4 * off, |name|) == name
  {
    hide Pack, ByteAt, InCells;
    var b, r := name + [0], ReadBytes(cells, 4 * off, |name|);
    assert Bytes(b);
    forall k: nat | k < |name| ensures r[k] == name[k] {
      PackHolds(b, k);
      AtByte(cells, off, b, k);
      assert Nth(b, k) == b[k] == name[k];
    }
  }

  lemma ChildAt(cells: seq<nat>, off: nat, n: Source, rest: Items)
    requires At(cells, off, EncodeItems(Child(n, rest)) + [END_NODE])
    ensures At(cells, off, Encode(n)) && At(cells, off + |Encode(n)|, EncodeItems(rest) + [END_NODE])
  {
    hide Encode, At;
    assert EncodeItems(Child(n, rest)) + [END_NODE] == Encode(n) + (EncodeItems(rest) + [END_NODE]);
    AtSplit(cells, off, Encode(n), EncodeItems(rest) + [END_NODE]);
  }

  /** The cells of a property: its token, length and name, its value, and what follows. */
  lemma PropParts(cells: seq<nat>, off: nat, p: Prop, rest: Items)
    requires At(cells, off, EncodeItems(Property(p, rest)) + [END_NODE])
    ensures off + 3 <= |cells| && cells[off] == PROP && cells[off + 1] == |p.value| && cells[off + 2] == p.nameOffset
    ensures At(cells, off + 3, Pack(p.value)) && At(cells, off + 3 + |Pack(p.value)|, EncodeItems(rest) + [END_NODE])
  {
    hide Pack, At;
    var v, items, head := Pack(p.value), EncodeItems(rest), [PROP, |p.value|, p.nameOffset];
    assert EncodeItems(Property(p, rest)) == head + v + items;
    Regroup(head, v, items, [END_NODE]);
    AtSplit(cells, off, head, v + (items + [END_NODE]));
    AtSplit(cells, off + 3, v, items + [END_NODE]);
    ThreeAt(cells, off, PROP, |p.value|, p.nameOffset);
  }

  lemma Regroup(a: seq<nat>, b: seq<nat>, c: seq<nat>, d: seq<nat>)
    ensures a + b + c + d == a + (b + (c + d))
  {
  }

  lemma ThreeAt(cells: seq<nat>, off: nat, a: nat, b: nat, c: nat)
    requires At(cells, off, [a, b, c])
    ensures off + 3 <= |cells| && cells[off] == a && cells[off + 1] == b && cells[off + 2] == c
  {
    var x := cells[off..off + 3];
    assert cells[off] == x[0] && cells[off + 1] == x[1] && cells[off + 2] == x[2];
  }

  /** Parsing an encoded node gives the node back, mirrored, exactly if there is room. */
  lemma {:induction false} RoundTrip(cells: seq<nat>, off: nat, s: Source, h: Heads, max: Heads)
    requires SourceOk(s) && At(cells, off, Encode(s))
    ensures off < |cells| && cells[off] == BEGIN_NODE
    ensures ParseNode(cells, off, h, max) == Expected(s, off + |Encode(s)|, h, max)
  {
    hide SourceOk, At, Encode, ParseNode, NodeIn, Expected;
    NodeAt(cells, off, s);
    NodeStarts(cells, off, off + |Encode(s)|, s);
    NodeParsed(cells, off, off + |Encode(s)|, s, h, max);
  }

  // ----- allocation

  /** How often value v occurs among the cells from lo up to hi. */
  ghost function Occurs(cells: seq<nat>, v: nat, lo: nat, hi: nat): (n: nat)
    requires lo <= hi <= |cells|
    decreases hi - lo
  {
    if lo == hi then 0 else (if cells[lo] == v then 1 else 0) + Occurs(cells, v, lo + 1, hi)
  }

  lemma {:induction false} OccursSplit(cells: seq<nat>, v: nat, lo: nat, mid: nat, hi: nat)
    requires lo <= mid <= hi <= |cells|
    ensures Occurs(cells, v, lo, hi) == Occurs(cells, v, lo, mid) + Occurs(cells, v, mid, hi)
    decreases mid - lo
  {
    if lo < mid { OccursSplit(cells, v, lo + 1, mid, hi); }
  }

  /** Nodes and properties are allocated at most once for each of their tokens that is passed. */
  ghost predicate Paid(cells: seq<nat>, off: nat, h: Heads, r: Result) {
    r.Parsed? && off <= r.offset <= |cells| ==>
      && r.heads.nodes <= h.nodes + Occurs(cells, BEGIN_NODE, off, r.offset)
      && r.heads.props <= h.props + Occurs(cells, PROP, off, r.offset)
  }

  lemma {:induction false} NodePaid(cells: seq<nat>, off: nat, h: Heads, max: Heads)
    requires off < |cells| && cells[off] == BEGIN_NODE
    ensures Paid(cells, off, h, ParseNode(cells, off, h, max))
    decreases |cells| - off, 0
  {
    hide ByteAt, ReadBytes, CellsFor, NameLength, ParseBody;
    var n := NameLength(cells, 4 * (off + 1));
    if h.nodes + 1 < max.nodes && n >= 0 {
      var next := off + 1 + CellsFor(n + 1);
      var h1, node := h.(nodes := h.nodes + 1), Node(ReadBytes(cells, 4 * (off + 1), n), [], []);
      BodyPaid(cells, next, h1, max, node);
      var r := ParseBody(cells, next, h1, max, node);
      if r.Parsed? {
        OccursSplit(cells, BEGIN_NODE, off + 1, next, r.offset);
        OccursSplit(cells, PROP, off + 1, next, r.offset);
      }
    }
  }

  lemma {:induction false} BodyPaid(cells: seq<nat>, off: nat, h: Heads, max: Heads, node: Tree)
    ensures Paid(cells, off, h, ParseBody(cells, off, h, max, node))
    decreases |cells| - off, 1
  {
    hide ByteAt, ReadBytes, CellsFor, ParseNode;
    if off >= |cells| || cells[off] == END_NODE {
    } else if cells[off] == BEGIN_NODE {
      NodePaid(cells, off, h, max);
      var c := ParseNode(cells, off, h, max);
      if c.Parsed? {
        var node' := node.(children := [c.node] + node.children);
        BodyPaid(cells, c.offset, c.heads, max, node');
        PaidOn(cells, off, c.offset, h, c.heads, ParseBody(cells, c.offset, c.heads, max, node'));
      }
    } else if cells[off] == PROP {
      if h.props + 1 < max.props && off + 2 < |cells| {
        var next := off + 1 + CellsFor(cells[off + 1]) + 2;
        if next <= |cells| {
          var h1 := h.(props := h.props + 1);
          var p := Prop(cells[off + 2], ReadBytes(cells, 4 * (off + 3), cells[off + 1]));
          BodyPaid(cells, next, h1, max, node.(props := [p] + node.props));
          OccursSplit(cells, PROP, off, off + 1, next);
          OccursSplit(cells, BEGIN_NODE, off, off + 1, next);
          PaidOn(cells, off, next, h, h1, ParseBody(cells, next, h1, max, node.(props := [p] + node.props)));
        }
      }
    } else {
      BodyPaid(cells, off + 1, h, max, node);
      PaidOn(cells, off, off + 1, h, h, ParseBody(cells, off + 1, h, max, node));
    }
  }

  lemma PaidOn(cells: seq<nat>, off: nat, mid: nat, h: Heads, h': Heads, r: Result)
    requires off <= mid <= |cells| && Paid(cells, mid, h', r) && (r.Parsed? ==> mid <= r.offset <= |cells|)
    requires h'.nodes <= h.nodes + Occurs(cells, BEGIN_NODE, off, mid) && h'.props <= h.props + Occurs(cells, PROP, off, mid)
    ensures Paid(cells, off, h, r)
  {
    if r.Parsed? {
      OccursSplit(cells, BEGIN_NODE, off, mid, r.offset);
      OccursSplit(cells, PROP, off, mid, r.offset);
    }
  }
}
