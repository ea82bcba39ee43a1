/**
 Picking a flattened device tree apart again. Reads outside the blob, which the source does
 not guard against, are the outcome Fault.
 */
module FdtReader {
  import opened Bytes
  import opened DeviceTree

  /** `Stop` is the source's size 0: something else starts here. */
  datatype Parsed<+T> = Fault | Stop | Found(value: T, size: nat)

  /** A list of things up to the first that does not parse, and where that is. */
  datatype Scan<+T> = Broken | Scanned(values: seq<T>, end: nat)

  datatype Root = NoRoot | Root(node: Node)

  datatype Loaded = BadBlob | Loaded(headerSize: nat, reserveMap: seq<Entry>, root: Root)

  // ----- What the readers compute -----

  /** The string at `off`, up to its terminating 0. */
  function StringFrom(b: seq<byte>, off: nat): (p: Parsed<CString>)
    ensures !p.Stop? && (p.Found? ==> off + p.size <= |b| && p.size == |p.value| + 1)
    decreases |b| - off
  {
    if off >= |b| then Fault
    else if b[off] == 0 then Found([], 1)
    else
      var rest := StringFrom(b, off + 1);
      if rest.Fault? then Fault else Found([b[off]] + rest.value, rest.size + 1)
  }

  /** What there is of the string at `off` in the blob, which nobody has looked at yet. */
  function NameAt(b: seq<byte>, off: nat): (name: CString)
    ensures StringFrom(b, off).Found? ==> name == StringFrom(b, off).value
    decreases |b| - off
  {
    if off >= |b| || b[off] == 0 then [] else [b[off]] + NameAt(b, off + 1)
  }

  /** `fdt_node_name` */
  function NodeName(b: seq<byte>, off: nat): (p: Parsed<CString>)
    ensures p.Found? ==> p.size >= 8 && off + 4 <= |b|
  {
    if off + 4 > |b| then Fault
    else if Word(b, off) != TOKEN_BEGIN_NODE then Stop
    else
      var name := StringFrom(b, off + 4);
      if name.Fault? then Fault else Found(name.value, Align4(|name.value| + 1) + 4)
  }

  /** `fdt_next_property`; the name offset is relative to the strings block named in the header. */
  function NextProperty(b: seq<byte>, off: nat): (p: Parsed<Property>)
    requires |b| >= 40
    ensures p.Found? ==> p.size >= 12 && off + 12 <= |b|
  {
    if off + 4 > |b| then Fault
    else if Word(b, off) != TOKEN_PROPERTY then Stop
    else if off + 12 > |b| || off + 12 + Word(b, off + 4) > |b| then Fault
    else
      var size := Word(b, off + 4);
      var name := NameAt(b, (Word(b, off + 8) + Word(b, 12)) % TWO32);
      Found(Property(name, b[off + 12..off + 12 + size]), 12 + Align4(size))
  }

  function Left(b: seq<byte>, off: nat): nat {
    if off <= |b| then |b| - off else 0
  }

  function PropertiesFrom(b: seq<byte>, off: nat): (s: Scan<Property>)
    requires |b| >= 40
    ensures s.Scanned? ==> off <= s.end
    decreases Left(b, off)
  {
    match NextProperty(b, off)
    case Fault => Broken
    case Stop => Scanned([], off)
    case Found(p, size) =>
      match PropertiesFrom(b, off + size)
      case Broken => Broken
      case Scanned(ps, end) => Scanned([p] + ps, end)
  }

  /** `fdt_unflatten_node` */
  function NodeFrom(b: seq<byte>, off: nat): (p: Parsed<Node>)
    requires |b| >= 40
    ensures p.Found? ==> p.size >= 12 && off + 4 <= |b|
    decreases Left(b, off), 0
  {
    match NodeName(b, off)
    case Fault => Fault
    case Stop => Stop
    case Found(name, size) =>
      match PropertiesFrom(b, off + size)
      case Broken => Fault
      case Scanned(ps, mid) =>
        match NodesFrom(b, mid)
        case Broken => Fault
        case Scanned(ns, end) => Found(Node(name, ps, ns), end - off + 4)
  }

  function NodesFrom(b: seq<byte>, off: nat): (s: Scan<Node>)
    requires |b| >= 40
    ensures s.Scanned? ==> off <= s.end
    decreases Left(b, off), 1
  {
    match NodeFrom(b, off)
    case Fault => Broken
    case Stop => Scanned([], off)
    case Found(n, size) =>
      match NodesFrom(b, off + size)
      case Broken => Broken
      case Scanned(ns, end) => Scanned([n] + ns, end)
  }

  function EntriesFrom(b: seq<byte>, off: nat): Scan<Entry>
    decreases Left(b, off)
  {
    if off + 16 > |b| then Broken
    else if Word64(b, off + 8) == 0 then Scanned([], off)
    else
      match EntriesFrom(b, off + 16)
      case Broken => Broken
      case Scanned(es, end) => Scanned([Entry(Word64(b, off), Word64(b, off + 8))] + es, end)
  }

  function Least(a: nat, b: nat): nat { if a < b then a else b }

  /** `fdt_unflatten` */
  function Load(b: seq<byte>): Loaded {
    if |b| < 40 then BadBlob else
      var structOffset, stringsOffset, reserveOffset := Word(b, 8), Word(b, 12), Word(b, 16);
      var entries := EntriesFrom(b, reserveOffset);
      var root := NodeFrom(b, structOffset);
      if entries.Broken? || root.Fault? then BadBlob
      else Loaded(Least(Least(structOffset, stringsOffset), reserveOffset), entries.values,
                  if root.Stop? then NoRoot else Root(root.value))
  }

  // ----- The loops -----

  lemma PropertiesStep(b: seq<byte>, off: nat, ps: seq<Property>)
    requires |b| >= 40 && NextProperty(b, off).Found?
    ensures var p := NextProperty(b, off);
            Prepend(ps, PropertiesFrom(b, off)) == Prepend(ps + [p.value], PropertiesFrom(b, off + p.size))
  {
    hide *;
    var p := NextProperty(b, off);
    PropertiesMore(b, off);
    PrependTwice(ps, p.value, PropertiesFrom(b, off + p.size));
  }

  lemma PropertiesMore(b: seq<byte>, off: nat)
    requires |b| >= 40 && NextProperty(b, off).Found?
    ensures var p := NextProperty(b, off);
            PropertiesFrom(b, off) == Prepend([p.value], PropertiesFrom(b, off + p.size))
  {
    hide NextProperty;
  }

  lemma PropertiesEnd(b: seq<byte>, off: nat)
    requires |b| >= 40 && !NextProperty(b, off).Found?
    ensures PropertiesFrom(b, off) == if NextProperty(b, off).Fault? then Broken else Scanned([], off)
  {
    hide NextProperty;
  }

  /** The property loop of `fdt_unflatten_node`. */
  method UnflattenProperties(b: seq<byte>, start: nat) returns (r: Scan<Property>)
    requires |b| >= 40
    ensures r == PropertiesFrom(b, start)
  {
    hide NextProperty, PropertiesFrom;
    var offset: nat := start;
    var properties: seq<Property> := [];
    var prop := NextProperty(b, offset);
    while prop.Found?
      invariant prop == NextProperty(b, offset)
      invariant PropertiesFrom(b, start) == Prepend(properties, PropertiesFrom(b, offset))
      decreases Left(b, offset)
    {
      PropertiesStep(b, offset, properties);
      properties := properties + [prop.value];
      offset := offset + prop.size;
      prop := NextProperty(b, offset);
    }
    PropertiesEnd(b, offset);
    return if prop.Fault? then Broken else Scanned(properties, offset);
  }

  /** The child loop of `fdt_unflatten_node`. */
  method UnflattenChildren(b: seq<byte>, start: nat) returns (r: Scan<Node>)
    requires |b| >= 40
    ensures r == NodesFrom(b, start)
    decreases Left(b, start), 1
  {
    hide NodeFrom, NodesFrom;
    var offset: nat := start;
    var children: seq<Node> := [];
    var child := UnflattenNode(b, offset);
    while child.Found?
      invariant start <= offset && child == NodeFrom(b, offset)
      invariant NodesFrom(b, start) == Prepend(children, NodesFrom(b, offset))
      decreases Left(b, offset)
    {
      NodesStep(b, offset, children);
      children := children + [child.value];
      offset := offset + child.size;
      child := UnflattenNode(b, offset);
    }
    NodesEnd(b, offset);
    return if child.Fault? then Broken else Scanned(children, offset);
  }

  lemma NodesStep(b: seq<byte>, off: nat, ns: seq<Node>)
    requires |b| >= 40 && NodeFrom(b, off).Found?
    ensures var n := NodeFrom(b, off);
            Prepend(ns, NodesFrom(b, off)) == Prepend(ns + [n.value], NodesFrom(b, off + n.size))
  {
    hide *;
    var n := NodeFrom(b, off);
    NodesMore(b, off);
    PrependTwice(ns, n.value, NodesFrom(b, off + n.size));
  }

  lemma NodesMore(b: seq<byte>, off: nat)
    requires |b| >= 40 && NodeFrom(b, off).Found?
    ensures var n := NodeFrom(b, off);
            NodesFrom(b, off) == Prepend([n.value], NodesFrom(b, off + n.size))
  {
    hide NodeFrom;
  }

  lemma NodesEnd(b: seq<byte>, off: nat)
    requires |b| >= 40 && !NodeFrom(b, off).Found?
    ensures NodesFrom(b, off) == if NodeFrom(b, off).Fault? then Broken else Scanned([], off)
  {
    hide NodeFrom;
  }

  method UnflattenNode(b: seq<byte>, start: nat) returns (r: Parsed<Node>)
    requires |b| >= 40
    ensures r == NodeFrom(b, start)
    decreases Left(b, start), 0
  {
    var name := NodeName(b, start);
    if !name.Found? {
      return if name.Fault? then Fault else Stop;
    }
    var properties := UnflattenProperties(b, start + name.size);
    if properties.Broken? {
      return Fault;
    }
    var children := UnflattenChildren(b, properties.end);
    if children.Broken? {
      return Fault;
    }
    return Found(Node(name.value, properties.values, children.values), children.end - start + 4);
  }

  function Prepend<T>(xs: seq<T>, s: Scan<T>): Scan<T> {
    if s.Broken? then Broken else Scanned(xs + s.values, s.end)
  }

  lemma PrependTwice<T>(xs: seq<T>, x: T, s: Scan<T>)
    ensures Prepend(xs + [x], s) == Prepend(xs, Prepend([x], s))
  {
    if s.Scanned? {
      assert xs + [x] + s.values == xs + ([x] + s.values);
    }
  }

  method Unflatten(b: seq<byte>) returns (r: Loaded)
    ensures r == Load(b)
  {
    if |b| < 40 {
      return BadBlob;
    }
    var structOffset, stringsOffset, reserveOffset := Word(b, 8), Word(b, 12), Word(b, 16);
    var minOffset := Least(structOffset, stringsOffset);
    minOffset := Least(minOffset, reserveOffset);
    var offset: nat := reserveOffset;
    var entries: seq<Entry> := [];
    while offset + 16 <= |b| && Word64(b, offset + 8) != 0
      invariant EntriesFrom(b, reserveOffset) == Prepend(entries, EntriesFrom(b, offset))
      decreases Left(b, offset)
    {
      var entry := Entry(Word64(b, offset), Word64(b, offset + 8));
      PrependTwice(entries, entry, EntriesFrom(b, offset + 16));
      entries := entries + [entry];
      offset := offset + 16;
    }
    if offset + 16 > |b| {
      return BadBlob;
    }
    var root := UnflattenNode(b, structOffset);
    if root.Fault? {
      return BadBlob;
    }
    return Loaded(minOffset, entries, if root.Stop? then NoRoot else Root(root.value));
  }
}
