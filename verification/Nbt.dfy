/**
  The NBT tree and its binary form: what `NBTElement::encode` writes, what `NBTElement::decode` makes
  of a byte string, and for which trees the two are inverse.
 */
module Nbt {
  import opened Bytes
  import opened Numeric
  import opened VarNumeric
  import opened Arrays

  /** A type code outside the enumeration: such an element has a header and no payload. */
  type UnknownCode = c: byte | c > 12 witness 13

  datatype Payload =
    | End
    | Byte(b: byte)
    | Short(s: int16)
    | Int(i: int32)
    | Long(l: int64)
    | Float(floatBits: uint32)
    | Double(doubleBits: uint64)
    | ByteArray(raw: bytes)
    | String(text: bytes)
    | List(items: seq<Element>)
    | Compound(children: seq<Element>)
    | IntArray(ints: seq<int32>)
    | LongArray(longs: seq<int64>)
    | Unknown(code: UnknownCode)

  datatype Element = Element(tag: bytes, payload: Payload)

  /** `NBTSettings`; `kind` is the element type an array imposes on its items. */
  datatype Settings = Settings(inArray: bool, network: bool, kind: byte)

  function Root(network: bool): Settings {
    Settings(false, network, 0)
  }

  function Code(p: Payload): byte {
    match p
    case End => 0
    case Byte(_) => 1
    case Short(_) => 2
    case Int(_) => 3
    case Long(_) => 4
    case Float(_) => 5
    case Double(_) => 6
    case ByteArray(_) => 7
    case String(_) => 8
    case List(_) => 9
    case Compound(_) => 10
    case IntArray(_) => 11
    case LongArray(_) => 12
    case Unknown(code) => code
  }

  predicate Homogeneous(items: seq<Element>) {
    forall i :: 0 <= i < |items| ==> Code(items[i].payload) == Code(items[0].payload)
  }

  // ----- what encode writes

  /** A count: four bytes, or in little-endian network mode a ZigZag number. */
  function EncCount(be: bool, network: bool, n: nat): bytes {
    if be || !network then EncNum(be, 4, n % TWO_32) else EncZigZag(SizeAsInt(n))
  }

  function EncTag(be: bool, network: bool, tag: bytes): bytes {
    if be then if tag == [] && network then [] else EncShortString(be, tag)
    else if network then EncString(tag)
    else EncShortString(be, tag)
  }

  function EncScalar(be: bool, network: bool, p: Payload): bytes {
    match p
    case Byte(b) => [b]
    case Short(s) => EncInt16(be, s)
    case Int(i) => if be || !network then EncInt32(be, i) else EncZigZag(i)
    case Long(l) => if be || !network then EncInt64(be, l) else EncZigZag(l)
    case Float(bits) => EncNum(be, 4, bits)
    case Double(bits) => EncNum(be, 8, bits)
    case String(text) => if be || !network then EncShortString(be, text) else EncString(text)
    case _ => []
  }

  function EncHeader(be: bool, s: Settings, e: Element): bytes {
    if s.inArray then []
    else [Code(e.payload)] + if e.payload.End? then [] else EncTag(be, s.network, e.tag)
  }

  /** A list whose items differ in type is written as an empty list. */
  function EncPayload(be: bool, network: bool, p: Payload): bytes
    decreases p, 0
  {
    match p
    case List(items) =>
      if items == [] || !Homogeneous(items) then [0] + EncCount(be, network, 0)
      else var kind := Code(items[0].payload);
           [kind] + EncCount(be, network, |items|) + EncItems(be, Settings(true, false, kind), items)
    case Compound(children) => EncItems(be, Root(false), children) + [0]
    case ByteArray(raw) => EncCount(be, network, |raw|) + raw
    case IntArray(ints) => EncCount(be, network, |ints|) + EncArray(Int32Writer(be), ints)
    case LongArray(longs) => EncCount(be, network, |longs|) + EncArray(Int64Writer(be), longs)
    case _ => EncScalar(be, network, p)
  }

  function EncElement(be: bool, s: Settings, e: Element): bytes
    decreases e, 0
  {
    EncHeader(be, s, e) + EncPayload(be, s.network, e.payload)
  }

  function EncItems(be: bool, s: Settings, items: seq<Element>): bytes
    decreases items, 0
  {
    if items == [] then [] else EncElement(be, s, items[0]) + EncItems(be, s, items[1..])
  }

  // ----- what decode reads

  function DecCount(be: bool, network: bool, bs: bytes): (p: Parsed<nat>)
    ensures p.Got? ==> p.value < TWO_32 && |p.rest| < |bs|
  {
    if be || !network then DecNum(be, 4, bs) else
      var (v, rest) :- DecZigZag32(bs);
      Got(ToUnsigned(v, TWO_32), rest)
  }

  /** In big-endian network mode no tag is read. */
  function DecTag(be: bool, network: bool, bs: bytes): (p: Parsed<bytes>)
    ensures p.Got? ==> |p.rest| <= |bs|
    ensures p.Got? && !(network && !be) ==> |p.value| < TWO_16 && (network ==> p.value == [])
  {
    if network then if be then Got([], bs) else DecString(bs) else DecShortString(be, bs)
  }

  function DecScalar(be: bool, network: bool, kind: byte, bs: bytes): (p: Parsed<Payload>)
    ensures p.Got? ==> |p.rest| <= |bs|
  {
    match kind
    case 0 => Got(End, bs)
    case 1 => (var (b, rest) :- TakeByte(bs); Got(Byte(b), rest))
    case 2 => (var (s, rest) :- DecInt16(be, bs); Got(Short(s), rest))
    case 3 => (var (i, rest) :- if be || !network then DecInt32(be, bs) else DecZigZag32(bs); Got(Int(i), rest))
    case 4 => (var (l, rest) :- if be || !network then DecInt64(be, bs) else DecZigZag64(bs); Got(Long(l), rest))
    case 5 => (var (bits, rest) :- DecNum(be, 4, bs); Got(Float(bits), rest))
    case 6 => (var (bits, rest) :- DecNum(be, 8, bs); Got(Double(bits), rest))
    case 8 =>
      (var (text, rest) :- if be || !network then DecShortString(be, bs) else DecString(bs); Got(String(text), rest))
    case _ => Got(if kind > 12 then Unknown(kind) else End, bs)
  }

  predicate IsArray(kind: byte) {
    kind == 7 || kind == 11 || kind == 12
  }

  function DecArrayBody(be: bool, kind: byte, n: nat, body: bytes): (p: Parsed<Payload>)
    requires IsArray(kind)
    ensures p.Got? ==> |p.rest| <= |body|
  {
    if kind == 7 then (var (raw, rest) :- TakeBytes(n, body); Got(ByteArray(raw), rest))
    else if kind == 11 then
      (DecArrayShrinks(Int32Reader(be), n, body);
       var (ints, rest) :- DecArray(Int32Reader(be), n, body); Got(IntArray(ints), rest))
    else
      (DecArrayShrinks(Int64Reader(be), n, body);
       var (longs, rest) :- DecArray(Int64Reader(be), n, body); Got(LongArray(longs), rest))
  }

  function DecArrayLeaf(be: bool, network: bool, kind: byte, bs: bytes): (p: Parsed<Payload>)
    requires IsArray(kind)
    ensures p.Got? ==> |p.rest| <= |bs|
  {
    var (n, body) :- DecCount(be, network, bs);
    DecArrayBody(be, kind, n, body)
  }

  function DecHeader(be: bool, s: Settings, bs: bytes): (p: Parsed<(byte, bytes)>)
    ensures p.Got? ==> |p.rest| <= |bs| && (!s.inArray ==> |p.rest| < |bs|)
    ensures s.inArray ==> p == Got((s.kind, []), bs)
  {
    if s.inArray then Got((s.kind, []), bs) else
      var (kind, rest) :- TakeByte(bs);
      if kind == 0 then Got((kind, []), rest) else
        var (tag, rest') :- DecTag(be, s.network, rest);
        Got((kind, tag), rest')
  }

  /** Decoding ends on every byte string: it either moves forward, or, on the same bytes, descends from
      the items of a list to an item, its payload, the children of a compound and a child with a
      header of its own; a list with nothing left to consume counts down its items. */
  function DecElement(be: bool, s: Settings, bs: bytes): (p: Parsed<Element>)
    ensures p.Got? ==> |p.rest| <= |bs| && (!s.inArray ==> |p.rest| < |bs|)
    decreases |bs|, if s.inArray then 3 else 0
  {
    var (header, rest) :- DecHeader(be, s, bs);
    var (payload, rest') :- DecPayload(be, s.network, header.0, rest);
    Got(Element(header.1, payload), rest')
  }

  function DecPayload(be: bool, network: bool, kind: byte, bs: bytes): (p: Parsed<Payload>)
    ensures p.Got? ==> |p.rest| <= |bs|
    decreases |bs|, 2
  {
    if kind == 9 then
      var (itemKind, rest) :- TakeByte(bs);
      var (n, rest') :- DecCount(be, network, rest);
      var (items, rest'') :- DecItems(be, Settings(true, !be && network, itemKind), if itemKind == 0 then 0 else n, rest');
      Got(List(items), rest'')
    else if kind == 10 then
      var (children, rest) :- DecChildren(be, Root(!be && network), bs);
      Got(Compound(children), rest)
    else if IsArray(kind) then DecArrayLeaf(be, network, kind, bs)
    else DecScalar(be, network, kind, bs)
  }

  function DecItems(be: bool, s: Settings, n: nat, bs: bytes): (p: Parsed<seq<Element>>)
    requires s.inArray
    ensures p.Got? ==> |p.rest| <= |bs| && |p.value| == n
    decreases |bs|, 4, n
  {
    if n == 0 then Got([], bs) else
      var (item, rest) :- DecElement(be, s, bs);
      var (items, rest') :- DecItems(be, s, n - 1, rest);
      Got([item] + items, rest')
  }

  /** Children up to a zero byte, or up to the end of the bytes when there is none. */
  function DecChildren(be: bool, s: Settings, bs: bytes): (p: Parsed<seq<Element>>)
    requires !s.inArray
    ensures p.Got? ==> |p.rest| <= |bs|
    decreases |bs|, 1
  {
    if bs == [] then Got([], bs)
    else if bs[0] == 0 then Got([], bs[1..])
    else
      var (child, rest) :- DecElement(be, s, bs);
      var (children, rest') :- DecChildren(be, s, rest);
      Got([child] + children, rest')
  }

  // ----- the trees the format carries

  function Erase(p: Payload): Payload
    decreases p, 0
  {
    match p
    case List(items) => List(EraseAll(true, items))
    case Compound(children) => Compound(EraseAll(false, children))
    case _ => p
  }

  /** What an element's bytes determine: a list item and the end element have no tag. */
  function EraseElement(inArray: bool, e: Element): Element
    decreases e, 0
  {
    Element(if inArray || e.payload.End? then [] else e.tag, Erase(e.payload))
  }

  function EraseAll(inArray: bool, es: seq<Element>): (r: seq<Element>)
    ensures |r| == |es|
    ensures forall i :: 0 <= i < |es| ==> r[i] == EraseElement(inArray, es[i])
    decreases es, 0
  {
    if es == [] then [] else [EraseElement(inArray, es[0])] + EraseAll(inArray, es[1..])
  }

  /** Lengths fit their fields, lists are homogeneous and not of end elements, and no child is an end
      element. */
  predicate WellFormed(p: Payload)
    decreases p, 0
  {
    match p
    case ByteArray(raw) => |raw| < TWO_32
    case String(text) => |text| < TWO_16
    case IntArray(ints) => |ints| < TWO_32
    case LongArray(longs) => |longs| < TWO_32
    case List(items) =>
      && |items| < TWO_32 && Homogeneous(items)
      && forall e :: e in items ==> !e.payload.End? && WellFormed(e.payload)
    case Compound(children) => forall e :: e in children ==> WellFormedChild(e)
    case _ => true
  }

  predicate WellFormedChild(e: Element)
    decreases e, 0
  {
    !e.payload.End? && |e.tag| < TWO_16 && WellFormed(e.payload)
  }

  /** A root: its tag fits, and is empty where the mode does not carry it. */
  predicate WellFormedRoot(network: bool, e: Element) {
    && (!e.payload.End? ==> if network then e.tag == [] else |e.tag| < TWO_16)
    && WellFormed(e.payload)
  }
}
