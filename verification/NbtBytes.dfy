/**
  The bytes of every NBT element, written out: type numbers, headers, counts and payloads with their numbers
  as literals; which element a first byte announces; and what becomes of lists and compounds that no encoder
  writes.
 */
module NbtBytes {
  import opened Bytes
  import opened Numeric
  import opened VarNumeric
  import opened Arrays
  import opened Nbt
  import opened NbtRoundTrip
  import opened NumberBytes

  // ----- headers

  /** What stands behind a type byte. The size of the tag has 16 bits in the byte order of the buffer; in
      little-endian network mode it is variable-length; in big-endian network mode an empty tag is left out. */
  function TagBytes(be: bool, network: bool, tag: bytes): bytes
    requires |tag| < 0x1_0000
  {
    if network && !be then VarBytes(|tag|) + tag
    else if network && tag == [] then []
    else if be then [|tag| / 0x100, |tag| % 0x100] + tag
    else [|tag| % 0x100, |tag| / 0x100] + tag
  }

  lemma TagIsTagBytes(be: bool, network: bool, tag: bytes)
    requires |tag| < 0x1_0000
    ensures EncTag(be, network, tag) == TagBytes(be, network, tag)
  {
    hide EncShortString, EncString, VarBytes;
    ShortTextBytes(tag);
    TextBytes(tag);
  }

  /** A root, and a child of a compound, is its type number, its tag and its payload. An end element is a zero
      byte. */
  lemma ElementBytes(be: bool, network: bool, e: Element)
    requires |e.tag| < 0x1_0000
    ensures var p, bs := e.payload, EncElement(be, Root(network), e);
            var behind := TagBytes(be, network, e.tag) + EncPayload(be, network, p);
            && (p.End? ==> bs == [0])
            && (p.Byte? ==> bs == [1] + behind)
            && (p.Short? ==> bs == [2] + behind)
            && (p.Int? ==> bs == [3] + behind)
            && (p.Long? ==> bs == [4] + behind)
            && (p.Float? ==> bs == [5] + behind)
            && (p.Double? ==> bs == [6] + behind)
            && (p.ByteArray? ==> bs == [7] + behind)
            && (p.String? ==> bs == [8] + behind)
            && (p.List? ==> bs == [9] + behind)
            && (p.Compound? ==> bs == [10] + behind)
            && (p.IntArray? ==> bs == [11] + behind)
            && (p.LongArray? ==> bs == [12] + behind)
            && (p.Unknown? ==> p.code > 12 && bs == [p.code as byte] + TagBytes(be, network, e.tag))
  {
    hide EncTag, TagBytes;
    TagIsTagBytes(be, network, e.tag);
    var tag, payload := TagBytes(be, network, e.tag), EncPayload(be, network, e.payload);
    if e.payload.End? {
      assert payload == [];
    } else {
      var code := Code(e.payload);
      assert ([code] + tag) + payload == [code] + (tag + payload);
    }
    hide EncPayload;
  }

  // ----- payloads

  /** A count: 32 bits in the byte order, or in little-endian network mode twice the count, or for counts that
      an `int` does not hold the odd number that stands for the negative one. */
  function CountBytes(be: bool, network: bool, n: nat): bytes
    requires n < 0x1_0000_0000
  {
    if be || !network then EncNum(be, 4, n)
    else if n < 0x8000_0000 then VarBytes(2 * n)
    else VarBytes(2 * (0x1_0000_0000 - n) - 1)
  }

  lemma CountIsCountBytes(be: bool, network: bool, n: nat)
    requires n < 0x1_0000_0000
    ensures EncCount(be, network, n) == CountBytes(be, network, n)
  {
    hide EncNum, VarBytes;
  }

  /** The variable-length form of a signed number: twice the number, or one less than twice its magnitude. */
  function SignedBytes(v: int): bytes {
    VarBytes(if v < 0 then -2 * v - 1 else 2 * v)
  }

  lemma ScalarPayloads(be: bool, network: bool, p: Payload)
    ensures var bs := EncPayload(be, network, p);
            && (p.End? || p.Unknown? ==> bs == [])
            && (p.Byte? ==> bs == [p.b])
            && (p.Short? ==> bs == EncInt16(be, p.s))
            && (p.Int? ==> bs == if network && !be then SignedBytes(p.i) else EncInt32(be, p.i))
            && (p.Long? ==> bs == if network && !be then SignedBytes(p.l) else EncInt64(be, p.l))
            && (p.Float? ==> bs == EncNum(be, 4, p.floatBits))
            && (p.Double? ==> bs == EncNum(be, 8, p.doubleBits))
  {
    hide EncNum, VarBytes, EncInt16, EncInt32, EncInt64;
  }

  lemma TextPayload(be: bool, network: bool, text: bytes)
    requires |text| < 0x1_0000
    ensures EncPayload(be, network, String(text))
            == if network && !be then VarBytes(|text|) + text
               else if be then [|text| / 0x100, |text| % 0x100] + text
               else [|text| % 0x100, |text| / 0x100] + text
  {
    hide EncShortString, EncString, VarBytes;
    ShortTextBytes(text);
    TextBytes(text);
  }

  /** An array is its count and its elements. */
  lemma ArrayPayloads(be: bool, network: bool, raw: bytes, ints: seq<int32>, longs: seq<int64>)
    requires |raw| < 0x1_0000_0000 && |ints| < 0x1_0000_0000 && |longs| < 0x1_0000_0000
    ensures EncPayload(be, network, ByteArray(raw)) == CountBytes(be, network, |raw|) + raw
    ensures EncPayload(be, network, IntArray(ints))
            == CountBytes(be, network, |ints|) + EncArray(Int32Writer(be), ints)
    ensures EncPayload(be, network, LongArray(longs))
            == CountBytes(be, network, |longs|) + EncArray(Int64Writer(be), longs)
  {
    hide EncCount, CountBytes, EncArray;
    CountIsCountBytes(be, network, |raw|);
    CountIsCountBytes(be, network, |ints|);
    CountIsCountBytes(be, network, |longs|);
  }

  /** The elements stand in order, with 32 and 64 bits. */
  lemma ArrayElements(be: bool, ints: seq<int32>, i: int32, longs: seq<int64>, l: int64)
    ensures EncArray(Int32Writer(be), []) == [] && EncArray(Int64Writer(be), []) == []
    ensures EncArray(Int32Writer(be), ints + [i]) == EncArray(Int32Writer(be), ints) + EncInt32(be, i)
    ensures EncArray(Int64Writer(be), longs + [l]) == EncArray(Int64Writer(be), longs) + EncInt64(be, l)
  {
    OneMoreElement(Int32Writer(be), ints, i);
    OneMoreElement(Int64Writer(be), longs, l);
    hide EncArray, EncInt32, EncInt64;
  }

  // ----- lists and compounds

  /** Two payloads of one type. */
  predicate SameType(p: Payload, q: Payload) {
    match p
    case End => q.End?
    case Byte(_) => q.Byte?
    case Short(_) => q.Short?
    case Int(_) => q.Int?
    case Long(_) => q.Long?
    case Float(_) => q.Float?
    case Double(_) => q.Double?
    case ByteArray(_) => q.ByteArray?
    case String(_) => q.String?
    case List(_) => q.List?
    case Compound(_) => q.Compound?
    case IntArray(_) => q.IntArray?
    case LongArray(_) => q.LongArray?
    case Unknown(code) => q == Unknown(code)
  }

  lemma SameTypeIsSameCode(p: Payload, q: Payload)
    ensures SameType(p, q) <==> Code(p) == Code(q)
  {
  }

  /** List items have no header, and are written in file mode whatever the mode of the list. */
  function ItemBytes(be: bool, items: seq<Element>): bytes {
    if items == [] then [] else ItemBytes(be, items[..|items| - 1]) + EncPayload(be, false, items[|items| - 1].payload)
  }

  /** Children have headers, in file mode. */
  function ChildBytes(be: bool, children: seq<Element>): bytes {
    if children == [] then []
    else ChildBytes(be, children[..|children| - 1]) + EncElement(be, Root(false), children[|children| - 1])
  }

  lemma {:induction false} OneMoreItem(be: bool, s: Settings, items: seq<Element>)
    requires items != []
    ensures EncItems(be, s, items)
            == EncItems(be, s, items[..|items| - 1]) + EncElement(be, s, items[|items| - 1])
  {
    hide EncElement;
    if |items| == 1 {
      assert items[..0] == [];
    } else {
      OneMoreItem(be, s, items[1..]);
      assert items[1..][..|items| - 2] == items[..|items| - 1][1..];
    }
  }

  lemma NoHeader(be: bool, kind: byte, e: Element)
    ensures EncElement(be, Settings(true, false, kind), e) == EncPayload(be, false, e.payload)
  {
    hide EncPayload;
  }

  lemma {:induction false} ItemsAreItemBytes(be: bool, kind: byte, items: seq<Element>)
    ensures EncItems(be, Settings(true, false, kind), items) == ItemBytes(be, items)
  {
    hide EncPayload, EncElement;
    if items == [] {
    } else {
      OneMoreItem(be, Settings(true, false, kind), items);
      NoHeader(be, kind, items[|items| - 1]);
      ItemsAreItemBytes(be, kind, items[..|items| - 1]);
    }
  }

  lemma {:induction false} ChildrenAreChildBytes(be: bool, children: seq<Element>)
    ensures EncItems(be, Root(false), children) == ChildBytes(be, children)
  {
    hide EncElement;
    if children == [] {
    } else {
      OneMoreItem(be, Root(false), children);
      ChildrenAreChildBytes(be, children[..|children| - 1]);
    }
  }

  lemma ZeroCount(be: bool, network: bool)
    ensures EncCount(be, network, 0) == if network && !be then [0] else [0, 0, 0, 0]
  {
  }

  lemma OneTypeIsHomogeneous(items: seq<Element>)
    ensures Homogeneous(items) <==> forall i :: 0 <= i < |items| ==> SameType(items[i].payload, items[0].payload)
  {
    hide SameType, Code;
    forall i | 0 <= i < |items|
      ensures SameType(items[i].payload, items[0].payload) <==> Code(items[i].payload) == Code(items[0].payload)
    {
      SameTypeIsSameCode(items[i].payload, items[0].payload);
    }
  }

  /** An empty list, and one whose items are not all of one type, is five zero bytes, or two where counts are
      variable-length. */
  lemma EmptyOrMixedListPayload(be: bool, network: bool, items: seq<Element>)
    requires items == [] || exists i :: 0 <= i < |items| && !SameType(items[i].payload, items[0].payload)
    ensures EncPayload(be, network, List(items)) == if network && !be then [0, 0] else [0, 0, 0, 0, 0]
  {
    hide EncItems, EncCount, SameType, Homogeneous;
    OneTypeIsHomogeneous(items);
    ZeroCount(be, network);
  }

  /** Any other list is the type number of its items, their count, and their payloads. */
  lemma ListPayload(be: bool, network: bool, items: seq<Element>)
    requires 0 < |items| < 0x1_0000_0000
    requires forall i :: 0 <= i < |items| ==> SameType(items[i].payload, items[0].payload)
    ensures var p, bs := items[0].payload, EncPayload(be, network, List(items));
            var behind := CountBytes(be, network, |items|) + ItemBytes(be, items);
            && (p.End? ==> bs == [0] + behind)
            && (p.Byte? ==> bs == [1] + behind)
            && (p.Short? ==> bs == [2] + behind)
            && (p.Int? ==> bs == [3] + behind)
            && (p.Long? ==> bs == [4] + behind)
            && (p.Float? ==> bs == [5] + behind)
            && (p.Double? ==> bs == [6] + behind)
            && (p.ByteArray? ==> bs == [7] + behind)
            && (p.String? ==> bs == [8] + behind)
            && (p.List? ==> bs == [9] + behind)
            && (p.Compound? ==> bs == [10] + behind)
            && (p.IntArray? ==> bs == [11] + behind)
            && (p.LongArray? ==> bs == [12] + behind)
            && (p.Unknown? ==> bs == [p.code as byte] + behind)
  {
    hide EncItems, CountBytes, EncCount, ItemBytes, SameType, Homogeneous;
    OneTypeIsHomogeneous(items);
    var code, count := Code(items[0].payload), CountBytes(be, network, |items|);
    CountIsCountBytes(be, network, |items|);
    ItemsAreItemBytes(be, code, items);
    assert [code] + count + ItemBytes(be, items) == [code] + (count + ItemBytes(be, items));
    assert EncPayload(be, network, List(items)) == [code] + (count + ItemBytes(be, items));
    hide EncPayload;
  }

  /** A compound is its children and a zero byte. */
  lemma CompoundPayload(be: bool, network: bool, children: seq<Element>)
    ensures EncPayload(be, network, Compound(children)) == ChildBytes(be, children) + [0]
  {
    hide EncItems, ChildBytes;
    ChildrenAreChildBytes(be, children);
  }

  // ----- reading

  /** The payload is of the type with the number `k`. */
  predicate HasNumber(p: Payload, k: byte) {
    && (p.End? <==> k == 0)
    && (p.Byte? <==> k == 1)
    && (p.Short? <==> k == 2)
    && (p.Int? <==> k == 3)
    && (p.Long? <==> k == 4)
    && (p.Float? <==> k == 5)
    && (p.Double? <==> k == 6)
    && (p.ByteArray? <==> k == 7)
    && (p.String? <==> k == 8)
    && (p.List? <==> k == 9)
    && (p.Compound? <==> k == 10)
    && (p.IntArray? <==> k == 11)
    && (p.LongArray? <==> k == 12)
    && (k > 12 ==> p == Unknown(k))
  }

  lemma ScalarHasNumber(be: bool, network: bool, kind: byte, bs: bytes)
    requires DecScalar(be, network, kind, bs).Got? && !IsArray(kind) && kind != 9 && kind != 10
    ensures HasNumber(DecScalar(be, network, kind, bs).value, kind)
  {
    hide DecNum, DecInt16, DecInt32, DecInt64, DecZigZag32, DecZigZag64, DecString, DecShortString;
  }

  lemma PayloadHasNumber(be: bool, network: bool, kind: byte, bs: bytes)
    requires DecPayload(be, network, kind, bs).Got?
    ensures HasNumber(DecPayload(be, network, kind, bs).value, kind)
  {
    hide DecScalar, DecCount, DecItems, DecChildren, DecArray;
    if kind != 9 && kind != 10 && !IsArray(kind) {
      ScalarHasNumber(be, network, kind, bs);
    }
  }

  /** The first byte of a root decides the type of what is read, whatever follows. */
  lemma FirstByteDecides(be: bool, network: bool, bs: bytes)
    requires DecElement(be, Root(network), bs).Got?
    ensures HasNumber(DecElement(be, Root(network), bs).value.payload, bs[0])
  {
    hide DecPayload, HasNumber;
    var header := DecHeader(be, Root(network), bs);
    PayloadHasNumber(be, network, header.value.0, header.rest);
    hide DecTag;
  }

  lemma {:induction false} ItemsHaveNumber(be: bool, s: Settings, n: nat, bs: bytes)
    requires s.inArray && DecItems(be, s, n, bs).Got?
    ensures forall e :: e in DecItems(be, s, n, bs).value ==> HasNumber(e.payload, s.kind)
    decreases n
  {
    hide HasNumber, DecPayload;
    if n == 0 {
    } else {
      PayloadHasNumber(be, s.network, s.kind, bs);
      ItemsHaveNumber(be, s, n - 1, DecElement(be, s, bs).rest);
    }
  }

  /** The first byte of a list decides the type of all its items. A list of end elements is read as empty,
      whatever its count: nothing of it is read but the count. */
  lemma ListTypeDecides(be: bool, network: bool, bs: bytes)
    requires DecPayload(be, network, 9, bs).Got?
    ensures var p := DecPayload(be, network, 9, bs);
            && (forall e :: e in p.value.items ==> HasNumber(e.payload, bs[0]))
            && (bs[0] == 0 ==> p == Got(List([]), DecCount(be, network, bs[1..]).rest))
  {
    hide HasNumber, DecCount;
    var s := Settings(true, !be && network, bs[0]);
    var count := DecCount(be, network, bs[1..]);
    ItemsHaveNumber(be, s, if bs[0] == 0 then 0 else count.value, count.rest);
  }

  /** A compound whose bytes end without the zero byte has the children that are there. */
  lemma {:induction false} UnterminatedCompound(be: bool, children: seq<Element>)
    requires forall e :: e in children ==> WellFormedChild(e)
    ensures DecChildren(be, Root(false), EncItems(be, Root(false), children)) == Got(EraseAll(false, children), [])
  {
    hide DecElement, EncElement, Erase;
    if children == [] {
    } else {
      var tail := EncItems(be, Root(false), children[1..]);
      assert children[0] in children;
      ChildStarts(be, children[0]);
      ElementRoundTrip(be, Root(false), children[0], tail);
      UnterminatedCompound(be, children[1..]);
    }
  }
}
