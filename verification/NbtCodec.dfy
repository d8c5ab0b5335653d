/**
  `NBTElement::encode` and `NBTElement::decode` step by step: they append to a buffer and read from it
  in nested loops. Each is proved to do what module Nbt says.
 */
module NbtCodec {
  import opened Bytes
  import opened BlockBuffer
  import opened Numeric
  import opened VarNumeric
  import opened Arrays
  import opened Buffers
  import opened Nbt

  method WriteCount(buffer: ByteBuffer, network: bool, n: nat)
    requires buffer.Valid()
    modifies buffer.internal
    ensures buffer.Wrote(EncCount(buffer.isBigEndian, network, n))
  {
    hide Holds, EncNum, EncZigZag;
    if buffer.isBigEndian || !network {
      buffer.WriteNumeric(4, n % TWO_32);
    } else {
      buffer.WriteZigZagInt(SizeAsInt(n));
    }
  }

  method WriteTag(buffer: ByteBuffer, network: bool, tag: bytes)
    requires buffer.Valid()
    modifies buffer.internal
    ensures buffer.Wrote(EncTag(buffer.isBigEndian, network, tag))
  {
    hide Holds, EncShortString, EncString;
    if !buffer.isBigEndian {
      if !network {
        buffer.WriteShortString(tag);
      } else {
        buffer.WriteString(tag);
      }
    } else {
      if !(tag == [] && network) {
        buffer.WriteShortString(tag);
      }
    }
  }

  method WriteHeader(buffer: ByteBuffer, s: Settings, e: Element)
    requires buffer.Valid()
    modifies buffer.internal
    ensures buffer.Wrote(EncHeader(buffer.isBigEndian, s, e))
  {
    hide Holds, EncTag;
    if !s.inArray {
      buffer.WriteByte(Code(e.payload));
    }
    if !e.payload.End? && !s.inArray {
      WriteTag(buffer, s.network, e.tag);
    }
  }

  method WriteScalar(buffer: ByteBuffer, network: bool, p: Payload)
    requires buffer.Valid()
    modifies buffer.internal
    ensures buffer.Wrote(EncScalar(buffer.isBigEndian, network, p))
  {
    hide Holds, EncShortString, EncString, EncNum, EncZigZag;
    match p
    case Byte(b) => buffer.WriteByte(b);
    case Short(s) => buffer.WriteNumeric(2, ToUnsigned(s, TWO_16));
    case Int(i) =>
      if buffer.isBigEndian || !network {
        buffer.WriteNumeric(4, ToUnsigned(i, TWO_32));
      } else {
        buffer.WriteZigZagInt(i);
      }
    case Long(l) =>
      if buffer.isBigEndian || !network {
        buffer.WriteNumeric(8, ToUnsigned(l, TWO_64));
      } else {
        buffer.WriteZigZagLong(l);
      }
    case Float(bits) => buffer.WriteNumeric(4, bits);
    case Double(bits) => buffer.WriteNumeric(8, bits);
    case String(text) =>
      if buffer.isBigEndian || !network {
        buffer.WriteShortString(text);
      } else {
        buffer.WriteString(text);
      }
    case _ =>
  }

  /** Whether all items have the type of the first one. */
  method SameTypes(items: seq<Element>) returns (same: bool)
    requires items != []
    ensures same == Homogeneous(items)
  {
    for i := 0 to |items|
      invariant forall k :: 0 <= k < i ==> Code(items[k].payload) == Code(items[0].payload)
    {
      if Code(items[i].payload) != Code(items[0].payload) {
        return false;
      }
    }
    same := true;
  }

  method EncodePayload(buffer: ByteBuffer, network: bool, p: Payload)
    requires buffer.Valid()
    modifies buffer.internal
    ensures buffer.Wrote(EncPayload(buffer.isBigEndian, network, p))
    decreases p, 0
  {
    hide Holds, EncCount, EncScalar, EncArray, EncElement, EncItems;
    match p
    case List(items) => EncodeList(buffer, network, items);
    case Compound(children) =>
      EncodeItems(buffer, Root(false), children);
      buffer.WriteByte(0);
    case ByteArray(raw) =>
      WriteCount(buffer, network, |raw|);
      buffer.WriteBytes(raw);
    case IntArray(ints) =>
      WriteCount(buffer, network, |ints|);
      buffer.WriteInt32Array(ints);
    case LongArray(longs) =>
      WriteCount(buffer, network, |longs|);
      buffer.WriteInt64Array(longs);
    case _ => WriteScalar(buffer, network, p);
  }

  method EncodeEmptyList(buffer: ByteBuffer, network: bool)
    requires buffer.Valid()
    modifies buffer.internal
    ensures buffer.Wrote([0] + EncCount(buffer.isBigEndian, network, 0))
  {
    hide Holds, EncCount;
    buffer.WriteByte(0);
    WriteCount(buffer, network, 0);
  }

  lemma EmptyListBytes(be: bool, network: bool, items: seq<Element>)
    requires items == [] || !Homogeneous(items)
    ensures EncPayload(be, network, List(items)) == [0] + EncCount(be, network, 0)
  {
    hide EncCount, EncItems, EncScalar, Homogeneous;
  }

  lemma ListBytes(be: bool, network: bool, items: seq<Element>)
    requires items != [] && Homogeneous(items)
    ensures var kind := Code(items[0].payload);
            EncPayload(be, network, List(items))
            == [kind] + EncCount(be, network, |items|) + EncItems(be, Settings(true, false, kind), items)
  {
    hide EncCount, EncItems, EncScalar, Homogeneous, Code;
  }

  method EncodeList(buffer: ByteBuffer, network: bool, items: seq<Element>)
    requires buffer.Valid()
    modifies buffer.internal
    ensures buffer.Wrote(EncPayload(buffer.isBigEndian, network, List(items)))
    decreases items, 1
  {
    hide Holds, EncCount, EncPayload, EncItems, Homogeneous, Code;
    if items == [] {
      EmptyListBytes(buffer.isBigEndian, network, items);
      EncodeEmptyList(buffer, network);
    } else {
      var same := SameTypes(items);
      if !same {
        EmptyListBytes(buffer.isBigEndian, network, items);
        EncodeEmptyList(buffer, network);
        return;
      }
      ListBytes(buffer.isBigEndian, network, items);
      var elementType := Code(items[0].payload);
      buffer.WriteByte(elementType);
      WriteCount(buffer, network, |items|);
      EncodeItems(buffer, Settings(true, false, elementType), items);
    }
  }

  lemma {:induction false} EncItemsAppend(be: bool, s: Settings, a: seq<Element>, b: seq<Element>)
    ensures EncItems(be, s, a + b) == EncItems(be, s, a) + EncItems(be, s, b)
  {
    hide EncElement;
    if a == [] {
      assert a + b == b;
    } else {
      EncItemsAppend(be, s, a[1..], b);
      assert (a + b)[1..] == a[1..] + b;
    }
  }

  lemma EncItemsSnoc(be: bool, s: Settings, items: seq<Element>, i: nat)
    requires i < |items|
    ensures EncItems(be, s, items[..i + 1]) == EncItems(be, s, items[..i]) + EncElement(be, s, items[i])
  {
    hide EncElement;
    assert items[..i + 1] == items[..i] + [items[i]];
    assert [items[i]][1..] == [];
    EncItemsAppend(be, s, items[..i], [items[i]]);
  }

  method EncodeItems(buffer: ByteBuffer, s: Settings, items: seq<Element>)
    requires buffer.Valid()
    modifies buffer.internal
    ensures buffer.Wrote(EncItems(buffer.isBigEndian, s, items))
    decreases items, 0
  {
    hide Holds, EncElement;
    for i := 0 to |items|
      invariant buffer.Wrote(EncItems(buffer.isBigEndian, s, items[..i]))
    {
      EncItemsSnoc(buffer.isBigEndian, s, items, i);
      EncodeElement(buffer, s, items[i]);
    }
    assert items[..|items|] == items;
  }

  method EncodeElement(buffer: ByteBuffer, s: Settings, e: Element)
    requires buffer.Valid()
    modifies buffer.internal
    ensures buffer.Wrote(EncElement(buffer.isBigEndian, s, e))
    decreases e, 0
  {
    hide Holds, EncHeader, EncPayload;
    WriteHeader(buffer, s, e);
    EncodePayload(buffer, s.network, e.payload);
  }

  // ----- decoding

  method ReadCount(buffer: ByteBuffer, network: bool) returns (r: Option<nat>)
    requires buffer.Valid()
    modifies buffer.internal
    ensures buffer.OnlyRead()
    ensures Delivers(DecCount(buffer.isBigEndian, network, old(buffer.Unread())), r, buffer.Unread())
  {
    hide Holds, DecNum, DecZigZag32, DecZigZag64;
    if buffer.isBigEndian || !network {
      r := buffer.ReadNumeric(4);
    } else {
      Widths();
      var v :- buffer.ReadZigZagInt();
      r := Some(ToUnsigned(v, TWO_32));
    }
  }

  method ReadTag(buffer: ByteBuffer, network: bool) returns (r: Option<bytes>)
    requires buffer.Valid()
    modifies buffer.internal
    ensures buffer.OnlyRead()
    ensures Delivers(DecTag(buffer.isBigEndian, network, old(buffer.Unread())), r, buffer.Unread())
  {
    hide Holds, DecShortString, DecString;
    if !buffer.isBigEndian {
      if !network {
        r := buffer.ReadShortString();
      } else {
        r := buffer.ReadString();
      }
    } else {
      if !network {
        r := buffer.ReadShortString();
      } else {
        r := Some([]);
      }
    }
  }

  method ReadHeader(buffer: ByteBuffer, s: Settings) returns (r: Option<(byte, bytes)>)
    requires buffer.Valid()
    modifies buffer.internal
    ensures buffer.OnlyRead()
    ensures Delivers(DecHeader(buffer.isBigEndian, s, old(buffer.Unread())), r, buffer.Unread())
  {
    hide Holds, DecTag;
    var kind := s.kind;
    if !s.inArray {
      kind :- buffer.ReadByte();
    }
    var tag: bytes := [];
    if kind != 0 && !s.inArray {
      tag :- ReadTag(buffer, s.network);
    }
    r := Some((kind, tag));
  }

  method ReadInt(buffer: ByteBuffer, network: bool) returns (r: Option<Payload>)
    requires buffer.Valid()
    modifies buffer.internal
    ensures buffer.OnlyRead()
    ensures Delivers(DecScalar(buffer.isBigEndian, network, 3, old(buffer.Unread())), r, buffer.Unread())
  {
    hide Holds, DecNum, DecZigZag32, DecZigZag64;
    if buffer.isBigEndian || !network {
      var i :- buffer.ReadInt32();
      r := Some(Int(i));
    } else {
      var i :- buffer.ReadZigZagInt();
      r := Some(Int(i));
    }
  }

  method ReadLong(buffer: ByteBuffer, network: bool) returns (r: Option<Payload>)
    requires buffer.Valid()
    modifies buffer.internal
    ensures buffer.OnlyRead()
    ensures Delivers(DecScalar(buffer.isBigEndian, network, 4, old(buffer.Unread())), r, buffer.Unread())
  {
    hide Holds, DecNum, DecZigZag32, DecZigZag64;
    if buffer.isBigEndian || !network {
      var l :- buffer.ReadInt64();
      r := Some(Long(l));
    } else {
      var l :- buffer.ReadZigZagLong();
      r := Some(Long(l));
    }
  }

  method ReadScalar(buffer: ByteBuffer, network: bool, kind: byte) returns (r: Option<Payload>)
    requires buffer.Valid()
    modifies buffer.internal
    ensures buffer.OnlyRead()
    ensures Delivers(DecScalar(buffer.isBigEndian, network, kind, old(buffer.Unread())), r, buffer.Unread())
  {
    hide Holds, DecShortString, DecString, DecNum, DecZigZag;
    match kind
    case 0 => r := Some(End);
    case 1 =>
      var b :- buffer.ReadByte();
      r := Some(Byte(b));
    case 2 =>
      var u :- buffer.ReadNumeric(2);
      r := Some(Short(ToSigned(u, TWO_16)));
    case 3 => r := ReadInt(buffer, network);
    case 4 => r := ReadLong(buffer, network);
    case 5 =>
      var bits :- buffer.ReadNumeric(4);
      r := Some(Float(bits));
    case 6 =>
      var bits :- buffer.ReadNumeric(8);
      r := Some(Double(bits));
    case 8 =>
      var text;
      if buffer.isBigEndian || !network {
        text :- buffer.ReadShortString();
      } else {
        text :- buffer.ReadString();
      }
      r := Some(String(text));
    case _ => r := Some(if kind > 12 then Unknown(kind) else End);
  }

  method ReadArrayLeaf(buffer: ByteBuffer, network: bool, kind: byte) returns (r: Option<Payload>)
    requires buffer.Valid() && IsArray(kind)
    modifies buffer.internal
    ensures buffer.OnlyRead()
    ensures Delivers(DecArrayLeaf(buffer.isBigEndian, network, kind, old(buffer.Unread())), r, buffer.Unread())
  {
    hide Holds, DecCount, DecArray;
    var length :- ReadCount(buffer, network);
    if kind == 7 {
      var raw :- buffer.ReadBytes(length);
      r := Some(ByteArray(raw));
    } else if kind == 11 {
      var ints :- buffer.ReadInt32Array(length);
      r := Some(IntArray(ints));
    } else {
      var longs :- buffer.ReadInt64Array(length);
      r := Some(LongArray(longs));
    }
  }

  method DecodeElement(buffer: ByteBuffer, s: Settings) returns (r: Option<Element>)
    requires buffer.Valid()
    modifies buffer.internal
    ensures buffer.OnlyRead()
    ensures Delivers(DecElement(buffer.isBigEndian, s, old(buffer.Unread())), r, buffer.Unread())
    decreases |buffer.Unread()|, if s.inArray then 3 else 0
  {
    hide Holds, DecHeader, DecPayload;
    var header :- ReadHeader(buffer, s);
    var payload :- DecodePayload(buffer, s.network, header.0);
    r := Some(Element(header.1, payload));
  }

  method DecodePayload(buffer: ByteBuffer, network: bool, kind: byte) returns (r: Option<Payload>)
    requires buffer.Valid()
    modifies buffer.internal
    ensures buffer.OnlyRead()
    ensures Delivers(DecPayload(buffer.isBigEndian, network, kind, old(buffer.Unread())), r, buffer.Unread())
    decreases |buffer.Unread()|, 2
  {
    hide Holds, DecCount, DecItems, DecChildren, DecArrayLeaf, DecScalar;
    if kind == 9 {
      var itemKind :- buffer.ReadByte();
      var length :- ReadCount(buffer, network);
      if itemKind == 0 {
        length := 0;
      }
      var s := Settings(true, !buffer.isBigEndian && network, itemKind);
      var items :- DecodeItems(buffer, s, length);
      r := Some(List(items));
    } else if kind == 10 {
      var children :- DecodeChildren(buffer, Root(!buffer.isBigEndian && network));
      r := Some(Compound(children));
    } else if IsArray(kind) {
      r := ReadArrayLeaf(buffer, network, kind);
    } else {
      r := ReadScalar(buffer, network, kind);
    }
  }

  /** Items read before those that `p` still delivers. */
  lemma ItemsStep(be: bool, s: Settings, before: seq<Element>, n: nat, bs: bytes)
    requires s.inArray && n > 0
    ensures var p := DecElement(be, s, bs);
            Prepend(before, DecItems(be, s, n, bs))
            == if p.Fail? then Fail else Prepend(before + [p.value], DecItems(be, s, n - 1, p.rest))
  {
    hide DecElement;
    var p := DecElement(be, s, bs);
    if p.Got? && DecItems(be, s, n - 1, p.rest).Got? {
      var xs := DecItems(be, s, n - 1, p.rest).value;
      assert before + ([p.value] + xs) == (before + [p.value]) + xs;
    }
  }

  lemma ChildrenStep(be: bool, s: Settings, before: seq<Element>, bs: bytes)
    requires !s.inArray && bs != [] && bs[0] != 0
    ensures var p := DecElement(be, s, bs);
            Prepend(before, DecChildren(be, s, bs))
            == if p.Fail? then Fail else Prepend(before + [p.value], DecChildren(be, s, p.rest))
  {
    hide DecElement;
    var p := DecElement(be, s, bs);
    if p.Got? && DecChildren(be, s, p.rest).Got? {
      var xs := DecChildren(be, s, p.rest).value;
      assert before + ([p.value] + xs) == (before + [p.value]) + xs;
    }
  }

  method DecodeItems(buffer: ByteBuffer, s: Settings, length: nat) returns (r: Option<seq<Element>>)
    requires buffer.Valid() && s.inArray
    modifies buffer.internal
    ensures buffer.OnlyRead()
    ensures Delivers(DecItems(buffer.isBigEndian, s, length, old(buffer.Unread())), r, buffer.Unread())
    decreases |buffer.Unread()|, 4
  {
    hide Holds, DecElement;
    var items: seq<Element> := [];
    for i := 0 to length
      invariant buffer.OnlyRead()
      invariant DecItems(buffer.isBigEndian, s, length, old(buffer.Unread()))
                == Prepend(items, DecItems(buffer.isBigEndian, s, length - i, buffer.Unread()))
    {
      ItemsStep(buffer.isBigEndian, s, items, length - i, buffer.Unread());
      var item :- DecodeElement(buffer, s);
      items := items + [item];
    }
    r := Some(items);
  }

  /** The end of a compound is found by looking at the next byte without reading it. */
  method DecodeChildren(buffer: ByteBuffer, s: Settings) returns (r: Option<seq<Element>>)
    requires buffer.Valid() && !s.inArray
    modifies buffer.internal
    ensures buffer.OnlyRead()
    ensures Delivers(DecChildren(buffer.isBigEndian, s, old(buffer.Unread())), r, buffer.Unread())
    decreases |buffer.Unread()|, 1
  {
    hide Holds, DecElement;
    var children: seq<Element> := [];
    while buffer.internal.ReaderPointer() < buffer.internal.Size()
      invariant buffer.OnlyRead()
      invariant DecChildren(buffer.isBigEndian, s, old(buffer.Unread()))
                == Prepend(children, DecChildren(buffer.isBigEndian, s, buffer.Unread()))
      decreases |buffer.Unread()|
    {
      var stored := buffer.GetBytes();
      assert stored[buffer.internal.ReaderPointer()] == buffer.Unread()[0];
      if stored[buffer.internal.ReaderPointer()] == 0 {
        var _ := buffer.ReadByte();
        return Some(children);
      }
      ChildrenStep(buffer.isBigEndian, s, children, buffer.Unread());
      var child :- DecodeElement(buffer, s);
      children := children + [child];
    }
    r := Some(children);
  }

  // ----- entry points

  /** `NBTElement::encode()`: the bytes of an element with settings `s` in a fresh big-endian buffer. The
      settings impose no type, or the one the element has. */
  method Encode(s: Settings, e: Element) returns (data: bytes)
    requires s.kind == 0 || s.kind == Code(e.payload)
    ensures data == EncElement(true, s, e)
  {
    hide EncElement, Code;
    var buffer := new ByteBuffer();
    EncodeElement(buffer, s, e);
    data := buffer.GetBytes();
  }

  method WriteNBTElement(buffer: ByteBuffer, e: Element)
    requires buffer.Valid()
    modifies buffer.internal
    ensures buffer.Wrote(EncElement(buffer.isBigEndian, Root(true), e))
  {
    EncodeElement(buffer, Root(true), e);
  }

  method ReadNBTElement(buffer: ByteBuffer) returns (r: Option<Element>)
    requires buffer.Valid()
    modifies buffer.internal
    ensures buffer.OnlyRead()
    ensures Delivers(DecElement(buffer.isBigEndian, Root(true), old(buffer.Unread())), r, buffer.Unread())
  {
    r := DecodeElement(buffer, Root(true));
  }
}
