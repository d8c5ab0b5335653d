/**
  Encoding and decoding NBT are inverse exactly on the well-formed trees, in the three modes in which
  the two agree on how children are written: big-endian file, big-endian network, little-endian file.
 */
module NbtRoundTrip {
  import opened Bytes
  import opened Numeric
  import opened VarNumeric
  import opened Arrays
  import opened Nbt

  /** The modes in which encode and decode use the same settings for children. */
  predicate Agreed(be: bool, network: bool) {
    be || !network
  }

  lemma CountRoundTrip(be: bool, network: bool, n: nat, rest: bytes)
    requires n < TWO_32
    ensures DecCount(be, network, EncCount(be, network, n) + rest) == Got(n, rest)
  {
    hide DecNum, EncNum, DecZigZag32, EncZigZag;
    if Agreed(be, network) {
      NumRoundTrip(be, 4, n, rest);
    } else {
      ZigZag32RoundTrip(SizeAsInt(n), rest);
    }
  }

  lemma TagRoundTrip(be: bool, network: bool, tag: bytes, rest: bytes)
    requires Agreed(be, network) && if network then tag == [] else |tag| < TWO_16
    ensures DecTag(be, network, EncTag(be, network, tag) + rest) == Got(tag, rest)
  {
    hide DecShortString, EncShortString;
    if network {
      assert EncTag(be, network, tag) + rest == rest;
    } else {
      ShortStringRoundTrip(be, tag, rest);
    }
  }

  /** Numbers, strings and the payloads that are empty. In little-endian network mode, integers and
      strings use the variable-length forms. */
  lemma ScalarRoundTrip(be: bool, network: bool, p: Payload, rest: bytes)
    requires !p.List? && !p.Compound? && !IsArray(Code(p))
    requires p.String? ==> |p.text| < if Agreed(be, network) then TWO_16 else 0x8000_0000
    ensures DecScalar(be, network, Code(p), EncScalar(be, network, p) + rest) == Got(p, rest)
  {
    hide DecNum, EncNum, DecZigZag32, DecZigZag64, EncZigZag, DecInt16, EncInt16, DecInt32, EncInt32, DecInt64,
      EncInt64, DecShortString, EncShortString, DecString, EncString;
    SignedRoundTrip(be, rest);
    match p
    case Int(i) => ZigZag32RoundTrip(i, rest);
    case Long(l) => ZigZag64RoundTrip(l, rest);
    case Float(bits) => NumRoundTrip(be, 4, bits, rest);
    case Double(bits) => NumRoundTrip(be, 8, bits, rest);
    case String(text) =>
      if Agreed(be, network) {
        ShortStringRoundTrip(be, text, rest);
      } else {
        StringRoundTrip(text, rest);
      }
    case Byte(b) => assert ([b] + rest)[1..] == rest;
    case Short(_) =>
    case End => assert [] + rest == rest;
    case Unknown(_) => assert [] + rest == rest;
  }

  /** Any array payload whose body reads back also reads back behind its count. */
  lemma CountedRoundTrip(be: bool, network: bool, p: Payload, n: nat, body: bytes, rest: bytes)
    requires IsArray(Code(p)) && n < TWO_32
    requires DecArrayBody(be, Code(p), n, body + rest) == Got(p, rest)
    ensures DecArrayLeaf(be, network, Code(p), (EncCount(be, network, n) + body) + rest) == Got(p, rest)
  {
    hide DecCount, EncCount, DecArrayBody;
    CountRoundTrip(be, network, n, body + rest);
    assert (EncCount(be, network, n) + body) + rest == EncCount(be, network, n) + (body + rest);
  }

  lemma ArrayLeafRoundTrip(be: bool, network: bool, p: Payload, rest: bytes)
    requires IsArray(Code(p)) && WellFormed(p)
    ensures DecArrayLeaf(be, network, Code(p), EncPayload(be, network, p) + rest) == Got(p, rest)
  {
    hide DecCount, EncCount, DecArrayLeaf, DecInt32, EncInt32, DecInt64, EncInt64, EncArray;
    IntInverses(be);
    match p
    case ByteArray(raw) =>
      TakeBytesOfAppend(raw, rest);
      CountedRoundTrip(be, network, p, |raw|, raw, rest);
    case IntArray(ints) =>
      ArrayRoundTrip(Int32Writer(be), Int32Reader(be), ints, rest);
      CountedRoundTrip(be, network, p, |ints|, EncArray(Int32Writer(be), ints), rest);
    case LongArray(longs) =>
      ArrayRoundTrip(Int64Writer(be), Int64Reader(be), longs, rest);
      CountedRoundTrip(be, network, p, |longs|, EncArray(Int64Writer(be), longs), rest);
  }

  lemma HeaderRoundTrip(be: bool, s: Settings, e: Element, rest: bytes)
    requires Agreed(be, s.network)
    requires if s.inArray then s.kind == Code(e.payload) && !e.payload.End? else WellFormedRoot(s.network, e)
    ensures DecHeader(be, s, EncHeader(be, s, e) + rest)
            == Got((Code(e.payload), EraseElement(s.inArray, e).tag), rest)
  {
    hide DecTag, EncTag;
    var bs := EncHeader(be, s, e) + rest;
    if s.inArray {
      assert bs == rest;
    } else if e.payload.End? {
      assert bs[1..] == rest;
    } else {
      TagRoundTrip(be, s.network, e.tag, rest);
      assert bs[1..] == EncTag(be, s.network, e.tag) + rest;
    }
  }

  lemma {:induction false} ElementRoundTrip(be: bool, s: Settings, e: Element, rest: bytes)
    requires Agreed(be, s.network) && WellFormed(e.payload)
    requires if s.inArray then s.kind == Code(e.payload) && !e.payload.End? else WellFormedRoot(s.network, e)
    ensures DecElement(be, s, EncElement(be, s, e) + rest) == Got(EraseElement(s.inArray, e), rest)
    decreases e, 0
  {
    hide DecHeader, EncHeader, DecPayload, EncPayload, WellFormed;
    var body := EncPayload(be, s.network, e.payload) + rest;
    assert EncElement(be, s, e) + rest == EncHeader(be, s, e) + body by {
      assert EncElement(be, s, e) == EncHeader(be, s, e) + EncPayload(be, s.network, e.payload);
    }
    HeaderRoundTrip(be, s, e, body);
    PayloadRoundTrip(be, s.network, e.payload, rest);
  }

  lemma TextFits(p: Payload)
    requires WellFormed(p) && p.String?
    ensures |p.text| < TWO_16
  {
  }

  lemma LeafRoundTrip(be: bool, network: bool, p: Payload, rest: bytes)
    requires Agreed(be, network) && WellFormed(p) && !p.List? && !p.Compound?
    ensures DecPayload(be, network, Code(p), EncPayload(be, network, p) + rest) == Got(p, rest)
  {
    hide DecArrayLeaf, DecScalar, EncScalar, WellFormed;
    if IsArray(Code(p)) {
      ArrayLeafRoundTrip(be, network, p, rest);
    } else {
      if p.String? {
        TextFits(p);
      }
      ScalarRoundTrip(be, network, p, rest);
    }
  }

  lemma {:induction false} PayloadRoundTrip(be: bool, network: bool, p: Payload, rest: bytes)
    requires Agreed(be, network) && WellFormed(p)
    ensures DecPayload(be, network, Code(p), EncPayload(be, network, p) + rest) == Got(Erase(p), rest)
    decreases p, 0
  {
    hide DecPayload, EncPayload, WellFormed;
    if p.List? {
      ListRoundTrip(be, network, p.items, rest);
    } else if p.Compound? {
      CompoundRoundTrip(be, network, p.children, rest);
    } else {
      LeafRoundTrip(be, network, p, rest);
    }
  }

  lemma {:induction false} CompoundRoundTrip(be: bool, network: bool, children: seq<Element>, rest: bytes)
    requires Agreed(be, network) && WellFormed(Compound(children))
    ensures DecPayload(be, network, 10, EncPayload(be, network, Compound(children)) + rest)
            == Got(Compound(EraseAll(false, children)), rest)
    decreases children, 1
  {
    hide EncItems, DecChildren, EraseAll;
    assert EncPayload(be, network, Compound(children)) + rest == EncItems(be, Root(false), children) + ([0] + rest);
    ChildrenRoundTrip(be, children, rest);
  }

  lemma {:induction false} ListRoundTrip(be: bool, network: bool, items: seq<Element>, rest: bytes)
    requires Agreed(be, network) && WellFormed(List(items))
    ensures DecPayload(be, network, 9, EncPayload(be, network, List(items)) + rest) == Got(List(EraseAll(true, items)), rest)
    decreases items, 1
  {
    hide DecCount, EncCount;
    var bs := EncPayload(be, network, List(items)) + rest;
    if items == [] {
      assert bs[1..] == EncCount(be, network, 0) + rest;
      CountRoundTrip(be, network, 0, rest);
      assert DecItems(be, Settings(true, false, 0), 0, rest) == Got([], rest);
    } else {
      var s := Settings(true, false, Code(items[0].payload));
      var body := EncItems(be, s, items) + rest;
      assert bs[1..] == EncCount(be, network, |items|) + body;
      CountRoundTrip(be, network, |items|, body);
      assert items[0] in items;
      ItemsRoundTrip(be, s, items, rest);
    }
  }

  lemma {:induction false} ItemsRoundTrip(be: bool, s: Settings, items: seq<Element>, rest: bytes)
    requires s.inArray && !s.network
    requires forall i :: 0 <= i < |items| ==> Code(items[i].payload) == s.kind
    requires forall e :: e in items ==> !e.payload.End? && WellFormed(e.payload)
    ensures DecItems(be, s, |items|, EncItems(be, s, items) + rest) == Got(EraseAll(true, items), rest)
    decreases items, 0
  {
    hide DecElement, EncElement, EraseElement, WellFormed, Code;
    if items == [] {
      assert EncItems(be, s, items) + rest == rest;
    } else {
      var tail := EncItems(be, s, items[1..]) + rest;
      assert EncItems(be, s, items) + rest == EncElement(be, s, items[0]) + tail;
      assert items[0] in items;
      ElementRoundTrip(be, s, items[0], tail);
      ItemsRoundTrip(be, s, items[1..], rest);
    }
  }

  /** A child starts with its type, so it is never taken for the end of a compound. */
  lemma ChildStarts(be: bool, e: Element)
    ensures EncElement(be, Root(false), e) != [] && EncElement(be, Root(false), e)[0] == Code(e.payload)
  {
    assert EncHeader(be, Root(false), e)[0] == Code(e.payload);
  }

  lemma {:induction false} ChildrenRoundTrip(be: bool, children: seq<Element>, rest: bytes)
    requires forall e :: e in children ==> WellFormedChild(e)
    ensures DecChildren(be, Root(false), EncItems(be, Root(false), children) + ([0] + rest))
            == Got(EraseAll(false, children), rest)
    decreases children, 0
  {
    hide DecElement, EncElement, Erase;
    var bs := EncItems(be, Root(false), children) + ([0] + rest);
    if children == [] {
      assert bs == [0] + rest;
    } else {
      var tail := EncItems(be, Root(false), children[1..]) + ([0] + rest);
      assert bs == EncElement(be, Root(false), children[0]) + tail;
      assert children[0] in children;
      ChildStarts(be, children[0]);
      ElementRoundTrip(be, Root(false), children[0], tail);
      ChildrenRoundTrip(be, children[1..], rest);
    }
  }

  // ----- whatever the decoder returns is well-formed

  lemma ScalarDecoded(be: bool, network: bool, kind: byte, bs: bytes)
    requires Agreed(be, network) && !IsArray(kind) && kind != 9 && kind != 10
    requires DecScalar(be, network, kind, bs).Got?
    ensures var p := DecScalar(be, network, kind, bs).value;
            WellFormed(p) && Erase(p) == p && Code(p) == kind
  {
    hide DecNum, DecInt16, DecInt32, DecInt64;
  }

  lemma ArrayLeafDecoded(be: bool, network: bool, kind: byte, bs: bytes)
    requires IsArray(kind) && DecArrayLeaf(be, network, kind, bs).Got?
    ensures var p := DecArrayLeaf(be, network, kind, bs).value;
            WellFormed(p) && Erase(p) == p && Code(p) == kind
  {
    hide DecCount, DecInt32, DecInt64;
  }

  /** What an element returned by the decoder satisfies. */
  predicate Sound(s: Settings, e: Element) {
    && WellFormed(e.payload)
    && EraseElement(s.inArray, e) == e
    && if s.inArray then Code(e.payload) == s.kind else WellFormedRoot(s.network, e)
  }

  lemma HeaderDecoded(be: bool, s: Settings, bs: bytes)
    requires Agreed(be, s.network) && DecHeader(be, s, bs).Got?
    ensures var (kind, tag) := DecHeader(be, s, bs).value;
            && (s.inArray ==> kind == s.kind && tag == [])
            && (!s.inArray ==> bs != [] && kind == bs[0] && |tag| < TWO_16 && (kind == 0 || s.network ==> tag == []))
  {
  }

  lemma {:induction false} DecodedElement(be: bool, s: Settings, bs: bytes)
    requires Agreed(be, s.network) && DecElement(be, s, bs).Got?
    ensures Sound(s, DecElement(be, s, bs).value)
    ensures !s.inArray ==> bs != [] && Code(DecElement(be, s, bs).value.payload) == bs[0]
    decreases |bs|, if s.inArray then 3 else 0
  {
    hide DecPayload, DecTag, WellFormed;
    var header := DecHeader(be, s, bs);
    HeaderDecoded(be, s, bs);
    DecodedPayload(be, s.network, header.value.0, header.rest);
  }

  lemma {:induction false} DecodedPayload(be: bool, network: bool, kind: byte, bs: bytes)
    requires Agreed(be, network) && DecPayload(be, network, kind, bs).Got?
    ensures var p := DecPayload(be, network, kind, bs).value;
            WellFormed(p) && Erase(p) == p && Code(p) == kind
    decreases |bs|, 2
  {
    hide DecCount, DecArrayLeaf, DecScalar, DecItems, DecChildren;
    if kind == 9 {
      var itemKind, count := bs[0], DecCount(be, network, bs[1..]);
      var s := Settings(true, !be && network, itemKind);
      DecodedItems(be, s, if itemKind == 0 then 0 else count.value, count.rest);
    } else if kind == 10 {
      DecodedChildren(be, bs);
    } else if IsArray(kind) {
      ArrayLeafDecoded(be, network, kind, bs);
    } else {
      ScalarDecoded(be, network, kind, bs);
    }
  }

  lemma {:induction false} DecodedItems(be: bool, s: Settings, n: nat, bs: bytes)
    requires s.inArray && !s.network && (n > 0 ==> s.kind != 0)
    requires DecItems(be, s, n, bs).Got?
    ensures var items := DecItems(be, s, n, bs).value;
            && EraseAll(true, items) == items
            && forall i :: 0 <= i < n ==> Sound(s, items[i]) && !items[i].payload.End?
    decreases |bs|, 4, n
  {
    hide DecElement, Erase, WellFormed;
    if n == 0 {
    } else {
      DecodedElement(be, s, bs);
      DecodedItems(be, s, n - 1, DecElement(be, s, bs).rest);
    }
  }

  lemma {:induction false} DecodedChildren(be: bool, bs: bytes)
    requires DecChildren(be, Root(false), bs).Got?
    ensures var children := DecChildren(be, Root(false), bs).value;
            && EraseAll(false, children) == children
            && forall i :: 0 <= i < |children| ==> WellFormedChild(children[i])
    decreases |bs|, 1
  {
    hide DecElement, Erase, WellFormed;
    if bs != [] && bs[0] != 0 {
      DecodedElement(be, Root(false), bs);
      DecodedChildren(be, DecElement(be, Root(false), bs).rest);
    }
  }

  // ----- the theorems

  lemma EraseKeepsCode(p: Payload)
    ensures Code(Erase(p)) == Code(p)
  {
  }

  lemma {:induction false} EraseReflectsWellFormed(p: Payload)
    requires WellFormed(Erase(p))
    ensures WellFormed(p)
    decreases p, 0
  {
    match p
    case List(items) =>
      var erased := EraseAll(true, items);
      forall i | 0 <= i < |items| ensures Code(items[i].payload) == Code(items[0].payload) {
        assert Code(erased[i].payload) == Code(erased[0].payload);
        EraseKeepsCode(items[i].payload);
        EraseKeepsCode(items[0].payload);
      }
      forall e | e in items ensures !e.payload.End? && WellFormed(e.payload) {
        var i :| 0 <= i < |items| && items[i] == e;
        assert erased[i] in erased;
        EraseReflectsWellFormed(e.payload);
      }
    case Compound(children) =>
      var erased := EraseAll(false, children);
      forall e | e in children ensures WellFormedChild(e) {
        var i :| 0 <= i < |children| && children[i] == e;
        assert erased[i] in erased && WellFormedChild(erased[i]);
        EraseReflectsWellFormed(e.payload);
      }
    case _ =>
  }

  /** Decoding an encoded root gives the tree back, up to the tags that are not written, and leaves
      exactly the bytes that followed, if and only if the tree is well-formed. */
  lemma RoundTripExactlyWhenWellFormed(be: bool, network: bool, e: Element, rest: bytes)
    requires Agreed(be, network)
    ensures DecElement(be, Root(network), EncElement(be, Root(network), e) + rest) == Got(EraseElement(false, e), rest)
            <==> WellFormedRoot(network, e)
  {
    hide DecElement, EncElement, WellFormed, Erase;
    var bs := EncElement(be, Root(network), e) + rest;
    if WellFormedRoot(network, e) {
      ElementRoundTrip(be, Root(network), e, rest);
    }
    if DecElement(be, Root(network), bs) == Got(EraseElement(false, e), rest) {
      DecodedElement(be, Root(network), bs);
      EraseKeepsCode(e.payload);
      EraseReflectsWellFormed(e.payload);
    }
  }

  /** Encodings are prefix-free: bytes that start with the encodings of two well-formed roots start with
      the same encoding, of the same tree. */
  lemma EncodingsPrefixFree(be: bool, network: bool, a: Element, b: Element, restA: bytes, restB: bytes)
    requires Agreed(be, network) && WellFormedRoot(network, a) && WellFormedRoot(network, b)
    requires EncElement(be, Root(network), a) + restA == EncElement(be, Root(network), b) + restB
    ensures EraseElement(false, a) == EraseElement(false, b) && restA == restB
    ensures EncElement(be, Root(network), a) == EncElement(be, Root(network), b)
  {
    hide DecElement, EncElement, WellFormed, Erase;
    ElementRoundTrip(be, Root(network), a, restA);
    ElementRoundTrip(be, Root(network), b, restB);
    var both, n := EncElement(be, Root(network), a) + restA, |EncElement(be, Root(network), a)|;
    assert both[..n] == EncElement(be, Root(network), a) && both[..n] == EncElement(be, Root(network), b);
  }

  /** Whatever bytes an element was decoded from, re-encoding it and decoding again changes nothing. */
  lemma ReencodingIsStable(be: bool, network: bool, bs: bytes, rest: bytes)
    requires Agreed(be, network) && DecElement(be, Root(network), bs).Got?
    ensures var e := DecElement(be, Root(network), bs).value;
            DecElement(be, Root(network), EncElement(be, Root(network), e) + rest) == Got(e, rest)
  {
    hide DecElement, EncElement, WellFormed, Erase;
    DecodedElement(be, Root(network), bs);
    ElementRoundTrip(be, Root(network), DecElement(be, Root(network), bs).value, rest);
  }
}
