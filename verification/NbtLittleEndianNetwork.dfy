/**
  The fourth mode, little-endian network. Encoding writes the children of a container in file mode, and
  decoding reads them in network mode.
 */
module NbtLittleEndianNetwork {
  import opened Bytes
  import opened Numeric
  import opened VarNumeric
  import opened Arrays
  import opened Nbt
  import opened NbtRoundTrip

  // ----- roots without children

  lemma LeafPayloadRoundTrip(p: Payload, rest: bytes)
    requires match p
             case List(items) => items == []
             case Compound(children) => children == []
             case String(text) => |text| < 0x8000_0000
             case p => WellFormed(p)
    ensures DecPayload(false, true, Code(p), EncPayload(false, true, p) + rest) == Got(Erase(p), rest)
  {
    hide DecArrayLeaf, DecScalar, EncScalar, DecCount, EncCount;
    match p
    case List(_) =>
      assert (EncPayload(false, true, p) + rest)[1..] == EncCount(false, true, 0) + rest;
      CountRoundTrip(false, true, 0, rest);
    case Compound(_) =>
      assert EncPayload(false, true, p) + rest == [0] + rest;
    case ByteArray(_) => ArrayLeafRoundTrip(false, true, p, rest);
    case IntArray(_) => ArrayLeafRoundTrip(false, true, p, rest);
    case LongArray(_) => ArrayLeafRoundTrip(false, true, p, rest);
    case _ => ScalarRoundTrip(false, true, p, rest);
  }

  /** Roots without children survive. */
  lemma LittleEndianNetworkLeaf(e: Element, rest: bytes)
    requires |e.tag| < 0x8000_0000
    requires match e.payload
             case List(items) => items == []
             case Compound(children) => children == []
             case String(text) => |text| < 0x8000_0000
             case p => WellFormed(p)
    ensures DecElement(false, Root(true), EncElement(false, Root(true), e) + rest) == Got(EraseElement(false, e), rest)
  {
    hide DecPayload, EncPayload, DecString, EncString, Erase;
    var s, body := Root(true), EncPayload(false, true, e.payload) + rest;
    var bs := EncElement(false, s, e) + rest;
    assert bs == EncHeader(false, s, e) + body;
    assert bs[1..] == (if e.payload.End? then [] else EncString(e.tag)) + body;
    if !e.payload.End? {
      StringRoundTrip(e.tag, body);
    } else {
      assert bs[1..] == body;
    }
    LeafPayloadRoundTrip(e.payload, rest);
  }

  /** Items that both modes write alike. */
  predicate FixedWidth(p: Payload) {
    p.Byte? || p.Short? || p.Float? || p.Double?
  }

  lemma SameInBothModes(p: Payload)
    requires FixedWidth(p)
    ensures EncScalar(false, false, p) == EncScalar(false, true, p)
  {
  }

  lemma FixedWidthItem(kind: byte, e: Element, tail: bytes)
    requires FixedWidth(e.payload) && Code(e.payload) == kind
    ensures DecElement(false, Settings(true, true, kind), EncElement(false, Settings(true, false, kind), e) + tail)
            == Got(EraseElement(true, e), tail)
  {
    hide EncScalar, DecScalar;
    assert EncScalar(false, false, e.payload) == EncScalar(false, true, e.payload) by {
      SameInBothModes(e.payload);
    }
    assert EncElement(false, Settings(true, false, kind), e) + tail == EncScalar(false, true, e.payload) + tail;
    ScalarRoundTrip(false, true, e.payload, tail);
  }

  lemma {:induction false} FixedWidthItems(kind: byte, items: seq<Element>, rest: bytes)
    requires forall e :: e in items ==> FixedWidth(e.payload) && Code(e.payload) == kind
    ensures DecItems(false, Settings(true, true, kind), |items|,
                     EncItems(false, Settings(true, false, kind), items) + rest)
            == Got(EraseAll(true, items), rest)
  {
    hide EncScalar, DecScalar, Code, FixedWidth;
    var s, t := Settings(true, false, kind), Settings(true, true, kind);
    if items == [] {
      assert EncItems(false, s, items) + rest == rest;
    } else {
      var e, tail := items[0], EncItems(false, s, items[1..]) + rest;
      assert e in items;
      FixedWidthItem(kind, e, tail);
      assert EncItems(false, s, items) + rest == EncElement(false, s, e) + tail;
      FixedWidthItems(kind, items[1..], rest);
    }
  }

  lemma NetworkHeader(e: Element, body: bytes)
    requires |e.tag| < 0x8000_0000 && !e.payload.End?
    ensures DecHeader(false, Root(true), EncHeader(false, Root(true), e) + body) == Got((Code(e.payload), e.tag), body)
  {
    hide EncString, DecString;
    var bs := EncHeader(false, Root(true), e) + body;
    assert bs[1..] == EncString(e.tag) + body;
    StringRoundTrip(e.tag, body);
  }

  /** Lists of bytes, shorts, floats and doubles survive as well. */
  lemma LittleEndianNetworkFixedWidthList(e: Element, rest: bytes)
    requires |e.tag| < 0x8000_0000 && e.payload.List? && 0 < |e.payload.items| < TWO_32
    requires Homogeneous(e.payload.items) && FixedWidth(e.payload.items[0].payload)
    ensures DecElement(false, Root(true), EncElement(false, Root(true), e) + rest) == Got(EraseElement(false, e), rest)
  {
    hide EncItems, DecItems, EncCount, DecCount, EncHeader, DecHeader;
    var items := e.payload.items;
    var kind := Code(items[0].payload);
    var t := EncItems(false, Settings(true, false, kind), items) + rest;
    var body := [kind] + (EncCount(false, true, |items|) + t);
    assert body[1..] == EncCount(false, true, |items|) + t;
    assert EncElement(false, Root(true), e) + rest == EncHeader(false, Root(true), e) + body;
    NetworkHeader(e, body);
    CountRoundTrip(false, true, |items|, t);
    forall x | x in items ensures FixedWidth(x.payload) && Code(x.payload) == kind {
      var i :| 0 <= i < |items| && items[i] == x;
      assert Code(items[i].payload) == kind;
    }
    FixedWidthItems(kind, items, rest);
  }

  lemma EmptyStringRead(rest: bytes)
    ensures DecString([0] + rest) == Got([], rest)
  {
    assert EncString([]) == [0];
    StringRoundTrip([], rest);
  }

  lemma NothingToRead()
    ensures DecNum(false, 4, []).Fail?
  {
  }

  lemma NetworkChildBytes(child: Element)
    requires child == Element([], Byte(5))
    ensures EncElement(false, Root(true), Element([], Compound([child]))) == [10, 0, 1, 0, 0, 5, 0]
  {
    assert LeBytes(0, 2) == [0, 0];
    assert EncElement(false, Root(false), child) == [1, 0, 0, 5];
    assert EncItems(false, Root(false), [child]) == [1, 0, 0, 5];
    assert EncString([]) == [0];
  }

  lemma OnlyChildWellFormed(child: Element)
    requires WellFormedChild(child)
    ensures WellFormedRoot(true, Element([], Compound([child])))
  {
    hide WellFormedChild;
    assert forall x :: x in [child] ==> x == child;
  }

  /** Five bytes of file mode, read as a child in network mode: its value is the second zero of its tag. */
  lemma ChildMisread()
    ensures DecElement(false, Root(true), [1, 0, 0, 5, 0]) == Got(Element([], Byte(0)), [5, 0])
  {
    hide DecString;
    var bs: bytes := [1, 0, 0, 5, 0];
    assert bs[1..] == [0] + [0, 5, 0];
    EmptyStringRead([0, 5, 0]);
  }

  /** What is left is taken for the head of a float. */
  lemma RestMisread()
    ensures DecElement(false, Root(true), [5, 0]).Fail?
  {
    hide DecString, DecNum;
    var bs: bytes := [5, 0];
    assert bs[1..] == [0] + [];
    EmptyStringRead([]);
    NothingToRead();
  }

  lemma ChildThenNothing(children: bytes, left: bytes, child: Element)
    requires children != [] && children[0] != 0 && left != [] && left[0] != 0
    requires DecElement(false, Root(true), children) == Got(child, left)
    requires DecElement(false, Root(true), left).Fail?
    ensures DecChildren(false, Root(true), children).Fail?
  {
    hide DecElement;
    assert DecChildren(false, Root(true), left).Fail?;
  }

  lemma ChildrenMisread()
    ensures DecChildren(false, Root(true), [1, 0, 0, 5, 0]).Fail?
  {
    hide DecElement, DecChildren;
    ChildMisread();
    RestMisread();
    ChildThenNothing([1, 0, 0, 5, 0], [5, 0], Element([], Byte(0)));
  }

  lemma ByteChildWellFormed(child: Element)
    requires child.payload.Byte? && child.tag == []
    ensures WellFormedChild(child)
  {
  }

  lemma CompoundOfRest(children: bytes)
    requires DecChildren(false, Root(true), children).Fail?
    ensures DecElement(false, Root(true), [10] + ([0] + children)).Fail?
  {
    hide DecString, DecChildren;
    var bs := [10] + ([0] + children);
    assert bs[1..] == [0] + children;
    EmptyStringRead(children);
  }

  /** A compound with one child, of which decoding makes a byte 0 and then a float whose value was never
      written. */
  lemma LittleEndianNetworkContainerFails()
    ensures var e := Element([], Compound([Element([], Byte(5))]));
            && WellFormedRoot(true, e)
            && DecElement(false, Root(true), EncElement(false, Root(true), e)).Fail?
  {
    hide *;
    var child := Element([], Byte(5));
    ByteChildWellFormed(child);
    OnlyChildWellFormed(child);
    NetworkChildBytes(child);
    ChildrenMisread();
    var children: bytes := [1, 0, 0, 5, 0];
    assert EncElement(false, Root(true), Element([], Compound([child]))) == [10] + ([0] + children);
    CompoundOfRest(children);
  }

  // ----- compounds with children

  /** Bytes that stay the same when a zero is pushed in front and the last one drops off are zeros. */
  lemma {:induction false} ShiftedZeros(t: bytes)
    requires ([0] + t)[..|t|] == t
    ensures t == Zeros(|t|)
  {
    if t == [] {
    } else {
      var u := t[..|t| - 1];
      assert ([0] + u)[..|u|] == u by {
        assert t[..|u|] == ([0] + t)[..|t|][..|u|];
      }
      ShiftedZeros(u);
      assert t[|t| - 1] == ([0] + t)[|t| - 1];
    }
  }

  /** What is left when `t` was read one byte too early and still came out as `t`. */
  lemma ReadEarly(t: bytes, more: bytes)
    ensures var p := TakeBytes(|t|, [0] + (t + more)); p.value == t ==> p.rest == [0] + more
  {
    var s := [0] + (t + more);
    assert s[..|t|] == ([0] + t)[..|t|];
    if s[..|t|] == t {
      ShiftedZeros(t);
      assert s[|t|..] == ([0] + t)[|t|..] + more;
      assert ([0] + t)[|t|..] == [0];
    }
  }

  lemma NumberReadEarly(n: nat, v: nat, more: bytes)
    requires v < Range(n)
    ensures var p := DecNum(false, n, [0] + (EncNum(false, n, v) + more)); p.Got? && p.value == v ==> p.rest == [0] + more
  {
    var t := EncNum(false, n, v);
    LeBytesOfFromLe(TakeBytes(n, [0] + (t + more)).value);
    ReadEarly(t, more);
  }

  lemma {:induction false} ZeroImage(n: nat)
    ensures LeBytes(0, n) == Zeros(n)
  {
    if n == 0 {
    } else {
      ZeroImage(n - 1);
    }
  }

  /** A zero byte reads as the number zero. */
  lemma ZeroReads(bs: bytes)
    requires bs != [] && bs[0] == 0
    ensures DecVarInt(bs) == Got(0, bs[1..]) && DecString(bs) == Got([], bs[1..])
    ensures DecZigZag32(bs) == Got(0, bs[1..]) && DecZigZag64(bs) == Got(0, bs[1..])
  {
    var rest := bs[1..];
    assert bs == [0] + rest;
    assert EncVarInt(0) == [0] == EncZigZag(0);
    VarIntRoundTrip(0, rest);
    ZigZag32RoundTrip(0, rest);
    ZigZag64RoundTrip(0, rest);
    TakeBytesOfAppend([], rest);
    assert [] + rest == rest;
  }

  /** More than `more` is left, and a zero byte is next: it will be taken for the end of the compound. */
  predicate EndsEarly(r: bytes, more: bytes) {
    |r| > |more| && r[0] == 0
  }

  /** If the payload is read one byte too early and still comes out right, the compound ends early. */
  ghost predicate LeavesZero(p: Payload, more: bytes) {
    var q := DecPayload(false, true, Code(p), [0] + (EncPayload(false, false, p) + more));
    q.Got? && q.value == Erase(p) ==> EndsEarly(q.rest, more)
  }

  lemma FixedWidthReadEarly(p: Payload, more: bytes)
    requires p.Byte? || p.Short? || p.Float? || p.Double? || p.Unknown?
    ensures LeavesZero(p, more)
  {
    hide EncNum, DecNum;
    assert Range(2) == TWO_16 && Range(4) == TWO_32 && Range(8) == TWO_64;
    match p {
      case Byte(b) =>
        assert ([0] + ([b] + more))[1..] == [b] + more;
      case Short(s) =>
        NumberReadEarly(2, ToUnsigned(s, TWO_16), more);
      case Float(bits) =>
        NumberReadEarly(4, bits, more);
      case Double(bits) =>
        NumberReadEarly(8, bits, more);
      case Unknown(code) =>
        assert [0] + ([] + more) == [0] + more;
    }
  }

  lemma NumberReadAsZero(p: Payload, more: bytes)
    requires p.Int? || p.Long?
    ensures LeavesZero(p, more)
  {
    hide DecZigZag32, DecZigZag64;
    var s := [0] + (EncPayload(false, false, p) + more);
    ZeroReads(s);
    ZeroImage(4);
    ZeroImage(8);
    assert s[1..] == EncPayload(false, false, p) + more;
  }

  lemma ZeroNumber(n: nat)
    ensures EncNum(false, n, 0) == Zeros(n)
  {
    ZeroImage(n);
  }

  lemma EmptyTextBytes()
    ensures EncPayload(false, false, String([])) == Zeros(2)
  {
    ZeroNumber(2);
  }

  lemma TextOfNothing(s: bytes)
    requires s != [] && s[0] == 0
    ensures DecPayload(false, true, 8, s) == Got(String([]), s[1..])
  {
    hide DecString;
    ZeroReads(s);
  }

  lemma ZerosLeft(s: bytes, k: nat, more: bytes)
    requires k > 0 && s == Zeros(k) + more
    ensures EndsEarly(s, more)
  {
  }

  lemma TextReadAsEmpty(p: Payload, more: bytes)
    requires p.String?
    ensures LeavesZero(p, more)
  {
    hide DecPayload, EncPayload, EndsEarly, Zeros;
    var s := [0] + (EncPayload(false, false, p) + more);
    TextOfNothing(s);
    if p.text == [] {
      EmptyTextBytes();
      assert s[1..] == Zeros(2) + more;
      ZerosLeft(s[1..], 2, more);
    }
  }

  lemma EmptyArrayBody(kind: byte, body: bytes)
    requires IsArray(kind)
    ensures var p := DecArrayBody(false, kind, 0, body);
            p.Got? && p.rest == body && IsArray(Code(p.value)) && EncPayload(false, false, p.value) == Zeros(4)
  {
    hide EncNum;
    ZeroNumber(4);
    assert body[..0] == [] && body[0..] == body;
    assert Zeros(4) + [] == Zeros(4);
  }

  lemma EraseArray(p: Payload)
    requires IsArray(Code(p))
    ensures Erase(p) == p
  {
  }

  lemma ZeroCount(bs: bytes)
    requires bs != [] && bs[0] == 0
    ensures DecCount(false, true, bs) == Got(0, bs[1..])
  {
    ZeroReads(bs);
  }

  lemma ArrayOfNothing(kind: byte, s: bytes)
    requires IsArray(kind) && s != [] && s[0] == 0
    ensures DecPayload(false, true, kind, s) == DecArrayBody(false, kind, 0, s[1..])
  {
    hide DecArrayBody, DecCount;
    ZeroCount(s);
  }

  lemma ArrayReadAsEmpty(p: Payload, more: bytes)
    requires IsArray(Code(p))
    ensures LeavesZero(p, more)
  {
    hide DecPayload, EncPayload, DecArrayBody, Erase, EndsEarly;
    var s := [0] + (EncPayload(false, false, p) + more);
    ArrayOfNothing(Code(p), s);
    assert s[1..] == EncPayload(false, false, p) + more;
    EmptyArrayBody(Code(p), s[1..]);
    EraseArray(p);
    if EncPayload(false, false, p) == Zeros(4) {
      ZerosLeft(s[1..], 4, more);
    }
  }

  lemma CompoundReadAsEmpty(p: Payload, more: bytes)
    requires p.Compound?
    ensures LeavesZero(p, more)
  {
    var s := [0] + (EncPayload(false, false, p) + more);
    assert s[1..] == EncPayload(false, false, p) + more;
    assert DecChildren(false, Root(true), s) == Got([], s[1..]);
    if p.children == [] {
      assert EncPayload(false, false, p) == [] + [0];
    }
  }

  lemma EmptyListBytes()
    ensures EncPayload(false, false, List([])) == [0] + Zeros(4)
  {
    hide EncNum;
    ZeroNumber(4);
  }

  /** A list whose items are of type 0 is empty, whatever its count. */
  lemma ListOfNothing(s: bytes)
    requires s != [] && s[0] == 0
    ensures var p, count := DecPayload(false, true, 9, s), DecCount(false, true, s[1..]);
            p == if count.Fail? then Fail else Got(List([]), count.rest)
  {
    hide DecCount, DecElement;
  }

  lemma EmptyListReadEarly(more: bytes)
    ensures LeavesZero(List([]), more)
  {
    hide DecPayload, EncPayload, EndsEarly, DecCount, Zeros;
    EmptyListBytes();
    var zeros := Zeros(4);
    var s1 := [0] + zeros + more;
    var s := [0] + s1;
    assert s[1..] == s1 && s1[1..] == zeros + more;
    ListOfNothing(s);
    ZeroCount(s1);
    ZerosLeft(s1[1..], 4, more);
  }

  lemma ListReadAsEmpty(p: Payload, more: bytes)
    requires p.List?
    ensures LeavesZero(p, more)
  {
    if p.items == [] {
      hide LeavesZero;
      EmptyListReadEarly(more);
    } else {
      hide DecPayload, EncPayload, DecCount, EndsEarly;
      ListOfNothing([0] + (EncPayload(false, false, p) + more));
    }
  }

  /** A child's payload that is read one byte too early, and still comes out right, leaves a zero behind. */
  lemma PayloadReadEarly(p: Payload, more: bytes)
    requires !p.End?
    ensures LeavesZero(p, more)
  {
    hide LeavesZero;
    match p {
      case Int(_) => NumberReadAsZero(p, more);
      case Long(_) => NumberReadAsZero(p, more);
      case String(_) => TextReadAsEmpty(p, more);
      case ByteArray(_) => ArrayReadAsEmpty(p, more);
      case IntArray(_) => ArrayReadAsEmpty(p, more);
      case LongArray(_) => ArrayReadAsEmpty(p, more);
      case Compound(_) => CompoundReadAsEmpty(p, more);
      case List(_) => ListReadAsEmpty(p, more);
      case _ => FixedWidthReadEarly(p, more);
    }
  }

  lemma LengthBytes(length: nat)
    requires length < 0x8000
    ensures EncNum(false, 2, length) == [length % 256, length / 256]
  {
    assert LeBytes(length, 2) == [length % 256] + LeBytes(length / 256, 1);
    assert LeBytes(length / 256, 1) == [length / 256] + LeBytes(0, 0);
  }

  lemma SevenBits(bits: nat, b: byte)
    requires bits >= 14
    ensures Chunk(bits, b, 0) == b % 128 && Chunk(bits, b, 7) == b % 128 * 128
    ensures Pow2(0) == 1 && Pow2(7) == 128
  {
    ChunkFits(bits, b, 0, 0);
    ChunkFits(bits, b, 7, 0);
  }

  lemma OneByteVar(bits: nat, bs: bytes)
    requires bits >= 14 && bs != [] && bs[0] < 128
    ensures DecVar(bits, bs) == Got(bs[0], bs[1..])
  {
    SevenBits(bits, bs[0]);
    hide Pow2, Chunk, DecVarFrom;
    DecVarStep(bits, bs, 0, 0);
  }

  lemma FirstByteContinues(bits: nat, bs: bytes, low: nat)
    requires bits >= 14 && bs != [] && bs[0] == low + 128
    ensures low < Pow2(7) && DecVar(bits, bs) == DecVarFrom(bits, bs[1..], 7, low)
  {
    SevenBits(bits, bs[0]);
    assert bs[0] % 128 == low;
    hide Pow2, Chunk, DecVarFrom;
    DecVarStep(bits, bs, 0, 0);
  }

  lemma SecondByteEnds(bits: nat, bs: bytes, low: nat)
    requires bits >= 14 && low < Pow2(7) && bs != [] && bs[0] < 128
    ensures DecVarFrom(bits, bs, 7, low) == Got(low + 128 * bs[0] as nat, bs[1..])
  {
    SevenBits(bits, bs[0]);
    assert bs[0] % 128 == bs[0];
    hide Pow2, Chunk, DecVarFrom;
    DecVarStep(bits, bs, 7, low);
  }

  lemma TwoByteVar(bits: nat, bs: bytes, next: bytes)
    requires bits >= 14 && bs != [] && bs[0] >= 128 && next == bs[1..] && next != [] && next[0] < 128
    ensures DecVar(bits, bs) == Got(bs[0] - 128 + 128 * next[0] as nat, next[1..])
  {
    hide Pow2, DecVar, DecVarFrom;
    var low: nat := bs[0] - 128;
    FirstByteContinues(bits, bs, low);
    SecondByteEnds(bits, next, low);
  }

  /** The two bytes of a length below 2^15, read as a variable-length number. */
  lemma LengthReadAsVarInt(lo: byte, hi: byte, more: bytes)
    requires hi < 128
    ensures var p := DecVarInt([lo, hi] + more);
            && p.Got?
            && (p.value == lo + 256 * hi ==> hi == 0 && p.rest == [0] + more)
  {
    hide Pow2, DecVar;
    var bs := [lo, hi] + more;
    assert bs[1..] == [hi] + more && ([hi] + more)[1..] == more;
    if lo < 128 {
      OneByteVar(32, bs);
    } else {
      TwoByteVar(32, bs, bs[1..]);
    }
  }

  /** A tag that still comes out right was all zeros, and one zero byte too much is left. */
  lemma TagReadEarly(tag: bytes, more: bytes)
    requires |tag| < 0x8000
    ensures var p := DecString(EncShortString(false, tag) + more); p.Got? && p.value == tag ==> p.rest == [0] + more
  {
    hide DecVarInt, EncNum;
    assert EncShortString(false, tag) + more == EncNum(false, 2, |tag|) + (tag + more);
    LengthBytes(|tag|);
    LengthReadAsVarInt(|tag| % 256, |tag| / 256, tag + more);
    ReadEarly(tag, more);
  }

  /** The bytes of a child in file mode. */
  function ChildBytes(c: Element, more: bytes): bytes {
    EncElement(false, Root(false), c) + more
  }

  /** A first child that still comes out right leaves a zero behind. */
  lemma ChildReadEarly(c: Element, more: bytes)
    requires !c.payload.End? && |c.tag| < 0x8000
    ensures var p := DecElement(false, Root(true), ChildBytes(c, more));
            p.Got? && p.value == EraseElement(false, c) ==> EndsEarly(p.rest, more)
  {
    hide EncPayload, DecPayload, EncShortString, DecString, EndsEarly, Erase;
    var bs, p := ChildBytes(c, more), c.payload;
    var body := EncPayload(false, false, p) + more;
    assert bs == [Code(p)] + (EncShortString(false, c.tag) + body);
    assert bs[1..] == EncShortString(false, c.tag) + body;
    TagReadEarly(c.tag, body);
    PayloadReadEarly(p, more);
  }

  /** The loop over the children ends after the first one, with bytes left over. */
  lemma ChildrenReadEarly(children: seq<Element>, rest: bytes)
    requires children != [] && |children[0].tag| < 0x8000
    ensures DecChildren(false, Root(true), EncItems(false, Root(false), children) + ([0] + rest))
            != Got(EraseAll(false, children), rest)
  {
    hide DecElement, EncElement, EraseElement;
    var c, more := children[0], EncItems(false, Root(false), children[1..]) + ([0] + rest);
    var bs := EncItems(false, Root(false), children) + ([0] + rest);
    assert bs == ChildBytes(c, more);
    ChildStarts(false, c);
    var p := DecElement(false, Root(true), bs);
    if bs[0] != 0 && p.Got? && p.value == EraseElement(false, c) {
      ChildReadEarly(c, more);
      assert DecChildren(false, Root(true), p.rest) == Got([], p.rest[1..]);
    }
  }

  /** A compound survives exactly when it has no children, as long as the tag of its first child is shorter
      than 2^15: decoding never gives the tree back and leaves what followed, whatever the children are. */
  lemma LittleEndianNetworkCompound(e: Element, rest: bytes)
    requires |e.tag| < 0x8000_0000 && e.payload.Compound?
    requires e.payload.children != [] ==> |e.payload.children[0].tag| < 0x8000
    ensures DecElement(false, Root(true), EncElement(false, Root(true), e) + rest) == Got(EraseElement(false, e), rest)
            <==> e.payload.children == []
  {
    var children := e.payload.children;
    if children == [] {
      hide DecElement, EncElement;
      LittleEndianNetworkLeaf(e, rest);
    } else {
      hide DecHeader, EncHeader, EncItems, DecChildren, EraseAll;
      var body := EncItems(false, Root(false), children) + ([0] + rest);
      assert EncElement(false, Root(true), e) + rest == EncHeader(false, Root(true), e) + body;
      NetworkHeader(e, body);
      ChildrenReadEarly(children, rest);
    }
  }
}
