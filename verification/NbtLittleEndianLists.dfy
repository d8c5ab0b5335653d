/**
  Lists in little-endian network mode, of items that the two modes write differently. The first item is read
  too early, and from then on every item finds zeros that belong to the ones before.
 */
module NbtLittleEndianLists {
  import opened Bytes
  import opened Numeric
  import opened VarNumeric
  import opened Arrays
  import opened Nbt
  import opened NbtRoundTrip
  import opened NbtLittleEndianNetwork

  /** Texts, arrays and lists: their length comes first, as a fixed-width number in file mode and as a
      variable-length one in network mode. */
  predicate Counted(p: Payload) {
    p.String? || p.List? || IsArray(Code(p))
  }

  /** How many zeros are left of `k` zeros and an item that is read from them. */
  function ZerosAfter(p: Payload, k: nat): nat {
    if p.String? then k + 1 else k + 3
  }

  lemma MoreZeros(j: nat, k: nat, more: bytes)
    ensures Zeros(j) + (Zeros(k) + more) == Zeros(j + k) + more
  {
  }

  lemma DropZero(k: nat, more: bytes)
    requires k > 0
    ensures (Zeros(k) + more)[0] == 0 && (Zeros(k) + more)[1..] == Zeros(k - 1) + more
  {
  }

  // ----- items behind zeros

  /** If the item comes out right, it was empty, and more zeros than before are left. */
  ghost predicate KeepsZeros(p: Payload, k: nat, more: bytes) {
    var q := DecPayload(false, true, Code(p), Zeros(k) + (EncPayload(false, false, p) + more));
    q.Got? && q.value == Erase(p) ==> q.rest == Zeros(ZerosAfter(p, k)) + more
  }

  lemma TextBehindZeros(p: Payload, k: nat, more: bytes)
    requires p.String? && k > 0
    ensures KeepsZeros(p, k, more)
  {
    hide DecPayload, EncPayload, Zeros;
    var body := EncPayload(false, false, p) + more;
    DropZero(k, body);
    TextOfNothing(Zeros(k) + body);
    if p.text == [] {
      EmptyTextBytes();
      MoreZeros(k - 1, 2, more);
    }
  }

  lemma ArrayBehindZeros(p: Payload, k: nat, more: bytes)
    requires IsArray(Code(p)) && k > 0
    ensures KeepsZeros(p, k, more)
  {
    hide DecPayload, EncPayload, DecArrayBody, Erase, Zeros;
    var body := EncPayload(false, false, p) + more;
    DropZero(k, body);
    ArrayOfNothing(Code(p), Zeros(k) + body);
    EmptyArrayBody(Code(p), Zeros(k - 1) + body);
    EraseArray(p);
    if EncPayload(false, false, p) == Zeros(4) {
      MoreZeros(k - 1, 4, more);
    }
  }

  lemma OneMoreZero()
    ensures [0] + Zeros(4) == Zeros(5)
  {
  }

  lemma EmptyListBehindZeros(k: nat, more: bytes)
    requires k > 0
    ensures KeepsZeros(List([]), k, more)
  {
    hide DecPayload, EncPayload, DecCount, Zeros;
    EmptyListBytes();
    var body := ([0] + Zeros(4)) + more;
    assert [0] + Zeros(4) == Zeros(5) by { OneMoreZero(); }
    MoreZeros(k, 5, more);
    DropZero(k + 5, more);
    DropZero(k + 4, more);
    ListOfNothing(Zeros(k) + body);
    ZeroCount(Zeros(k + 4) + more);
  }

  lemma ListBehindZeros(p: Payload, k: nat, more: bytes)
    requires p.List? && k > 0
    ensures KeepsZeros(p, k, more)
  {
    if p.items == [] {
      hide KeepsZeros;
      EmptyListBehindZeros(k, more);
    } else {
      hide DecPayload, EncPayload, DecCount;
      ListOfNothing(Zeros(k) + (EncPayload(false, false, p) + more));
    }
  }

  lemma ItemBehindZeros(p: Payload, k: nat, more: bytes)
    requires Counted(p) && k > 0
    ensures KeepsZeros(p, k, more)
  {
    hide KeepsZeros;
    if p.String? {
      TextBehindZeros(p, k, more);
    } else if p.List? {
      ListBehindZeros(p, k, more);
    } else {
      ArrayBehindZeros(p, k, more);
    }
  }

  // ----- lists behind zeros

  lemma ItemBytes(kind: byte, e: Element, more: bytes)
    requires Code(e.payload) == kind
    ensures EncElement(false, Settings(true, false, kind), e) + more == EncPayload(false, false, e.payload) + more
    ensures EraseElement(true, e) == Element([], Erase(e.payload))
  {
    hide EncPayload, Erase;
  }

  lemma ItemRead(kind: byte, bs: bytes)
    ensures DecElement(false, Settings(true, true, kind), bs)
            == match DecPayload(false, true, kind, bs)
               case Fail => Fail
               case Got(p, rest) => Got(Element([], p), rest)
  {
    hide DecPayload;
  }

  /** Items behind zeros: when they all come out right, more is left than what followed them. */
  lemma {:induction false} ItemsBehindZeros(kind: byte, items: seq<Element>, k: nat, rest: bytes)
    requires k > 0 && forall e :: e in items ==> Counted(e.payload) && Code(e.payload) == kind
    ensures var p := DecItems(false, Settings(true, true, kind), |items|,
                              Zeros(k) + (EncItems(false, Settings(true, false, kind), items) + rest));
            p.Got? && p.value == EraseAll(true, items) ==> |p.rest| > |rest|
    decreases items
  {
    hide DecElement, EncElement, DecPayload, EncPayload, Erase, EraseElement, Counted, Zeros;
    if items == [] {
      assert EncItems(false, Settings(true, false, kind), items) + rest == rest;
    } else {
      var e, more := items[0], EncItems(false, Settings(true, false, kind), items[1..]) + rest;
      assert e in items;
      var bs := Zeros(k) + (EncPayload(false, false, e.payload) + more);
      ItemBytes(kind, e, more);
      assert EncItems(false, Settings(true, false, kind), items) + rest
             == EncElement(false, Settings(true, false, kind), e) + more;
      ItemRead(kind, bs);
      ItemBehindZeros(e.payload, k, more);
      ItemsBehindZeros(kind, items[1..], ZerosAfter(e.payload, k), rest);
    }
  }

  // ----- the first item

  /** The length that comes first fits the numbers that the two modes share. */
  predicate Short(p: Payload) {
    match p
    case String(text) => |text| < 0x8000
    case ByteArray(raw) => |raw| < TWO_31
    case IntArray(ints) => |ints| < TWO_31
    case LongArray(longs) => |longs| < TWO_31
    case List(items) => |items| < TWO_31
    case _ => false
  }

  /** If the first item comes out right, it was empty and leaves zeros. */
  ghost predicate StartsZeros(p: Payload, more: bytes) {
    var q := DecPayload(false, true, Code(p), EncPayload(false, false, p) + more);
    q.Got? && q.value == Erase(p) ==> q.rest == Zeros(ZerosAfter(p, 0)) + more
  }

  lemma OneZero()
    ensures Zeros(1) == [0]
  {
  }

  lemma TextFirst(p: Payload, more: bytes)
    requires p.String? && Short(p)
    ensures StartsZeros(p, more)
  {
    hide DecString, EncShortString;
    TagReadEarly(p.text, more);
    OneZero();
  }

  lemma Weights(b: byte, rest: nat, p: nat)
    ensures b < 128 ==> b % 128 * p <= (b + 256 * rest) * p
    ensures b >= 128 ==> b % 128 * p + rest * (128 * p) <= (b + 256 * rest) * p
  {
    assert rest * (128 * p) == 128 * rest * p;
    ScaleMonotone(b % 128, b + 256 * rest, p);
    ScaleMonotone(b % 128 + 128 * rest, b + 256 * rest, p);
    assert (b % 128 + 128 * rest) * p == b % 128 * p + 128 * rest * p;
  }

  /** A fixed-width number, read as a variable-length one, is no larger: seven bits of each byte count, at
      seven bits' distance. */
  lemma {:induction false} VarAtMost(bits: nat, t: bytes, more: bytes, shift: nat, acc: nat)
    requires t != [] && t[|t| - 1] < 128 && shift + 7 * |t| <= bits && shift < bits && acc < Pow2(shift)
    ensures var p := DecVarFrom(bits, t + more, shift, acc);
            p.Got? ==> p.value <= acc + FromLe(t) * Pow2(shift)
    decreases t
  {
    hide DecVarFrom, Chunk, Pow2;
    var bs, b, rest := t + more, t[0], FromLe(t[1..]);
    assert bs[0] == b && bs[1..] == t[1..] + more;
    DecVarStep(bits, bs, shift, acc);
    ChunkFits(bits, b, shift, acc);
    Weights(b, rest, Pow2(shift));
    Pow2Step(shift);
    if b < 128 {
    } else {
      VarAtMost(bits, t[1..], more, shift + 7, acc + Chunk(bits, b, shift));
    }
  }

  lemma LastOfFour(n: nat)
    requires n < TWO_31
    ensures LeBytes(n, 4)[3] == n / 0x100_0000
  {
    assert LeBytes(n, 4)[1..] == LeBytes(n / 256, 3);
    assert LeBytes(n / 256, 3)[1..] == LeBytes(n / 256 / 256, 2);
    assert LeBytes(n / 256 / 256, 2)[1..] == LeBytes(n / 256 / 256 / 256, 1);
    assert n / 256 / 256 / 256 == n / 0x100_0000;
  }

  lemma CountBytes(n: nat)
    requires n < TWO_31
    ensures var t := EncNum(false, 4, n); |t| == 4 && FromLe(t) == n && t[3] < 128
  {
    assert Range(4) == TWO_32;
    FromLeOfLeBytes(n, 4);
    LastOfFour(n);
  }

  /** A count in file mode that network mode reads as the same count is zero. */
  lemma CountReadAsZigZag(n: nat, more: bytes)
    requires n < TWO_31
    ensures var p := DecCount(false, true, EncNum(false, 4, n) + more);
            p.Got? && p.value == n ==> n == 0 && p.rest == Zeros(3) + more
  {
    hide EncNum, DecVarFrom, Zeros, FromLe;
    var t := EncNum(false, 4, n);
    CountBytes(n);
    assert Pow2(0) == 1;
    hide Pow2;
    VarAtMost(32, t, more, 0, 0);
    if n == 0 {
      ZeroNumber(4);
      DropZero(4, more);
      ZeroCount(Zeros(4) + more);
    }
  }

  function Length(p: Payload): nat
    requires IsArray(Code(p))
  {
    match p
    case ByteArray(raw) => |raw|
    case IntArray(ints) => |ints|
    case LongArray(longs) => |longs|
  }

  lemma ArrayBytes(p: Payload) returns (body: bytes)
    requires IsArray(Code(p)) && Length(p) < TWO_32
    ensures EncPayload(false, false, p) == EncNum(false, 4, Length(p)) + body
    ensures Length(p) == 0 ==> body == []
  {
    hide EncNum;
    match p {
      case ByteArray(raw) => body := raw;
      case IntArray(ints) => body := EncArray(Int32Writer(false), ints);
      case LongArray(longs) => body := EncArray(Int64Writer(false), longs);
    }
  }

  lemma BodyLength(kind: byte, n: nat, bs: bytes)
    requires IsArray(kind) && DecArrayBody(false, kind, n, bs).Got?
    ensures var p := DecArrayBody(false, kind, n, bs).value; Code(p) == kind && Length(p) == n
  {
  }

  lemma ArrayFirst(p: Payload, more: bytes)
    requires IsArray(Code(p)) && Short(p)
    ensures StartsZeros(p, more)
  {
    hide EncPayload, DecArrayBody, DecCount, Erase, EncNum;
    EraseArray(p);
    var n := Length(p);
    var body := ArrayBytes(p);
    var bs := EncPayload(false, false, p) + more;
    assert bs == EncNum(false, 4, n) + (body + more);
    CountReadAsZigZag(n, body + more);
    var count := DecCount(false, true, bs);
    if count.Got? && DecArrayBody(false, Code(p), count.value, count.rest).Got? {
      BodyLength(Code(p), count.value, count.rest);
      if count.value == n {
        assert [] + more == more;
        EmptyArrayBody(Code(p), count.rest);
      }
    }
  }

  lemma EmptyListFirst(more: bytes)
    ensures StartsZeros(List([]), more)
  {
    hide DecPayload, EncPayload, DecCount, Zeros;
    EmptyListBytes();
    OneMoreZero();
    DropZero(5, more);
    DropZero(4, more);
    ListOfNothing(Zeros(5) + more);
    ZeroCount(Zeros(4) + more);
  }

  /** A list of a type is read with as many items as its count says, and of no type with none. */
  lemma ListLength(kind: byte, bs: bytes)
    requires DecPayload(false, true, 9, [kind] + bs).Got?
    ensures DecCount(false, true, bs).Got?
    ensures var p := DecPayload(false, true, 9, [kind] + bs).value;
            p.List? && |p.items| == if kind == 0 then 0 else DecCount(false, true, bs).value
  {
    hide DecCount, DecElement;
    assert ([kind] + bs)[1..] == bs;
  }

  lemma FullListFirst(p: Payload, more: bytes)
    requires p.List? && Short(p) && p.items != [] && Homogeneous(p.items)
    ensures StartsZeros(p, more)
  {
    hide DecPayload, DecCount, EncItems, EncNum, Homogeneous, Zeros;
    var kind, n := Code(p.items[0].payload), |p.items|;
    var tail := EncItems(false, Settings(true, false, kind), p.items) + more;
    assert EncPayload(false, false, p) + more == [kind] + (EncNum(false, 4, n) + tail);
    CountReadAsZigZag(n, tail);
    if DecPayload(false, true, 9, [kind] + (EncNum(false, 4, n) + tail)).Got? {
      ListLength(kind, EncNum(false, 4, n) + tail);
    }
  }

  lemma MixedListFirst(p: Payload, more: bytes)
    requires p.List? && p.items != [] && !Homogeneous(p.items)
    ensures StartsZeros(p, more)
  {
    hide DecPayload, DecCount, EncNum, Homogeneous, Zeros;
    assert EncPayload(false, false, p) + more == [0] + (EncNum(false, 4, 0) + more);
    if DecPayload(false, true, 9, [0] + (EncNum(false, 4, 0) + more)).Got? {
      ListLength(0, EncNum(false, 4, 0) + more);
    }
  }

  lemma ListFirst(p: Payload, more: bytes)
    requires p.List? && Short(p)
    ensures StartsZeros(p, more)
  {
    hide StartsZeros, Short, Homogeneous;
    if p.items == [] {
      EmptyListFirst(more);
    } else if Homogeneous(p.items) {
      FullListFirst(p, more);
    } else {
      MixedListFirst(p, more);
    }
  }

  lemma ItemFirst(p: Payload, more: bytes)
    requires Counted(p) && Short(p)
    ensures StartsZeros(p, more)
  {
    hide StartsZeros;
    if p.String? {
      TextFirst(p, more);
    } else if p.List? {
      ListFirst(p, more);
    } else {
      ArrayFirst(p, more);
    }
  }

  // ----- the theorem

  lemma ItemsReadEarly(kind: byte, items: seq<Element>, rest: bytes)
    requires items != [] && Short(items[0].payload)
    requires forall e :: e in items ==> Counted(e.payload) && Code(e.payload) == kind
    ensures DecItems(false, Settings(true, true, kind), |items|, EncItems(false, Settings(true, false, kind), items) + rest)
            != Got(EraseAll(true, items), rest)
  {
    hide DecElement, EncElement, DecPayload, EncPayload, Erase, EraseElement, Counted, Zeros, Short;
    var e, more := items[0], EncItems(false, Settings(true, false, kind), items[1..]) + rest;
    assert e in items;
    ItemBytes(kind, e, more);
    assert EncItems(false, Settings(true, false, kind), items) + rest
           == EncElement(false, Settings(true, false, kind), e) + more;
    ItemRead(kind, EncPayload(false, false, e.payload) + more);
    ItemFirst(e.payload, more);
    ItemsBehindZeros(kind, items[1..], ZerosAfter(e.payload, 0), rest);
  }

  /** In the fourth mode no list of texts, arrays or lists survives, whatever the items are: decoding never
      gives the list back and leaves what followed it. The length of the first item must be in the range that
      both modes can express. */
  lemma LittleEndianNetworkListFails(e: Element, rest: bytes)
    requires |e.tag| < TWO_31 && e.payload.List? && 0 < |e.payload.items| < TWO_32
    requires Homogeneous(e.payload.items)
    requires Counted(e.payload.items[0].payload) && Short(e.payload.items[0].payload)
    ensures DecElement(false, Root(true), EncElement(false, Root(true), e) + rest) != Got(EraseElement(false, e), rest)
  {
    hide EncItems, DecItems, EncCount, DecCount, EncHeader, DecHeader, Short;
    var items := e.payload.items;
    var kind := Code(items[0].payload);
    var t := EncItems(false, Settings(true, false, kind), items) + rest;
    var body := [kind] + (EncCount(false, true, |items|) + t);
    assert body[1..] == EncCount(false, true, |items|) + t;
    assert EncElement(false, Root(true), e) + rest == EncHeader(false, Root(true), e) + body;
    NetworkHeader(e, body);
    CountRoundTrip(false, true, |items|, t);
    forall x | x in items ensures Counted(x.payload) && Code(x.payload) == kind {
      var i :| 0 <= i < |items| && items[i] == x;
      assert Code(items[i].payload) == kind;
    }
    ItemsReadEarly(kind, items, rest);
  }
}
