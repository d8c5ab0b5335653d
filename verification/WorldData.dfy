/**
  Light and chunk data: bit sets, arrays of bytes and of numbers, and block entities with a network NBT
  root.
 */
module WorldData {
  import opened Bytes
  import opened Numeric
  import opened VarNumeric
  import opened Arrays
  import opened Bits
  import opened WordNumbers
  import opened WordSets
  import opened Nbt
  import opened NbtRoundTrip

  // ----- bit sets

  lemma WordRange()
    ensures Range(8) == TWO_64 == Pow2(64)
  {
    Widths();
    assert Range(4) == TWO_32;
  }

  function EncWord(be: bool, w: word): bytes {
    EncNum(be, 8, ValueOf(w, 64))
  }

  function DecWord(be: bool, bs: bytes): (p: Parsed<word>)
    ensures p.Got? ==> |p.rest| == |bs| - 8
  {
    var (v, rest) :- DecNum(be, 8, bs);
    Got(WordOf(v, 64), rest)
  }

  function WordWriter(be: bool): word -> bytes {
    w => EncWord(be, w)
  }

  function WordReader(be: bool): (dec: bytes -> Parsed<word>)
    ensures forall b :: dec(b).Got? ==> |dec(b).rest| <= |b|
  {
    bs => DecWord(be, bs)
  }

  lemma WordInverse(be: bool)
    ensures forall w: word :: Inverse(WordWriter(be), WordReader(be), w)
  {
    hide ValueOf, WordOf, EncNum, DecNum, Pow2;
    forall w: word, rest ensures WordReader(be)(WordWriter(be)(w) + rest) == Got(w, rest) {
      WordRange();
      WordOfValueOf(w);
      NumRoundTrip(be, 8, ValueOf(w, 64), rest);
    }
  }

  /** The words up to the last one that is not zero: what `toLongArray` keeps. */
  function Trim(data: seq<word>): (r: seq<word>)
    ensures r <= data
    ensures r != [] ==> r[|r| - 1] != 0
    ensures forall i :: |r| <= i < |data| ==> data[i] == 0
  {
    if data == [] || data[|data| - 1] != 0 then data else Trim(data[..|data| - 1])
  }

  lemma TrimKeepsMembers(data: seq<word>)
    ensures Members(Trim(data)) == Members(data)
  {
    hide Trim, Members;
    SameWordsSameMembers(Trim(data), data);
  }

  lemma TrimIsLongs(data: seq<word>, h: nat)
    requires |data| < MAX_WORDS && IsMaximum(Members(data), h)
    ensures LongsOf(data, h) == Trim(data)
  {
    hide Bit, Has, Members, Trim;
    var t := Trim(data);
    MembersBounded(data);
    if t == [] {
      ZeroWordsAreEmpty(data);
    } else {
      LastWordGivesMaximum(data, |t| - 1);
    }
  }

  /** `writeBitSet` of the words `data`. */
  function EncBitSet(be: bool, data: seq<word>): bytes {
    EncPrefixedArray(WordWriter(be), Trim(data))
  }

  function DecBitSet(be: bool, bs: bytes): (p: Parsed<seq<word>>) {
    DecPrefixedArray(WordReader(be), bs)
  }

  lemma BitSetRoundTrip(be: bool, data: seq<word>, rest: bytes)
    requires |Trim(data)| < TWO_31
    ensures DecBitSet(be, EncBitSet(be, data) + rest) == Got(Trim(data), rest)
  {
    hide Trim;
    WordInverse(be);
    PrefixedArrayRoundTrip(WordWriter(be), WordReader(be), Trim(data), rest);
  }

  // ----- light data

  datatype Light = Light(skyMask: seq<word>, blockMask: seq<word>, emptySkyMask: seq<word>, emptyBlockMask: seq<word>,
                         skyArrays: seq<bytes>, blockArrays: seq<bytes>)

  function StringWriter(): bytes -> bytes {
    s => EncString(s)
  }

  function StringReader(): bytes -> Parsed<bytes> {
    bs => DecString(bs)
  }

  function EncMasks(be: bool, l: Light): bytes {
    EncBitSet(be, l.skyMask) + (EncBitSet(be, l.blockMask)
                                + (EncBitSet(be, l.emptySkyMask) + EncBitSet(be, l.emptyBlockMask)))
  }

  /** `LightData::toBytes`: its buffer is big-endian. */
  function EncLight(l: Light): bytes {
    EncMasks(true, l)
    + (EncPrefixedArray(StringWriter(), l.skyArrays) + EncPrefixedArray(StringWriter(), l.blockArrays))
  }

  function DecMasks(be: bool, bs: bytes): Parsed<Light> {
    var (sky, r1) :- DecBitSet(be, bs);
    var (block, r2) :- DecBitSet(be, r1);
    var (emptySky, r3) :- DecBitSet(be, r2);
    var (emptyBlock, r4) :- DecBitSet(be, r3);
    Got(Light(sky, block, emptySky, emptyBlock, [], []), r4)
  }

  /** `readLightData`. */
  function DecLight(be: bool, bs: bytes): Parsed<Light> {
    var (l, r1) :- DecMasks(be, bs);
    var (skyArrays, r2) :- DecPrefixedArray(StringReader(), r1);
    var (blockArrays, r3) :- DecPrefixedArray(StringReader(), r2);
    Got(l.(skyArrays := skyArrays, blockArrays := blockArrays), r3)
  }

  predicate ShortStrings(xs: seq<bytes>) {
    |xs| < TWO_31 && forall x :: x in xs ==> |x| < TWO_31
  }

  predicate WritableLight(l: Light) {
    && |Trim(l.skyMask)| < TWO_31 && |Trim(l.blockMask)| < TWO_31
    && |Trim(l.emptySkyMask)| < TWO_31 && |Trim(l.emptyBlockMask)| < TWO_31
    && ShortStrings(l.skyArrays) && ShortStrings(l.blockArrays)
  }

  lemma StringsRoundTrip(xs: seq<bytes>, rest: bytes)
    requires ShortStrings(xs)
    ensures DecPrefixedArray(StringReader(), EncPrefixedArray(StringWriter(), xs) + rest) == Got(xs, rest)
  {
    hide EncString, DecString;
    forall i | 0 <= i < |xs| ensures Inverse(StringWriter(), StringReader(), xs[i]) {
      forall r ensures StringReader()(StringWriter()(xs[i]) + r) == Got(xs[i], r) {
        StringRoundTrip(xs[i], r);
      }
    }
    PrefixedArrayRoundTrip(StringWriter(), StringReader(), xs, rest);
  }

  /** What a reader of the other byte order makes of a word. */
  function Swapped(w: word): word {
    WordOf(FromLe(Reversed(LeBytes(ValueOf(w, 64), 8))), 64)
  }

  function SwappedAll(xs: seq<word>): (r: seq<word>)
    ensures |r| == |xs|
    ensures forall i :: 0 <= i < |xs| ==> r[i] == Swapped(xs[i])
  {
    if xs == [] then [] else [Swapped(xs[0])] + SwappedAll(xs[1..])
  }

  /** The bytes of the word read the same in both directions. */
  predicate IsPalindrome(w: word) {
    var image := LeBytes(ValueOf(w, 64), 8);
    Reversed(image) == image
  }

  /** The words a reader with byte order `be` makes of words written big-endian. */
  function Reads(be: bool, xs: seq<word>): (r: seq<word>)
    ensures |r| == |xs|
  {
    if be then xs else SwappedAll(xs)
  }

  lemma SwappedIsSame(w: word)
    ensures Swapped(w) == w <==> IsPalindrome(w)
  {
    WordRange();
    var v := ValueOf(w, 64);
    var image := LeBytes(v, 8);
    var x := FromLe(Reversed(image));
    LeBytesOfFromLe(Reversed(image));
    FromLeOfLeBytes(v, 8);
    hide ValueOf, WordOf, LeBytes, Reversed, FromLe, Pow2;
    ValueOfWordOf(x, 64);
    WordOfValueOf(w);
  }

  lemma SwappedAllSame(xs: seq<word>)
    ensures SwappedAll(xs) == xs <==> forall w :: w in xs ==> IsPalindrome(w)
  {
    hide Swapped, IsPalindrome;
    forall i | 0 <= i < |xs| ensures SwappedAll(xs)[i] == xs[i] <==> IsPalindrome(xs[i]) {
      SwappedIsSame(xs[i]);
    }
    if SwappedAll(xs) == xs {
      forall w | w in xs ensures IsPalindrome(w) {
        var i :| 0 <= i < |xs| && xs[i] == w;
        assert SwappedAll(xs)[i] == xs[i];
      }
    }
  }

  lemma SwappedWordRead(w: word, rest: bytes)
    ensures WordReader(false)(WordWriter(true)(w) + rest) == Got(Swapped(w), rest)
  {
    hide ValueOf, WordOf, LeBytes, FromLe;
    TakeBytesOfAppend(EncWord(true, w), rest);
  }

  lemma {:induction false} SwappedWordsRead(xs: seq<word>, rest: bytes)
    ensures DecArray(WordReader(false), |xs|, EncArray(WordWriter(true), xs) + rest) == Got(SwappedAll(xs), rest)
  {
    hide WordReader, WordWriter, Swapped;
    var enc, dec := WordWriter(true), WordReader(false);
    if xs == [] {
      assert EncArray(enc, xs) + rest == rest;
    } else {
      var t := EncArray(enc, xs[1..]) + rest;
      assert EncArray(enc, xs) + rest == enc(xs[0]) + t;
      SwappedWordRead(xs[0], t);
      SwappedWordsRead(xs[1..], rest);
    }
  }

  lemma BitSetReadSwapped(data: seq<word>, rest: bytes)
    requires |Trim(data)| < TWO_31
    ensures DecBitSet(false, EncBitSet(true, data) + rest) == Got(SwappedAll(Trim(data)), rest)
  {
    hide Trim, WordReader, WordWriter, EncArray, DecArray, SwappedAll, EncPrefixedArray, DecPrefixedArray;
    var xs := Trim(data);
    SwappedWordsRead(xs, rest);
    PrefixedRead(WordWriter(true), WordReader(false), xs, SwappedAll(xs), rest);
  }

  /** A bit set from a big-endian buffer, read in either byte order. */
  lemma BitSetRead(be: bool, data: seq<word>, rest: bytes)
    requires |Trim(data)| < TWO_31
    ensures DecBitSet(be, EncBitSet(true, data) + rest) == Got(Reads(be, Trim(data)), rest)
  {
    hide Trim, DecBitSet, EncBitSet, SwappedAll;
    if be {
      BitSetRoundTrip(true, data, rest);
    } else {
      BitSetReadSwapped(data, rest);
    }
  }

  /** What a reader with byte order `be` makes of light data. */
  function ReadsLight(be: bool, l: Light): Light {
    Light(Reads(be, Trim(l.skyMask)), Reads(be, Trim(l.blockMask)), Reads(be, Trim(l.emptySkyMask)),
          Reads(be, Trim(l.emptyBlockMask)), l.skyArrays, l.blockArrays)
  }

  lemma MasksRead(be: bool, l: Light, rest: bytes)
    requires WritableLight(l)
    ensures DecMasks(be, EncMasks(true, l) + rest) == Got(ReadsLight(be, l).(skyArrays := [], blockArrays := []), rest)
  {
    hide EncBitSet, DecBitSet, Trim, ShortStrings, Reads;
    var t4 := EncBitSet(true, l.emptyBlockMask) + rest;
    var t3 := EncBitSet(true, l.emptySkyMask) + t4;
    var t2 := EncBitSet(true, l.blockMask) + t3;
    assert EncMasks(true, l) + rest == EncBitSet(true, l.skyMask) + t2;
    BitSetRead(be, l.skyMask, t2);
    BitSetRead(be, l.blockMask, t3);
    BitSetRead(be, l.emptySkyMask, t4);
    BitSetRead(be, l.emptyBlockMask, rest);
  }

  /** Reading light data consumes exactly their bytes in either byte order. */
  lemma LightRead(be: bool, l: Light, rest: bytes)
    requires WritableLight(l)
    ensures DecLight(be, EncLight(l) + rest) == Got(ReadsLight(be, l), rest)
  {
    hide EncMasks, DecMasks, EncPrefixedArray, DecPrefixedArray, StringWriter, StringReader, Trim, Reads;
    var t2 := EncPrefixedArray(StringWriter(), l.blockArrays) + rest;
    var t1 := EncPrefixedArray(StringWriter(), l.skyArrays) + t2;
    assert EncLight(l) + rest == EncMasks(true, l) + t1;
    MasksRead(be, l, t1);
    StringsRoundTrip(l.skyArrays, t2);
    StringsRoundTrip(l.blockArrays, rest);
  }

  /** Every word that is kept reads the same in both directions. */
  predicate AllPalindromes(data: seq<word>) {
    forall w :: w in Trim(data) ==> IsPalindrome(w)
  }

  lemma SameLengthSameSet(a: seq<word>, b: seq<word>)
    requires |a| == |b|
    ensures Members(a) == Members(b) <==> a == b
  {
    hide Members;
    if Members(a) == Members(b) {
      forall i | 0 <= i < |a| ensures a[i] == b[i] {
        SameMembersSameWords(a, b, i);
      }
    }
  }

  /** The mask that is read has the same members exactly when the buffer is big-endian, or every kept word is a
      byte palindrome. */
  lemma MaskSurvives(be: bool, data: seq<word>)
    ensures Members(Reads(be, Trim(data))) == Members(data) <==> be || AllPalindromes(data)
  {
    hide Trim, Members, IsPalindrome;
    TrimKeepsMembers(data);
    SwappedAllSame(Trim(data));
    SameLengthSameSet(SwappedAll(Trim(data)), Trim(data));
  }

  /** Reading light data consumes exactly their bytes and gives the same arrays. Each mask comes back with the
      same members exactly when the buffer is big-endian, as the writer's is, or every kept word of the mask is
      a byte palindrome. */
  lemma LightRoundTrip(be: bool, l: Light, rest: bytes)
    requires WritableLight(l)
    ensures var p := DecLight(be, EncLight(l) + rest);
            && p.Got? && p.rest == rest
            && p.value.skyArrays == l.skyArrays && p.value.blockArrays == l.blockArrays
            && (Members(p.value.skyMask) == Members(l.skyMask) <==> be || AllPalindromes(l.skyMask))
            && (Members(p.value.blockMask) == Members(l.blockMask) <==> be || AllPalindromes(l.blockMask))
            && (Members(p.value.emptySkyMask) == Members(l.emptySkyMask) <==> be || AllPalindromes(l.emptySkyMask))
            && (Members(p.value.emptyBlockMask) == Members(l.emptyBlockMask)
                <==> be || AllPalindromes(l.emptyBlockMask))
  {
    hide WritableLight, DecLight, EncLight, Members, Reads, Trim, IsPalindrome;
    LightRead(be, l, rest);
    MaskSurvives(be, l.skyMask);
    MaskSurvives(be, l.blockMask);
    MaskSurvives(be, l.emptySkyMask);
    MaskSurvives(be, l.emptyBlockMask);
  }

  // ----- chunk data

  datatype HeightMap = HeightMap(kind: int32, data: seq<int64>)

  datatype BlockEntity = BlockEntity(x: byte, y: int16, z: byte, kind: int32, data: Element)

  datatype Chunk = Chunk(heightMaps: seq<HeightMap>, data: bytes, blockEntities: seq<BlockEntity>)

  function EncHeightMap(be: bool, m: HeightMap): bytes {
    EncVarInt(m.kind) + EncPrefixedArray(Int64Writer(be), m.data)
  }

  function DecHeightMap(be: bool, bs: bytes): Parsed<HeightMap> {
    var (kind, r1) :- DecVarInt(bs);
    var (data, r2) :- DecPrefixedArray(Int64Reader(be), r1);
    Got(HeightMap(kind, data), r2)
  }

  /** The low four bits of each horizontal coordinate share a byte. */
  function PackXZ(x: byte, z: byte): byte {
    x % 16 * 16 + z % 16
  }

  function EncBlockEntity(be: bool, b: BlockEntity): bytes {
    [PackXZ(b.x, b.z)] + (EncInt16(be, b.y) + (EncVarInt(b.kind) + EncElement(be, Root(true), b.data)))
  }

  function DecBlockEntity(be: bool, bs: bytes): Parsed<BlockEntity> {
    var (xz, r1) :- TakeByte(bs);
    var (y, r2) :- DecInt16(be, r1);
    var (kind, r3) :- DecVarInt(r2);
    var (data, r4) :- DecElement(be, Root(true), r3);
    Got(BlockEntity(xz / 16, y, xz % 16, kind, data), r4)
  }

  function HeightMapWriter(be: bool): HeightMap -> bytes {
    m => EncHeightMap(be, m)
  }

  function HeightMapReader(be: bool): bytes -> Parsed<HeightMap> {
    bs => DecHeightMap(be, bs)
  }

  function BlockEntityWriter(be: bool): BlockEntity -> bytes {
    b => EncBlockEntity(be, b)
  }

  function BlockEntityReader(be: bool): bytes -> Parsed<BlockEntity> {
    bs => DecBlockEntity(be, bs)
  }

  /** A loop up to a signed count: a negative one reads nothing. */
  function DecCounted<T>(dec: bytes -> Parsed<T>, bs: bytes): (p: Parsed<seq<T>>) {
    var (n, rest) :- DecVarInt(bs);
    DecArray(dec, if n < 0 then 0 else n, rest)
  }

  /** `writeChunkData`. */
  function EncChunk(be: bool, c: Chunk): bytes {
    EncPrefixedArray(HeightMapWriter(be), c.heightMaps)
    + (EncString(c.data) + EncPrefixedArray(BlockEntityWriter(be), c.blockEntities))
  }

  /** `readChunkData`. */
  function DecChunk(be: bool, bs: bytes): Parsed<Chunk> {
    var (heightMaps, r1) :- DecCounted(HeightMapReader(be), bs);
    var (data, r2) :- DecString(r1);
    var (blockEntities, r3) :- DecCounted(BlockEntityReader(be), r2);
    Got(Chunk(heightMaps, data, blockEntities), r3)
  }

  /** The block entity that the bytes of `b` carry. */
  function Carried(b: BlockEntity): BlockEntity {
    b.(x := b.x % 16, z := b.z % 16, data := EraseElement(false, b.data))
  }

  function AllCarried(bs: seq<BlockEntity>): (r: seq<BlockEntity>)
    ensures |r| == |bs|
    ensures forall i :: 0 <= i < |bs| ==> r[i] == Carried(bs[i])
  {
    if bs == [] then [] else [Carried(bs[0])] + AllCarried(bs[1..])
  }

  predicate WritableChunk(c: Chunk) {
    && |c.heightMaps| < TWO_31 && |c.data| < TWO_31 && |c.blockEntities| < TWO_31
    && (forall m :: m in c.heightMaps ==> |m.data| < TWO_31)
    && (forall b :: b in c.blockEntities ==> WellFormedRoot(true, b.data))
  }

  lemma HeightMapRoundTrip(be: bool, m: HeightMap, rest: bytes)
    requires |m.data| < TWO_31
    ensures DecHeightMap(be, EncHeightMap(be, m) + rest) == Got(m, rest)
  {
    hide EncVarInt, DecVarInt, EncPrefixedArray, DecPrefixedArray, Int64Writer, Int64Reader;
    var t := EncPrefixedArray(Int64Writer(be), m.data) + rest;
    assert EncHeightMap(be, m) + rest == EncVarInt(m.kind) + t;
    VarIntRoundTrip(m.kind, t);
    IntInverses(be);
    PrefixedArrayRoundTrip(Int64Writer(be), Int64Reader(be), m.data, rest);
  }

  lemma Int16RoundTrip(v: int16, rest: bytes)
    ensures DecInt16(true, EncInt16(true, v) + rest) == Got(v, rest)
  {
    SignedRoundTrip(true, rest);
  }

  /** The coordinates are kept modulo 16. */
  lemma BlockEntityRoundTrip(b: BlockEntity, rest: bytes)
    requires WellFormedRoot(true, b.data)
    ensures DecBlockEntity(true, EncBlockEntity(true, b) + rest) == Got(Carried(b), rest)
  {
    hide EncVarInt, DecVarInt, EncInt16, DecInt16, EncElement, DecElement, EraseElement, WellFormed;
    var t3 := EncElement(true, Root(true), b.data) + rest;
    var t2 := EncVarInt(b.kind) + t3;
    var t1 := EncInt16(true, b.y) + t2;
    var bs := EncBlockEntity(true, b) + rest;
    assert bs == [PackXZ(b.x, b.z)] + t1;
    assert bs[0] == PackXZ(b.x, b.z) && bs[1..] == t1;
    Int16RoundTrip(b.y, t2);
    VarIntRoundTrip(b.kind, t3);
    ElementRoundTrip(true, Root(true), b.data, rest);
  }

  lemma {:induction false} BlockEntitiesRoundTrip(bs: seq<BlockEntity>, rest: bytes)
    requires forall b :: b in bs ==> WellFormedRoot(true, b.data)
    ensures DecArray(BlockEntityReader(true), |bs|, EncArray(BlockEntityWriter(true), bs) + rest)
            == Got(AllCarried(bs), rest)
  {
    hide EncBlockEntity, DecBlockEntity, WellFormedRoot;
    var enc, dec := BlockEntityWriter(true), BlockEntityReader(true);
    if bs == [] {
      assert EncArray(enc, bs) + rest == rest;
    } else {
      var t := EncArray(enc, bs[1..]) + rest;
      assert EncArray(enc, bs) + rest == EncBlockEntity(true, bs[0]) + t;
      assert bs[0] in bs;
      BlockEntityRoundTrip(bs[0], t);
      BlockEntitiesRoundTrip(bs[1..], rest);
    }
  }

  lemma CountedRead<T>(enc: T -> bytes, dec: bytes -> Parsed<T>, xs: seq<T>, ys: seq<T>, rest: bytes)
    requires |xs| < TWO_31 && DecArray(dec, |xs|, EncArray(enc, xs) + rest) == Got(ys, rest)
    ensures DecCounted(dec, EncPrefixedArray(enc, xs) + rest) == Got(ys, rest)
  {
    hide EncPrefixedArray, DecVarInt, EncArray, DecArray;
    PrefixedRead(enc, dec, xs, ys, rest);
  }

  lemma HeightMapsRoundTrip(be: bool, ms: seq<HeightMap>, rest: bytes)
    requires |ms| < TWO_31 && forall m :: m in ms ==> |m.data| < TWO_31
    ensures DecCounted(HeightMapReader(be), EncPrefixedArray(HeightMapWriter(be), ms) + rest) == Got(ms, rest)
  {
    hide EncHeightMap, DecHeightMap, EncPrefixedArray, DecCounted, EncArray, DecArray;
    var enc, dec := HeightMapWriter(be), HeightMapReader(be);
    forall i | 0 <= i < |ms| ensures Inverse(enc, dec, ms[i]) {
      forall r ensures dec(enc(ms[i]) + r) == Got(ms[i], r) {
        HeightMapRoundTrip(be, ms[i], r);
      }
    }
    ArrayRoundTrip(enc, dec, ms, rest);
    CountedRead(enc, dec, ms, ms, rest);
  }

  lemma CountedEntitiesRoundTrip(bs: seq<BlockEntity>, rest: bytes)
    requires |bs| < TWO_31 && forall b :: b in bs ==> WellFormedRoot(true, b.data)
    ensures DecCounted(BlockEntityReader(true), EncPrefixedArray(BlockEntityWriter(true), bs) + rest)
            == Got(AllCarried(bs), rest)
  {
    hide *;
    BlockEntitiesRoundTrip(bs, rest);
    CountedRead(BlockEntityWriter(true), BlockEntityReader(true), bs, AllCarried(bs), rest);
  }

  predicate InChunk(b: BlockEntity) {
    b.x < 16 && b.z < 16
  }

  predicate SamePlace(a: BlockEntity, b: BlockEntity) {
    a.x == b.x && a.z == b.z
  }

  lemma ChunkRead(c: Chunk, rest: bytes)
    requires WritableChunk(c)
    ensures DecChunk(true, EncChunk(true, c) + rest) == Got(c.(blockEntities := AllCarried(c.blockEntities)), rest)
  {
    hide HeightMapWriter, HeightMapReader, BlockEntityWriter, BlockEntityReader, EncPrefixedArray, DecCounted, EncString,
         DecString, WellFormedRoot, AllCarried;
    var t2 := EncPrefixedArray(BlockEntityWriter(true), c.blockEntities) + rest;
    var t1 := EncString(c.data) + t2;
    assert EncChunk(true, c) + rest == EncPrefixedArray(HeightMapWriter(true), c.heightMaps) + t1;
    HeightMapsRoundTrip(true, c.heightMaps, t1);
    StringRoundTrip(c.data, t2);
    CountedEntitiesRoundTrip(c.blockEntities, rest);
  }

  lemma CarriedPlace(b: BlockEntity)
    ensures SamePlace(Carried(b), b) <==> InChunk(b)
  {
    hide EraseElement;
  }

  lemma CarriedPlaces(bs: seq<BlockEntity>)
    ensures (forall i :: 0 <= i < |bs| ==> SamePlace(AllCarried(bs)[i], bs[i]))
            <==> forall i :: 0 <= i < |bs| ==> InChunk(bs[i])
  {
    hide Carried, SamePlace, InChunk;
    forall i | 0 <= i < |bs| ensures SamePlace(AllCarried(bs)[i], bs[i]) <==> InChunk(bs[i]) {
      CarriedPlace(bs[i]);
    }
  }

  /** Chunk data survive a big-endian buffer with exact consumption. The chunk comes back as it was, up to
      what NBT erases, exactly when all coordinates are below 16. */
  lemma ChunkRoundTrip(c: Chunk, rest: bytes)
    requires WritableChunk(c)
    ensures var p := DecChunk(true, EncChunk(true, c) + rest);
            && p == Got(c.(blockEntities := AllCarried(c.blockEntities)), rest)
            && ((forall i :: 0 <= i < |c.blockEntities| ==> SamePlace(p.value.blockEntities[i], c.blockEntities[i]))
                <==> forall i :: 0 <= i < |c.blockEntities| ==> InChunk(c.blockEntities[i]))
  {
    hide DecChunk, EncChunk, WritableChunk, SamePlace, InChunk, AllCarried;
    ChunkRead(c, rest);
    CarriedPlaces(c.blockEntities);
  }
}
