/**
  The bytes of bit sets, light data and chunk data, written out: where every member of a set stands, and the
  order of the fields.
 */
module WorldBytes {
  import opened Bytes
  import opened Numeric
  import opened VarNumeric
  import opened Arrays
  import opened NumberBytes
  import opened Bits
  import opened WordNumbers
  import opened WordSets
  import opened Nbt
  import opened WorldData

  // ----- bits

  /** Bit `k` of a word weighs two to the `k`: these masks, and doubling between them. */
  lemma MaskValues(k: nat)
    ensures Mask(0) == 1 && Mask(k + 1) == Mask(k) << 1
    ensures Mask(8) == 0x100 && Mask(16) == 0x1_0000 && Mask(24) == 0x100_0000 && Mask(32) == 0x1_0000_0000
    ensures Mask(40) == 0x100_0000_0000 && Mask(48) == 0x1_0000_0000_0000 && Mask(56) == 0x100_0000_0000_0000
    ensures Mask(63) == 0x8000_0000_0000_0000
  {
    assert Mask(8) == 0x100;
    assert Mask(16) == 0x1_0000;
    assert Mask(24) == 0x100_0000;
    assert Mask(32) == 0x1_0000_0000;
    assert Mask(40) == 0x100_0000_0000;
    assert Mask(48) == 0x1_0000_0000_0000;
    assert Mask(56) == 0x100_0000_0000_0000;
  }

  /** A quotient changes by `c` when `c` times the divisor is added. */
  lemma QuotientOfSum(a: nat, b: nat, c: nat)
    requires b > 0
    ensures (a + c * b) / b == a / b + c
  {
    var q, r := a / b, a % b;
    assert (q + c) * b == q * b + c * b;
    QuotientIs(a + c * b, b, q + c, r);
  }

  lemma Regroup(t: nat, h: nat, p: nat)
    ensures t * (2 * h * p) == 2 * (t * h) * p
  {
  }

  lemma EvenAdded(q: nat, e: nat)
    ensures (q + 2 * e) % 2 == q % 2
  {
  }

  lemma Pow2Above(k: nat, n: nat)
    requires k < n
    ensures Pow2(n) == 2 * Pow2(n - 1 - k) * Pow2(k)
  {
    Pow2Add(n - k, k);
  }

  /** Multiples of a higher power of two do not change a binary digit. */
  lemma DigitBelow(a: nat, t: nat, k: nat, n: nat)
    requires k < n
    ensures (a + t * Pow2(n)) / Pow2(k) % 2 == a / Pow2(k) % 2
  {
    hide Pow2;
    var h, p := Pow2(n - 1 - k), Pow2(k);
    Pow2Above(k, n);
    Regroup(t, h, p);
    var e := t * h;
    QuotientOfSum(a, p, 2 * e);
    EvenAdded(a / p, e);
  }

  lemma TopDigit(low: nat, p: nat)
    requires low < p
    ensures low / p == 0 && (low + p) / p == 1
  {
    QuotientIs(low, p, 0, low);
    QuotientIs(low + p, p, 1, low);
  }

  /** The binary digits of the value of a word are its bits. */
  lemma {:induction false} DigitOfValue(w: word, n: nat, k: nat)
    requires k < n
    ensures ValueOf(w, n) / Pow2(k) % 2 == 1 <==> Bit(w, k)
    decreases n
  {
    hide Bit, Pow2;
    var low := ValueOf(w, n - 1);
    assert ValueOf(w, n) == if Bit(w, n - 1) then low + Pow2(n - 1) else low;
    if k == n - 1 {
      TopDigit(low, Pow2(k));
    } else {
      hide ValueOf;
      DigitOfValue(w, n - 1, k);
      DigitBelow(low, 1, k, n - 1);
    }
  }

  lemma {:induction false} RangeIsPow2(n: nat)
    ensures Range(n) == Pow2(8 * n)
  {
    if n == 0 {
    } else {
      RangeIsPow2(n - 1);
      assert Pow2(8) == 256;
      Pow2Add(8, 8 * (n - 1));
    }
  }

  lemma DigitOfLowByte(q: nat, m: nat)
    requires m < 8
    ensures q % 256 / Pow2(m) % 2 == q / Pow2(m) % 2
  {
    assert Pow2(8) == 256;
    hide Pow2;
    DigitBelow(q % 256, q / 256, m, 8);
  }

  /** Binary digit `m` of byte `j` of a number. */
  lemma DigitOfByte(v: nat, j: nat, m: nat)
    requires m < 8
    ensures v / Range(j) % 256 / Pow2(m) % 2 == v / Pow2(8 * j + m) % 2
  {
    hide Range, Pow2;
    RangeIsPow2(j);
    Pow2Add(8 * j, m);
    DivideTwice(v, Range(j), Pow2(m));
    DigitOfLowByte(v / Range(j), m);
  }

  /** Bit `k` of a word is bit `k % 8` of byte `k / 8` from its low end. */
  lemma WordBits(w: word, k: nat)
    requires k < 64
    ensures EncWord(true, w)[7 - k / 8] / Pow2(k % 8) % 2 == 1 <==> Bit(w, k)
    ensures EncWord(false, w)[k / 8] / Pow2(k % 8) % 2 == 1 <==> Bit(w, k)
  {
    hide Bit, ValueOf, EncNum, Range, Pow2;
    var v, j, m := ValueOf(w, 64), k / 8, k % 8;
    NumByteAt(8, v, 7 - j);
    NumByteAt(8, v, j);
    DigitOfByte(v, j, m);
    DigitOfValue(w, 64, k);
    assert 8 * j + m == k;
  }

  // ----- bit sets

  lemma {:induction false} WordByteAt(be: bool, xs: seq<word>, i: nat, j: nat)
    requires i < |xs| && j < 8
    ensures |EncArray(WordWriter(be), xs)| == 8 * |xs|
    ensures EncArray(WordWriter(be), xs)[8 * i + j] == EncWord(be, xs[i])[j]
    decreases |xs|
  {
    hide ValueOf;
    if |xs| == 1 {
      assert EncArray(WordWriter(be), xs[1..]) == [];
    } else {
      WordByteAt(be, xs[1..], if i == 0 then 0 else i - 1, j);
    }
    assert EncArray(WordWriter(be), xs) == EncWord(be, xs[0]) + EncArray(WordWriter(be), xs[1..]);
  }

  /** The byte of a bit set of `n` words that holds position `p`: byte `p / 8` of the words, each word counted from
      its low end. */
  function ByteOf(be: bool, p: nat): nat {
    8 * (p / 64) + if be then 7 - p % 64 / 8 else p % 64 / 8
  }

  lemma SplitPosition(p: nat)
    ensures p == 64 * (p / 64) + p % 64 && p % 64 % 8 == p % 8 && p % 64 / 8 < 8
  {
  }

  lemma MemberBit(be: bool, xs: seq<word>, p: nat)
    requires p < 64 * |xs|
    ensures |EncArray(WordWriter(be), xs)| == 8 * |xs| && ByteOf(be, p) < 8 * |xs|
    ensures EncArray(WordWriter(be), xs)[ByteOf(be, p)] / Pow2(p % 8) % 2 == 1 <==> p in Members(xs)
  {
    hide Members, Has, Bit, EncWord, EncArray, Pow2, WordWriter;
    SplitPosition(p);
    var i, k := p / 64, p % 64;
    WordByteAt(be, xs, i, if be then 7 - k / 8 else k / 8);
    WordBits(xs[i], k);
    HasAt(xs, i, k);
    HasByWord(xs, 64 * i + k);
  }

  /** A bit set is the number of its words and the words: a position is in the set exactly when bit `p % 8` of its
      byte is set, in either byte order. */
  lemma BitSetBytes(be: bool, data: seq<word>, p: nat)
    requires p < 64 * |Trim(data)| && |Trim(data)| < TWO_31
    ensures var bs, n := EncBitSet(be, data), |Trim(data)|;
            var k := |VarBytes(n)|;
            && |bs| == k + 8 * n && bs[..k] == VarBytes(n) && ByteOf(be, p) < 8 * n
            && (bs[k + ByteOf(be, p)] / Pow2(p % 8) % 2 == 1 <==> p in Members(data))
  {
    hide Trim, Members, EncArray, EncPrefixedArray, VarBytes, Pow2, WordWriter, ByteOf;
    var xs := Trim(data);
    CountInFront(WordWriter(be), xs);
    MemberBit(be, xs, p);
    TrimKeepsMembers(data);
  }

  /** No word behind the last one with a member is written. */
  lemma BitSetIsShort(data: seq<word>, h: nat)
    requires |data| < MAX_WORDS && IsMaximum(Members(data), h)
    ensures |Trim(data)| == if h == NPOS then 0 else h / 64 + 1
  {
    hide Members, Trim, Bit, Has;
    TrimIsLongs(data, h);
    MembersBounded(data);
  }

  lemma OctetMaskValues()
    ensures OctetMask(0) == 0x01 && OctetMask(1) == 0x02 && OctetMask(2) == 0x04 && OctetMask(3) == 0x08
    ensures OctetMask(4) == 0x10 && OctetMask(5) == 0x20 && OctetMask(6) == 0x40 && OctetMask(7) == 0x80
  {
    assert OctetMask(3) == 0x08;
  }

  predicate Meet(x: octet, y: octet) {
    x & y != 0
  }

  lemma WideMeet(x: octet, y: octet)
    ensures And(Wide(x), Wide(y)) != 0 <==> Meet(x, y)
  {
  }

  /** A fixed bit set: position `p` is bit `p % 8` of byte `p / 8`, and the bits are 0x01, 0x02, ..., 0x80. */
  lemma OctetBits(octets: seq<octet>, p: nat)
    requires p < 8 * |octets|
    ensures p in OctetMembers(octets) <==> Meet(octets[p / 8], OctetMask(p % 8))
  {
    hide Mask, OctetMask, Wide, And, Meet;
    WideMask(p % 8);
    WideMeet(octets[p / 8], OctetMask(p % 8));
  }

  // ----- light data

  /** Light data are the four masks, sky before block and full before empty, then the sky arrays, then the block
      arrays, all high byte first; arrays are counted texts behind their number. */
  lemma LightBytes(l: Light, x: bytes)
    requires |l.skyArrays| < TWO_31 && |l.blockArrays| < TWO_31 && |x| < TWO_31
    ensures EncLight(l)
            == EncBitSet(true, l.skyMask) + (EncBitSet(true, l.blockMask)
               + (EncBitSet(true, l.emptySkyMask) + (EncBitSet(true, l.emptyBlockMask)
               + ((VarBytes(|l.skyArrays|) + EncArray(StringWriter(), l.skyArrays))
               + (VarBytes(|l.blockArrays|) + EncArray(StringWriter(), l.blockArrays))))))
    ensures EncArray(StringWriter(), l.skyArrays + [x]) == EncArray(StringWriter(), l.skyArrays) + (VarBytes(|x|) + x)
  {
    hide EncBitSet, EncArray, EncPrefixedArray, VarBytes, EncString;
    CountInFront(StringWriter(), l.skyArrays);
    CountInFront(StringWriter(), l.blockArrays);
    OneMoreElement(StringWriter(), l.skyArrays, x);
    TextBytes(x);
  }

  // ----- chunk data

  /** A block entity: a byte whose high four bits are those of `x` and whose low four are those of `z`, the height
      in 16 bits, the type, and the data as a network root. */
  lemma BlockEntityBytes(be: bool, b: BlockEntity)
    ensures var bs := EncBlockEntity(be, b);
            && bs != [] && bs[0] / 16 == b.x % 16 && bs[0] % 16 == b.z % 16
            && bs[1..] == EncInt16(be, b.y) + (EncVarInt(b.kind) + EncElement(be, Root(true), b.data))
  {
    hide EncInt16, EncVarInt, EncElement;
  }

  /** A height map: its type, the number of its words, and the words in the byte order of the buffer. */
  lemma HeightMapBytes(be: bool, m: HeightMap, v: int64)
    requires |m.data| < TWO_31
    ensures EncHeightMap(be, m) == EncVarInt(m.kind) + (VarBytes(|m.data|) + EncArray(Int64Writer(be), m.data))
    ensures EncArray(Int64Writer(be), m.data + [v]) == EncArray(Int64Writer(be), m.data) + EncInt64(be, v)
  {
    hide EncVarInt, EncArray, VarBytes, EncPrefixedArray, EncInt64;
    CountInFront(Int64Writer(be), m.data);
    OneMoreElement(Int64Writer(be), m.data, v);
  }

  /** Chunk data: the counted height maps, the counted bytes, and the counted block entities, each in order. */
  lemma ChunkBytes(be: bool, c: Chunk, m: HeightMap, b: BlockEntity)
    requires |c.heightMaps| < TWO_31 && |c.data| < TWO_31 && |c.blockEntities| < TWO_31
    ensures EncChunk(be, c)
            == (VarBytes(|c.heightMaps|) + EncArray(HeightMapWriter(be), c.heightMaps))
               + ((VarBytes(|c.data|) + c.data)
                  + (VarBytes(|c.blockEntities|) + EncArray(BlockEntityWriter(be), c.blockEntities)))
    ensures EncArray(HeightMapWriter(be), c.heightMaps + [m])
            == EncArray(HeightMapWriter(be), c.heightMaps) + EncHeightMap(be, m)
    ensures EncArray(BlockEntityWriter(be), c.blockEntities + [b])
            == EncArray(BlockEntityWriter(be), c.blockEntities) + EncBlockEntity(be, b)
  {
    hide EncArray, VarBytes, EncPrefixedArray, EncHeightMap, EncBlockEntity, EncString;
    CountInFront(HeightMapWriter(be), c.heightMaps);
    CountInFront(BlockEntityWriter(be), c.blockEntities);
    TextBytes(c.data);
    OneMoreElement(HeightMapWriter(be), c.heightMaps, m);
    OneMoreElement(BlockEntityWriter(be), c.blockEntities, b);
  }

  /** A negative number of height maps or of block entities reads as none. */
  lemma NegativeCountReadsNothing<T>(dec: bytes -> Parsed<T>, n: int32, rest: bytes)
    requires n < 0
    ensures DecCounted(dec, EncVarInt(n) + rest) == Got([], rest)
  {
    hide EncVarInt, DecVarInt;
    VarIntRoundTrip(n, rest);
  }
}
