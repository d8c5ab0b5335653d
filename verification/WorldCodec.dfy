/**
  The readers and writers of bit sets, light data and chunk data step by step.
 */
module WorldCodec {
  import opened Bytes
  import opened BlockBuffer
  import opened Numeric
  import opened VarNumeric
  import opened Arrays
  import opened Buffers
  import opened Bits
  import opened WordNumbers
  import opened WordSets
  import opened BitSets
  import opened Nbt
  import opened NbtCodec
  import opened WorldData

  // ----- bit sets

  method WriteWords(buffer: ByteBuffer, xs: seq<word>)
    requires buffer.Valid()
    modifies buffer.internal
    ensures buffer.Wrote(EncArray(WordWriter(buffer.isBigEndian), xs))
  {
    hide Holds, EncNum, ValueOf;
    for i := 0 to |xs|
      invariant buffer.Wrote(EncArray(WordWriter(buffer.isBigEndian), xs[..i]))
    {
      EncArraySnoc(WordWriter(buffer.isBigEndian), xs, i);
      buffer.WriteNumeric(8, ValueOf(xs[i], 64));
    }
    assert xs[..|xs|] == xs;
  }

  method WriteBitSet(buffer: ByteBuffer, bitSet: BitSet)
    requires buffer.Valid() && bitSet.Valid()
    modifies buffer.internal
    ensures buffer.Wrote(EncBitSet(buffer.isBigEndian, bitSet.data))
  {
    hide Holds, EncVarInt, EncArray, Members, IsMaximum, Trim;
    var longs := bitSet.ToLongArray();
    TrimIsLongs(bitSet.data, bitSet.highestSet);
    buffer.WriteVarInt(SizeAsInt(|longs|));
    WriteWords(buffer, longs);
  }

  method ReadWord(buffer: ByteBuffer) returns (r: Option<word>)
    requires buffer.Valid()
    modifies buffer.internal
    ensures buffer.OnlyRead() && Delivers(DecWord(buffer.isBigEndian, old(buffer.Unread())), r, buffer.Unread())
  {
    hide Holds, DecNum, WordOf;
    var v :- buffer.ReadNumeric(8);
    r := Some(WordOf(v, 64));
  }

  method ReadWords(buffer: ByteBuffer, length: nat) returns (r: Option<seq<word>>)
    requires buffer.Valid()
    modifies buffer.internal
    ensures buffer.OnlyRead()
    ensures Delivers(DecArray(WordReader(buffer.isBigEndian), length, old(buffer.Unread())), r, buffer.Unread())
  {
    hide Holds, DecWord, DecArray, Prepend;
    ghost var dec := WordReader(buffer.isBigEndian);
    var result: seq<word> := [];
    for i := 0 to length
      invariant buffer.OnlyRead() && dec == WordReader(buffer.isBigEndian)
      invariant DecArray(dec, length, old(buffer.Unread()))
                == Prepend(result, DecArray(dec, length - i, buffer.Unread()))
    {
      PrependStep(dec, result, length - i, buffer.Unread());
      var w :- ReadWord(buffer);
      result := result + [w];
    }
    PrependDone(dec, result, buffer.Unread());
    r := Some(result);
  }

  method ReadBitSet(buffer: ByteBuffer) returns (r: Option<BitSet>)
    requires buffer.Valid()
    modifies buffer.internal
    ensures buffer.OnlyRead()
    ensures var p := DecBitSet(buffer.isBigEndian, old(buffer.Unread()));
            if p.Fail? then r.None?
            else r.Some? && fresh(r.value) && r.value.Valid() && r.value.data == p.value && buffer.Unread() == p.rest
  {
    hide Holds, DecVarInt, DecArray, Members, IsMaximum, WordReader;
    var n :- buffer.ReadVarInt();
    if n < 0 {
      return None;
    }
    var longs :- ReadWords(buffer, n);
    var bitSet := BitSet.FromLongArray(longs);
    r := Some(bitSet);
  }

  function OctetBytes(octets: seq<octet>): (bs: bytes)
    ensures |bs| == |octets|
  {
    seq(|octets|, i requires 0 <= i < |octets| => octets[i] as int)
  }

  function Octets(bs: bytes): (octets: seq<octet>)
    ensures |octets| == |bs|
  {
    seq(|bs|, i requires 0 <= i < |bs| => bs[i] as octet)
  }

  /** `writeFixedBitSet`: the bytes of `toByteArray`, one after the other. */
  method WriteFixedBitSet(buffer: ByteBuffer, bitSet: BitSet) returns (ghost octets: seq<octet>)
    requires buffer.Valid() && bitSet.Valid()
    modifies buffer.internal
    ensures IsByteForm(bitSet.Elems(), bitSet.highestSet, octets)
    ensures buffer.Wrote(OctetBytes(octets))
  {
    hide Holds, Members, IsMaximum, IsByteForm;
    var data := bitSet.ToByteArray();
    octets := data;
    for i := 0 to |data|
      invariant buffer.Wrote(OctetBytes(octets[..i]))
    {
      assert OctetBytes(octets[..i + 1]) == OctetBytes(octets[..i]) + [octets[i] as int];
      buffer.WriteByte(data[i] as int);
    }
    assert octets[..|octets|] == octets;
  }

  method ReadFixedBitSet(buffer: ByteBuffer, length: nat) returns (r: Option<BitSet>)
    requires buffer.Valid() && length < 8 * (MAX_WORDS - 1)
    modifies buffer.internal
    ensures buffer.OnlyRead()
    ensures if length > |old(buffer.Unread())| then r.None?
            else && r.Some? && fresh(r.value) && r.value.Valid()
                 && r.value.Elems() == OctetMembers(Octets(old(buffer.Unread())[..length]))
                 && buffer.Unread() == old(buffer.Unread())[length..]
  {
    hide Holds, Members, IsMaximum, OctetMembers;
    var octets: seq<octet> := [];
    for i := 0 to length
      invariant buffer.OnlyRead() && i <= |old(buffer.Unread())|
      invariant octets == Octets(old(buffer.Unread())[..i]) && buffer.Unread() == old(buffer.Unread())[i..]
    {
      assert buffer.Unread() != [] ==> buffer.Unread()[0] == old(buffer.Unread())[i];
      var b :- buffer.ReadByte();
      octets := octets + [b as octet];
    }
    var bitSet := BitSet.FromByteArray(octets);
    r := Some(bitSet);
  }

  lemma OctetBack(x: octet)
    ensures (x as int) as octet == x
  {
  }

  lemma OctetsOfBytes(octets: seq<octet>)
    ensures Octets(OctetBytes(octets)) == octets
  {
    forall i | 0 <= i < |octets| ensures Octets(OctetBytes(octets))[i] == octets[i] {
      OctetBack(octets[i]);
    }
  }

  /** Writing a fixed bit set and reading as many bytes back gives the same set exactly when it is empty or
      its highest index is not a multiple of 8; otherwise the highest element is lost. */
  lemma FixedBitSetRoundTrip(s: set<nat>, h: nat, octets: seq<octet>, rest: bytes)
    requires IsMaximum(s, h) && IsByteForm(s, h, octets) && forall p :: p in s ==> p < NPOS
    ensures var back := OctetMembers(Octets((OctetBytes(octets) + rest)[..|octets|]));
            && (back == s <==> s == {} || h % 8 != 0)
            && (s != {} && h % 8 == 0 ==> back == s - {h})
  {
    hide IsMaximum, IsByteForm, OctetMembers;
    assert (OctetBytes(octets) + rest)[..|octets|] == OctetBytes(octets);
    OctetsOfBytes(octets);
    ByteRoundTrip(s, h, octets);
  }

  // ----- light data

  datatype LightData = LightData(skyLightMask: BitSet, blockLightMask: BitSet, emptySkyLightMask: BitSet,
                                 emptyBlockLightMask: BitSet, skyLightArrays: seq<bytes>,
                                 blockLightArrays: seq<bytes>) {
    ghost function Masks(): set<object> {
      {skyLightMask, blockLightMask, emptySkyLightMask, emptyBlockLightMask}
    }

    ghost predicate Valid()
      reads Masks()
    {
      skyLightMask.Valid() && blockLightMask.Valid() && emptySkyLightMask.Valid() && emptyBlockLightMask.Valid()
    }

    ghost function View(): Light
      reads Masks()
    {
      Light(skyLightMask.data, blockLightMask.data, emptySkyLightMask.data, emptyBlockLightMask.data,
            skyLightArrays, blockLightArrays)
    }
  }

  method WriteStrings(buffer: ByteBuffer, xs: seq<bytes>)
    requires buffer.Valid()
    modifies buffer.internal
    ensures buffer.Wrote(EncPrefixedArray(StringWriter(), xs))
  {
    hide Holds, EncVarInt, EncString;
    buffer.WriteVarInt(SizeAsInt(|xs|));
    for i := 0 to |xs|
      invariant buffer.Wrote(EncVarInt(SizeAsInt(|xs|)) + EncArray(StringWriter(), xs[..i]))
    {
      EncArraySnoc(StringWriter(), xs, i);
      buffer.WriteString(xs[i]);
    }
    assert xs[..|xs|] == xs;
  }

  method ReadStrings(buffer: ByteBuffer) returns (r: Option<seq<bytes>>)
    requires buffer.Valid()
    modifies buffer.internal
    ensures buffer.OnlyRead()
    ensures Delivers(DecPrefixedArray(StringReader(), old(buffer.Unread())), r, buffer.Unread())
  {
    hide Holds, DecVarInt, DecString, DecArray, Prepend;
    ghost var dec := StringReader();
    var n :- buffer.ReadVarInt();
    if n < 0 {
      return None;
    }
    ghost var start := buffer.Unread();
    var result: seq<bytes> := [];
    for i := 0 to n
      invariant buffer.OnlyRead() && dec == StringReader()
      invariant DecArray(dec, n, start) == Prepend(result, DecArray(dec, n - i, buffer.Unread()))
    {
      PrependStep(dec, result, n - i, buffer.Unread());
      var x :- buffer.ReadString();
      result := result + [x];
    }
    PrependDone(dec, result, buffer.Unread());
    r := Some(result);
  }

  method WriteMasks(buffer: ByteBuffer, l: LightData)
    requires buffer.Valid() && buffer.isBigEndian && l.Valid()
    modifies buffer.internal
    ensures buffer.Wrote(EncMasks(true, l.View()))
  {
    hide Holds, EncBitSet, Members, IsMaximum;
    WriteBitSet(buffer, l.skyLightMask);
    WriteBitSet(buffer, l.blockLightMask);
    WriteBitSet(buffer, l.emptySkyLightMask);
    WriteBitSet(buffer, l.emptyBlockLightMask);
  }

  /** `LightData::toBytes`. */
  method LightToBytes(l: LightData) returns (data: bytes)
    requires l.Valid()
    ensures data == EncLight(l.View())
  {
    hide Holds, EncMasks, EncPrefixedArray, Members, IsMaximum;
    var buffer := new ByteBuffer();
    WriteMasks(buffer, l);
    WriteStrings(buffer, l.skyLightArrays);
    WriteStrings(buffer, l.blockLightArrays);
    data := buffer.GetBytes();
  }

  method WriteLightData(buffer: ByteBuffer, l: LightData)
    requires buffer.Valid() && l.Valid()
    modifies buffer.internal
    ensures buffer.Wrote(EncLight(l.View()))
  {
    hide Holds, EncLight;
    var data := LightToBytes(l);
    buffer.WriteBytes(data);
  }

  method ReadLightData(buffer: ByteBuffer) returns (r: Option<LightData>)
    requires buffer.Valid()
    modifies buffer.internal
    ensures buffer.OnlyRead()
    ensures var p := DecLight(buffer.isBigEndian, old(buffer.Unread()));
            if p.Fail? then r.None?
            else r.Some? && fresh(r.value.Masks()) && r.value.Valid() && r.value.View() == p.value
                 && buffer.Unread() == p.rest
  {
    hide Holds, DecBitSet, DecPrefixedArray, Members, IsMaximum;
    var sky :- ReadBitSet(buffer);
    var block :- ReadBitSet(buffer);
    var emptySky :- ReadBitSet(buffer);
    var emptyBlock :- ReadBitSet(buffer);
    var skyArrays :- ReadStrings(buffer);
    var blockArrays :- ReadStrings(buffer);
    r := Some(LightData(sky, block, emptySky, emptyBlock, skyArrays, blockArrays));
  }

  // ----- chunk data

  method WriteHeightMap(buffer: ByteBuffer, m: HeightMap)
    requires buffer.Valid()
    modifies buffer.internal
    ensures buffer.Wrote(EncHeightMap(buffer.isBigEndian, m))
  {
    hide Holds, EncVarInt, EncArray;
    buffer.WriteVarInt(m.kind);
    buffer.WriteVarInt(SizeAsInt(|m.data|));
    buffer.WriteInt64Array(m.data);
  }

  method WriteBlockEntity(buffer: ByteBuffer, b: BlockEntity)
    requires buffer.Valid()
    modifies buffer.internal
    ensures buffer.Wrote(EncBlockEntity(buffer.isBigEndian, b))
  {
    hide Holds, EncVarInt, EncNum, EncElement;
    buffer.WriteByte(PackXZ(b.x, b.z));
    buffer.WriteNumeric(2, ToUnsigned(b.y, TWO_16));
    buffer.WriteVarInt(b.kind);
    WriteNBTElement(buffer, b.data);
  }

  method WriteHeightMaps(buffer: ByteBuffer, ms: seq<HeightMap>)
    requires buffer.Valid()
    modifies buffer.internal
    ensures buffer.Wrote(EncPrefixedArray(HeightMapWriter(buffer.isBigEndian), ms))
  {
    hide Holds, EncVarInt, EncHeightMap;
    ghost var enc := HeightMapWriter(buffer.isBigEndian);
    buffer.WriteVarInt(SizeAsInt(|ms|));
    for i := 0 to |ms|
      invariant buffer.Wrote(EncVarInt(SizeAsInt(|ms|)) + EncArray(enc, ms[..i]))
    {
      EncArraySnoc(enc, ms, i);
      WriteHeightMap(buffer, ms[i]);
    }
    assert ms[..|ms|] == ms;
  }

  method WriteBlockEntities(buffer: ByteBuffer, bs: seq<BlockEntity>)
    requires buffer.Valid()
    modifies buffer.internal
    ensures buffer.Wrote(EncPrefixedArray(BlockEntityWriter(buffer.isBigEndian), bs))
  {
    hide Holds, EncVarInt, EncBlockEntity;
    ghost var enc := BlockEntityWriter(buffer.isBigEndian);
    buffer.WriteVarInt(SizeAsInt(|bs|));
    for i := 0 to |bs|
      invariant buffer.Wrote(EncVarInt(SizeAsInt(|bs|)) + EncArray(enc, bs[..i]))
    {
      EncArraySnoc(enc, bs, i);
      WriteBlockEntity(buffer, bs[i]);
    }
    assert bs[..|bs|] == bs;
  }

  method WriteChunkData(buffer: ByteBuffer, c: Chunk)
    requires buffer.Valid()
    modifies buffer.internal
    ensures buffer.Wrote(EncChunk(buffer.isBigEndian, c))
  {
    hide Holds, EncPrefixedArray, EncString;
    WriteHeightMaps(buffer, c.heightMaps);
    buffer.WriteString(c.data);
    WriteBlockEntities(buffer, c.blockEntities);
  }

  method ReadHeightMap(buffer: ByteBuffer) returns (r: Option<HeightMap>)
    requires buffer.Valid()
    modifies buffer.internal
    ensures buffer.OnlyRead()
    ensures Delivers(DecHeightMap(buffer.isBigEndian, old(buffer.Unread())), r, buffer.Unread())
  {
    hide Holds, DecVarInt, DecArray;
    var kind :- buffer.ReadVarInt();
    var n :- buffer.ReadVarInt();
    if n < 0 {
      return None;
    }
    var data :- buffer.ReadInt64Array(n);
    r := Some(HeightMap(kind, data));
  }

  method ReadBlockEntity(buffer: ByteBuffer) returns (r: Option<BlockEntity>)
    requires buffer.Valid()
    modifies buffer.internal
    ensures buffer.OnlyRead()
    ensures Delivers(DecBlockEntity(buffer.isBigEndian, old(buffer.Unread())), r, buffer.Unread())
  {
    hide Holds, DecVarInt, DecNum, DecElement;
    var packedXZ :- buffer.ReadByte();
    var y :- buffer.ReadNumeric(2);
    var kind :- buffer.ReadVarInt();
    var data :- ReadNBTElement(buffer);
    assert Range(2) == TWO_16;
    r := Some(BlockEntity(packedXZ / 16, ToSigned(y, TWO_16), packedXZ % 16, kind, data));
  }

  method ReadHeightMaps(buffer: ByteBuffer) returns (r: Option<seq<HeightMap>>)
    requires buffer.Valid()
    modifies buffer.internal
    ensures buffer.OnlyRead()
    ensures Delivers(DecCounted(HeightMapReader(buffer.isBigEndian), old(buffer.Unread())), r, buffer.Unread())
  {
    hide Holds, DecVarInt, DecHeightMap, DecArray, Prepend;
    ghost var dec := HeightMapReader(buffer.isBigEndian);
    var length :- buffer.ReadVarInt();
    ghost var n: nat := if length < 0 then 0 else length;
    ghost var start := buffer.Unread();
    var result: seq<HeightMap> := [];
    var i := 0;
    while i < length
      invariant 0 <= i <= n && (length >= 0 ==> n == length)
      invariant buffer.OnlyRead() && dec == HeightMapReader(buffer.isBigEndian)
      invariant DecArray(dec, n, start) == Prepend(result, DecArray(dec, n - i, buffer.Unread()))
    {
      PrependStep(dec, result, n - i, buffer.Unread());
      var m :- ReadHeightMap(buffer);
      result := result + [m];
      i := i + 1;
    }
    PrependDone(dec, result, buffer.Unread());
    r := Some(result);
  }

  method ReadBlockEntities(buffer: ByteBuffer) returns (r: Option<seq<BlockEntity>>)
    requires buffer.Valid()
    modifies buffer.internal
    ensures buffer.OnlyRead()
    ensures Delivers(DecCounted(BlockEntityReader(buffer.isBigEndian), old(buffer.Unread())), r, buffer.Unread())
  {
    hide Holds, DecVarInt, DecBlockEntity, DecArray, Prepend;
    ghost var dec := BlockEntityReader(buffer.isBigEndian);
    var length :- buffer.ReadVarInt();
    ghost var n: nat := if length < 0 then 0 else length;
    ghost var start := buffer.Unread();
    var result: seq<BlockEntity> := [];
    var i := 0;
    while i < length
      invariant 0 <= i <= n && (length >= 0 ==> n == length)
      invariant buffer.OnlyRead() && dec == BlockEntityReader(buffer.isBigEndian)
      invariant DecArray(dec, n, start) == Prepend(result, DecArray(dec, n - i, buffer.Unread()))
    {
      PrependStep(dec, result, n - i, buffer.Unread());
      var b :- ReadBlockEntity(buffer);
      result := result + [b];
      i := i + 1;
    }
    PrependDone(dec, result, buffer.Unread());
    r := Some(result);
  }

  method ReadChunkData(buffer: ByteBuffer) returns (r: Option<Chunk>)
    requires buffer.Valid()
    modifies buffer.internal
    ensures buffer.OnlyRead()
    ensures Delivers(DecChunk(buffer.isBigEndian, old(buffer.Unread())), r, buffer.Unread())
  {
    hide Holds, DecCounted, DecString;
    var heightMaps :- ReadHeightMaps(buffer);
    var data :- buffer.ReadString();
    var blockEntities :- ReadBlockEntities(buffer);
    r := Some(Chunk(heightMaps, data, blockEntities));
  }
}
