/**
  `ByteBuffer`: an endianness over a block buffer, with the primitive codecs. Writers append what the
  specification function encodes; readers deliver what the specification parser makes of the unread
  bytes, and give no value where the written bytes run out.
 */
module Buffers {
  import opened Bytes
  import opened BlockBuffer
  import opened Numeric
  import opened VarNumeric
  import opened Arrays
  import opened WordNumbers
  import opened ZigZags

  /** Data in blocks that hold nothing else: zeros up to the end of the last block, which is never full. */
  function Padded(data: bytes): (p: bytes)
    ensures data < p && p[|p| - 1] == 0
  {
    data + Zeros(BLOCK_SIZE - |data| % BLOCK_SIZE)
  }

  lemma StoredIsPadded(b: InternalByteBuffer)
    requires b.Valid() && b.Dropped() == 0
    ensures b.Readable() && b.Stored() == Padded(b.written)[b.ReaderPointer()..]
  {
    b.StoredBytes();
    assert |b.written| % BLOCK_SIZE == b.writeOffset;
    hide Holds;
    assert b.taken == b.ReaderPointer();
  }

  class ByteBuffer {
    const internal: InternalByteBuffer
    var isBigEndian: bool

    ghost predicate Valid()
      reads this, internal
    {
      internal.Valid()
    }

    ghost function Unread(): bytes
      requires Valid()
      reads this, internal
    {
      internal.Unread()
    }

    /** `x` was appended and the reader did not move. */
    twostate predicate Wrote(x: bytes)
      reads this, internal
    {
      && Valid()
      && internal.written == old(internal.written) + x
      && internal.taken == old(internal.taken)
      && internal.Dropped() == old(internal.Dropped())
      && internal.enableBlockRecycle == old(internal.enableBlockRecycle)
    }

    /** Nothing was written, and the reader moved forward or stayed, within the written bytes. */
    twostate predicate OnlyRead()
      reads this, internal
    {
      && Valid()
      && internal.written == old(internal.written)
      && internal.taken >= old(internal.taken)
      && internal.enableBlockRecycle == old(internal.enableBlockRecycle)
      && (!internal.enableBlockRecycle ==> internal.Dropped() == old(internal.Dropped()))
    }

    constructor (isBigEndian: bool := true)
      ensures Valid() && fresh(internal) && this.isBigEndian == isBigEndian
      ensures internal.written == [] && internal.taken == 0
      ensures internal.Dropped() == 0 && !internal.enableBlockRecycle
    {
      internal := new InternalByteBuffer();
      this.isBigEndian := isBigEndian;
    }

    /** A buffer holding `data`, with the read cursor at `readPtr`, which may lie anywhere. Behind the data there
        are zeros up to the end of a block. */
    constructor Of(data: bytes, readPtr: nat := 0, isBigEndian: bool := true)
      ensures fresh(internal) && this.isBigEndian == isBigEndian
      ensures internal.written == data && internal.ReaderPointer() == readPtr
      ensures Valid() <==> readPtr <= |data|
      ensures Valid() ==>
                && Unread() == data[readPtr..]
                && internal.Dropped() == 0
                && internal.Readable()
                && internal.Stored() == Padded(data)[readPtr..]
      ensures !internal.enableBlockRecycle
    {
      internal := new InternalByteBuffer();
      this.isBigEndian := isBigEndian;
      new;
      hide Holds, Padded;
      internal.Write(data);
      internal.SetReader(readPtr / BLOCK_SIZE, readPtr % BLOCK_SIZE);
      if Valid() {
        StoredIsPadded(internal);
      }
    }

    method Clear()
      modifies internal
      ensures Valid() && internal.written == [] && internal.taken == 0 && internal.Dropped() == 0
      ensures internal.enableBlockRecycle == old(internal.enableBlockRecycle)
    {
      hide Holds;
      internal.Clear();
    }

    method GetBytes() returns (data: bytes)
      requires Valid()
      ensures data == internal.written[internal.Dropped()..] && |data| == internal.Size()
      ensures internal.ReaderPointer() <= |data| && data[internal.ReaderPointer()..] == Unread()
    {
      hide Holds;
      data := internal.GetBytes();
    }

    method WriteBytes(data: bytes)
      requires Valid()
      modifies internal
      ensures Wrote(data)
    {
      hide Holds;
      internal.Write(data);
    }

    method ReadBytes(length: nat) returns (r: Option<bytes>)
      requires Valid()
      modifies internal
      ensures OnlyRead() && Delivers(TakeBytes(length, old(Unread())), r, Unread())
    {
      hide Holds;
      if internal.Size() - internal.ReaderPointer() < length {
        return None;
      }
      internal.StoredBytes();
      var data := internal.Read(length);
      r := Some(data);
    }

    /** `readBytes` wherever the cursor is: it goes on with the padding, and the result is short where the blocks
        end. */
    method ReadStored(length: nat) returns (data: bytes)
      requires internal.Readable()
      modifies internal
      ensures internal.Readable()
      ensures data == Front(length, old(internal.Stored())) && internal.Stored() == Back(length, old(internal.Stored()))
    {
      hide Holds;
      data := internal.Read(length);
    }

    method WriteByte(c: byte)
      requires Valid()
      modifies internal
      ensures Wrote([c])
    {
      hide Holds;
      internal.Write([c]);
    }

    method ReadByte() returns (r: Option<byte>)
      requires Valid()
      modifies internal
      ensures OnlyRead() && Delivers(TakeByte(old(Unread())), r, Unread())
    {
      hide Holds;
      var data :- ReadBytes(1);
      r := Some(data[0]);
    }

    /** `writeNumeric` of an `n`-byte value with bits `v`: its memory image, reversed for big-endian. */
    method WriteNumeric(n: nat, v: nat)
      requires Valid()
      modifies internal
      ensures Wrote(EncNum(isBigEndian, n, v))
    {
      hide Holds;
      var image := LeBytes(v, n);
      if isBigEndian {
        image := Reversed(image);
      }
      internal.Write(image);
    }

    method ReadNumeric(n: nat) returns (r: Option<nat>)
      requires Valid()
      modifies internal
      ensures OnlyRead() && Delivers(DecNum(isBigEndian, n, old(Unread())), r, Unread())
    {
      hide Holds;
      var data :- ReadBytes(n);
      if isBigEndian {
        data := Reversed(data);
      }
      r := Some(FromLe(data));
    }

    /** `getVarNumericLength` of the unsigned value `value`. */
    static method GetVarNumericLength(value: nat) returns (count: nat)
      ensures count == |VarBytes(value)|
    {
      hide Holds;
      count := 1;
      var uv := value / 128;
      while uv > 0
        invariant |VarBytes(value)| == count + if uv > 0 then |VarBytes(uv)| else 0
      {
        count := count + 1;
        uv := uv / 128;
      }
    }

    /** The bytes are gathered with the top bit set, and the top bit of the last one is cleared. */
    static method GatherVarBytes(value: nat) returns (temp: bytes)
      ensures temp == VarBytes(value)
    {
      temp := [value % 128 + 128];
      var uv := value / 128;
      while uv > 0
        invariant |temp| > 0 && temp[|temp| - 1] >= 128
        invariant VarBytes(value) == if uv > 0 then temp + VarBytes(uv)
                                     else temp[|temp| - 1 := temp[|temp| - 1] - 128]
      {
        temp := temp + [uv % 128 + 128];
        uv := uv / 128;
      }
      temp := temp[|temp| - 1 := temp[|temp| - 1] - 128];
    }

    method WriteVarNumeric(value: nat)
      requires Valid()
      modifies internal
      ensures Wrote(VarBytes(value))
    {
      hide Holds;
      var temp := GatherVarBytes(value);
      internal.Write(temp);
    }

    method ReadVarNumeric(bits: nat) returns (r: Option<nat>)
      requires Valid() && bits > 0
      modifies internal
      ensures OnlyRead() && Delivers(DecVar(bits, old(Unread())), r, Unread())
    {
      hide Holds, DecVarFrom, Chunk, Pow2;
      var result: nat, shift: nat := 0, 0;
      while true
        invariant shift < bits && result < Pow2(shift)
        invariant OnlyRead()
        invariant DecVar(bits, old(Unread())) == DecVarFrom(bits, Unread(), shift, result)
        decreases bits - shift
      {
        DecVarStep(bits, Unread(), shift, result);
        var b :- ReadByte();
        result := result + Chunk(bits, b, shift);
        if b < 128 {
          return Some(result);
        }
        shift := shift + 7;
        if shift >= bits {
          return Some(0);
        }
      }
    }

    /** The same loop wherever the cursor is: it goes on with the padding. There is no value where the blocks
        end. */
    method ReadStoredVarNumeric(bits: nat) returns (r: Option<nat>)
      requires internal.Readable() && bits > 0
      modifies internal
      ensures internal.Readable() && Delivers(DecVar(bits, old(internal.Stored())), r, internal.Stored())
    {
      hide Holds, DecVarFrom, Chunk, Pow2;
      var result: nat, shift: nat := 0, 0;
      while true
        invariant shift < bits && result < Pow2(shift)
        invariant internal.Readable()
        invariant DecVar(bits, old(internal.Stored())) == DecVarFrom(bits, internal.Stored(), shift, result)
        decreases bits - shift
      {
        DecVarStep(bits, internal.Stored(), shift, result);
        var data := ReadStored(1);
        if data == [] {
          return None;
        }
        result := result + Chunk(bits, data[0], shift);
        if data[0] < 128 {
          return Some(result);
        }
        shift := shift + 7;
        if shift >= bits {
          return Some(0);
        }
      }
    }

    method ReadStoredVarInt() returns (r: Option<int32>)
      requires internal.Readable()
      modifies internal
      ensures internal.Readable() && Delivers(DecVarInt(old(internal.Stored())), r, internal.Stored())
    {
      hide Holds;
      Widths();
      var u :- ReadStoredVarNumeric(32);
      r := Some(ToSigned(u, TWO_32));
    }

    method WriteVarInt(value: int32)
      requires Valid()
      modifies internal
      ensures Wrote(EncVarInt(value))
    {
      hide Holds;
      WriteVarNumeric(ToUnsigned(value, TWO_32));
    }

    method ReadVarInt() returns (r: Option<int32>)
      requires Valid()
      modifies internal
      ensures OnlyRead() && Delivers(DecVarInt(old(Unread())), r, Unread())
    {
      hide Holds;
      Widths();
      var u :- ReadVarNumeric(32);
      r := Some(ToSigned(u, TWO_32));
    }

    /** `writeZigZagVarNumeric<int>`: the expression on the 32-bit word of the value. */
    method WriteZigZagInt(value: int32)
      requires Valid()
      modifies internal
      ensures Wrote(EncZigZag(value))
    {
      hide Holds, ZigZag32, ValueOf32, ZigZag;
      Widths();
      var v := WordOf32(ToUnsigned(value, TWO_32), 32);
      IntAsWord(value);
      ZigZag32Meaning(v, 0);
      WriteVarNumeric(ValueOf32(ZigZag32(v)));
    }

    method ReadZigZagInt() returns (r: Option<int32>)
      requires Valid()
      modifies internal
      ensures OnlyRead() && Delivers(DecZigZag32(old(Unread())), r, Unread())
    {
      hide Holds, UnZigZag32, ValueOf32, WordOf32, UnZigZag, DecVar, Pow2;
      Widths();
      var uv :- ReadVarNumeric(32);
      var u := WordOf32(uv, 32);
      UnsignedAsWord32(uv);
      ZigZag32Meaning(0, u);
      r := Some(ToSigned(ValueOf32(UnZigZag32(u)), TWO_32));
    }

    /** `writeZigZagVarNumeric<long>`: the expression on the 64-bit word of the value. */
    method WriteZigZagLong(value: int64)
      requires Valid()
      modifies internal
      ensures Wrote(EncZigZag(value))
    {
      hide Holds, ZigZag64, ValueOf, ZigZag;
      Widths();
      var v := WordOf(ToUnsigned(value, TWO_64), 64);
      LongAsWord(value);
      ZigZag64Meaning(v, 0);
      WriteVarNumeric(ValueOf(ZigZag64(v), 64));
    }

    method ReadZigZagLong() returns (r: Option<int64>)
      requires Valid()
      modifies internal
      ensures OnlyRead() && Delivers(DecZigZag64(old(Unread())), r, Unread())
    {
      hide Holds, UnZigZag64, ValueOf, WordOf, UnZigZag, DecVar, Pow2;
      Widths();
      var uv :- ReadVarNumeric(64);
      var u := WordOf(uv, 64);
      ValueOfWordOf(uv, 64);
      ZigZag64Meaning(0, u);
      r := Some(ToSigned(ValueOf(UnZigZag64(u), 64), TWO_64));
    }

    method WriteString(s: bytes)
      requires Valid()
      modifies internal
      ensures Wrote(EncString(s))
    {
      hide Holds;
      WriteVarInt(SizeAsInt(|s|));
      WriteBytes(s);
    }

    method ReadString() returns (r: Option<bytes>)
      requires Valid()
      modifies internal
      ensures OnlyRead() && Delivers(DecString(old(Unread())), r, Unread())
    {
      hide Holds;
      var n :- ReadVarInt();
      if n < 0 {
        return None;
      }
      r := ReadBytes(n);
    }

    method WriteShortString(s: bytes)
      requires Valid()
      modifies internal
      ensures Wrote(EncShortString(isBigEndian, s))
    {
      hide Holds;
      WriteNumeric(2, |s| % TWO_16);
      WriteBytes(s);
    }

    method ReadShortString() returns (r: Option<bytes>)
      requires Valid()
      modifies internal
      ensures OnlyRead() && Delivers(DecShortString(isBigEndian, old(Unread())), r, Unread())
    {
      hide Holds;
      var n :- ReadNumeric(2);
      r := ReadBytes(n);
    }

    method WriteInt32Array(xs: seq<int32>)
      requires Valid()
      modifies internal
      ensures Wrote(EncArray(Int32Writer(isBigEndian), xs))
    {
      hide Holds, EncNum;
      for i := 0 to |xs|
        invariant Wrote(EncArray(Int32Writer(isBigEndian), xs[..i]))
      {
        EncArraySnoc(Int32Writer(isBigEndian), xs, i);
        WriteNumeric(4, ToUnsigned(xs[i], TWO_32));
      }
      assert xs[..|xs|] == xs;
    }

    method WriteInt64Array(xs: seq<int64>)
      requires Valid()
      modifies internal
      ensures Wrote(EncArray(Int64Writer(isBigEndian), xs))
    {
      hide Holds, EncNum;
      for i := 0 to |xs|
        invariant Wrote(EncArray(Int64Writer(isBigEndian), xs[..i]))
      {
        EncArraySnoc(Int64Writer(isBigEndian), xs, i);
        WriteNumeric(8, ToUnsigned(xs[i], TWO_64));
      }
      assert xs[..|xs|] == xs;
    }

    method ReadInt32() returns (r: Option<int32>)
      requires Valid()
      modifies internal
      ensures OnlyRead() && Delivers(DecInt32(isBigEndian, old(Unread())), r, Unread())
    {
      hide Holds;
      var u :- ReadNumeric(4);
      r := Some(ToSigned(u, TWO_32));
    }

    method ReadInt64() returns (r: Option<int64>)
      requires Valid()
      modifies internal
      ensures OnlyRead() && Delivers(DecInt64(isBigEndian, old(Unread())), r, Unread())
    {
      hide Holds;
      var u :- ReadNumeric(8);
      r := Some(ToSigned(u, TWO_64));
    }

    method ReadInt32Array(length: nat) returns (r: Option<seq<int32>>)
      requires Valid()
      modifies internal
      ensures OnlyRead()
      ensures Delivers(DecArray(Int32Reader(isBigEndian), length, old(Unread())), r, Unread())
    {
      hide Holds, DecInt32, DecArray, Prepend;
      ghost var dec := Int32Reader(isBigEndian);
      var result: seq<int32> := [];
      for i := 0 to length
        invariant OnlyRead() && dec == Int32Reader(isBigEndian)
        invariant DecArray(dec, length, old(Unread())) == Prepend(result, DecArray(dec, length - i, Unread()))
      {
        PrependStep(dec, result, length - i, Unread());
        var x :- ReadInt32();
        result := result + [x];
      }
      PrependDone(dec, result, Unread());
      r := Some(result);
    }

    method ReadInt64Array(length: nat) returns (r: Option<seq<int64>>)
      requires Valid()
      modifies internal
      ensures OnlyRead()
      ensures Delivers(DecArray(Int64Reader(isBigEndian), length, old(Unread())), r, Unread())
    {
      hide Holds, DecInt64, DecArray, Prepend;
      ghost var dec := Int64Reader(isBigEndian);
      var result: seq<int64> := [];
      for i := 0 to length
        invariant OnlyRead() && dec == Int64Reader(isBigEndian)
        invariant DecArray(dec, length, old(Unread())) == Prepend(result, DecArray(dec, length - i, Unread()))
      {
        PrependStep(dec, result, length - i, Unread());
        var x :- ReadInt64();
        result := result + [x];
      }
      PrependDone(dec, result, Unread());
      r := Some(result);
    }
  }
}
