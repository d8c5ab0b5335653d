/**
  Variable-length numbers: unsigned LEB128 (section 7.6 of DWARF Version 5) on two's-complement
  values, and its ZigZag form for signed values. `bits` is the width of the value, 32 or 64.
 */
module VarNumeric {
  import opened Bytes
  import opened Numeric

  function Pow2(n: nat): (p: nat)
    ensures p > 0
  {
    if n == 0 then 1 else 2 * Pow2(n - 1)
  }

  lemma {:induction false} Pow2Add(a: nat, b: nat)
    ensures Pow2(a + b) == Pow2(a) * Pow2(b)
  {
    if a == 0 {
    } else {
      Pow2Add(a - 1, b);
    }
  }

  lemma {:induction false} Pow2Monotone(a: nat, b: nat)
    requires a <= b
    ensures Pow2(a) <= Pow2(b)
  {
    if a < b {
      Pow2Monotone(a, b - 1);
    }
  }

  lemma ModBound(a: nat, n: nat)
    requires n > 0
    ensures 0 <= a % n < n && a % n <= a && (a < n ==> a % n == a)
  {
  }

  lemma ScaleMonotone(a: nat, b: nat, scale: nat)
    requires a <= b
    ensures a * scale <= b * scale
  {
  }

  lemma ScaleNext(a: nat, scale: nat)
    ensures (a + 1) * scale == a * scale + scale
  {
  }

  lemma ScaleSplit(u: nat, scale: nat)
    ensures u * scale == u / 128 * (128 * scale) + u % 128 * scale
  {
    var q, r := u / 128, u % 128;
    assert u == 128 * q + r;
    assert (128 * q + r) * scale == q * (128 * scale) + r * scale;
  }

  lemma Pow2Step(shift: nat)
    ensures Pow2(shift + 7) == 128 * Pow2(shift)
  {
    Pow2Add(shift, 7);
  }

  /** `writeVarNumeric` of the unsigned value `u`: seven bits per byte, low bits first, the top bit of
      each byte but the last one set. */
  function VarBytes(u: nat): (bs: bytes)
    ensures |bs| > 0
  {
    if u < 128 then [u] else [u % 128 + 128] + VarBytes(u / 128)
  }

  /** The low seven bits of `b`, shifted left in a word of `bits` bits. */
  function Chunk(bits: nat, b: byte, shift: nat): nat
    requires shift < bits
  {
    b % 128 % Pow2(bits - shift) * Pow2(shift)
  }

  lemma ChunkFits(bits: nat, b: byte, shift: nat, acc: nat)
    requires shift < bits && acc < Pow2(shift)
    ensures acc + Chunk(bits, b, shift) < Pow2(bits)
    ensures acc + Chunk(bits, b, shift) < Pow2(shift + 7)
    ensures shift + 7 <= bits ==> Chunk(bits, b, shift) == b % 128 * Pow2(shift)
  {
    var high, low := Pow2(bits - shift), Pow2(shift);
    var c := b % 128 % high;
    Pow2Add(bits - shift, shift);
    Pow2Step(shift);
    ModBound(b % 128, high);
    ScaleMonotone(c + 1, high, low);
    ScaleMonotone(c + 1, 128, low);
    ScaleNext(c, low);
    if shift + 7 <= bits {
      Pow2Monotone(7, bits - shift);
      Pow2Step(0);
    }
  }

  /** `readVarNumeric` from the byte read at `shift`, with the lower bits in `acc`: bits shifted past
      the width are lost, and a continuation past the width makes the result 0. */
  function DecVarFrom(bits: nat, bs: bytes, shift: nat, acc: nat): (p: Parsed<nat>)
    requires shift < bits && acc < Pow2(shift)
    ensures p.Got? ==> p.value < Pow2(bits) && |p.rest| < |bs| && p.rest == bs[|bs| - |p.rest|..]
    decreases |bs|
  {
    if bs == [] then Fail else
      var acc' := acc + Chunk(bits, bs[0], shift);
      ChunkFits(bits, bs[0], shift, acc);
      if bs[0] < 128 then Got(acc', bs[1..])
      else if shift + 7 >= bits then Got(0, bs[1..])
      else DecVarFrom(bits, bs[1..], shift + 7, acc')
  }

  function DecVar(bits: nat, bs: bytes): (p: Parsed<nat>)
    requires bits > 0
    ensures p.Got? ==> p.value < Pow2(bits) && |p.rest| < |bs| && p.rest == bs[|bs| - |p.rest|..]
  {
    DecVarFrom(bits, bs, 0, 0)
  }

  /** One turn of the read loop. */
  lemma DecVarStep(bits: nat, bs: bytes, shift: nat, acc: nat)
    requires shift < bits && acc < Pow2(shift)
    ensures bs == [] ==> DecVarFrom(bits, bs, shift, acc).Fail?
    ensures bs != [] ==>
              var acc' := acc + Chunk(bits, bs[0], shift);
              && acc' < Pow2(bits)
              && acc' < Pow2(shift + 7)
              && (bs[0] < 128 ==> DecVarFrom(bits, bs, shift, acc) == Got(acc', bs[1..]))
              && (bs[0] >= 128 && shift + 7 >= bits ==> DecVarFrom(bits, bs, shift, acc) == Got(0, bs[1..]))
              && (bs[0] >= 128 && shift + 7 < bits ==>
                    DecVarFrom(bits, bs, shift, acc) == DecVarFrom(bits, bs[1..], shift + 7, acc'))
  {
    hide Chunk, Pow2;
    if bs != [] {
      ChunkFits(bits, bs[0], shift, acc);
    }
  }

  /** A value that still fits after a shift is below the room that is left. */
  lemma ShiftFits(bits: nat, u: nat, shift: nat)
    requires shift < bits && u * Pow2(shift) < Pow2(bits)
    ensures u < Pow2(bits - shift)
    ensures u >= 128 ==> shift + 7 < bits
  {
    Pow2Add(bits - shift, shift);
    if u >= Pow2(bits - shift) {
      ScaleMonotone(Pow2(bits - shift), u, Pow2(shift));
    }
    if bits - shift <= 7 {
      Pow2Monotone(bits - shift, 7);
      Pow2Step(0);
    }
  }

  /** The low seven bits and the rest of a shifted value. */
  lemma ShiftSplit(bits: nat, u: nat, shift: nat)
    requires shift + 7 < bits
    ensures u * Pow2(shift) == Chunk(bits, u % 128 + 128, shift) + u / 128 * Pow2(shift + 7)
  {
    Pow2Step(shift);
    ScaleSplit(u, Pow2(shift));
    ChunkFits(bits, u % 128 + 128, shift, 0);
  }

  lemma LowOfSum(low: nat)
    requires low < 128
    ensures (low + 128) % 128 == low
  {
  }

  /** A number that goes on after a byte: what is read so far fits, and so does the rest. */
  lemma RoomForRest(bits: nat, u: nat, shift: nat, acc: nat)
    requires shift < bits && acc < Pow2(shift) && u * Pow2(shift) < Pow2(bits) && u >= 128
    ensures shift + 7 < bits && acc + Chunk(bits, u % 128 + 128, shift) < Pow2(shift + 7)
    ensures Chunk(bits, u % 128 + 128, shift) == u % 128 * Pow2(shift)
    ensures u * Pow2(shift) == Chunk(bits, u % 128 + 128, shift) + u / 128 * Pow2(shift + 7)
  {
    ShiftFits(bits, u, shift);
    ShiftSplit(bits, u, shift);
    hide Pow2, Chunk;
    ChunkFits(bits, u % 128 + 128, shift, acc);
    LowOfSum(u % 128);
  }

  lemma ContinuedByte(bits: nat, u: nat, bs: bytes, more: bytes, shift: nat, acc: nat)
    requires shift + 7 < bits && acc < Pow2(shift) && bs == [u % 128 + 128] + more
    requires acc + Chunk(bits, u % 128 + 128, shift) < Pow2(shift + 7)
    ensures DecVarFrom(bits, bs, shift, acc)
            == DecVarFrom(bits, more, shift + 7, acc + Chunk(bits, u % 128 + 128, shift))
  {
    hide Pow2, DecVarFrom, Chunk;
    assert bs[0] == u % 128 + 128 && bs[1..] == more;
    DecVarStep(bits, bs, shift, acc);
  }

  lemma LastByteRead(bits: nat, u: nat, bs: bytes, rest: bytes, shift: nat, acc: nat)
    requires shift < bits && acc < Pow2(shift) && u * Pow2(shift) < Pow2(bits) && u < 128 && bs == [u] + rest
    ensures DecVarFrom(bits, bs, shift, acc) == Got(acc + u * Pow2(shift), rest)
  {
    ShiftFits(bits, u, shift);
    ModBound(u, Pow2(bits - shift));
    assert Chunk(bits, u, shift) == u * Pow2(shift);
    hide Pow2, DecVarFrom, Chunk;
    assert bs[0] == u && bs[1..] == rest;
    DecVarStep(bits, bs, shift, acc);
  }

  lemma {:induction false} DecVarFromVarBytes(bits: nat, u: nat, rest: bytes, shift: nat, acc: nat)
    requires shift < bits && acc < Pow2(shift) && u * Pow2(shift) < Pow2(bits)
    ensures DecVarFrom(bits, VarBytes(u) + rest, shift, acc) == Got(acc + u * Pow2(shift), rest)
    decreases u
  {
    hide Pow2, DecVarFrom, Chunk;
    var bs := VarBytes(u) + rest;
    if u < 128 {
      LastByteRead(bits, u, bs, rest, shift, acc);
    } else {
      var more := VarBytes(u / 128) + rest;
      assert bs == [u % 128 + 128] + more;
      RoomForRest(bits, u, shift, acc);
      ContinuedByte(bits, u, bs, more, shift, acc);
      DecVarFromVarBytes(bits, u / 128, rest, shift + 7, acc + Chunk(bits, u % 128 + 128, shift));
    }
  }

  /** Reading a written value gives it back and leaves what follows unread. */
  lemma VarRoundTrip(bits: nat, u: nat, rest: bytes)
    requires bits > 0 && u < Pow2(bits)
    ensures DecVar(bits, VarBytes(u) + rest) == Got(u, rest)
  {
    DecVarFromVarBytes(bits, u, rest, 0, 0);
  }

  /** The written form of a value that fits `7 * k` bits has at most `k` bytes. */
  lemma {:induction false} VarBytesShort(u: nat, k: nat)
    requires k > 0 && u < Pow2(7 * k)
    ensures |VarBytes(u)| <= k
    decreases k
  {
    if u >= 128 {
      assert Pow2(7) == 128;
      assert k > 1;
      Pow2Step(7 * (k - 1));
      VarBytesShort(u / 128, k - 1);
    }
  }

  /** At most 5 bytes for 32 bits and 10 bytes for 64 bits: the size of the writer's local array. */
  lemma VarBytesBound(u: nat)
    ensures u < Pow2(32) ==> |VarBytes(u)| <= 5
    ensures u < Pow2(64) ==> |VarBytes(u)| <= 10
  {
    Pow2Monotone(32, 35);
    Pow2Monotone(64, 70);
    if u < Pow2(32) {
      VarBytesShort(u, 5);
    }
    if u < Pow2(64) {
      VarBytesShort(u, 10);
    }
  }

  lemma {:induction false} DecVarFromConsumes(bits: nat, bs: bytes, shift: nat, acc: nat, k: nat)
    requires shift < bits && acc < Pow2(shift) && shift == 7 * k
    requires DecVarFrom(bits, bs, shift, acc).Got?
    ensures var p := DecVarFrom(bits, bs, shift, acc);
            p.value < Pow2(7 * (k + |bs| - |p.rest|))
    decreases |bs|
  {
    ChunkFits(bits, bs[0], shift, acc);
    if bs[0] >= 128 && shift + 7 < bits {
      DecVarFromConsumes(bits, bs[1..], shift + 7, acc + Chunk(bits, bs[0], shift), k + 1);
    }
  }

  /** The written form is minimal: every byte string that reads as `u` spends at least as many bytes. */
  lemma VarBytesMinimal(bits: nat, bs: bytes)
    requires bits > 0 && DecVar(bits, bs).Got?
    ensures |VarBytes(DecVar(bits, bs).value)| <= |bs| - |DecVar(bits, bs).rest|
  {
    DecVarFromConsumes(bits, bs, 0, 0, 0);
    VarBytesShort(DecVar(bits, bs).value, |bs| - |DecVar(bits, bs).rest|);
  }

  lemma Widths()
    ensures Pow2(32) == TWO_32 && Pow2(64) == TWO_64
    ensures Pow2(31) == 0x8000_0000 && Pow2(63) == 0x8000_0000_0000_0000
  {
    assert Pow2(8) == 0x100;
    Pow2Add(8, 8);
    Pow2Add(16, 16);
    Pow2Add(32, 32);
  }

  /** `writeVarNumeric<int>` and `readVarNumeric<int>`: the value travels as its unsigned bits. */
  function EncVarInt(v: int32): bytes {
    VarBytes(ToUnsigned(v, TWO_32))
  }

  function DecVarInt(bs: bytes): (p: Parsed<int32>)
    ensures p.Got? ==> |p.rest| < |bs| && p.rest == bs[|bs| - |p.rest|..]
  {
    Widths();
    var (u, rest) :- DecVar(32, bs);
    Got(ToSigned(u, TWO_32), rest)
  }

  lemma VarIntRoundTrip(v: int32, rest: bytes)
    ensures DecVarInt(EncVarInt(v) + rest) == Got(v, rest)
  {
    Widths();
    VarRoundTrip(32, ToUnsigned(v, TWO_32), rest);
  }

  /** ZigZag maps 0, -1, 1, -2, ... to 0, 1, 2, 3, ... */
  function ZigZag(v: int): nat {
    if v < 0 then -2 * v - 1 else 2 * v
  }

  function UnZigZag(u: nat): int {
    if u % 2 == 0 then u / 2 else -(u / 2) - 1
  }

  predicate FitsSigned(bits: nat, v: int)
    requires bits > 0
  {
    -v <= Pow2(bits - 1) && v < Pow2(bits - 1)
  }

  /** ZigZag is a bijection between the signed and the unsigned values of a width. */
  lemma ZigZagBijection(bits: nat, v: int, u: nat)
    requires bits > 0
    ensures UnZigZag(ZigZag(v)) == v && ZigZag(UnZigZag(u)) == u
    ensures FitsSigned(bits, v) <==> ZigZag(v) < Pow2(bits)
  {
    assert Pow2(bits) == 2 * Pow2(bits - 1);
  }

  function EncZigZag(v: int): bytes {
    VarBytes(ZigZag(v))
  }

  function DecZigZag(bits: nat, bs: bytes): (p: Parsed<int>)
    requires bits > 0
    ensures p.Got? ==> FitsSigned(bits, p.value) && |p.rest| < |bs|
  {
    var (u, rest) :- DecVar(bits, bs);
    ZigZagBijection(bits, UnZigZag(u), u);
    Got(UnZigZag(u), rest)
  }

  /** Every signed value of the width survives its ZigZag form, with exact consumption. */
  lemma ZigZagRoundTrip(bits: nat, v: int, rest: bytes)
    requires bits > 0 && FitsSigned(bits, v)
    ensures DecZigZag(bits, EncZigZag(v) + rest) == Got(v, rest)
  {
    ZigZagBijection(bits, v, 0);
    VarRoundTrip(bits, ZigZag(v), rest);
  }

  /** `readZigZagVarNumeric<int>` and `readZigZagVarNumeric<long>`. */
  function DecZigZag32(bs: bytes): (p: Parsed<int32>)
    ensures p.Got? ==> |p.rest| < |bs|
  {
    Widths();
    var (v, rest) :- DecZigZag(32, bs);
    Got(v, rest)
  }

  function DecZigZag64(bs: bytes): (p: Parsed<int64>)
    ensures p.Got? ==> |p.rest| < |bs|
  {
    Widths();
    var (v, rest) :- DecZigZag(64, bs);
    Got(v, rest)
  }

  lemma ZigZag32RoundTrip(v: int32, rest: bytes)
    ensures DecZigZag32(EncZigZag(v) + rest) == Got(v, rest)
  {
    Widths();
    ZigZagRoundTrip(32, v, rest);
  }

  lemma ZigZag64RoundTrip(v: int64, rest: bytes)
    ensures DecZigZag64(EncZigZag(v) + rest) == Got(v, rest)
  {
    Widths();
    ZigZagRoundTrip(64, v, rest);
  }
}
