/**
  Fixed-width numbers: two's complement, and the byte order chosen by a buffer's endianness.
 */
module Numeric {
  import opened Bytes

  type int16 = x: int | -0x8000 <= x < 0x8000
  type int32 = x: int | -0x8000_0000 <= x < 0x8000_0000
  type int64 = x: int | -0x8000_0000_0000_0000 <= x < 0x8000_0000_0000_0000

  const TWO_16: nat := 0x1_0000
  const TWO_31: nat := 0x8000_0000
  const TWO_32: nat := 0x1_0000_0000
  const TWO_64: nat := 0x1_0000_0000_0000_0000

  type uint32 = x: int | 0 <= x < TWO_32
  type uint64 = x: int | 0 <= x < TWO_64

  /** The unsigned value with the same bits as the signed `v`; `range` is two to the width. */
  function ToUnsigned(v: int, range: nat): (u: int) {
    if v < 0 then v + range else v
  }

  function ToSigned(u: nat, range: nat): (v: int) {
    if 2 * u < range then u else u - range
  }

  /** The number of values of `n` bytes. */
  function Range(n: nat): (r: nat)
    ensures r > 0
  {
    if n == 0 then 1 else 256 * Range(n - 1)
  }

  /** The low `n` bytes of `v`, least significant first: its memory image on the target machine. */
  function LeBytes(v: nat, n: nat): (bs: bytes)
    ensures |bs| == n
  {
    if n == 0 then [] else [v % 256] + LeBytes(v / 256, n - 1)
  }

  function FromLe(bs: bytes): (v: nat)
    ensures v < Range(|bs|)
  {
    if bs == [] then 0 else bs[0] + 256 * FromLe(bs[1..])
  }

  lemma {:induction false} FromLeOfLeBytes(v: nat, n: nat)
    requires v < Range(n)
    ensures FromLe(LeBytes(v, n)) == v
  {
    if n == 0 {
    } else {
      FromLeOfLeBytes(v / 256, n - 1);
      assert LeBytes(v, n)[1..] == LeBytes(v / 256, n - 1);
    }
  }

  lemma {:induction false} LeBytesOfFromLe(bs: bytes)
    ensures LeBytes(FromLe(bs), |bs|) == bs
  {
    if bs == [] {
    } else {
      LeBytesOfFromLe(bs[1..]);
      assert bs == [bs[0]] + bs[1..];
    }
  }

  function Reversed(bs: bytes): (r: bytes)
    ensures |r| == |bs|
    ensures forall i :: 0 <= i < |bs| ==> r[i] == bs[|bs| - 1 - i]
  {
    if bs == [] then [] else Reversed(bs[1..]) + [bs[0]]
  }

  lemma ReversedTwice(bs: bytes)
    ensures Reversed(Reversed(bs)) == bs
  {
  }

  /** `writeNumeric` of an `n`-byte value with bits `v`. */
  function EncNum(be: bool, n: nat, v: nat): (bs: bytes)
    ensures |bs| == n
  {
    if be then Reversed(LeBytes(v, n)) else LeBytes(v, n)
  }

  /** `readNumeric` of an `n`-byte value. */
  function DecNum(be: bool, n: nat, bs: bytes): (p: Parsed<nat>)
    ensures p.Got? ==> p.value < Range(n) && |p.rest| == |bs| - n
  {
    var (raw, rest) :- TakeBytes(n, bs);
    Got(FromLe(if be then Reversed(raw) else raw), rest)
  }

  lemma NumRoundTrip(be: bool, n: nat, v: nat, rest: bytes)
    requires v < Range(n)
    ensures DecNum(be, n, EncNum(be, n, v) + rest) == Got(v, rest)
  {
    TakeBytesOfAppend(EncNum(be, n, v), rest);
    ReversedTwice(LeBytes(v, n));
    FromLeOfLeBytes(v, n);
  }

  lemma NumReadBack(be: bool, n: nat, bs: bytes)
    requires DecNum(be, n, bs).Got?
    ensures EncNum(be, n, DecNum(be, n, bs).value) + DecNum(be, n, bs).rest == bs
  {
    var raw := bs[..n];
    LeBytesOfFromLe(if be then Reversed(raw) else raw);
    ReversedTwice(raw);
  }

  function EncInt16(be: bool, v: int16): bytes {
    EncNum(be, 2, ToUnsigned(v, TWO_16))
  }

  function DecInt16(be: bool, bs: bytes): (p: Parsed<int16>)
    ensures p.Got? ==> |p.rest| == |bs| - 2
  {
    var (u, rest) :- DecNum(be, 2, bs);
    Got(ToSigned(u, TWO_16), rest)
  }

  function EncInt32(be: bool, v: int32): bytes {
    EncNum(be, 4, ToUnsigned(v, TWO_32))
  }

  function DecInt32(be: bool, bs: bytes): (p: Parsed<int32>)
    ensures p.Got? ==> |p.rest| == |bs| - 4
  {
    var (u, rest) :- DecNum(be, 4, bs);
    Got(ToSigned(u, TWO_32), rest)
  }

  function EncInt64(be: bool, v: int64): bytes {
    EncNum(be, 8, ToUnsigned(v, TWO_64))
  }

  function DecInt64(be: bool, bs: bytes): (p: Parsed<int64>)
    ensures p.Got? ==> |p.rest| == |bs| - 8
  {
    var (u, rest) :- DecNum(be, 8, bs);
    Got(ToSigned(u, TWO_64), rest)
  }

  lemma SignedRoundTrip(be: bool, rest: bytes)
    ensures forall v: int16 :: DecInt16(be, EncInt16(be, v) + rest) == Got(v, rest)
    ensures forall v: int32 :: DecInt32(be, EncInt32(be, v) + rest) == Got(v, rest)
    ensures forall v: int64 :: DecInt64(be, EncInt64(be, v) + rest) == Got(v, rest)
  {
    forall v: int16 ensures DecInt16(be, EncInt16(be, v) + rest) == Got(v, rest) {
      NumRoundTrip(be, 2, ToUnsigned(v, TWO_16), rest);
    }
    forall v: int32 ensures DecInt32(be, EncInt32(be, v) + rest) == Got(v, rest) {
      NumRoundTrip(be, 4, ToUnsigned(v, TWO_32), rest);
    }
    forall v: int64 ensures DecInt64(be, EncInt64(be, v) + rest) == Got(v, rest) {
      NumRoundTrip(be, 8, ToUnsigned(v, TWO_64), rest);
    }
  }
}
