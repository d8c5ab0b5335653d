/**
  Array combinators: elements one after the other, with or without a count in front, for any element
  codec; and the length-prefixed strings built from them.
 */
module Arrays {
  import opened Bytes
  import opened Numeric
  import opened VarNumeric

  function EncArray<T>(enc: T -> bytes, xs: seq<T>): bytes {
    if xs == [] then [] else enc(xs[0]) + EncArray(enc, xs[1..])
  }

  function DecArray<T>(dec: bytes -> Parsed<T>, n: nat, bs: bytes): (p: Parsed<seq<T>>)
    ensures p.Got? ==> |p.value| == n
    decreases n
  {
    if n == 0 then Got([], bs) else
      var (x, rest) :- dec(bs);
      var (xs, rest') :- DecArray(dec, n - 1, rest);
      Got([x] + xs, rest')
  }

  /** A reader that only moves forward keeps doing so in an array. */
  lemma {:induction false} DecArrayShrinks<T>(dec: bytes -> Parsed<T>, n: nat, bs: bytes)
    requires forall b :: dec(b).Got? ==> |dec(b).rest| <= |b|
    ensures var p := DecArray(dec, n, bs); p.Got? ==> |p.rest| <= |bs|
    decreases n
  {
    if n > 0 && dec(bs).Got? {
      DecArrayShrinks(dec, n - 1, dec(bs).rest);
    }
  }

  /** `dec` undoes `enc` on `x`, whatever follows. */
  ghost predicate Inverse<T(!new)>(enc: T -> bytes, dec: bytes -> Parsed<T>, x: T) {
    forall rest :: dec(enc(x) + rest) == Got(x, rest)
  }

  lemma {:induction false} ArrayRoundTrip<T(!new)>(enc: T -> bytes, dec: bytes -> Parsed<T>, xs: seq<T>, rest: bytes)
    requires forall i :: 0 <= i < |xs| ==> Inverse(enc, dec, xs[i])
    ensures DecArray(dec, |xs|, EncArray(enc, xs) + rest) == Got(xs, rest)
  {
    if xs == [] {
      assert EncArray(enc, xs) + rest == rest;
    } else {
      assert Inverse(enc, dec, xs[0]);
      forall i | 0 <= i < |xs[1..]| ensures Inverse(enc, dec, xs[1..][i]) {
        assert xs[1..][i] == xs[i + 1];
      }
      ArrayRoundTrip(enc, dec, xs[1..], rest);
      var tail := EncArray(enc, xs[1..]) + rest;
      assert EncArray(enc, xs) + rest == enc(xs[0]) + tail;
      assert dec(enc(xs[0]) + tail) == Got(xs[0], tail);
      assert [xs[0]] + xs[1..] == xs;
    }
  }

  lemma {:induction false} EncArrayAppend<T>(enc: T -> bytes, a: seq<T>, b: seq<T>)
    ensures EncArray(enc, a + b) == EncArray(enc, a) + EncArray(enc, b)
  {
    if a == [] {
      assert a + b == b;
    } else {
      EncArrayAppend(enc, a[1..], b);
      assert (a + b)[1..] == a[1..] + b;
    }
  }

  /** One more element at the end: what a write loop needs. */
  lemma EncArraySnoc<T>(enc: T -> bytes, xs: seq<T>, i: nat)
    requires i < |xs|
    ensures EncArray(enc, xs[..i + 1]) == EncArray(enc, xs[..i]) + enc(xs[i])
  {
    assert xs[..i + 1] == xs[..i] + [xs[i]];
    assert EncArray(enc, [xs[i]]) == enc(xs[i]) + EncArray(enc, [xs[i]][1..]);
    EncArrayAppend(enc, xs[..i], [xs[i]]);
  }

  /** Elements read before those that `p` still delivers: what a read loop keeps. */
  function Prepend<T>(before: seq<T>, p: Parsed<seq<T>>): (r: Parsed<seq<T>>)
    ensures before == [] ==> r == p
    ensures p.Got? && p.value == [] ==> r == Got(before, p.rest)
  {
    match p
    case Fail => Fail
    case Got(xs, rest) =>
      assert before == [] ==> before + xs == xs;
      assert xs == [] ==> before + xs == before;
      Got(before + xs, rest)
  }

  lemma PrependDone<T>(dec: bytes -> Parsed<T>, before: seq<T>, bs: bytes)
    ensures Prepend(before, DecArray(dec, 0, bs)) == Got(before, bs)
  {
  }

  lemma PrependStep<T>(dec: bytes -> Parsed<T>, before: seq<T>, n: nat, bs: bytes)
    requires n > 0
    ensures Prepend(before, DecArray(dec, n, bs))
            == match dec(bs)
               case Fail => Fail
               case Got(x, rest) => Prepend(before + [x], DecArray(dec, n - 1, rest))
  {
    if dec(bs).Got? && DecArray(dec, n - 1, dec(bs).rest).Got? {
      var x, xs := dec(bs).value, DecArray(dec, n - 1, dec(bs).rest).value;
      assert before + ([x] + xs) == (before + [x]) + xs;
    }
  }

  /** A size as the source casts it to `int`: its low 32 bits, read as a signed value. */
  function SizeAsInt(n: nat): (v: int32) {
    ToSigned(n % TWO_32, TWO_32)
  }

  function EncPrefixedArray<T>(enc: T -> bytes, xs: seq<T>): bytes {
    EncVarInt(SizeAsInt(|xs|)) + EncArray(enc, xs)
  }

  /** A negative count is cast to a huge size, which no buffer can serve. */
  function DecPrefixedArray<T>(dec: bytes -> Parsed<T>, bs: bytes): (p: Parsed<seq<T>>) {
    var (n, rest) :- DecVarInt(bs);
    if n < 0 then Fail else DecArray(dec, n, rest)
  }

  /** A count in front of elements that are read as `ys`. */
  lemma PrefixedRead<T>(enc: T -> bytes, dec: bytes -> Parsed<T>, xs: seq<T>, ys: seq<T>, rest: bytes)
    requires |xs| < 0x8000_0000 && DecArray(dec, |xs|, EncArray(enc, xs) + rest) == Got(ys, rest)
    ensures DecVarInt(EncPrefixedArray(enc, xs) + rest) == Got(|xs|, EncArray(enc, xs) + rest)
    ensures DecPrefixedArray(dec, EncPrefixedArray(enc, xs) + rest) == Got(ys, rest)
  {
    hide EncVarInt, DecVarInt, EncArray, DecArray;
    var body := EncArray(enc, xs) + rest;
    assert EncPrefixedArray(enc, xs) + rest == EncVarInt(|xs|) + body;
    VarIntRoundTrip(|xs|, body);
  }

  lemma PrefixedArrayRoundTrip<T(!new)>(enc: T -> bytes, dec: bytes -> Parsed<T>, xs: seq<T>, rest: bytes)
    requires |xs| < 0x8000_0000
    requires forall i :: 0 <= i < |xs| ==> Inverse(enc, dec, xs[i])
    ensures DecPrefixedArray(dec, EncPrefixedArray(enc, xs) + rest) == Got(xs, rest)
  {
    hide EncPrefixedArray, DecPrefixedArray, EncArray, DecArray;
    ArrayRoundTrip(enc, dec, xs, rest);
    PrefixedRead(enc, dec, xs, xs, rest);
  }

  /** `writeString`, `writePrefixedByteArray`. */
  function EncString(s: bytes): bytes {
    EncVarInt(SizeAsInt(|s|)) + s
  }

  function DecString(bs: bytes): (p: Parsed<bytes>)
    ensures p.Got? ==> |p.rest| < |bs| && |p.value| < 0x8000_0000
  {
    var (n, rest) :- DecVarInt(bs);
    if n < 0 then Fail else TakeBytes(n, rest)
  }

  lemma StringRoundTrip(s: bytes, rest: bytes)
    requires |s| < 0x8000_0000
    ensures DecString(EncString(s) + rest) == Got(s, rest)
  {
    assert EncString(s) + rest == EncVarInt(|s|) + (s + rest);
    VarIntRoundTrip(|s|, s + rest);
    TakeBytesOfAppend(s, rest);
  }

  /** A 16-bit length in the byte order of the buffer, then the bytes; longer lengths are truncated. */
  function EncShortString(be: bool, s: bytes): bytes {
    EncNum(be, 2, |s| % TWO_16) + s
  }

  function DecShortString(be: bool, bs: bytes): (p: Parsed<bytes>)
    ensures p.Got? ==> |p.value| < TWO_16 && |p.rest| < |bs|
  {
    var (n, rest) :- DecNum(be, 2, bs);
    TakeBytes(n, rest)
  }

  lemma ShortStringRoundTrip(be: bool, s: bytes, rest: bytes)
    requires |s| < TWO_16
    ensures DecShortString(be, EncShortString(be, s) + rest) == Got(s, rest)
  {
    assert EncShortString(be, s) + rest == EncNum(be, 2, |s|) + (s + rest);
    NumRoundTrip(be, 2, |s|, s + rest);
    TakeBytesOfAppend(s, rest);
  }

  /** Named element codecs, so that every use means the same function. */
  function Int32Writer(be: bool): int32 -> bytes {
    v => EncInt32(be, v)
  }

  function Int32Reader(be: bool): (dec: bytes -> Parsed<int32>)
    ensures forall b :: dec(b).Got? ==> |dec(b).rest| <= |b|
  {
    bs => DecInt32(be, bs)
  }

  function Int64Writer(be: bool): int64 -> bytes {
    v => EncInt64(be, v)
  }

  function Int64Reader(be: bool): (dec: bytes -> Parsed<int64>)
    ensures forall b :: dec(b).Got? ==> |dec(b).rest| <= |b|
  {
    bs => DecInt64(be, bs)
  }

  lemma IntInverses(be: bool)
    ensures forall v: int32 :: Inverse(Int32Writer(be), Int32Reader(be), v)
    ensures forall v: int64 :: Inverse(Int64Writer(be), Int64Reader(be), v)
  {
    forall v: int32, rest ensures Int32Reader(be)(Int32Writer(be)(v) + rest) == Got(v, rest) {
      SignedRoundTrip(be, rest);
    }
    forall v: int64, rest ensures Int64Reader(be)(Int64Writer(be)(v) + rest) == Got(v, rest) {
      SignedRoundTrip(be, rest);
    }
  }
}
