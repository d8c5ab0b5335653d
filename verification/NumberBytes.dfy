/**
  Where every byte of a number stands: the written forms of the primitive codecs position by position, in
  terms of the value alone.
 */
module NumberBytes {
  import opened Bytes
  import opened Numeric
  import opened VarNumeric
  import opened Arrays

  // ----- fixed-width numbers

  /** The ranges that the widths stand for. */
  lemma Ranges()
    ensures Range(0) == 1 && Range(1) == 0x100 && Range(2) == 0x1_0000 == TWO_16
    ensures Range(4) == 0x1_0000_0000 == TWO_32 == 2 * TWO_31
    ensures Range(8) == 0x1_0000_0000_0000_0000 == TWO_64
  {
    assert Range(4) == 0x1_0000_0000;
  }

  /** `q` is the quotient of `a` by `b`. */
  lemma QuotientIs(a: nat, b: nat, q: nat, r: nat)
    requires b > 0 && a == q * b + r && r < b
    ensures a / b == q
  {
    var p := a / b;
    if p < q {
      ScaleMonotone(p + 1, q, b);
    } else if p > q {
      ScaleMonotone(q + 1, p, b);
    }
  }

  lemma Regrouped(q: nat, s: nat, b: nat, c: nat)
    ensures (q * c + s) * b == q * (b * c) + s * b
  {
    assert q * c * b == q * (b * c);
  }

  lemma RemainderFits(s: nat, r: nat, b: nat, c: nat)
    requires s < c && r < b
    ensures b * c > 0 && s * b + r < b * c
  {
    ScaleMonotone(s + 1, c, b);
    ScaleNext(s, b);
  }

  lemma QuotientOfParts(a: nat, b: nat, c: nat, p: nat, r: nat, q: nat, s: nat)
    requires a == p * b + r && r < b && p == q * c + s && s < c
    ensures b * c > 0 && a / (b * c) == q
  {
    Regrouped(q, s, b, c);
    RemainderFits(s, r, b, c);
    QuotientIs(a, b * c, q, s * b + r);
  }

  lemma DivideTwice(a: nat, b: nat, c: nat)
    requires b > 0 && c > 0
    ensures b * c > 0 && a / b / c == a / (b * c)
  {
    var p, r := a / b, a % b;
    QuotientOfParts(a, b, c, p, r, p / c, p % c);
  }

  lemma {:induction false} LeByteAt(v: nat, n: nat, i: nat)
    requires i < n
    ensures LeBytes(v, n)[i] == v / Range(i) % 256
  {
    if i == 0 {
      assert v / 1 == v;
    } else {
      LeByteAt(v / 256, n - 1, i - 1);
      DivideTwice(v, 256, Range(i - 1));
    }
  }

  lemma ByteOrder(n: nat, v: nat, i: nat)
    requires i < n
    ensures EncNum(true, n, v)[i] == LeBytes(v, n)[n - 1 - i]
    ensures EncNum(false, n, v)[i] == LeBytes(v, n)[i]
  {
    hide LeBytes;
  }

  /** Big-endian numbers start with their highest byte, little-endian ones with their lowest, at every width. */
  lemma NumByteAt(n: nat, v: nat, i: nat)
    requires i < n
    ensures EncNum(true, n, v)[i] == v / Range(n - 1 - i) % 256
    ensures EncNum(false, n, v)[i] == v / Range(i) % 256
  {
    hide Range, LeBytes, EncNum;
    ByteOrder(n, v, i);
    LeByteAt(v, n, n - 1 - i);
    LeByteAt(v, n, i);
  }

  lemma CongruentBelow(u: int, m: nat)
    requires 0 <= u < m
    ensures u % m == u && (u - m) % m == u
  {
    assert u - m == -1 * m + u;
  }

  /** The bits of a signed value are those of the unsigned value that is congruent to it, and back. */
  lemma SignedBits(v: int, range: nat)
    requires range > 0 && 0 - range <= 2 * v < range
    ensures 0 <= ToUnsigned(v, range) == v % range < range
    ensures ToSigned(ToUnsigned(v, range), range) == v
  {
    CongruentBelow(ToUnsigned(v, range), range);
  }

  /** Two bytes of a signed value, high byte first. */
  lemma Int16Bytes(v: int16)
    ensures EncInt16(true, v) == [v / 0x100 % 0x100, v % 0x100]
    ensures EncInt16(false, v) == [v % 0x100, v / 0x100 % 0x100]
  {
    Ranges();
    var u := ToUnsigned(v, TWO_16);
    NumByteAt(2, u, 0);
    NumByteAt(2, u, 1);
    hide EncNum;
    assert u / 0x100 % 0x100 == v / 0x100 % 0x100 && u % 0x100 == v % 0x100;
  }

  /** Four bytes of a signed value, counted from the low end, and eight. */
  lemma Int32Bytes(v: int32, i: nat)
    requires i < 4
    ensures EncInt32(true, v)[3 - i] == EncInt32(false, v)[i] == v % 0x1_0000_0000 / Range(i) % 0x100
  {
    hide Range;
    SignedBits(v, TWO_32);
    NumByteAt(4, ToUnsigned(v, TWO_32), 3 - i);
    NumByteAt(4, ToUnsigned(v, TWO_32), i);
  }

  lemma Int64Bytes(v: int64, i: nat)
    requires i < 8
    ensures EncInt64(true, v)[7 - i] == EncInt64(false, v)[i] == v % 0x1_0000_0000_0000_0000 / Range(i) % 0x100
  {
    hide Range;
    SignedBits(v, TWO_64);
    NumByteAt(8, ToUnsigned(v, TWO_64), 7 - i);
    NumByteAt(8, ToUnsigned(v, TWO_64), i);
  }

  /** The bytes of both orders are each other's reversal. */
  lemma LittleEndianIsReversed(n: nat, v: nat, i: nat)
    requires i < n
    ensures EncNum(false, n, v)[i] == EncNum(true, n, v)[n - 1 - i]
  {
  }

  // ----- variable-length numbers

  lemma {:induction false} VarByteAt(u: nat, i: nat)
    requires i < |VarBytes(u)|
    ensures VarBytes(u)[i] == u / Pow2(7 * i) % 128 + if i + 1 < |VarBytes(u)| then 128 else 0
    decreases u
  {
    if i == 0 {
      assert u / 1 == u;
    } else {
      VarByteAt(u / 128, i - 1);
      Pow2Step(7 * (i - 1));
      DivideTwice(u, 128, Pow2(7 * (i - 1)));
    }
  }

  /** A number has just as many groups of seven bits as it needs, and one when it is zero. */
  lemma {:induction false} VarBytesCount(u: nat)
    ensures var k := |VarBytes(u)|;
            u < Pow2(7 * k) && (k > 1 ==> Pow2(7 * (k - 1)) <= u)
    decreases u
  {
    Pow2Step(0);
    if u < 128 {
    } else {
      VarBytesCount(u / 128);
      var k := |VarBytes(u / 128)|;
      Pow2Step(7 * k);
      Pow2Step(7 * (k - 1));
      if k == 1 {
        assert Pow2(7 * 1) == 128;
      }
    }
  }

  /** An `int`: its 32 bits in groups of seven from the lowest on, the top bit of every byte but the last set,
      and no group more than needed. */
  lemma VarIntBytes(v: int32)
    ensures var u, bs := if v < 0 then v + 0x1_0000_0000 else v, EncVarInt(v);
            && u < Pow2(7 * |bs|) && (|bs| > 1 ==> Pow2(7 * (|bs| - 1)) <= u)
            && forall i :: 0 <= i < |bs| ==> bs[i] == u / Pow2(7 * i) % 128 + if i + 1 < |bs| then 128 else 0
  {
    var u := ToUnsigned(v, TWO_32);
    VarBytesCount(u);
    forall i: nat | i < |VarBytes(u)|
      ensures VarBytes(u)[i] == u / Pow2(7 * i) % 128 + if i + 1 < |VarBytes(u)| then 128 else 0
    {
      VarByteAt(u, i);
    }
  }

  /** Values under 128 are their own byte; -1 takes five. */
  lemma SmallVarInt(v: int32)
    ensures 0 <= v < 128 ==> EncVarInt(v) == [v]
    ensures v == -1 ==> EncVarInt(v) == [0xFF, 0xFF, 0xFF, 0xFF, 0x0F]
  {
    assert VarBytes(0xFFFF_FFFF) == [0xFF] + VarBytes(0x1FF_FFFF);
    assert VarBytes(0x1FF_FFFF) == [0xFF] + VarBytes(0x3_FFFF);
    assert VarBytes(0x3_FFFF) == [0xFF] + VarBytes(0x7FF);
    assert VarBytes(0x7FF) == [0xFF] + VarBytes(0xF);
  }

  /** What bytes stand for: their low seven bits, the first ones lowest. */
  function GroupValue(bs: bytes): nat {
    if bs == [] then 0 else bs[0] % 128 + 128 * GroupValue(bs[1..])
  }

  /** Every byte but the last has its top bit set. */
  predicate IsNumber(bs: bytes) {
    bs != [] && bs[|bs| - 1] < 128 && forall i :: 0 <= i < |bs| - 1 ==> bs[i] >= 128
  }

  lemma SplitGroup(c: nat, h: nat, low: nat)
    requires h > 0
    ensures c * low == c % h * low + c / h * (h * low)
  {
    var q, r := c / h, c % h;
    assert c == q * h + r;
    Regrouped(q, r, low, h);
    assert low * h == h * low;
  }

  lemma RemainderOfSum(a: nat, m: nat, k: nat)
    requires a < m
    ensures (a + k * m) % m == a
  {
    var n := a + k * m;
    QuotientIs(n, m, k, a);
    assert n == n / m * m + n % m;
  }

  lemma GroupInWidth(acc: nat, chunk: nat, c: nat, h: nat, low: nat, m: nat)
    requires h > 0 && m == h * low && chunk == c % h * low && acc + chunk < m
    ensures (acc + c * low) % m == acc + chunk
  {
    SplitGroup(c, h, low);
    RemainderOfSum(acc + chunk, m, c / h);
  }

  /** The last group, of which only the bits below the width count. */
  lemma LastGroup(bits: nat, b: byte, shift: nat, acc: nat)
    requires shift < bits && acc < Pow2(shift)
    ensures acc + Chunk(bits, b, shift) == (acc + b % 128 * Pow2(shift)) % Pow2(bits)
  {
    hide Pow2;
    Pow2Add(bits - shift, shift);
    ChunkFits(bits, b, shift, acc);
    GroupInWidth(acc, Chunk(bits, b, shift), b % 128, Pow2(bits - shift), Pow2(shift), Pow2(bits));
  }

  lemma NextGroup(low: nat, more: nat, shift: nat)
    ensures low * Pow2(shift) + more * Pow2(shift + 7) == (low + 128 * more) * Pow2(shift)
  {
    Pow2Step(shift);
    var p := Pow2(shift);
    assert more * (128 * p) == 128 * more * p;
    assert (low + 128 * more) * p == low * p + 128 * more * p;
  }

  lemma {:induction false} ReadsGroupsFrom(bits: nat, bs: bytes, rest: bytes, shift: nat, acc: nat)
    requires IsNumber(bs) && shift + 7 * (|bs| - 1) < bits && acc < Pow2(shift)
    ensures DecVarFrom(bits, bs + rest, shift, acc) == Got((acc + GroupValue(bs) * Pow2(shift)) % Pow2(bits), rest)
    decreases |bs|
  {
    hide Pow2, Chunk, DecVarFrom;
    var all, b := bs + rest, bs[0];
    DecVarStep(bits, all, shift, acc);
    assert all[0] == b && all[1..] == bs[1..] + rest;
    if |bs| == 1 {
      assert bs[1..] == [] && [] + rest == rest;
      LastGroup(bits, b, shift, acc);
    } else {
      ChunkFits(bits, b, shift, acc);
      ReadsGroupsFrom(bits, bs[1..], rest, shift + 7, acc + Chunk(bits, b, shift));
      NextGroup(b % 128, GroupValue(bs[1..]), shift);
    }
  }

  /** Reading any number of no more bytes than its width can need, minimal or not, gives its groups modulo two to
      the width, and leaves what follows. */
  lemma ReadsGroups(bits: nat, bs: bytes, rest: bytes)
    requires IsNumber(bs) && 7 * (|bs| - 1) < bits
    ensures DecVar(bits, bs + rest) == Got(GroupValue(bs) % Pow2(bits), rest)
  {
    assert Pow2(0) == 1;
    hide Pow2, GroupValue, DecVarFrom;
    ReadsGroupsFrom(bits, bs, rest, 0, 0);
  }

  lemma {:induction false} ReadsTooLongFrom(bits: nat, bs: bytes, rest: bytes, shift: nat, acc: nat)
    requires bs != [] && forall i :: 0 <= i < |bs| ==> bs[i] >= 128
    requires shift + 7 * (|bs| - 1) < bits <= shift + 7 * |bs| && acc < Pow2(shift)
    ensures DecVarFrom(bits, bs + rest, shift, acc) == Got(0, rest)
    decreases |bs|
  {
    hide Pow2, Chunk, DecVarFrom;
    var all := bs + rest;
    DecVarStep(bits, all, shift, acc);
    assert all[0] == bs[0] && all[1..] == bs[1..] + rest;
    if |bs| == 1 {
      assert bs[1..] == [] && [] + rest == rest;
    } else {
      ReadsTooLongFrom(bits, bs[1..], rest, shift + 7, acc + Chunk(bits, bs[0], shift));
    }
  }

  /** Bytes with their top bits set that fill the width read as zero: five of them for 32 bits, ten for 64. */
  lemma ReadsTooLong(bits: nat, bs: bytes, rest: bytes)
    requires bs != [] && forall i :: 0 <= i < |bs| ==> bs[i] >= 128
    requires 7 * (|bs| - 1) < bits <= 7 * |bs|
    ensures DecVar(bits, bs + rest) == Got(0, rest)
  {
    assert Pow2(0) == 1;
    ReadsTooLongFrom(bits, bs, rest, 0, 0);
  }

  // ----- sizes, texts and arrays

  /** A size cast to `int` is congruent to it, and the same below 2^31. */
  lemma SizeIsCongruent(n: nat)
    ensures (SizeAsInt(n) - n) % 0x1_0000_0000 == 0
    ensures SizeAsInt(n) == n <==> n < 0x8000_0000
  {
  }

  lemma TwoBytes(n: nat)
    requires n < 0x1_0000
    ensures EncNum(true, 2, n) == [n / 0x100, n % 0x100]
    ensures EncNum(false, 2, n) == [n % 0x100, n / 0x100]
  {
    Ranges();
    NumByteAt(2, n, 0);
    NumByteAt(2, n, 1);
    hide EncNum;
    assert n / 0x100 % 0x100 == n / 0x100;
  }

  /** A text is its variable-length size and its bytes. */
  lemma TextBytes(s: bytes)
    requires |s| < 0x8000_0000
    ensures EncString(s) == VarBytes(|s|) + s
  {
    SizeIsCongruent(|s|);
    hide VarBytes, SizeAsInt;
  }

  /** A short text is its size in 16 bits, in the byte order of the buffer, and its bytes. */
  lemma ShortTextBytes(s: bytes)
    requires |s| < 0x1_0000
    ensures EncShortString(true, s) == [|s| / 0x100, |s| % 0x100] + s
    ensures EncShortString(false, s) == [|s| % 0x100, |s| / 0x100] + s
  {
    hide EncNum;
    TwoBytes(|s|);
  }

  /** The elements of an array follow each other in order. */
  lemma OneMoreElement<T>(enc: T -> bytes, xs: seq<T>, x: T)
    ensures EncArray(enc, []) == [] && EncArray(enc, xs + [x]) == EncArray(enc, xs) + enc(x)
  {
    var ys := xs + [x];
    assert ys[..|xs| + 1] == ys && ys[..|xs|] == xs;
    EncArraySnoc(enc, ys, |xs|);
  }

  /** They stand behind their count. */
  lemma CountInFront<T>(enc: T -> bytes, xs: seq<T>)
    requires |xs| < 0x8000_0000
    ensures EncPrefixedArray(enc, xs) == VarBytes(|xs|) + EncArray(enc, xs)
  {
    SizeIsCongruent(|xs|);
    hide VarBytes, SizeAsInt, EncArray;
  }
}
