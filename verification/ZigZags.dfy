/**
  The ZigZag expressions on machine words, and their meaning as numbers.
 */
module ZigZags {
  import opened Bits
  import opened Numeric
  import opened VarNumeric
  import opened WordNumbers

  // ----- in terms of numbers

  /** ZigZag of a number given by its bits below the sign bit, which is worth `p`. */
  lemma ZigZagOfParts(low: nat, p: nat)
    requires low < p
    ensures ZigZag(ToSigned(low, 2 * p)) == 2 * low
    ensures ZigZag(ToSigned(low + p, 2 * p)) == 1 + 2 * (p - 1 - low)
    ensures ToSigned(low, 2 * p) == UnZigZag(2 * low)
    ensures ToSigned(2 * p - 1 - low, 2 * p) == UnZigZag(2 * low + 1)
  {
  }

  lemma ValueStep(w: word, n: nat)
    requires n > 0
    ensures Pow2(n) == 2 * Pow2(n - 1)
    ensures ValueOf(w, n) == if Bit(w, n - 1) then ValueOf(w, n - 1) + Pow2(n - 1) else ValueOf(w, n - 1)
  {
    hide Bit;
  }

  /** Doubling, with the complement taken for negative values, is ZigZag on the signed value. */
  lemma DoubledMeaning(v: word, n: nat)
    requires 0 < n <= WIDTH
    ensures var signed := ToSigned(ValueOf(v, n), Pow2(n));
            && (!Bit(v, n - 1) ==> ValueOf(Or(Double(v), Unit(false)), n) == ZigZag(signed))
            && (Bit(v, n - 1) ==> ValueOf(Or(Double(Not(v)), Unit(true)), n) == ZigZag(signed))
  {
    hide *;
    ValueStep(v, n);
    ValueOfDouble(v, false, n - 1);
    ValueOfDouble(Not(v), true, n - 1);
    ValueOfNot(v, n - 1);
    ZigZagOfParts(ValueOf(v, n - 1), Pow2(n - 1));
  }

  /** Halving, with the complement taken for odd values, undoes it. */
  lemma HalvedMeaning(u: word, n: nat)
    requires 0 < n <= WIDTH && (n < WIDTH ==> !Bit(u, n))
    ensures var signed := UnZigZag(ValueOf(u, n));
            && (!Bit(u, 0) ==> ToSigned(ValueOf(Half(u), n), Pow2(n)) == signed)
            && (Bit(u, 0) ==> ToSigned(ValueOf(Not(Half(u)), n), Pow2(n)) == signed)
  {
    hide *;
    ValueOfHalf(u, n - 1);
    BitHalf(u, n - 1);
    ValueStep(Half(u), n);
    ValueOfNot(Half(u), n);
    ZigZagOfParts(ValueOf(Half(u), n - 1), Pow2(n - 1));
  }

  // ----- 64 bits

  /** `value >> 63` of a signed value: every bit is the sign bit. */
  function SignFill64(v: bv64): bv64 {
    if v & 0x8000_0000_0000_0000 == 0 then 0 else 0xFFFF_FFFF_FFFF_FFFF
  }

  function ZigZag64(v: bv64): bv64 {
    (v << 1) ^ SignFill64(v)
  }

  function UnZigZag64(u: bv64): bv64 {
    (u >> 1) ^ (0 - (u & 1))
  }

  predicate Negative64(v: bv64) {
    v & 0x8000_0000_0000_0000 != 0
  }

  lemma ZigZag64Cases(v: bv64)
    ensures !Negative64(v) ==> ZigZag64(v) == v << 1
    ensures Negative64(v) ==> ZigZag64(v) == (!v << 1) | 1
  {
  }

  lemma UnZigZag64Cases(u: bv64)
    ensures u & 1 == 0 ==> UnZigZag64(u) == u >> 1
    ensures u & 1 != 0 ==> UnZigZag64(u) == !(u >> 1)
  {
  }

  lemma HalfOfDouble64(v: bv64)
    ensures (v << 1) & 1 == 0 && ((v << 1) | 1) & 1 != 0
    ensures v & 0x8000_0000_0000_0000 == 0 ==> (v << 1) >> 1 == v && ((v << 1) | 1) >> 1 == v
  {
  }

  lemma NotTwice64(v: bv64)
    ensures !!v == v && (Negative64(v) ==> !v & 0x8000_0000_0000_0000 == 0)
  {
  }

  lemma HalfIsNotNegative64(u: bv64)
    ensures (u >> 1) & 0x8000_0000_0000_0000 == 0 && !(u >> 1) & 0x8000_0000_0000_0000 != 0
  {
  }

  lemma DoubleOfHalf64(u: bv64)
    ensures u & 1 == 0 ==> (u >> 1) << 1 == u
    ensures u & 1 != 0 ==> ((u >> 1) << 1) | 1 == u
  {
  }

  lemma TopClear64(v: bv64)
    ensures Negative64(v) <==> v & 0x8000_0000_0000_0000 != 0
  {
  }

  lemma ZigZag64There(v: bv64)
    ensures UnZigZag64(ZigZag64(v)) == v
  {
    hide *;
    ZigZag64Cases(v);
    UnZigZag64Cases(ZigZag64(v));
    NotTwice64(v);
    HalfOfDouble64(if Negative64(v) then !v else v);
    TopClear64(v);
  }

  lemma ZigZag64Back(u: bv64)
    ensures ZigZag64(UnZigZag64(u)) == u
  {
    hide *;
    UnZigZag64Cases(u);
    ZigZag64Cases(UnZigZag64(u));
    TopClear64(u >> 1);
    TopClear64(!(u >> 1));
    HalfIsNotNegative64(u);
    NotTwice64(u >> 1);
    DoubleOfHalf64(u);
  }

  /** The expressions undo each other on all 64-bit words. */
  lemma ZigZag64Inverse(v: bv64, u: bv64)
    ensures UnZigZag64(ZigZag64(v)) == v
    ensures ZigZag64(UnZigZag64(u)) == u
  {
    hide *;
    ZigZag64There(v);
    ZigZag64Back(u);
  }

  /** The bits that decide: the sign bit and the lowest one. */
  lemma DecidingBits64(v: bv64)
    ensures Negative64(v) <==> Bit(v, 63)
    ensures v & 1 != 0 <==> Bit(v, 0)
  {
    TopMask();
    assert Mask(0) == 1;
    hide Mask;
  }

  lemma NamedOperators64(v: bv64)
    ensures v << 1 == Or(Double(v), Unit(false)) && (!v << 1) | 1 == Or(Double(Not(v)), Unit(true))
    ensures v >> 1 == Half(v) && !(v >> 1) == Not(Half(v))
  {
  }

  /** On the numbers that the words stand for, the expressions are ZigZag and its inverse. */
  lemma ZigZag64Meaning(v: bv64, u: bv64)
    ensures ValueOf(ZigZag64(v), 64) == ZigZag(ToSigned(ValueOf(v, 64), TWO_64))
    ensures ToSigned(ValueOf(UnZigZag64(u), 64), TWO_64) == UnZigZag(ValueOf(u, 64))
  {
    hide ZigZag64, UnZigZag64, Or, Double, Not, Half, Unit, Bit, ValueOf, Negative64, ZigZag, UnZigZag, ToSigned, Pow2;
    Widths();
    DoubledMeaning(v, 64);
    HalvedMeaning(u, 64);
    DecidingBits64(v);
    DecidingBits64(u);
    ZigZag64Cases(v);
    UnZigZag64Cases(u);
    NamedOperators64(v);
    NamedOperators64(u);
  }

  /** Below the sign bit the result is twice the word; above, it is twice the complement and one. */
  lemma ZigZag64Arithmetic(v: bv64)
    ensures v < 0x8000_0000_0000_0000 ==> ZigZag64(v) == v + v
    ensures v >= 0x8000_0000_0000_0000 ==>
              ZigZag64(v) == (0xFFFF_FFFF_FFFF_FFFF - v) + (0xFFFF_FFFF_FFFF_FFFF - v) + 1
  {
  }

  // ----- 32 bits

  /** `value >> 31` of a signed value: every bit is the sign bit. */
  function SignFill32(v: bv32): bv32 {
    if v & 0x8000_0000 == 0 then 0 else 0xFFFF_FFFF
  }

  function ZigZag32(v: bv32): bv32 {
    (v << 1) ^ SignFill32(v)
  }

  function UnZigZag32(u: bv32): bv32 {
    (u >> 1) ^ (0 - (u & 1))
  }

  lemma ZigZag32Arithmetic(v: bv32)
    ensures v < 0x8000_0000 ==> ZigZag32(v) == v + v
    ensures v >= 0x8000_0000 ==> ZigZag32(v) == (0xFFFF_FFFF - v) + (0xFFFF_FFFF - v) + 1
  {
  }

  predicate Negative32(v: bv32) {
    v & 0x8000_0000 != 0
  }

  lemma ZigZag32Cases(v: bv32)
    ensures !Negative32(v) ==> ZigZag32(v) == v << 1
    ensures Negative32(v) ==> ZigZag32(v) == (!v << 1) | 1
  {
  }

  lemma UnZigZag32Cases(u: bv32)
    ensures u & 1 == 0 ==> UnZigZag32(u) == u >> 1
    ensures u & 1 != 0 ==> UnZigZag32(u) == !(u >> 1)
  {
  }

  lemma HalfOfDouble32(v: bv32)
    ensures (v << 1) & 1 == 0 && ((v << 1) | 1) & 1 != 0
    ensures v & 0x8000_0000 == 0 ==> (v << 1) >> 1 == v && ((v << 1) | 1) >> 1 == v
  {
  }

  lemma NotTwice32(v: bv32)
    ensures !!v == v && (Negative32(v) ==> !v & 0x8000_0000 == 0)
  {
  }

  lemma HalfIsNotNegative32(u: bv32)
    ensures (u >> 1) & 0x8000_0000 == 0 && !(u >> 1) & 0x8000_0000 != 0
  {
  }

  lemma DoubleOfHalf32(u: bv32)
    ensures u & 1 == 0 ==> (u >> 1) << 1 == u
    ensures u & 1 != 0 ==> ((u >> 1) << 1) | 1 == u
  {
  }

  lemma TopClear32(v: bv32)
    ensures Negative32(v) <==> v & 0x8000_0000 != 0
  {
  }

  lemma ZigZag32There(v: bv32)
    ensures UnZigZag32(ZigZag32(v)) == v
  {
    hide *;
    ZigZag32Cases(v);
    UnZigZag32Cases(ZigZag32(v));
    NotTwice32(v);
    HalfOfDouble32(if Negative32(v) then !v else v);
    TopClear32(v);
  }

  lemma ZigZag32Back(u: bv32)
    ensures ZigZag32(UnZigZag32(u)) == u
  {
    hide *;
    UnZigZag32Cases(u);
    ZigZag32Cases(UnZigZag32(u));
    TopClear32(u >> 1);
    TopClear32(!(u >> 1));
    HalfIsNotNegative32(u);
    NotTwice32(u >> 1);
    DoubleOfHalf32(u);
  }

  /** The expressions undo each other on all 32-bit words. */
  lemma ZigZag32Inverse(v: bv32, u: bv32)
    ensures UnZigZag32(ZigZag32(v)) == v
    ensures ZigZag32(UnZigZag32(u)) == u
  {
    hide *;
    ZigZag32There(v);
    ZigZag32Back(u);
  }

  // ----- 32-bit words as the low half of 64-bit ones

  const LOW: word := 0xFFFF_FFFF

  function Widened(v: bv32): word {
    v as word
  }

  lemma WidenedDouble(v: bv32)
    ensures Widened(v << 1) == And(Or(Double(Widened(v)), Unit(false)), LOW)
    ensures Widened((v << 1) | 1) == And(Or(Double(Widened(v)), Unit(true)), LOW)
  {
  }

  lemma WidenedNot(v: bv32)
    ensures Widened((!v << 1) | 1) == And(Or(Double(Not(Widened(v))), Unit(true)), LOW)
  {
  }

  lemma WidenedHalf(u: bv32)
    ensures Widened(u >> 1) == Half(Widened(u))
    ensures Widened(!(u >> 1)) == And(Not(Half(Widened(u))), LOW)
  {
  }

  lemma WidenedIsLow(v: bv32)
    ensures Widened(v) == And(Widened(v), LOW)
  {
  }

  lemma LowMask()
    ensures Pred(Mask(32)) == LOW
    ensures Mask(31) == 0x8000_0000
  {
    assert Mask(8) == 0x100;
    assert Mask(16) == 0x1_0000;
    assert Mask(24) == 0x100_0000;
  }

  lemma LowBits(x: word, n: nat)
    requires n <= 32
    ensures ValueOf(And(x, LOW), n) == ValueOf(x, n)
    ensures !Bit(And(x, LOW), 32)
  {
    hide Bit, And, Pred, Mask, ValueOf;
    LowMask();
    var y := And(x, LOW);
    forall k: nat | k < n ensures Bit(y, k) <==> Bit(x, k) {
      BitAnd(x, LOW, k);
      BitBelow(32, k);
    }
    SameLowBits(y, x, n);
    BitAnd(x, LOW, 32);
    BitBelow(32, 32);
  }

  function ValueOf32(v: bv32): (n: nat)
    ensures n < Pow2(32)
  {
    ValueOf(Widened(v), 32)
  }

  /** The 32-bit word whose low `n` bits have the value `v`. */
  function WordOf32(v: nat, n: nat): bv32
    decreases n
  {
    if n == 0 then 0 else (WordOf32(v / 2, n - 1) << 1) | if v % 2 == 1 then 1 else 0
  }

  lemma WordStep32(v: nat, n: nat)
    requires n > 0
    ensures Widened(WordOf32(v, n)) == And(Or(Double(Widened(WordOf32(v / 2, n - 1))), Unit(v % 2 == 1)), LOW)
  {
    var y := WordOf32(v / 2, n - 1);
    WidenedDouble(y);
    assert WordOf32(v, n) == if v % 2 == 1 then (y << 1) | 1 else (y << 1) | 0;
    assert (y << 1) | 0 == y << 1;
    hide Widened, And, Or, Double, Unit;
  }

  lemma {:induction false} ValueOfWordOf32(v: nat, n: nat)
    requires n <= 32 && v < Pow2(n)
    ensures ValueOf(Widened(WordOf32(v, n)), n) == v
    decreases n
  {
    hide Bit, Or, And, Double, Unit, Widened, WordOf32;
    if n == 0 {
    } else {
      ValueOfWordOf32(v / 2, n - 1);
      WordStep32(v, n);
      var y := Widened(WordOf32(v / 2, n - 1));
      LowBits(Or(Double(y), Unit(v % 2 == 1)), n);
      ValueOfDouble(y, v % 2 == 1, n - 1);
    }
  }

  lemma DecidingBits32(v: bv32)
    ensures Negative32(v) <==> Bit(Widened(v), 31)
    ensures v & 1 != 0 <==> Bit(Widened(v), 0)
  {
    LowMask();
    assert Mask(0) == 1;
    hide Mask;
  }

  /** On the numbers that the words stand for, the expressions are ZigZag and its inverse. */
  lemma ZigZag32Meaning(v: bv32, u: bv32)
    ensures ValueOf32(ZigZag32(v)) == ZigZag(ToSigned(ValueOf32(v), TWO_32))
    ensures ToSigned(ValueOf32(UnZigZag32(u)), TWO_32) == UnZigZag(ValueOf32(u))
  {
    hide ZigZag32, UnZigZag32, Widened, Or, Double, Not, Half, And, Unit, Bit, ValueOf, Negative32, ZigZag, UnZigZag;
    hide ToSigned, Pow2;
    Widths();
    var x, y := Widened(v), Widened(u);
    WidenedIsLow(u);
    LowBits(y, 32);
    DoubledMeaning(x, 32);
    HalvedMeaning(y, 32);
    DecidingBits32(v);
    DecidingBits32(u);
    ZigZag32Cases(v);
    UnZigZag32Cases(u);
    WidenedDouble(v);
    WidenedNot(v);
    WidenedHalf(u);
    LowBits(Or(Double(x), Unit(false)), 32);
    LowBits(Or(Double(Not(x)), Unit(true)), 32);
    LowBits(Not(Half(y)), 32);
  }

  // ----- the words of numbers

  lemma UnsignedAsWord32(v: nat)
    requires v < Pow2(32)
    ensures ValueOf32(WordOf32(v, 32)) == v
  {
    hide ValueOf, WordOf32;
    ValueOfWordOf32(v, 32);
  }

  lemma IntAsWord(v: int32)
    ensures ToSigned(ValueOf32(WordOf32(ToUnsigned(v, TWO_32), 32)), TWO_32) == v
  {
    hide ValueOf32, WordOf32, Pow2;
    Widths();
    UnsignedAsWord32(ToUnsigned(v, TWO_32));
  }

  lemma LongAsWord(v: int64)
    ensures ToSigned(ValueOf(WordOf(ToUnsigned(v, TWO_64), 64), 64), TWO_64) == v
  {
    hide ValueOf, WordOf, Pow2;
    Widths();
    ValueOfWordOf(ToUnsigned(v, TWO_64), 64);
  }
}
