/**
  Words as numbers: a word stands for the sum of the powers of two of its bits. This is what a conversion
  between a word and a number means.
 */
module WordNumbers {
  import opened Bits
  import opened Numeric
  import opened VarNumeric

  /** The value of the low `n` bits. */
  function ValueOf(w: word, n: nat): (v: nat)
    ensures v < Pow2(n)
    decreases n
  {
    if n == 0 then 0 else ValueOf(w, n - 1) + if Bit(w, n - 1) then Pow2(n - 1) else 0
  }

  /** The word whose low `n` bits have the value `v`. */
  function WordOf(v: nat, n: nat): word
    decreases n
  {
    if n == 0 then 0 else Or(Double(WordOf(v / 2, n - 1)), if v % 2 == 1 then 1 else 0)
  }

  /** The value depends on the low bits only. */
  lemma {:induction false} SameLowBits(x: word, y: word, n: nat)
    requires forall k: nat :: k < n ==> (Bit(x, k) <==> Bit(y, k))
    ensures ValueOf(x, n) == ValueOf(y, n)
    decreases n
  {
    hide Bit;
    if n == 0 {
    } else {
      SameLowBits(x, y, n - 1);
    }
  }

  function Unit(odd: bool): word {
    if odd then 1 else 0
  }

  lemma BitOfUnit(odd: bool, k: nat)
    requires k < WIDTH
    ensures Bit(Unit(odd), k) <==> odd && k == 0
  {
    ZeroLaws(Mask(k));
    BitOfMask(k, 0);
    assert Mask(0) == 1;
    hide Mask, And;
  }

  /** Doubling a word and adding a lowest bit doubles its value and adds that bit. */
  lemma {:induction false} ValueOfDouble(w: word, odd: bool, n: nat)
    requires n < WIDTH
    ensures ValueOf(Or(Double(w), Unit(odd)), n + 1) == (if odd then 1 else 0) + 2 * ValueOf(w, n)
    decreases n
  {
    hide Bit, Or, Double, Unit;
    BitOr(Double(w), Unit(odd), n);
    BitOfUnit(odd, n);
    BitDouble(w, n);
    if n == 0 {
      assert ValueOf(Or(Double(w), Unit(odd)), 0) == 0;
    } else {
      ValueOfDouble(w, odd, n - 1);
    }
  }

  lemma {:induction false} ValueOfHalf(w: word, n: nat)
    requires n < WIDTH
    ensures ValueOf(w, n + 1) == (if Bit(w, 0) then 1 else 0) + 2 * ValueOf(Half(w), n)
    decreases n
  {
    hide Bit, Half;
    if n == 0 {
      assert ValueOf(w, 0) == 0;
    } else {
      ValueOfHalf(w, n - 1);
      BitHalf(w, n - 1);
    }
  }

  lemma {:induction false} ValueOfNot(w: word, n: nat)
    requires n <= WIDTH
    ensures ValueOf(Not(w), n) == Pow2(n) - 1 - ValueOf(w, n)
    decreases n
  {
    hide Bit, Not;
    if n == 0 {
    } else {
      ValueOfNot(w, n - 1);
      BitNot(w, n - 1);
    }
  }

  /** The two conversions are inverse. */
  lemma {:induction false} ValueOfWordOf(v: nat, n: nat)
    requires n <= WIDTH && v < Pow2(n)
    ensures ValueOf(WordOf(v, n), n) == v
    decreases n
  {
    hide Bit, Or, Double;
    if n == 0 {
    } else {
      ValueOfWordOf(v / 2, n - 1);
      ValueOfDouble(WordOf(v / 2, n - 1), v % 2 == 1, n - 1);
    }
  }

  /** A word has more bits than another of the same value only above `n`. */
  lemma {:induction false} SameValueSameBits(x: word, y: word, n: nat, k: nat)
    requires ValueOf(x, n) == ValueOf(y, n) && k < n
    ensures Bit(x, k) <==> Bit(y, k)
    decreases n
  {
    hide Bit;
    assert Pow2(n) == 2 * Pow2(n - 1);
    if k == n - 1 {
    } else {
      SameValueSameBits(x, y, n - 1, k);
    }
  }

  lemma SameValueSameWord(x: word, y: word)
    requires ValueOf(x, 64) == ValueOf(y, 64)
    ensures x == y
  {
    hide Bit, ValueOf;
    forall k: nat | k < WIDTH ensures Bit(x, k) <==> Bit(y, k) {
      SameValueSameBits(x, y, 64, k);
    }
    WordIsItsBits(x, y);
  }

  lemma WordOfValueOf(w: word)
    ensures WordOf(ValueOf(w, 64), 64) == w
  {
    hide ValueOf, WordOf, Pow2;
    ValueOfWordOf(ValueOf(w, 64), 64);
    SameValueSameWord(WordOf(ValueOf(w, 64), 64), w);
  }
}
