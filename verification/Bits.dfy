/**
  The bits of a 64-bit word: what masks, shifts and the counting built-ins of the compiler say about them.
 */
module Bits {
  type word = bv64

  const WIDTH: nat := 64

  function Double(x: word): word { x << 1 }

  /** `1ULL << k`. */
  function Mask(k: nat): word
    decreases k
  {
    if k == 0 then 1 else Double(Mask(k - 1))
  }

  /** `w << k`. */
  function ShiftLeft(w: word, k: nat): word
    decreases k
  {
    if k == 0 then w else Double(ShiftLeft(w, k - 1))
  }

  function Half(x: word): word { x >> 1 }

  /** `w >> k`. */
  function ShiftRight(w: word, k: nat): word
    decreases k
  {
    if k == 0 then w else ShiftRight(Half(w), k - 1)
  }

  /** The operators of the machine, named so that proofs can keep them closed. */
  function And(x: word, y: word): word { x & y }

  function Or(x: word, y: word): word { x | y }

  function Xor(x: word, y: word): word { x ^ y }

  function Not(x: word): word { !x }

  function Pred(x: word): word { x - 1 }

  predicate AtMost(x: word, y: word) { x <= y }

  predicate Bit(w: word, k: nat) {
    And(w, Mask(k)) != 0
  }

  // ----- facts about the operators

  lemma MeansAnd(x: word, y: word)
    ensures And(x, y) == x & y
  {
  }

  lemma MeansOr(x: word, y: word)
    ensures Or(x, y) == x | y
  {
  }

  lemma MeansXor(x: word, y: word)
    ensures Xor(x, y) == x ^ y
  {
  }

  lemma DoubledMask(w: word, m: word)
    ensures And(Half(w), m) != 0 <==> And(w, Double(m)) != 0
  {
  }

  lemma DoubledWord(w: word, m: word)
    requires Double(m) != 0 && And(m, Pred(m)) == 0
    ensures And(Double(w), Double(m)) != 0 <==> And(w, m) != 0
  {
  }

  lemma DoubledOdd(w: word)
    ensures And(Double(w), 1) == 0 && And(1, Double(w)) == 0
  {
  }

  lemma DisjointDoubled(a: word, b: word)
    requires And(a, b) == 0
    ensures And(Double(a), Double(b)) == 0
  {
  }

  lemma PredecessorDoubled(m: word)
    requires And(m, Pred(m)) == 0 && Double(m) != 0
    ensures And(Double(m), Pred(Double(m))) == 0
    ensures Pred(Double(m)) == Or(m, Pred(m))
  {
  }

  lemma RawAndOverOr(x: word, y: word, m: word)
    ensures (x | y) & m == (x & m) | (y & m)
  {
  }

  lemma AndOverOr(x: word, y: word, m: word)
    ensures And(Or(x, y), m) == Or(And(x, m), And(y, m))
  {
    hide *;
    RawAndOverOr(x, y, m);
    MeansOr(x, y);
    MeansAnd(x | y, m);
    MeansAnd(x, m);
    MeansAnd(y, m);
    MeansOr(x & m, y & m);
  }

  lemma OrZero(x: word, y: word)
    ensures Or(x, y) == 0 <==> x == 0 && y == 0
  {
  }

  lemma RawAndOverAnd(x: word, y: word, m: word)
    ensures (x & y) & m == (x & m) & (y & m)
  {
  }

  lemma AndOverAnd(x: word, y: word, m: word)
    ensures And(And(x, y), m) == And(And(x, m), And(y, m))
  {
    hide *;
    RawAndOverAnd(x, y, m);
    MeansAnd(x, y);
    MeansAnd(x & y, m);
    MeansAnd(x, m);
    MeansAnd(y, m);
    MeansAnd(x & m, y & m);
  }

  lemma RawAndOverXor(x: word, y: word, m: word)
    ensures (x ^ y) & m == (x & m) ^ (y & m)
  {
  }

  lemma AndOverXor(x: word, y: word, m: word)
    ensures And(Xor(x, y), m) == Xor(And(x, m), And(y, m))
  {
    hide *;
    RawAndOverXor(x, y, m);
    MeansXor(x, y);
    MeansAnd(x ^ y, m);
    MeansAnd(x, m);
    MeansAnd(y, m);
    MeansXor(x & m, y & m);
  }

  lemma NotIsXor(x: word)
    ensures Not(x) == Xor(x, 0xFFFF_FFFF_FFFF_FFFF)
  {
  }

  lemma AllOnes(m: word)
    ensures And(0xFFFF_FFFF_FFFF_FFFF, m) == m
  {
  }

  lemma ZeroLaws(m: word)
    ensures And(m, m) == m && And(0, m) == 0 && And(m, 0) == 0
    ensures Xor(m, m) == 0 && Xor(0, m) == m && Xor(m, 0) == m
  {
  }

  lemma AndWithAll(w: word)
    ensures And(w, Not(0)) == w
  {
  }

  lemma AndWithNone(w: word)
    ensures And(0, w) == 0 && And(w, 0) == 0
  {
  }

  lemma OrWithNone(w: word)
    ensures Or(w, 0) == w
  {
  }

  lemma XorWithNone(w: word)
    ensures Xor(w, 0) == w
  {
  }

  lemma XorZero(x: word, y: word)
    requires Xor(x, y) == 0
    ensures x == y
  {
  }

  lemma AndCommutes(x: word, y: word)
    ensures And(x, y) == And(y, x)
  {
  }

  lemma SingleBit(w: word, m: word)
    requires And(m, Pred(m)) == 0
    ensures And(w, m) == 0 || And(w, m) == m
  {
  }

  lemma HalfZero(w: word)
    requires And(w, 1) == 0 && Half(w) == 0
    ensures w == 0
  {
  }

  lemma HalfOrder(x: word, y: word)
    requires AtMost(x, y)
    ensures AtMost(Half(x), Half(y))
  {
  }

  // ----- masks

  lemma TopMask()
    ensures Mask(63) == 0x8000_0000_0000_0000
  {
    assert Mask(8) == 0x100;
    assert Mask(16) == 0x1_0000;
    assert Mask(24) == 0x100_0000;
    assert Mask(32) == 0x1_0000_0000;
    assert Mask(40) == 0x100_0000_0000;
    assert Mask(48) == 0x1_0000_0000_0000;
    assert Mask(56) == 0x100_0000_0000_0000;
  }

  lemma {:induction false} MaskNonZero(k: nat)
    requires k < WIDTH
    ensures Mask(k) != 0
    decreases WIDTH - k
  {
    if k == 63 {
      TopMask();
    } else {
      MaskNonZero(k + 1);
      assert Mask(k + 1) == Double(Mask(k));
    }
  }

  /** The mask of every bit of the word is a single bit. */
  lemma {:induction false} MaskIsOneBit(k: nat)
    requires k < WIDTH
    ensures Mask(k) != 0 && And(Mask(k), Pred(Mask(k))) == 0
  {
    MaskNonZero(k);
    if k == 0 {
    } else {
      hide And, Pred, Double, Or;
      MaskIsOneBit(k - 1);
      PredecessorDoubled(Mask(k - 1));
    }
  }

  lemma {:induction false} MasksDisjoint(j: nat, k: nat)
    requires j < k
    ensures And(Mask(j), Mask(k)) == 0
  {
    hide And, Double;
    if j == 0 {
      DoubledOdd(Mask(k - 1));
    } else {
      MasksDisjoint(j - 1, k - 1);
      DisjointDoubled(Mask(j - 1), Mask(k - 1));
    }
  }

  // ----- bits of the results of the operators

  lemma BitOfMask(j: nat, k: nat)
    requires j < WIDTH && k < WIDTH
    ensures Bit(Mask(k), j) <==> j == k
  {
    hide And, Mask;
    MaskIsOneBit(k);
    ZeroLaws(Mask(k));
    AndCommutes(Mask(j), Mask(k));
    if j < k {
      MasksDisjoint(j, k);
    } else if k < j {
      MasksDisjoint(k, j);
    }
  }

  lemma BitOr(x: word, y: word, k: nat)
    ensures Bit(Or(x, y), k) <==> Bit(x, k) || Bit(y, k)
  {
    hide And, Or, Mask;
    AndOverOr(x, y, Mask(k));
    OrZero(And(x, Mask(k)), And(y, Mask(k)));
  }

  lemma BitAnd(x: word, y: word, k: nat)
    requires k < WIDTH
    ensures Bit(And(x, y), k) <==> Bit(x, k) && Bit(y, k)
  {
    hide And, Mask, Pred;
    MaskIsOneBit(k);
    SingleBit(x, Mask(k));
    SingleBit(y, Mask(k));
    AndOverAnd(x, y, Mask(k));
    ZeroLaws(Mask(k));
    ZeroLaws(0);
  }

  lemma BitXor(x: word, y: word, k: nat)
    requires k < WIDTH
    ensures Bit(Xor(x, y), k) <==> Bit(x, k) != Bit(y, k)
  {
    hide And, Xor, Mask, Pred;
    MaskIsOneBit(k);
    SingleBit(x, Mask(k));
    SingleBit(y, Mask(k));
    AndOverXor(x, y, Mask(k));
    ZeroLaws(Mask(k));
    ZeroLaws(0);
  }

  lemma BitNot(x: word, k: nat)
    requires k < WIDTH
    ensures Bit(Not(x), k) <==> !Bit(x, k)
  {
    hide And, Xor, Not, Mask;
    MaskIsOneBit(k);
    NotIsXor(x);
    AllOnes(Mask(k));
    BitXor(x, 0xFFFF_FFFF_FFFF_FFFF, k);
  }

  lemma BitHalf(w: word, k: nat)
    requires k < WIDTH
    ensures Bit(Half(w), k) <==> k + 1 < WIDTH && Bit(w, k + 1)
  {
    assert Mask(k + 1) == Double(Mask(k));
    if k == 63 {
      TopMask();
      assert Double(0x8000_0000_0000_0000) == 0;
    }
    hide And, Half, Double, Mask;
    DoubledMask(w, Mask(k));
    ZeroLaws(w);
  }

  lemma BitDouble(w: word, k: nat)
    requires k < WIDTH
    ensures Bit(Double(w), k) <==> k > 0 && Bit(w, k - 1)
  {
    hide And, Double, Pred;
    if k == 0 {
      DoubledOdd(w);
    } else {
      assert Mask(k) == Double(Mask(k - 1));
      MaskIsOneBit(k);
      MaskIsOneBit(k - 1);
      DoubledWord(w, Mask(k - 1));
    }
  }

  lemma {:induction false} BitShiftRight(w: word, n: nat, k: nat)
    requires k < WIDTH
    ensures Bit(ShiftRight(w, n), k) <==> n + k < WIDTH && Bit(w, n + k)
    decreases n
  {
    hide Bit, Half, Double;
    if n == 0 {
    } else {
      BitShiftRight(Half(w), n - 1, k);
      if n - 1 + k < WIDTH {
        BitHalf(w, n - 1 + k);
      }
    }
  }

  lemma {:induction false} BitShiftLeft(w: word, n: nat, k: nat)
    requires k < WIDTH
    ensures Bit(ShiftLeft(w, n), k) <==> n <= k && Bit(w, k - n)
    decreases n
  {
    hide Bit, Half, Double;
    if n == 0 {
    } else {
      BitDouble(ShiftLeft(w, n - 1), k);
      if k > 0 {
        BitShiftLeft(w, n - 1, k - 1);
      }
    }
  }

  /** The mask minus one holds exactly the bits below the mask. */
  lemma {:induction false} BitBelow(k: nat, j: nat)
    requires k < WIDTH && j < WIDTH
    ensures Bit(Pred(Mask(k)), j) <==> j < k
  {
    if k == 0 {
      ZeroLaws(Mask(j));
    } else {
      hide Bit, Pred, Double, Or, And;
      MaskIsOneBit(k);
      MaskIsOneBit(k - 1);
      BitBelow(k - 1, j);
      BitOfMask(j, k - 1);
      PredecessorDoubled(Mask(k - 1));
      BitOr(Mask(k - 1), Pred(Mask(k - 1)), j);
    }
  }

  // ----- a word is its bits

  function Cap(k: nat): word
    decreases k
  {
    if k == 0 then 0xFFFF_FFFF_FFFF_FFFF else Half(Cap(k - 1))
  }

  lemma CapVanishes()
    ensures Cap(64) == 0
  {
    assert Cap(8) == 0xFF_FFFF_FFFF_FFFF;
    assert Cap(16) == 0xFFFF_FFFF_FFFF;
    assert Cap(24) == 0xFF_FFFF_FFFF;
    assert Cap(32) == 0xFFFF_FFFF;
    assert Cap(40) == 0xFF_FFFF;
    assert Cap(48) == 0xFFFF;
    assert Cap(56) == 0xFF;
  }

  lemma LowestBit(w: word)
    ensures Bit(w, 0) <==> And(w, 1) != 0
  {
  }

  /** No bit of `w` below `n` is set. */
  predicate Blank(w: word, n: nat) {
    forall j: nat :: j < n ==> !Bit(w, j)
  }

  lemma {:induction false} ZeroFromBits(w: word, k: nat)
    requires k <= WIDTH && AtMost(w, Cap(k))
    requires Blank(w, WIDTH - k)
    ensures w == 0
    decreases WIDTH - k
  {
    if k == WIDTH {
      CapVanishes();
    } else {
      hide And, Half, AtMost;
      LowestBit(w);
      HalfOrder(w, Cap(k));
      hide Bit, Mask;
      var h := Half(w);
      forall j: nat | j < WIDTH - (k + 1) ensures !Bit(h, j) {
        BitHalf(w, j);
      }
      ZeroFromBits(h, k + 1);
      HalfZero(w);
    }
  }

  lemma ZeroWord(w: word)
    ensures w == 0 <==> Blank(w, WIDTH)
  {
    hide And;
    if w == 0 {
      forall j: nat ensures !Bit(w, j) {
        ZeroLaws(Mask(j));
      }
    }
    if Blank(w, WIDTH) {
      assert AtMost(w, Cap(0));
      ZeroFromBits(w, 0);
    }
  }

  lemma WordIsItsBits(x: word, y: word)
    requires forall j: nat :: j < WIDTH ==> (Bit(x, j) <==> Bit(y, j))
    ensures x == y
  {
    hide Bit, Xor;
    var z := Xor(x, y);
    forall j: nat | j < WIDTH ensures !Bit(z, j) {
      BitXor(x, y, j);
    }
    ZeroWord(z);
    XorZero(x, y);
  }

  // ----- the counting built-ins

  /** `__builtin_ctzll`, counted from bit `k` on: the first set bit, or 64. */
  function TrailingZeros(w: word, k: nat): (r: nat)
    requires k <= WIDTH
    ensures k <= r <= WIDTH
    ensures forall j: nat :: k <= j < r ==> !Bit(w, j)
    ensures r < WIDTH ==> Bit(w, r)
    decreases WIDTH - k
  {
    if k == WIDTH || Bit(w, k) then k else TrailingZeros(w, k + 1)
  }

  /** `__builtin_clzll`, counted from `k` zeros on: 63 minus the result is the last set bit. */
  function LeadingZeros(w: word, k: nat): (r: nat)
    requires k <= WIDTH
    ensures k <= r <= WIDTH
    ensures forall j: nat :: 63 - r < j <= 63 - k ==> !Bit(w, j)
    ensures r < WIDTH ==> Bit(w, 63 - r)
    decreases WIDTH - k
  {
    if k == WIDTH || Bit(w, 63 - k) then k else LeadingZeros(w, k + 1)
  }

  /** `__builtin_popcountll`, of the bits below `n`. */
  function PopCount(w: word, n: nat): (r: nat)
    ensures r <= n
  {
    if n == 0 then 0 else PopCount(w, n - 1) + if Bit(w, n - 1) then 1 else 0
  }
}
