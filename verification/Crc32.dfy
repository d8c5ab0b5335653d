/**
  CRC-32 (section 8 of RFC 1952): the table-driven computation against the bit-serial shift register,
  and which errors the checksum cannot miss.
 */
module Crc32 {
  const POLYNOMIAL: bv32 := 0xEDB8_8320
  const ONES: bv32 := 0xFFFF_FFFF

  // ----- word operations; the proofs above them only use the laws below

  function Xor(a: bv32, b: bv32): bv32 {
    a ^ b
  }

  function Half(a: bv32): bv32 {
    a >> 1
  }

  predicate Odd(a: bv32) {
    a & 1 != 0
  }

  lemma XorOfBits(a: bv32, b: bv32)
    ensures Odd(Xor(a, b)) == (Odd(a) != Odd(b))
    ensures Half(Xor(a, b)) == Xor(Half(a), Half(b))
  {
  }

  lemma XorCommutes(a: bv32, b: bv32)
    ensures Xor(a, b) == Xor(b, a)
  {
  }

  lemma XorAssociates(a: bv32, b: bv32, c: bv32)
    ensures Xor(Xor(a, b), c) == Xor(a, Xor(b, c))
  {
  }

  lemma XorCancels(a: bv32, b: bv32)
    ensures Xor(Xor(a, b), b) == a && Xor(a, 0) == a
  {
  }

  lemma XorSwaps(a: bv32, b: bv32, c: bv32)
    ensures Xor(Xor(a, b), c) == Xor(Xor(a, c), b) == Xor(a, Xor(b, c))
    ensures Xor(Xor(a, c), Xor(b, c)) == Xor(a, b)
  {
    hide Xor;
    XorAssociates(a, b, c);
    XorCommutes(b, c);
    XorAssociates(a, c, b);
    XorAssociates(Xor(a, c), b, c);
    XorCancels(Xor(a, b), c);
  }

  /** The low `n` bits of a word, least significant first. */
  function BitsOf(b: bv32, n: nat): (bits: seq<bool>)
    ensures |bits| == n
    decreases n
  {
    if n == 0 then [] else [Odd(b)] + BitsOf(Half(b), n - 1)
  }

  /** The bits of a message in the order the register takes them. */
  function Bits(data: seq<bv8>): (bits: seq<bool>)
    ensures |bits| == 8 * |data|
    decreases |data|
  {
    if data == [] then [] else BitsOf(data[0] as bv32, 8) + Bits(data[1..])
  }

  // ----- the reference: a shift register fed one message bit at a time

  function BitStep(r: bv32, bit: bool): bv32 {
    if Odd(r) != bit then Xor(Half(r), POLYNOMIAL) else Half(r)
  }

  function Run(r: bv32, bits: seq<bool>): bv32
    decreases |bits|
  {
    if bits == [] then r else Run(BitStep(r, bits[0]), bits[1..])
  }

  function Checksum(data: seq<bv8>): bv32 {
    Xor(Run(ONES, Bits(data)), ONES)
  }

  lemma {:induction false} RunAppend(r: bv32, a: seq<bool>, b: seq<bool>)
    ensures Run(r, a + b) == Run(Run(r, a), b)
    decreases |a|
  {
    hide BitStep;
    if a == [] {
      assert a + b == b;
    } else {
      RunAppend(BitStep(r, a[0]), a[1..], b);
      assert (a + b)[1..] == a[1..] + b;
    }
  }

  // ----- the register without input, which fills the table

  function Shift1(x: bv32): bv32 {
    if Odd(x) then Xor(Half(x), POLYNOMIAL) else Half(x)
  }

  function Shift(x: bv32, n: nat): bv32
    decreases n
  {
    if n == 0 then x else Shift(Shift1(x), n - 1)
  }

  function HalfTimes(x: bv32, n: nat): bv32
    decreases n
  {
    if n == 0 then x else HalfTimes(Half(x), n - 1)
  }

  /** Feeding a bit is shifting the register with the bit added to it. */
  lemma BitStepIsShift(r: bv32, b: bv32)
    ensures Shift1(Xor(r, b)) == Xor(BitStep(r, Odd(b)), Half(b))
  {
    hide Xor, Half, Odd;
    XorOfBits(r, b);
    XorSwaps(Half(r), Half(b), POLYNOMIAL);
  }

  lemma {:induction false} RunIsShift(r: bv32, b: bv32, n: nat)
    ensures Shift(Xor(r, b), n) == Xor(Run(r, BitsOf(b, n)), HalfTimes(b, n))
    decreases n
  {
    hide Xor, Half, Odd, Shift1, BitStep;
    if n == 0 {
    } else {
      BitStepIsShift(r, b);
      RunIsShift(BitStep(r, Odd(b)), Half(b), n - 1);
      assert BitsOf(b, n)[1..] == BitsOf(Half(b), n - 1);
    }
  }

  lemma ByteHalvedAway(b: bv8)
    ensures HalfTimes(b as bv32, 8) == 0
  {
    var x := b as bv32;
    assert x <= 0xFF;
    assert Half(x) <= 0x7F;
    assert Half(Half(x)) <= 0x3F;
    assert Half(Half(Half(x))) <= 0x1F;
    assert Half(Half(Half(Half(x)))) <= 0xF;
    assert HalfTimes(x, 8) == HalfTimes(Half(Half(Half(Half(x)))), 4);
  }

  lemma RunByteIsShift(r: bv32, b: bv8)
    ensures Run(r, BitsOf(b as bv32, 8)) == Shift(Xor(r, b as bv32), 8)
  {
    hide Xor, Half, Shift, Run, BitsOf;
    RunIsShift(r, b as bv32, 8);
    ByteHalvedAway(b);
    XorCancels(Run(r, BitsOf(b as bv32, 8)), 0);
  }

  lemma Shift1Linear(x: bv32, y: bv32)
    ensures Shift1(Xor(x, y)) == Xor(Shift1(x), Shift1(y))
  {
    hide Xor, Half, Odd;
    XorOfBits(x, y);
    XorSwaps(Half(x), Half(y), POLYNOMIAL);
  }

  lemma {:induction false} ShiftLinear(x: bv32, y: bv32, n: nat)
    ensures Shift(Xor(x, y), n) == Xor(Shift(x, n), Shift(y, n))
    decreases n
  {
    hide Xor, Shift1;
    if n == 0 {
    } else {
      Shift1Linear(x, y);
      ShiftLinear(Shift1(x), Shift1(y), n - 1);
    }
  }

  // ----- the table

  /** The low byte of the register. */
  function Low(c: bv32): bv32 {
    c & 0xFF
  }

  function High(c: bv32): bv32 {
    c & 0xFFFF_FF00
  }

  /** The low eight bits of a shifted-up byte string are zero, so eight shifts never meet the polynomial. */
  lemma HighBits(h: bv32)
    requires h & 0xFF == 0
    ensures !Odd(h) && !Odd(h >> 1) && !Odd(h >> 2) && !Odd(h >> 3)
    ensures !Odd(h >> 4) && !Odd(h >> 5) && !Odd(h >> 6) && !Odd(h >> 7)
  {
  }

  lemma HalfSteps(h: bv32)
    ensures Half(h) == h >> 1 && Half(h >> 1) == h >> 2 && Half(h >> 2) == h >> 3 && Half(h >> 3) == h >> 4
    ensures Half(h >> 4) == h >> 5 && Half(h >> 5) == h >> 6 && Half(h >> 6) == h >> 7 && Half(h >> 7) == h >> 8
  {
  }

  lemma ShiftEven(x: bv32, n: nat)
    requires !Odd(x) && n > 0
    ensures Shift(x, n) == Shift(Half(x), n - 1)
  {
  }

  lemma ShiftZero(x: bv32)
    ensures Shift(x, 0) == x
  {
  }

  lemma EvenShiftsDown(h: bv32)
    requires h & 0xFF == 0
    ensures Shift(h, 8) == h >> 8
  {
    HighBits(h);
    HalfSteps(h);
    hide Xor, Half, Odd, Shift1, Shift;
    ShiftEven(h, 8);
    ShiftEven(h >> 1, 7);
    ShiftEven(h >> 2, 6);
    ShiftEven(h >> 3, 5);
    ShiftEven(h >> 4, 4);
    ShiftEven(h >> 5, 3);
    ShiftEven(h >> 6, 2);
    ShiftEven(h >> 7, 1);
    ShiftZero(h >> 8);
  }

  lemma HighKeeps(c: bv32)
    ensures High(c) & 0xFF == 0 && High(c) >> 8 == c >> 8
  {
  }

  lemma HighShiftsDown(c: bv32)
    ensures Shift(High(c), 8) == c >> 8
  {
    hide High, Shift;
    HighKeeps(c);
    EvenShiftsDown(High(c));
  }

  lemma HighAndLow(c: bv32)
    ensures Xor(High(c), Low(c)) == c
  {
  }

  lemma SplitWord(c: bv32, b: bv32)
    ensures Xor(c, b) == Xor(High(c), Xor(Low(c), b))
  {
    hide *;
    HighAndLow(c);
    XorAssociates(High(c), Low(c), b);
  }

  /** One byte through the table is eight shifts of the register with the byte added. */
  lemma TableStep(c: bv32, b: bv8)
    ensures Xor(c >> 8, Shift(Xor(Low(c), b as bv32), 8)) == Run(c, BitsOf(b as bv32, 8))
  {
    hide Xor, Shift, Run, BitsOf, Low, High;
    RunByteIsShift(c, b);
    SplitWord(c, b as bv32);
    ShiftLinear(High(c), Xor(Low(c), b as bv32), 8);
    HighShiftsDown(c);
  }

  lemma IndexFits(c: bv32, b: bv8)
    ensures Xor(Low(c), b as bv32) as int < 256
  {
    assert Xor(Low(c), b as bv32) <= 0xFF;
  }

  lemma {:induction false} BitsAppend(a: seq<bv8>, b: seq<bv8>)
    ensures Bits(a + b) == Bits(a) + Bits(b)
    decreases |a|
  {
    hide BitsOf;
    if a == [] {
      assert a + b == b;
    } else {
      BitsAppend(a[1..], b);
      assert (a + b)[1..] == a[1..] + b;
    }
  }

  lemma RunNextByte(r: bv32, data: seq<bv8>, i: nat)
    requires i < |data|
    ensures Run(r, Bits(data[..i + 1])) == Run(Run(r, Bits(data[..i])), BitsOf(data[i] as bv32, 8))
  {
    hide Run, BitsOf;
    assert data[..i + 1] == data[..i] + [data[i]];
    BitsAppend(data[..i], [data[i]]);
    assert Bits([data[i]]) == BitsOf(data[i] as bv32, 8) + Bits([]) == BitsOf(data[i] as bv32, 8);
    RunAppend(r, Bits(data[..i]), BitsOf(data[i] as bv32, 8));
  }

  class Crc32Table {
    const table: array<bv32>
    var isInit: bool

    /** Every entry is its index after eight shifts. */
    ghost predicate Valid()
      reads this, table
    {
      && table.Length == 256
      && (isInit ==> forall i: bv32 :: i <= 0xFF ==> table[i as int] == Shift(i, 8))
    }

    constructor ()
      ensures Valid() && fresh(table) && !isInit
    {
      table := new bv32[256];
      isInit := false;
    }

    static method ShiftEight(i: bv32) returns (c: bv32)
      ensures c == Shift(i, 8)
    {
      c := i;
      for j := 0 to 8
        invariant Shift(c, 8 - j) == Shift(i, 8)
      {
        if Odd(c) {
          c := Xor(Half(c), POLYNOMIAL);
        } else {
          c := Half(c);
        }
      }
    }

    method Init()
      requires Valid()
      modifies this, table
      ensures Valid() && isInit
    {
      hide Shift;
      if isInit {
        return;
      }
      var i: bv32 := 0;
      while i < 256
        invariant i <= 256 && table.Length == 256 && !isInit
        invariant forall k: bv32 :: k < i ==> table[k as int] == Shift(k, 8)
        decreases 256 - i
      {
        var c := ShiftEight(i);
        table[i as int] := c;
        i := i + 1;
      }
      isInit := true;
    }

    method Crc32(data: seq<bv8>) returns (result: bv32)
      requires Valid() && isInit
      ensures result == Checksum(data)
    {
      hide Xor, Shift, BitsOf, Low;
      var crc := ONES;
      for i := 0 to |data|
        invariant crc == Run(ONES, Bits(data[..i]))
      {
        TableStep(crc, data[i]);
        IndexFits(crc, data[i]);
        RunNextByte(ONES, data, i);
        crc := Xor(crc >> 8, table[Xor(Low(crc), data[i] as bv32) as int]);
      }
      assert data[..|data|] == data;
      result := Xor(crc, ONES);
    }
  }

  // ----- no step loses information

  /** Undoes one shift: the top bit tells whether the polynomial was added. */
  function Unshift1(y: bv32): bv32 {
    if y & 0x8000_0000 != 0 then ((y ^ POLYNOMIAL) << 1) | 1 else y << 1
  }

  lemma Unshift1Shift1(x: bv32)
    ensures Unshift1(Shift1(x)) == x
  {
  }

  lemma ShiftUpDown(z: bv32)
    requires z & 0x8000_0000 == 0
    ensures Half(z << 1) == z && !Odd(z << 1) && Half((z << 1) | 1) == z && Odd((z << 1) | 1)
  {
  }

  lemma Shift1Unshift1(y: bv32)
    ensures Shift1(Unshift1(y)) == y
  {
    if y & 0x8000_0000 != 0 {
      var z := y ^ POLYNOMIAL;
      assert z & 0x8000_0000 == 0;
      ShiftUpDown(z);
      XorCancels(y, POLYNOMIAL);
    } else {
      ShiftUpDown(y);
    }
  }

  /** Undoes a byte update, given the byte. */
  function Unshift(y: bv32, n: nat): bv32
    decreases n
  {
    if n == 0 then y else Unshift1(Unshift(y, n - 1))
  }

  lemma {:induction false} UnshiftShift(x: bv32, n: nat)
    ensures Unshift(Shift(x, n), n) == x
    decreases n
  {
    hide Shift1, Unshift1;
    if n == 0 {
    } else {
      UnshiftShift(Shift1(x), n - 1);
      Unshift1Shift1(x);
    }
  }

  lemma {:induction false} ShiftUnshift(y: bv32, n: nat)
    ensures Shift(Unshift(y, n), n) == y
    decreases n
  {
    hide Shift1, Unshift1;
    if n == 0 {
    } else {
      Shift1Unshift1(Unshift(y, n - 1));
      ShiftUnshift(y, n - 1);
    }
  }

  /** The update by any byte is a bijection on the register, with this inverse. */
  lemma ByteStepBijective(b: bv8, c: bv32)
    ensures Xor(Unshift(Run(c, BitsOf(b as bv32, 8)), 8), b as bv32) == c
    ensures Run(Xor(Unshift(c, 8), b as bv32), BitsOf(b as bv32, 8)) == c
  {
    hide Xor, Shift, Unshift, Run, BitsOf;
    var w := b as bv32;
    RunByteIsShift(c, b);
    UnshiftShift(Xor(c, w), 8);
    XorCancels(c, w);
    RunByteIsShift(Xor(Unshift(c, 8), w), b);
    XorCancels(Unshift(c, 8), w);
    ShiftUnshift(c, 8);
  }

  function Word(bit: bool): bv32 {
    if bit then 1 else 0
  }

  lemma BitStepOfWord(r: bv32, bit: bool)
    ensures Odd(Word(bit)) == bit && Half(Word(bit)) == 0
    ensures BitStep(r, bit) == Shift1(Xor(r, Word(bit)))
  {
    assert Odd(Word(bit)) == bit && Half(Word(bit)) == 0;
    hide Xor, Half, Odd, Shift1, BitStep, Word;
    BitStepIsShift(r, Word(bit));
    XorCancels(BitStep(r, bit), 0);
  }

  lemma {:induction false} RunInjective(r: bv32, s: bv32, bits: seq<bool>)
    requires Run(r, bits) == Run(s, bits)
    ensures r == s
    decreases |bits|
  {
    hide BitStep, Shift1, Unshift1, Xor, Word;
    if bits == [] {
    } else {
      RunInjective(BitStep(r, bits[0]), BitStep(s, bits[0]), bits[1..]);
      var w := Word(bits[0]);
      BitStepOfWord(r, bits[0]);
      BitStepOfWord(s, bits[0]);
      Unshift1Shift1(Xor(r, w));
      Unshift1Shift1(Xor(s, w));
      XorCancels(r, w);
      XorCancels(s, w);
    }
  }

  // ----- bursts

  function Double(p: bv32): bv32 {
    p << 1
  }

  /** Up to 32 bits as a word, the first one lowest. */
  function Pack(bits: seq<bool>): bv32
    decreases |bits|
  {
    if bits == [] then 0 else Xor(Word(bits[0]), Double(Pack(bits[1..])))
  }

  predicate TopClear(p: bv32) {
    p & 0x8000_0000 == 0
  }

  function Shr8(p: bv32): bv32 {
    p >> 8
  }

  lemma DoubleHalves(bit: bool, p: bv32)
    requires TopClear(p)
    ensures var x := Xor(Word(bit), Double(p));
            Odd(x) == bit && Half(x) == p
  {
  }

  lemma {:induction false} HalfTimesAppend(x: bv32, a: nat, b: nat)
    ensures HalfTimes(x, a + b) == HalfTimes(HalfTimes(x, a), b)
    decreases a
  {
    hide Half;
    if a == 0 {
    } else {
      HalfTimesAppend(Half(x), a - 1, b);
    }
  }

  lemma {:induction false} HalfTimesZero(n: nat)
    ensures HalfTimes(0, n) == 0
    decreases n
  {
    if n == 0 {
    } else {
      assert Half(0) == 0;
      HalfTimesZero(n - 1);
    }
  }

  lemma HalvedByteAway(x: bv32)
    ensures HalfTimes(x, 8) == Shr8(x)
  {
    HalfSteps(x);
    hide Half;
    assert HalfTimes(x, 8) == HalfTimes(x >> 4, 4);
  }

  lemma TopByte(x: bv32)
    ensures Shr8(Shr8(Shr8(x))) <= 0xFF
    ensures Shr8(Shr8(Shr8(x))) & 0x80 == 0 ==> TopClear(x)
  {
  }

  lemma SevenHalves(x: bv32)
    requires x <= 0xFF && HalfTimes(x, 7) == 0
    ensures x & 0x80 == 0
  {
    HalfSteps(x);
    assert HalfTimes(x, 7) == HalfTimes(x >> 4, 3) == x >> 7 by {
      hide Half;
      assert HalfTimes(x, 7) == HalfTimes(x >> 4, 3);
    }
  }

  /** A word that is gone after at most 31 halvings has its top bit clear. */
  lemma TopBitClear(x: bv32, n: nat)
    requires n <= 31 && HalfTimes(x, n) == 0
    ensures TopClear(x)
  {
    hide HalfTimes, Shr8, TopClear;
    var y := Shr8(x);
    var z := Shr8(y);
    HalfTimesAppend(x, n, 31 - n);
    HalfTimesZero(31 - n);
    HalfTimesAppend(x, 8, 23);
    HalfTimesAppend(y, 8, 15);
    HalfTimesAppend(z, 8, 7);
    HalvedByteAway(x);
    HalvedByteAway(y);
    HalvedByteAway(z);
    TopByte(x);
    SevenHalves(Shr8(z));
  }

  /** Packing at most 32 bits loses nothing: the bits can be read off again. */
  lemma {:induction false} PackBits(bits: seq<bool>)
    requires |bits| <= 32
    ensures HalfTimes(Pack(bits), |bits|) == 0 && BitsOf(Pack(bits), |bits|) == bits
    decreases |bits|
  {
    hide Xor, Half, Odd, Word, Double, TopClear;
    if bits == [] {
    } else {
      var p := Pack(bits[1..]);
      PackBits(bits[1..]);
      TopBitClear(p, |bits| - 1);
      DoubleHalves(bits[0], p);
      assert bits == [bits[0]] + bits[1..];
    }
  }

  /** A register takes different windows of equal length, at most 32 bits, to different states. */
  lemma WindowInjective(r: bv32, a: seq<bool>, b: seq<bool>)
    requires |a| == |b| <= 32 && Run(r, a) == Run(r, b)
    ensures a == b
  {
    hide Xor, Shift, Unshift, Run, BitsOf, Pack, HalfTimes;
    var p, q, n := Pack(a), Pack(b), |a|;
    PackBits(a);
    PackBits(b);
    RunIsShift(r, p, n);
    RunIsShift(r, q, n);
    XorCancels(Run(r, a), 0);
    XorCancels(Run(r, b), 0);
    UnshiftShift(Xor(r, p), n);
    UnshiftShift(Xor(r, q), n);
    XorCommutes(r, p);
    XorCommutes(r, q);
    XorCancels(p, r);
    XorCancels(q, r);
  }

  /** Windows between equal bits: the same register before them, so different windows stay different. */
  lemma WindowBetween(before: seq<bool>, a: seq<bool>, b: seq<bool>, after: seq<bool>)
    requires |a| == |b| <= 32 && Run(ONES, before + (a + after)) == Run(ONES, before + (b + after))
    ensures a == b
  {
    hide Run;
    var r := Run(ONES, before);
    RunAppend(ONES, before, a + after);
    RunAppend(ONES, before, b + after);
    RunAppend(r, a, after);
    RunAppend(r, b, after);
    RunInjective(Run(r, a), Run(r, b), after);
    WindowInjective(r, a, b);
  }

  lemma ThreePieces(x: seq<bool>, i: nat, k: nat)
    requires i <= k <= |x|
    ensures x == x[..i] + (x[i..k] + x[k..])
  {
  }

  /** Bits that agree outside a window, cut at its ends. */
  lemma CutAtWindow(x: seq<bool>, y: seq<bool>, i: nat, k: nat)
    requires i <= k <= |x| == |y| && forall j :: 0 <= j < |x| && !(i <= j < k) ==> x[j] == y[j]
    ensures x == x[..i] + (x[i..k] + x[k..]) && y == x[..i] + (y[i..k] + x[k..])
  {
    assert x[..i] == y[..i] && x[k..] == y[k..];
    ThreePieces(x, i, k);
    ThreePieces(y, i, k);
  }

  lemma RunDiffersInWindow(x: seq<bool>, y: seq<bool>, from: nat)
    requires |x| == |y| && Run(ONES, x) == Run(ONES, y)
    requires forall j :: 0 <= j < |x| && !(from <= j < from + 32) ==> x[j] == y[j]
    ensures x == y
  {
    hide Run;
    var i := if from <= |x| then from else |x|;
    var k := if i + 32 <= |x| then i + 32 else |x|;
    CutAtWindow(x, y, i, k);
    WindowBetween(x[..i], x[i..k], y[i..k], x[k..]);
  }

  lemma HalfAndOdd(x: bv32, y: bv32)
    requires Half(x) == Half(y) && Odd(x) == Odd(y)
    ensures x == y
  {
  }

  lemma {:induction false} BitsOfInjective(x: bv32, y: bv32, n: nat)
    requires BitsOf(x, n) == BitsOf(y, n) && HalfTimes(x, n) == 0 == HalfTimes(y, n)
    ensures x == y
    decreases n
  {
    hide Half, Odd;
    if n == 0 {
    } else {
      assert BitsOf(x, n)[0] == BitsOf(y, n)[0] && BitsOf(x, n)[1..] == BitsOf(y, n)[1..];
      BitsOfInjective(Half(x), Half(y), n - 1);
      HalfAndOdd(x, y);
    }
  }

  lemma WideningInjective(a: bv8, b: bv8)
    requires a as bv32 == b as bv32
    ensures a == b
  {
  }

  lemma {:induction false} BitsInjective(a: seq<bv8>, b: seq<bv8>)
    requires |a| == |b| && Bits(a) == Bits(b)
    ensures a == b
    decreases |a|
  {
    hide BitsOf, HalfTimes;
    if a == [] {
    } else {
      assert Bits(a)[..8] == Bits(b)[..8] && Bits(a)[8..] == Bits(b)[8..];
      ByteHalvedAway(a[0]);
      ByteHalvedAway(b[0]);
      BitsOfInjective(a[0] as bv32, b[0] as bv32, 8);
      WideningInjective(a[0], b[0]);
      BitsInjective(a[1..], b[1..]);
    }
  }

  /** Two messages of equal length never share a checksum when the bits in which they differ lie within
      32 consecutive ones. */
  lemma BurstDetected(a: seq<bv8>, b: seq<bv8>, from: nat)
    requires |a| == |b| && a != b
    requires forall j :: 0 <= j < |Bits(a)| && !(from <= j < from + 32) ==> Bits(a)[j] == Bits(b)[j]
    ensures Checksum(a) != Checksum(b)
  {
    hide Xor, Run, Bits;
    if Checksum(a) == Checksum(b) {
      XorCancels(Run(ONES, Bits(a)), ONES);
      XorCancels(Run(ONES, Bits(b)), ONES);
      RunDiffersInWindow(Bits(a), Bits(b), from);
      BitsInjective(a, b);
    }
  }

  /** In particular when they differ in exactly one byte. */
  lemma OneByteDetected(before: seq<bv8>, x: bv8, y: bv8, after: seq<bv8>)
    requires x != y
    ensures Checksum(before + [x] + after) != Checksum(before + [y] + after)
  {
    hide Checksum, BitsOf;
    var a, b := before + [x] + after, before + [y] + after;
    BitsAppend(before + [x], after);
    BitsAppend(before, [x]);
    BitsAppend(before + [y], after);
    BitsAppend(before, [y]);
    assert a[|before|] == x && b[|before|] == y;
    BurstDetected(a, b, 8 * |before|);
  }

  // ----- the check value

  lemma NextByte(r: bv32, data: seq<bv8>, i: nat, next: bv32)
    requires i < |data| && Shift(Xor(r, data[i] as bv32), 8) == next
    ensures Run(r, Bits(data[i..])) == Run(next, Bits(data[i + 1..]))
  {
    hide Xor, Shift, BitsOf, Run;
    assert data[i..][1..] == data[i + 1..];
    RunAppend(r, BitsOf(data[i] as bv32, 8), Bits(data[i + 1..]));
    RunByteIsShift(r, data[i]);
  }

  lemma NoBits(r: bv32)
    ensures Run(r, Bits([])) == r && Xor(0x340B_C6D9, ONES) == 0xCBF4_3926
  {
  }

  /** The register after each of the digits. */
  lemma CheckRegisters()
    ensures Shift(Xor(ONES, 0x31), 8) == 0x7C23_1048 && Shift(Xor(0x7C23_1048, 0x32), 8) == 0xB0AC_BB32
    ensures Shift(Xor(0xB0AC_BB32, 0x33), 8) == 0x77B7_9C2D && Shift(Xor(0x77B7_9C2D, 0x34), 8) == 0x641C_1F5C
    ensures Shift(Xor(0x641C_1F5C, 0x35), 8) == 0x340A_C5E3 && Shift(Xor(0x340A_C5E3, 0x36), 8) == 0xF68D_2C9E
    ensures Shift(Xor(0xF68D_2C9E, 0x37), 8) == 0xAFFC_9660 && Shift(Xor(0xAFFC_9660, 0x38), 8) == 0x651F_2550
    ensures Shift(Xor(0x651F_2550, 0x39), 8) == 0x340B_C6D9
  {
  }

  /** The checksum of the nine digits "123456789" is the published check value of CRC-32. */
  lemma CheckValue()
    ensures Checksum([0x31, 0x32, 0x33, 0x34, 0x35, 0x36, 0x37, 0x38, 0x39]) == 0xCBF4_3926
  {
    var digits: seq<bv8> := [0x31, 0x32, 0x33, 0x34, 0x35, 0x36, 0x37, 0x38, 0x39];
    CheckRegisters();
    hide Xor, Shift, Run, Bits;
    assert digits[0..] == digits;
    NextByte(ONES, digits, 0, 0x7C23_1048);
    NextByte(0x7C23_1048, digits, 1, 0xB0AC_BB32);
    NextByte(0xB0AC_BB32, digits, 2, 0x77B7_9C2D);
    NextByte(0x77B7_9C2D, digits, 3, 0x641C_1F5C);
    NextByte(0x641C_1F5C, digits, 4, 0x340A_C5E3);
    NextByte(0x340A_C5E3, digits, 5, 0xF68D_2C9E);
    NextByte(0xF68D_2C9E, digits, 6, 0xAFFC_9660);
    NextByte(0xAFFC_9660, digits, 7, 0x651F_2550);
    NextByte(0x651F_2550, digits, 8, 0x340B_C6D9);
    NoBits(0x340B_C6D9);
    assert digits[9..] == [];
  }
}
