/**
  Arrays of 64-bit words as finite sets of naturals: what each step of `BitSet` does to the set.
 */
module WordSets {
  import opened Bits

  const NPOS: nat := 0xFFFF_FFFF_FFFF_FFFF

  /** Sizes and positions are `unsigned long`: no word array reaches 2^64 bits. */
  const MAX_WORDS: nat := 0x400_0000_0000_0000

  // ----- word arrays as sets

  /** The word at `i`; beyond the array every word counts as zero. */
  function WordAt(data: seq<word>, i: nat): word {
    if i < |data| then data[i] else 0
  }

  predicate Has(data: seq<word>, p: nat) {
    p / 64 < |data| && Bit(data[p / 64], p % 64)
  }

  function Members(data: seq<word>): set<nat> {
    set p: nat | p < 64 * |data| && Has(data, p)
  }

  lemma HasByWord(data: seq<word>, p: nat)
    ensures Has(data, p) <==> Bit(WordAt(data, p / 64), p % 64)
    ensures p in Members(data) <==> Has(data, p)
  {
    hide Bit;
    ZeroWord(0);
  }

  lemma HasAt(data: seq<word>, i: nat, k: nat)
    requires k < 64
    ensures Has(data, 64 * i + k) <==> Bit(WordAt(data, i), k)
  {
    hide Bit;
    assert (64 * i + k) / 64 == i && (64 * i + k) % 64 == k;
    HasByWord(data, 64 * i + k);
  }

  lemma MembersBounded(data: seq<word>)
    ensures forall p :: p in Members(data) ==> p < 64 * |data|
  {
  }

  /** Arrays of any lengths whose sets are equal agree in every word. */
  lemma SameMembersSameWords(a: seq<word>, b: seq<word>, i: nat)
    requires Members(a) == Members(b)
    ensures WordAt(a, i) == WordAt(b, i)
  {
    hide Bit, Has, Members;
    forall k: nat | k < 64 ensures Bit(WordAt(a, i), k) <==> Bit(WordAt(b, i), k) {
      HasAt(a, i, k);
      HasAt(b, i, k);
      HasByWord(a, 64 * i + k);
      HasByWord(b, 64 * i + k);
    }
    WordIsItsBits(WordAt(a, i), WordAt(b, i));
  }

  lemma SameWordsSameMembers(a: seq<word>, b: seq<word>)
    requires forall i: nat :: WordAt(a, i) == WordAt(b, i)
    ensures Members(a) == Members(b)
  {
    hide Bit, Has, Members;
    forall p: nat ensures p in Members(a) <==> p in Members(b) {
      HasByWord(a, p);
      HasByWord(b, p);
      assert WordAt(a, p / 64) == WordAt(b, p / 64);
    }
    assert Members(a) == Members(b);
  }

  /** `m_highestSet` is the maximum of the set, or `NPOS` when the set is empty. */
  predicate IsMaximum(s: set<nat>, h: nat) {
    if s == {} then h == NPOS else h in s && forall p :: p in s ==> p <= h
  }

  lemma MaximumAfterAddition(s: set<nat>, h: nat, pos: nat)
    requires IsMaximum(s, h) && NPOS !in s && pos != NPOS
    ensures IsMaximum(s + {pos}, if h == NPOS || pos > h then pos else h)
  {
  }

  lemma MaximumAfterRemoval(s: set<nat>, h: nat, pos: nat)
    requires IsMaximum(s, h) && pos != h
    ensures IsMaximum(s - {pos}, h)
  {
    if s != {} {
      assert h in s - {pos};
    } else {
      assert s - {pos} == s;
    }
  }

  /** `resize`. */
  function Resize(data: seq<word>, n: nat): (r: seq<word>)
    requires |data| <= n
    ensures |r| == n
    ensures forall i: nat :: WordAt(r, i) == WordAt(data, i)
  {
    data + seq(n - |data|, _ => 0)
  }

  lemma ResizeKeeps(data: seq<word>, n: nat)
    requires |data| <= n
    ensures Members(Resize(data, n)) == Members(data)
  {
    SameWordsSameMembers(Resize(data, n), data);
  }

  lemma SetWord(data: seq<word>, pos: nat)
    requires pos / 64 < |data|
    ensures Members(data[pos / 64 := Or(data[pos / 64], Mask(pos % 64))]) == Members(data) + {pos}
  {
    hide Bit, Has, Members, Or, Mask;
    var i, m := pos / 64, Mask(pos % 64);
    var data' := data[i := Or(data[i], m)];
    forall p: nat ensures p in Members(data') <==> p in Members(data) || p == pos {
      HasByWord(data, p);
      HasByWord(data', p);
      if p / 64 == i {
        BitOr(data[i], m, p % 64);
        BitOfMask(p % 64, pos % 64);
      }
    }
    assert Members(data') == Members(data) + {pos};
  }

  lemma ClearWord(data: seq<word>, pos: nat)
    requires pos / 64 < |data|
    ensures Members(data[pos / 64 := And(data[pos / 64], Not(Mask(pos % 64)))]) == Members(data) - {pos}
  {
    hide Bit, Has, Members, And, Not, Mask;
    var i, m := pos / 64, Mask(pos % 64);
    var data' := data[i := And(data[i], Not(m))];
    forall p: nat ensures p in Members(data') <==> p in Members(data) && p != pos {
      HasByWord(data, p);
      HasByWord(data', p);
      if p / 64 == i {
        BitAnd(data[i], Not(m), p % 64);
        BitNot(m, p % 64);
        BitOfMask(p % 64, pos % 64);
      }
    }
    assert Members(data') == Members(data) - {pos};
  }

  lemma FlipWord(data: seq<word>, pos: nat)
    requires pos / 64 < |data|
    ensures Members(data[pos / 64 := Xor(data[pos / 64], Mask(pos % 64))])
            == if pos in Members(data) then Members(data) - {pos} else Members(data) + {pos}
  {
    hide Bit, Has, Members, Xor, Mask;
    var i, m := pos / 64, Mask(pos % 64);
    var data' := data[i := Xor(data[i], m)];
    forall p: nat ensures p in Members(data') <==> (p in Members(data)) != (p == pos) {
      HasByWord(data, p);
      HasByWord(data', p);
      if p / 64 == i {
        BitXor(data[i], m, p % 64);
        BitOfMask(p % 64, pos % 64);
      }
    }
    var s := Members(data);
    assert Members(data') == if pos in s then s - {pos} else s + {pos};
  }

  /** The test that guards the updates. */
  lemma BitTest(data: seq<word>, pos: nat)
    requires pos / 64 < |data|
    ensures And(data[pos / 64], Mask(pos % 64)) != 0 <==> pos in Members(data)
  {
    hide Members;
    HasByWord(data, pos);
  }

  // ----- operations word by word

  lemma AndNotWords(a: seq<word>, b: seq<word>, r: seq<word>)
    requires forall i: nat :: WordAt(r, i) == And(WordAt(a, i), Not(WordAt(b, i)))
    ensures Members(r) == Members(a) - Members(b)
  {
    hide Bit, Has, Members, And, Not;
    forall p: nat ensures p in Members(r) <==> p in Members(a) && p !in Members(b) {
      HasByWord(a, p);
      HasByWord(b, p);
      HasByWord(r, p);
      assert WordAt(r, p / 64) == And(WordAt(a, p / 64), Not(WordAt(b, p / 64)));
      BitAnd(WordAt(a, p / 64), Not(WordAt(b, p / 64)), p % 64);
      BitNot(WordAt(b, p / 64), p % 64);
    }
    assert Members(r) == Members(a) - Members(b);
  }

  /** What the loop of `andNot` leaves. */
  lemma AndNotLoop(a: seq<word>, b: seq<word>, r: seq<word>, n: nat)
    requires n <= |a| == |r| && n <= |b| && (n == |a| || n == |b|)
    requires forall j :: 0 <= j < n ==> r[j] == And(a[j], Not(b[j]))
    requires forall j :: n <= j < |a| ==> r[j] == a[j]
    ensures Members(r) == Members(a) - Members(b)
  {
    hide Members, And, Not;
    forall j: nat ensures WordAt(r, j) == And(WordAt(a, j), Not(WordAt(b, j))) {
      if j >= |a| {
        AndWithNone(Not(WordAt(b, j)));
      } else if j >= n {
        AndWithAll(a[j]);
      }
    }
    AndNotWords(a, b, r);
  }

  lemma AndWords(a: seq<word>, b: seq<word>, r: seq<word>)
    requires forall i: nat :: WordAt(r, i) == And(WordAt(a, i), WordAt(b, i))
    ensures Members(r) == Members(a) * Members(b)
  {
    hide Bit, Has, Members, And;
    forall p: nat ensures p in Members(r) <==> p in Members(a) && p in Members(b) {
      HasByWord(a, p);
      HasByWord(b, p);
      HasByWord(r, p);
      assert WordAt(r, p / 64) == And(WordAt(a, p / 64), WordAt(b, p / 64));
      BitAnd(WordAt(a, p / 64), WordAt(b, p / 64), p % 64);
    }
    assert Members(r) == Members(a) * Members(b);
  }

  /** What the loops of `&=` leave. */
  lemma AndLoop(a: seq<word>, b: seq<word>, r: seq<word>, n: nat)
    requires n <= |a| == |r| && n <= |b| && (n == |a| || n == |b|)
    requires forall j :: 0 <= j < n ==> r[j] == And(a[j], b[j])
    requires forall j :: n <= j < |a| ==> r[j] == 0
    ensures Members(r) == Members(a) * Members(b)
  {
    hide Members, And;
    forall j: nat ensures WordAt(r, j) == And(WordAt(a, j), WordAt(b, j)) {
      if j >= |a| {
        AndWithNone(WordAt(b, j));
      } else if j >= n {
        AndWithNone(a[j]);
      }
    }
    AndWords(a, b, r);
  }

  lemma OrWords(a: seq<word>, b: seq<word>, r: seq<word>)
    requires forall i: nat :: WordAt(r, i) == Or(WordAt(a, i), WordAt(b, i))
    ensures Members(r) == Members(a) + Members(b)
  {
    hide Bit, Has, Members, Or;
    forall p: nat ensures p in Members(r) <==> p in Members(a) || p in Members(b) {
      HasByWord(a, p);
      HasByWord(b, p);
      HasByWord(r, p);
      assert WordAt(r, p / 64) == Or(WordAt(a, p / 64), WordAt(b, p / 64));
      BitOr(WordAt(a, p / 64), WordAt(b, p / 64), p % 64);
    }
    assert Members(r) == Members(a) + Members(b);
  }

  /** What the loop of `|=` leaves; `c` is the resized array. */
  lemma OrLoop(a: seq<word>, b: seq<word>, c: seq<word>, r: seq<word>)
    requires |b| <= |c| == |r| && forall i: nat :: WordAt(c, i) == WordAt(a, i)
    requires forall j :: 0 <= j < |b| ==> r[j] == Or(c[j], b[j])
    requires forall j :: |b| <= j < |c| ==> r[j] == c[j]
    ensures Members(r) == Members(a) + Members(b)
  {
    hide Members, Or;
    forall j: nat ensures WordAt(r, j) == Or(WordAt(a, j), WordAt(b, j)) {
      assert WordAt(c, j) == WordAt(a, j);
      if j >= |b| {
        OrWithNone(WordAt(a, j));
      }
    }
    OrWords(a, b, r);
  }

  lemma XorWords(a: seq<word>, b: seq<word>, r: seq<word>)
    requires forall i: nat :: WordAt(r, i) == Xor(WordAt(a, i), WordAt(b, i))
    ensures Members(r) == (Members(a) - Members(b)) + (Members(b) - Members(a))
  {
    hide Bit, Has, Members, Xor;
    forall p: nat ensures p in Members(r) <==> (p in Members(a)) != (p in Members(b)) {
      HasByWord(a, p);
      HasByWord(b, p);
      HasByWord(r, p);
      assert WordAt(r, p / 64) == Xor(WordAt(a, p / 64), WordAt(b, p / 64));
      BitXor(WordAt(a, p / 64), WordAt(b, p / 64), p % 64);
    }
    assert Members(r) == (Members(a) - Members(b)) + (Members(b) - Members(a));
  }

  /** What the loop of `^=` leaves; `c` is the resized array. */
  lemma XorLoop(a: seq<word>, b: seq<word>, c: seq<word>, r: seq<word>)
    requires |b| <= |c| == |r| && forall i: nat :: WordAt(c, i) == WordAt(a, i)
    requires forall j :: 0 <= j < |b| ==> r[j] == Xor(c[j], b[j])
    requires forall j :: |b| <= j < |c| ==> r[j] == c[j]
    ensures Members(r) == (Members(a) - Members(b)) + (Members(b) - Members(a))
  {
    hide Members, Xor;
    forall j: nat ensures WordAt(r, j) == Xor(WordAt(a, j), WordAt(b, j)) {
      assert WordAt(c, j) == WordAt(a, j);
      if j >= |b| {
        XorWithNone(WordAt(a, j));
      }
    }
    XorWords(a, b, r);
  }

  // ----- the highest bit

  lemma MemberWord(data: seq<word>, p: nat)
    requires p in Members(data)
    ensures WordAt(data, p / 64) != 0
  {
    hide Bit, Has, Members;
    HasByWord(data, p);
    ZeroWord(0);
  }

  lemma NonZeroLeads(w: word)
    requires w != 0
    ensures LeadingZeros(w, 0) < 64
  {
    hide Bit, LeadingZeros;
    ZeroWord(w);
    assert exists j: nat :: j < 64 && Bit(w, j);
  }

  lemma MemberBelowLast(data: seq<word>, i: nat, p: nat)
    requires i < |data| && forall j :: i < j < |data| ==> data[j] == 0
    requires p in Members(data)
    ensures p <= i * 64 + (63 - LeadingZeros(data[i], 0))
  {
    hide Bit, Has, Members, LeadingZeros;
    HasByWord(data, p);
    MemberWord(data, p);
    assert p / 64 <= i;
  }

  /** Zero words above `i`, and the last set bit of word `i`. */
  lemma LastWordGivesMaximum(data: seq<word>, i: nat)
    requires |data| < MAX_WORDS && i < |data| && data[i] != 0
    requires forall j :: i < j < |data| ==> data[j] == 0
    ensures LeadingZeros(data[i], 0) < 64
    ensures IsMaximum(Members(data), i * 64 + (63 - LeadingZeros(data[i], 0)))
  {
    hide Bit, Has, Members, LeadingZeros;
    NonZeroLeads(data[i]);
    var z := LeadingZeros(data[i], 0);
    var h := i * 64 + (63 - z);
    HasAt(data, i, 63 - z);
    HasByWord(data, h);
    forall p | p in Members(data) ensures p <= h {
      MemberBelowLast(data, i, p);
    }
  }

  lemma ZeroWordsAreEmpty(data: seq<word>)
    requires forall j :: 0 <= j < |data| ==> data[j] == 0
    ensures Members(data) == {}
  {
    hide Bit, Has, Members;
    forall p: nat ensures p !in Members(data) {
      HasByWord(data, p);
      ZeroWord(0);
      assert WordAt(data, p / 64) == 0;
    }
    assert Members(data) == {};
  }

  lemma NoMaximum(data: seq<word>)
    requires forall j :: 0 <= j < |data| ==> data[j] == 0
    ensures IsMaximum(Members(data), NPOS)
  {
    hide Members;
    ZeroWordsAreEmpty(data);
  }

  method FindHighestSet(data: seq<word>) returns (h: nat)
    requires |data| < MAX_WORDS
    ensures IsMaximum(Members(data), h)
  {
    hide Members, IsMaximum, LeadingZeros;
    var i := |data|;
    while i > 0
      invariant 0 <= i <= |data|
      invariant forall j :: i <= j < |data| ==> data[j] == 0
    {
      i := i - 1;
      if data[i] != 0 {
        LastWordGivesMaximum(data, i);
        return i * 64 + (63 - LeadingZeros(data[i], 0));
      }
    }
    NoMaximum(data);
    return NPOS;
  }

  // ----- scans

  /** The least member from `from` on, or `NPOS`. */
  predicate IsNextMember(s: set<nat>, from: nat, r: nat) {
    if r == NPOS then forall p :: p in s ==> p < from
    else from <= r && r in s && forall p :: from <= p < r ==> p !in s
  }

  /** The results of scanning on from one past the previous result until the scan answers `NPOS`. */
  ghost predicate IsIteration(s: set<nat>, from: nat, xs: seq<nat>)
    decreases |xs|
  {
    if xs == [] then IsNextMember(s, from, NPOS)
    else xs[0] != NPOS && IsNextMember(s, from, xs[0]) && IsIteration(s, xs[0] + 1, xs[1..])
  }

  /** `xs` came out of the scans made so far: whatever the scans from `from` on give follows it. */
  ghost predicate IsIterationUpTo(s: set<nat>, from: nat, xs: seq<nat>) {
    forall ys :: IsIteration(s, from, ys) ==> IsIteration(s, 0, xs + ys)
  }

  lemma IterationStart(s: set<nat>)
    ensures IsIterationUpTo(s, 0, [])
  {
    assert forall ys: seq<nat> :: [] + ys == ys;
  }

  lemma IterationStep(s: set<nat>, from: nat, xs: seq<nat>, x: nat)
    requires x != NPOS && IsNextMember(s, from, x) && IsIterationUpTo(s, from, xs)
    ensures IsIterationUpTo(s, x + 1, xs + [x])
  {
    forall ys | IsIteration(s, x + 1, ys) ensures IsIteration(s, 0, (xs + [x]) + ys) {
      assert ([x] + ys)[1..] == ys;
      assert xs + ([x] + ys) == (xs + [x]) + ys;
    }
  }

  lemma IterationEnd(s: set<nat>, from: nat, xs: seq<nat>)
    requires IsNextMember(s, from, NPOS) && IsIterationUpTo(s, from, xs)
    ensures IsIteration(s, 0, xs)
  {
    assert xs + [] == xs;
  }

  lemma {:induction false} IterationMembers(s: set<nat>, from: nat, xs: seq<nat>)
    requires IsIteration(s, from, xs)
    ensures forall p :: p in xs <==> p in s && from <= p
    decreases |xs|
  {
    if xs == [] {
    } else {
      IterationMembers(s, xs[0] + 1, xs[1..]);
      assert xs == [xs[0]] + xs[1..];
    }
  }

  lemma {:induction false} IterationIncreases(s: set<nat>, from: nat, xs: seq<nat>, i: nat, j: nat)
    requires IsIteration(s, from, xs) && i < j < |xs|
    ensures xs[i] < xs[j]
    decreases |xs|
  {
    var rest := xs[1..];
    if i == 0 {
      IterationMembers(s, xs[0] + 1, rest);
      assert rest[j - 1] in rest;
    } else {
      IterationIncreases(s, xs[0] + 1, rest, i - 1, j - 1);
    }
  }

  /** The members from `from` on. */
  function From(s: set<nat>, from: nat): set<nat> {
    set p | p in s && from <= p
  }

  lemma {:induction false} IterationCounts(s: set<nat>, from: nat, xs: seq<nat>)
    requires IsIteration(s, from, xs)
    ensures |xs| == |From(s, from)|
    decreases |xs|
  {
    if xs == [] {
      assert From(s, from) == {};
    } else {
      IterationCounts(s, xs[0] + 1, xs[1..]);
      assert From(s, from) == {xs[0]} + From(s, xs[0] + 1);
    }
  }

  /** Scanning on from 0 lists every member once, in increasing order, in as many steps as there are members. */
  lemma IterationListsMembers(s: set<nat>, xs: seq<nat>)
    requires IsIteration(s, 0, xs)
    ensures forall i, j :: 0 <= i < j < |xs| ==> xs[i] < xs[j]
    ensures forall p :: p in xs <==> p in s
    ensures |xs| == |s|
  {
    hide IsIteration;
    forall i, j | 0 <= i < j < |xs| ensures xs[i] < xs[j] {
      IterationIncreases(s, 0, xs, i, j);
    }
    IterationMembers(s, 0, xs);
    IterationCounts(s, 0, xs);
    assert From(s, 0) == s;
  }

  /** The least position from `from` on that is not in the set. */
  predicate IsNextGap(s: set<nat>, from: nat, r: nat) {
    from <= r && r !in s && forall p :: from <= p < r ==> p in s
  }

  lemma ShiftedZero(n: nat)
    ensures ShiftRight(0, n) == 0
    decreases n
  {
    hide Bit;
    forall k: nat | k < WIDTH ensures !Bit(ShiftRight(0, n), k) {
      BitShiftRight(0, n, k);
      ZeroWord(0);
    }
    ZeroWord(ShiftRight(0, n));
  }

  /** Word `i` holds nothing from `from` on. */
  lemma SkipBlankWord(data: seq<word>, i: nat, off: nat, p: nat)
    requires i < |data| && off < 64 && ShiftRight(data[i], off) == 0
    requires 64 * i + off <= p < 64 * (i + 1)
    ensures p !in Members(data)
  {
    hide Bit, Has, Members;
    HasByWord(data, p);
    ZeroWord(0);
    BitShiftRight(data[i], off, p % 64 - off);
  }

  lemma NonZeroFound(w: word)
    requires w != 0
    ensures TrailingZeros(w, 0) < 64
  {
    hide Bit, TrailingZeros;
    ZeroWord(w);
    assert exists j: nat :: j < 64 && Bit(w, j);
  }

  /** Word `i` holds something from `off` on: the first bit of the shifted word is the next member. */
  lemma FoundInWord(data: seq<word>, i: nat, off: nat)
    requires i < |data| && off < 64 && ShiftRight(data[i], off) != 0
    ensures var z := TrailingZeros(ShiftRight(data[i], off), 0);
            off + z < 64 && IsNextMember(Members(data), i * 64 + off, i * 64 + off + z)
    requires |data| < MAX_WORDS
  {
    hide Bit, Has, Members, ShiftRight, TrailingZeros;
    var w := ShiftRight(data[i], off);
    var z := TrailingZeros(w, 0);
    NonZeroFound(w);
    BitShiftRight(data[i], off, z);
    HasAt(data, i, off + z);
    HasByWord(data, 64 * i + (off + z));
    forall p | i * 64 + off <= p < i * 64 + off + z ensures p !in Members(data) {
      HasByWord(data, p);
      BitShiftRight(data[i], off, p % 64 - off);
      assert !Bit(w, p % 64 - off);
    }
  }

  /** The bits of word `i` from `off` on that are clear. */
  function ClearFrom(w: word, off: nat): word {
    And(Not(w), Not(Pred(Mask(off))))
  }

  lemma BitClearFrom(w: word, off: nat, k: nat)
    requires off < 64 && k < 64
    ensures Bit(ClearFrom(w, off), k) <==> off <= k && !Bit(w, k)
  {
    hide Bit, And, Not, Mask, Pred;
    BitAnd(Not(w), Not(Pred(Mask(off))), k);
    BitNot(w, k);
    BitNot(Pred(Mask(off)), k);
    BitBelow(off, k);
  }

  lemma SkipFullWord(data: seq<word>, i: nat, off: nat, p: nat)
    requires i < |data| && off < 64 && ClearFrom(data[i], off) == 0
    requires 64 * i + off <= p < 64 * (i + 1)
    ensures p in Members(data)
  {
    hide Bit, Has, Members, ClearFrom;
    HasByWord(data, p);
    ZeroWord(0);
    BitClearFrom(data[i], off, p % 64);
  }

  lemma GapInWord(data: seq<word>, i: nat, off: nat)
    requires i < |data| && off < 64 && ClearFrom(data[i], off) != 0
    ensures var z := TrailingZeros(ClearFrom(data[i], off), 0);
            z < 64 && IsNextGap(Members(data), i * 64 + off, i * 64 + z)
  {
    hide Bit, Has, Members, ClearFrom, TrailingZeros;
    var w := ClearFrom(data[i], off);
    var z := TrailingZeros(w, 0);
    NonZeroFound(w);
    BitClearFrom(data[i], off, z);
    HasAt(data, i, z);
    HasByWord(data, 64 * i + z);
    forall p | i * 64 + off <= p < i * 64 + z ensures p in Members(data) {
      HasByWord(data, p);
      BitClearFrom(data[i], off, p % 64);
      assert !Bit(w, p % 64);
    }
  }

  // ----- counting

  lemma {:induction false} CountInWord(data: seq<word>, i: nat, n: nat)
    requires i < |data| && n <= 64
    ensures |set p | p in Members(data) && p < 64 * i + n|
            == |set p | p in Members(data) && p < 64 * i| + PopCount(data[i], n)
    decreases n
  {
    hide Bit, Has, Members;
    if n == 0 {
      assert (set p | p in Members(data) && p < 64 * i + n) == (set p | p in Members(data) && p < 64 * i);
    } else {
      CountInWord(data, i, n - 1);
      var x := 64 * i + (n - 1);
      HasAt(data, i, n - 1);
      HasByWord(data, x);
      var below, upTo := set p | p in Members(data) && p < x, set p | p in Members(data) && p < x + 1;
      if x in Members(data) {
        assert upTo == below + {x};
      } else {
        assert upTo == below;
      }
    }
  }

  // ----- conversions

  type octet = bv8

  function Wide(b: octet): word { b as word }

  /** `1 << j`, cut to a byte. */
  function OctetMask(j: nat): octet
    decreases j
  {
    if j == 0 then 1 else OctetMask(j - 1) << 1
  }

  predicate OctetHas(bytes: seq<octet>, p: nat) {
    p / 8 < |bytes| && Bit(Wide(bytes[p / 8]), p % 8)
  }

  /** The set that a byte array stands for, least significant bit first. */
  function OctetMembers(bytes: seq<octet>): set<nat> {
    set p: nat | p < 8 * |bytes| && OctetHas(bytes, p)
  }

  lemma WideMask(j: nat)
    requires j < 8
    ensures Wide(OctetMask(j)) == Mask(j)
  {
    assert Mask(0) == 1 && Mask(1) == 2 && Mask(2) == 4 && Mask(3) == 8;
    assert Mask(4) == 16 && Mask(5) == 32 && Mask(6) == 64 && Mask(7) == 128;
    assert OctetMask(0) == 1 && OctetMask(1) == 2 && OctetMask(2) == 4 && OctetMask(3) == 8;
    assert OctetMask(4) == 16 && OctetMask(5) == 32 && OctetMask(6) == 64 && OctetMask(7) == 128;
  }

  lemma WideOr(x: octet, y: octet)
    ensures Wide(x | y) == Or(Wide(x), Wide(y))
  {
  }

  lemma WideIsNarrow(x: octet)
    ensures Wide(x) == And(Wide(x), 0xFF)
  {
  }

  lemma LowMask()
    ensures Pred(Mask(8)) == 0xFF
  {
  }

  lemma WideBits(x: octet, k: nat)
    requires 8 <= k < 64
    ensures !Bit(Wide(x), k)
  {
    hide Bit, And, Wide, Pred;
    WideIsNarrow(x);
    BitAnd(Wide(x), 0xFF, k);
    LowMask();
    BitBelow(8, k);
  }

  /** Octet `j` of a word: what `fromByteArray` puts together. */
  lemma ShiftedOctet(x: octet, j: nat, k: nat)
    requires j < 8 && k < 64
    ensures Bit(ShiftLeft(Wide(x), j * 8), k) <==> k / 8 == j && Bit(Wide(x), k % 8)
  {
    hide Bit, ShiftLeft, Wide;
    BitShiftLeft(Wide(x), j * 8, k);
    if j * 8 + 8 <= k {
      WideBits(x, k - j * 8);
    }
  }

  lemma OctetSet(x: octet, j: nat, k: nat)
    requires j < 8 && k < 8
    ensures Bit(Wide(x | OctetMask(j)), k) <==> k == j || Bit(Wide(x), k)
  {
    hide Bit, Wide, OctetMask, Mask, Or;
    var m := OctetMask(j);
    WideOr(x, m);
    WideMask(j);
    BitOr(Wide(x), Mask(j), k);
    BitOfMask(k, j);
  }

  lemma WideZero()
    ensures forall k: nat :: !Bit(Wide(0), k)
  {
  }

  /** Octets whose bits are those of `s` form the byte array of `s`, as far as they reach. */
  lemma OctetsMean(bytes: seq<octet>, s: set<nat>)
    requires forall m: nat, k: nat :: m < |bytes| && k < 8 ==> (Bit(Wide(bytes[m]), k) <==> 8 * m + k in s)
    ensures forall p :: p in OctetMembers(bytes) <==> p in s && p < 8 * |bytes|
  {
    hide Bit, Wide;
    forall p: nat ensures p in OctetMembers(bytes) <==> p in s && p < 8 * |bytes| {
      if p < 8 * |bytes| {
        assert 8 * (p / 8) + p % 8 == p;
      }
    }
  }

  /** `block` holds the first `j` octets of word `i`. */
  ghost predicate HoldsOctets(bytes: seq<octet>, i: nat, j: nat, block: word) {
    forall k: nat :: k < 64 ==> (Bit(block, k) <==> k < 8 * j && OctetHas(bytes, 64 * i + k))
  }

  lemma OctetOfWord(bytes: seq<octet>, i: nat, k: nat)
    ensures OctetHas(bytes, 64 * i + k) <==> 8 * i + k / 8 < |bytes| && Bit(Wide(bytes[8 * i + k / 8]), k % 8)
  {
    hide Bit;
    assert (64 * i + k) / 8 == 8 * i + k / 8 && (64 * i + k) % 8 == k % 8;
  }

  /** One more octet of word `i`. */
  lemma AddOctet(bytes: seq<octet>, i: nat, j: nat, block: word)
    requires j < 8 && i * 8 + j < |bytes| && HoldsOctets(bytes, i, j, block)
    ensures HoldsOctets(bytes, i, j + 1, Or(block, ShiftLeft(Wide(bytes[i * 8 + j]), j * 8)))
  {
    hide Bit, Wide, ShiftLeft, Or, OctetHas;
    var x := bytes[i * 8 + j];
    var y := ShiftLeft(Wide(x), j * 8);
    var b := Or(block, y);
    forall k: nat | k < 64 ensures Bit(b, k) <==> k < 8 * (j + 1) && OctetHas(bytes, 64 * i + k) {
      BitOr(block, y, k);
      ShiftedOctet(x, j, k);
      OctetOfWord(bytes, i, k);
    }
  }

  lemma PastTheEnd(bytes: seq<octet>, i: nat, j: nat, block: word)
    requires j < 8 && i * 8 + j >= |bytes| && HoldsOctets(bytes, i, j, block)
    ensures HoldsOctets(bytes, i, 8, block)
  {
    hide Bit;
    forall k: nat | k < 64 ensures Bit(block, k) <==> k < 64 && OctetHas(bytes, 64 * i + k) {
      assert (64 * i + k) / 8 == 8 * i + k / 8;
    }
  }

  lemma NoOctets(bytes: seq<octet>, i: nat)
    ensures HoldsOctets(bytes, i, 0, 0)
  {
    ZeroWord(0);
  }

  lemma OctetInRange(bytes: seq<octet>, p: nat)
    ensures OctetHas(bytes, p) ==> p < 8 * |bytes|
  {
  }

  lemma HasMeans(data: seq<word>, p: nat)
    ensures Has(data, p) ==> p < 64 * |data|
    ensures Has(data, p) <==> p / 64 < |data| && Bit(data[p / 64], p % 64)
  {
  }

  /** Words whose bits are those of the octets stand for the same set. */
  lemma WordsMean(bytes: seq<octet>, data: seq<word>)
    requires |data| == (|bytes| + 7) / 8
    requires forall m: nat :: m < |data| ==> HoldsOctets(bytes, m, 8, data[m])
    ensures Members(data) == OctetMembers(bytes)
  {
    hide Bit, Has, OctetHas;
    forall p: nat ensures p in Members(data) <==> p in OctetMembers(bytes) {
      assert 64 * (p / 64) + p % 64 == p;
      OctetInRange(bytes, p);
      assert p / 64 < |data| ==> HoldsOctets(bytes, p / 64, 8, data[p / 64]);
      HasMeans(data, p);
    }
    assert Members(data) == OctetMembers(bytes);
  }

  /** What `toLongArray` keeps of the words. */
  function LongsOf(data: seq<word>, h: nat): (longs: seq<word>)
    requires IsMaximum(Members(data), h)
    ensures longs <= data && |longs| == if h == NPOS then 0 else h / 64 + 1
  {
    if h == NPOS then [] else assert h / 64 < |data|; data[..h / 64 + 1]
  }

  /** Cutting the words above the maximum loses nothing. */
  lemma LongArrayRoundTrip(data: seq<word>, h: nat)
    requires |data| < MAX_WORDS && IsMaximum(Members(data), h)
    ensures Members(LongsOf(data, h)) == Members(data)
  {
    hide Bit, Has, Members;
    var longs := LongsOf(data, h);
    MembersBounded(data);
    forall p: nat ensures p in Members(longs) <==> p in Members(data) {
      HasByWord(data, p);
      HasByWord(longs, p);
      ZeroWord(0);
    }
    assert Members(longs) == Members(data);
  }

  /** The long array depends only on the set. */
  lemma LongArrayIsCanonical(a: seq<word>, b: seq<word>, h: nat)
    requires Members(a) == Members(b) && IsMaximum(Members(a), h)
    ensures LongsOf(a, h) == LongsOf(b, h)
  {
    hide Bit, Has, Members;
    var x, y := LongsOf(a, h), LongsOf(b, h);
    assert |x| == |y|;
    forall i | 0 <= i < |x| ensures x[i] == y[i] {
      SameMembersSameWords(a, b, i);
    }
  }

  /** What `toByteArray` returns for a set with the maximum `h`. */
  ghost predicate IsByteForm(s: set<nat>, h: nat, bytes: seq<octet>) {
    && |bytes| == (if h == NPOS then 0 else (h + 7) / 8)
    && forall p :: p in OctetMembers(bytes) <==> p in s && p < 8 * |bytes|
  }

  /** The byte array has one octet too few when the highest index is a multiple of 8: that element is lost,
      and nothing else ever is. */
  lemma ByteRoundTrip(s: set<nat>, h: nat, bytes: seq<octet>)
    requires IsMaximum(s, h) && IsByteForm(s, h, bytes)
    requires forall p :: p in s ==> p < NPOS
    ensures OctetMembers(bytes) == s <==> s == {} || h % 8 != 0
    ensures s != {} && h % 8 == 0 ==> OctetMembers(bytes) == s - {h}
  {
    hide OctetMembers;
    var t := OctetMembers(bytes);
    if s != {} {
      if h % 8 == 0 {
        assert 8 * |bytes| == h;
        assert t == s - {h};
      } else {
        assert h < 8 * |bytes|;
        assert t == s;
      }
    } else {
      assert t == s;
    }
  }
}
