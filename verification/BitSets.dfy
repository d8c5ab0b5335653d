/**
  `BitSet`: a growing array of 64-bit words with a cached highest set bit. Each operation is the set
  operation of its name.
 */
module BitSets {
  import opened Bits
  import opened WordSets

  function Min(x: nat, y: nat): nat { if x < y then x else y }

  function Max(x: nat, y: nat): nat { if x < y then y else x }

  class BitSet {
    var data: seq<word>
    var highestSet: nat

    ghost predicate Valid()
      reads this
    {
      |data| < MAX_WORDS && IsMaximum(Members(data), highestSet)
    }

    ghost function Elems(): set<nat>
      reads this
    {
      Members(data)
    }

    constructor ()
      ensures Valid() && Elems() == {} && data == []
    {
      data, highestSet := [], NPOS;
    }

    constructor WithCapacity(n: nat)
      requires n < 64 * (MAX_WORDS - 1)
      ensures Valid() && Elems() == {} && |data| == (n + 63) / 64
    {
      var words := Resize([], (n + 63) / 64);
      data, highestSet := words, NPOS;
      ResizeKeeps([], (n + 63) / 64);
    }

    // ----- single bits

    /** Positions from 2^64 - 64 on make the size computation wrap around. */
    method Set(pos: nat)
      requires Valid() && pos < 64 * (MAX_WORDS - 1)
      modifies this
      ensures Valid() && Elems() == old(Elems()) + {pos}
    {
      hide Members, Bit, Has, Or, Mask, IsMaximum;
      MembersBounded(data);
      MaximumAfterAddition(Elems(), highestSet, pos);
      if (pos + 64) / 64 > |data| {
        ResizeKeeps(data, (pos + 64) / 64);
        data := Resize(data, (pos + 64) / 64);
      }
      BitTest(data, pos);
      if pos in Elems() {
        assert Elems() + {pos} == Elems();
      }
      if And(data[pos / 64], Mask(pos % 64)) == 0 {
        SetWord(data, pos);
        data := data[pos / 64 := Or(data[pos / 64], Mask(pos % 64))];
        if highestSet == NPOS || pos > highestSet {
          highestSet := pos;
        }
      }
    }

    method Clear(pos: nat)
      requires Valid()
      modifies this
      ensures Valid() && Elems() == old(Elems()) - {pos}
    {
      hide Members, Bit, Has, And, Not, Mask, IsMaximum;
      MembersBounded(data);
      if pos !in Elems() {
        assert Elems() - {pos} == Elems();
      }
      if pos / 64 >= |data| {
        return;
      }
      BitTest(data, pos);
      if pos != highestSet {
        MaximumAfterRemoval(Elems(), highestSet, pos);
      }
      if And(data[pos / 64], Mask(pos % 64)) != 0 {
        ClearWord(data, pos);
        data := data[pos / 64 := And(data[pos / 64], Not(Mask(pos % 64)))];
        if pos == highestSet {
          highestSet := FindHighestSet(data);
        }
      }
    }

    method Flip(pos: nat)
      requires Valid() && pos < 64 * (MAX_WORDS - 1)
      modifies this
      ensures Valid()
      ensures Elems() == if pos in old(Elems()) then old(Elems()) - {pos} else old(Elems()) + {pos}
    {
      hide Members, Bit, Has, Xor, And, Mask;
      MembersBounded(data);
      if (pos + 64) / 64 > |data| {
        ResizeKeeps(data, (pos + 64) / 64);
        data := Resize(data, (pos + 64) / 64);
      }
      FlipWord(data, pos);
      data := data[pos / 64 := Xor(data[pos / 64], Mask(pos % 64))];
      BitTest(data, pos);
      assert pos != highestSet && highestSet != NPOS ==> highestSet in Elems();
      if And(data[pos / 64], Mask(pos % 64)) != 0 {
        if highestSet == NPOS || pos > highestSet {
          highestSet := pos;
        }
      } else {
        if pos == highestSet {
          highestSet := FindHighestSet(data);
        }
      }
    }

    predicate Get(pos: nat)
      reads this
      ensures Get(pos) <==> pos in Elems()
    {
      pos / 64 < |data| && And(data[pos / 64], Mask(pos % 64)) != 0
    }

    // ----- sizes

    function Size(): (n: nat)
      requires Valid()
      reads this
      ensures forall p :: p in Elems() ==> p < n
      ensures n > 0 ==> n - 1 in Elems()
    {
      MembersBounded(data);
      if highestSet == NPOS then 0 else highestSet + 1
    }

    predicate Any()
      requires Valid()
      reads this
      ensures Any() <==> Elems() != {}
    {
      MembersBounded(data);
      highestSet != NPOS
    }

    method Count() returns (total: nat)
      requires Valid()
      ensures total == |Elems()|
    {
      hide Members, PopCount;
      total := 0;
      ghost var s := Elems();
      assert (set p | p in s && p < 64 * 0) == {};
      for i := 0 to |data|
        invariant total == |set p | p in s && p < 64 * i|
      {
        CountInWord(data, i, 64);
        assert (set p | p in s && p < 64 * i + 64) == (set p | p in s && p < 64 * (i + 1));
        total := total + PopCount(data[i], 64);
      }
      MembersBounded(data);
      assert (set p | p in s && p < 64 * |data|) == s;
    }

    // ----- scans

    method NextSetBit(fromIndex: nat) returns (r: nat)
      requires Valid() && fromIndex <= NPOS
      ensures IsNextMember(Elems(), fromIndex, r)
    {
      hide Members, Bit, Has, ShiftRight;
      MembersBounded(data);
      if fromIndex > highestSet {
        return NPOS;
      }
      var blockIdx: nat, bitOffset: nat := fromIndex / 64, fromIndex % 64;
      while blockIdx < |data|
        invariant bitOffset < 64 && fromIndex <= blockIdx * 64 + bitOffset
        invariant forall p: nat :: fromIndex <= p < blockIdx * 64 + bitOffset ==> p !in Elems()
      {
        if data[blockIdx] != 0 {
          if ShiftRight(data[blockIdx], bitOffset) != 0 {
            FoundInWord(data, blockIdx, bitOffset);
            return blockIdx * 64 + bitOffset + TrailingZeros(ShiftRight(data[blockIdx], bitOffset), 0);
          }
        } else {
          ShiftedZero(bitOffset);
        }
        forall p: nat | blockIdx * 64 + bitOffset <= p < (blockIdx + 1) * 64 ensures p !in Elems() {
          SkipBlankWord(data, blockIdx, bitOffset, p);
        }
        blockIdx := blockIdx + 1;
        bitOffset := 0;
      }
      return NPOS;
    }

    /** Scanning on from one past the previous member until there is none ends, and lists every member once, in
        increasing order, in as many steps as there are members. */
    method Iterate() returns (xs: seq<nat>)
      requires Valid()
      ensures IsIteration(Elems(), 0, xs)
      ensures forall i, j :: 0 <= i < j < |xs| ==> xs[i] < xs[j]
      ensures (forall p :: p in xs <==> p in Elems()) && |xs| == |Elems()|
    {
      hide Members, IsMaximum, IsIteration, IsIterationUpTo;
      ghost var s := Elems();
      MembersBounded(data);
      xs := [];
      var next := NextSetBit(0);
      ghost var from: nat := 0;
      IterationStart(s);
      while next != NPOS
        invariant IsNextMember(s, from, next) && from <= NPOS && IsIterationUpTo(s, from, xs)
        decreases NPOS - from
      {
        IterationStep(s, from, xs, next);
        xs := xs + [next];
        from := next + 1;
        next := NextSetBit(next + 1);
      }
      IterationEnd(s, from, xs);
      IterationListsMembers(s, xs);
    }

    /** Beyond the words every position is clear, but the scan answers the end of the words: the answer is
        the next gap exactly when the scan starts no later than there. */
    method NextClearBit(fromIndex: nat) returns (r: nat)
      requires Valid()
      ensures IsNextGap(Elems(), fromIndex, r) <==> fromIndex <= 64 * |data|
      ensures fromIndex > 64 * |data| ==> r == 64 * |data|
    {
      hide Members, Bit, Has, ClearFrom;
      MembersBounded(data);
      var blockIdx: nat, bitOffset: nat := fromIndex / 64, fromIndex % 64;
      while blockIdx < |data|
        invariant bitOffset < 64 && fromIndex <= blockIdx * 64 + bitOffset
        invariant fromIndex <= 64 * |data| ==> blockIdx <= |data|
        invariant blockIdx == |data| && fromIndex <= 64 * |data| ==> bitOffset == 0
        invariant forall p: nat :: fromIndex <= p < blockIdx * 64 + bitOffset ==> p in Elems()
      {
        if ClearFrom(data[blockIdx], bitOffset) != 0 {
          GapInWord(data, blockIdx, bitOffset);
          return blockIdx * 64 + TrailingZeros(ClearFrom(data[blockIdx], bitOffset), 0);
        }
        forall p: nat | blockIdx * 64 + bitOffset <= p < (blockIdx + 1) * 64 ensures p in Elems() {
          SkipFullWord(data, blockIdx, bitOffset, p);
        }
        blockIdx := blockIdx + 1;
        bitOffset := 0;
      }
      return |data| * 64;
    }

    // ----- operations on two sets, which may be the same object

    method AndNot(other: BitSet)
      requires Valid() && other.Valid()
      modifies this
      ensures Valid() && Elems() == old(Elems()) - old(other.Elems())
    {
      hide Members, And, Not;
      ghost var a, b := data, other.data;
      var i: nat := 0;
      while i < Min(|data|, |other.data|)
        invariant i <= Min(|data|, |other.data|) && |data| == |a| && |other.data| == |b|
        invariant forall j :: 0 <= j < i ==> data[j] == And(a[j], Not(b[j]))
        invariant forall j :: i <= j < |a| ==> data[j] == a[j]
        invariant forall j :: i <= j < |b| ==> other.data[j] == b[j]
      {
        data := data[i := And(data[i], Not(other.data[i]))];
        i := i + 1;
      }
      AndNotLoop(a, b, data, i);
      highestSet := FindHighestSet(data);
    }

    /** `&=` */
    method AndWith(other: BitSet)
      requires Valid() && other.Valid()
      modifies this
      ensures Valid() && Elems() == old(Elems()) * old(other.Elems())
    {
      hide Members, And;
      ghost var a, b := data, other.data;
      var i: nat := 0;
      while i < Min(|data|, |other.data|)
        invariant i <= Min(|data|, |other.data|) && |data| == |a| && |other.data| == |b|
        invariant forall j :: 0 <= j < i ==> data[j] == And(a[j], b[j])
        invariant forall j :: i <= j < |a| ==> data[j] == a[j]
        invariant forall j :: i <= j < |b| ==> other.data[j] == b[j]
      {
        data := data[i := And(data[i], other.data[i])];
        i := i + 1;
      }
      while i < |data|
        invariant Min(|a|, |b|) <= i <= |data| && |data| == |a|
        invariant forall j :: 0 <= j < Min(|a|, |b|) ==> data[j] == And(a[j], b[j])
        invariant forall j :: Min(|a|, |b|) <= j < i ==> data[j] == 0
      {
        data := data[i := 0];
        i := i + 1;
      }
      AndLoop(a, b, data, Min(|a|, |b|));
      highestSet := FindHighestSet(data);
    }

    /** `|=` */
    method OrWith(other: BitSet)
      requires Valid() && other.Valid()
      modifies this
      ensures Valid() && Elems() == old(Elems()) + old(other.Elems())
    {
      hide Members, Or;
      ghost var a, b := data, other.data;
      if Max(|data|, |other.data|) > |data| {
        data := Resize(data, Max(|data|, |other.data|));
      }
      ghost var c := data;
      var i: nat := 0;
      while i < |other.data|
        invariant i <= |other.data| <= |data| && |data| == |c| && |other.data| == |b|
        invariant forall j :: 0 <= j < i ==> data[j] == Or(c[j], b[j])
        invariant forall j :: i <= j < |c| ==> data[j] == c[j]
        invariant forall j :: i <= j < |b| ==> other.data[j] == b[j]
      {
        data := data[i := Or(data[i], other.data[i])];
        i := i + 1;
      }
      OrLoop(a, b, c, data);
      highestSet := FindHighestSet(data);
    }

    /** `^=` */
    method XorWith(other: BitSet)
      requires Valid() && other.Valid()
      modifies this
      ensures Valid()
      ensures Elems() == (old(Elems()) - old(other.Elems())) + (old(other.Elems()) - old(Elems()))
    {
      hide Members, Xor;
      ghost var a, b := data, other.data;
      if Max(|data|, |other.data|) > |data| {
        data := Resize(data, Max(|data|, |other.data|));
      }
      ghost var c := data;
      var i: nat := 0;
      while i < |other.data|
        invariant i <= |other.data| <= |data| && |data| == |c| && |other.data| == |b|
        invariant forall j :: 0 <= j < i ==> data[j] == Xor(c[j], b[j])
        invariant forall j :: i <= j < |c| ==> data[j] == c[j]
        invariant forall j :: i <= j < |b| ==> other.data[j] == b[j]
      {
        data := data[i := Xor(data[i], other.data[i])];
        i := i + 1;
      }
      XorLoop(a, b, c, data);
      highestSet := FindHighestSet(data);
    }

    /** `==` compares sets, whatever the lengths of the word arrays. */
    method Equals(other: BitSet) returns (same: bool)
      ensures same <==> Elems() == other.Elems()
    {
      hide Members, Bit, Has;
      var i: nat := 0;
      while i < Max(|data|, |other.data|)
        invariant forall j: nat :: j < i ==> WordAt(data, j) == WordAt(other.data, j)
      {
        if (if i < |data| then data[i] else 0) != (if i < |other.data| then other.data[i] else 0) {
          if Elems() == other.Elems() {
            SameMembersSameWords(data, other.data, i);
          }
          return false;
        }
        i := i + 1;
      }
      SameWordsSameMembers(data, other.data);
      return true;
    }

    // ----- conversions

    method ToLongArray() returns (longs: seq<word>)
      requires Valid()
      ensures longs == LongsOf(data, highestSet)
    {
      if highestSet == NPOS {
        return [];
      }
      return data[..highestSet / 64 + 1];
    }

    static method FromLongArray(longs: seq<word>) returns (bs: BitSet)
      requires |longs| < MAX_WORDS
      ensures fresh(bs) && bs.Valid() && bs.data == longs
    {
      bs := new BitSet();
      bs.data := longs;
      bs.highestSet := FindHighestSet(bs.data);
    }

    /** The inner loop of `ToByteArray`: the octet of eight positions. */
    method OctetAt(i: nat) returns (b: octet)
      requires Valid()
      ensures forall k: nat :: k < 8 ==> (Bit(Wide(b), k) <==> 8 * i + k in Elems())
    {
      hide Members, Bit, Wide, OctetMask;
      b := 0;
      var j: nat := 0;
      WideZero();
      while j < 8
        invariant j <= 8
        invariant forall k: nat :: k < 8 ==> (Bit(Wide(b), k) <==> k < j && 8 * i + k in Elems())
      {
        if Get(i * 8 + j) {
          var b' := b | OctetMask(j);
          forall k: nat | k < 8 ensures Bit(Wide(b'), k) <==> k == j || Bit(Wide(b), k) {
            OctetSet(b, j, k);
          }
          b := b';
        }
        j := j + 1;
      }
    }

    method ToByteArray() returns (bytes: seq<octet>)
      requires Valid()
      ensures IsByteForm(Elems(), highestSet, bytes)
    {
      hide Members, Bit, Wide;
      MembersBounded(data);
      if highestSet == NPOS {
        return [];
      }
      bytes := seq((highestSet + 7) / 8, _ => 0);
      var i: nat := 0;
      while i < (highestSet + 7) / 8
        invariant i <= (highestSet + 7) / 8 == |bytes|
        invariant forall m: nat, k: nat :: m < i && k < 8 ==> (Bit(Wide(bytes[m]), k) <==> 8 * m + k in Elems())
      {
        var b := OctetAt(i);
        bytes := bytes[i := b];
        i := i + 1;
      }
      OctetsMean(bytes, Elems());
    }

    /** The inner loop of `FromByteArray`: one word from up to eight octets. */
    static method Block(bytes: seq<octet>, i: nat) returns (block: word)
      ensures HoldsOctets(bytes, i, 8, block)
    {
      hide HoldsOctets, Wide, ShiftLeft, Or;
      block := 0;
      NoOctets(bytes, i);
      var j: nat := 0;
      while j < 8
        invariant j <= 8 && HoldsOctets(bytes, i, j, block)
      {
        if i * 8 + j >= |bytes| {
          PastTheEnd(bytes, i, j, block);
          return;
        }
        AddOctet(bytes, i, j, block);
        block := Or(block, ShiftLeft(Wide(bytes[i * 8 + j]), j * 8));
        j := j + 1;
      }
    }

    static method FromByteArray(bytes: seq<octet>) returns (bs: BitSet)
      requires |bytes| < 8 * (MAX_WORDS - 1)
      ensures fresh(bs) && bs.Valid() && bs.Elems() == OctetMembers(bytes)
    {
      hide Members, OctetMembers, HoldsOctets, IsMaximum;
      bs := new BitSet();
      bs.data := Resize([], (|bytes| + 7) / 8);
      var i: nat := 0;
      while i < (|bytes| + 7) / 8
        invariant i <= (|bytes| + 7) / 8 == |bs.data|
        invariant forall m: nat :: m < i ==> HoldsOctets(bytes, m, 8, bs.data[m])
      {
        var block := Block(bytes, i);
        bs.data := bs.data[i := block];
        i := i + 1;
      }
      WordsMean(bytes, bs.data);
      bs.highestSet := FindHighestSet(bs.data);
    }
  }
}
