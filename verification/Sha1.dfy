/**
  Streaming SHA-1 (`uuids::detail::sha1`) against the one-shot hash of FIPS 180-4: padding of section
  5.1.1, compression of section 6.1.2.
 */
module Sha1 {
  import opened Bytes

  type word = bv32

  // ----- FIPS 180-4

  datatype Digest = Digest(a: word, b: word, c: word, d: word, e: word)

  const INITIAL := Digest(0x6745_2301, 0xEFCD_AB89, 0x98BA_DCFE, 0x1032_5476, 0xC3D2_E1F0)

  function Rotl1(x: word): word {
    (x << 1) | (x >> 31)
  }

  function Rotl5(x: word): word {
    (x << 5) | (x >> 27)
  }

  function Rotl30(x: word): word {
    (x << 30) | (x >> 2)
  }

  function Ch(x: word, y: word, z: word): word {
    (x & y) ^ (!x & z)
  }

  function Parity(x: word, y: word, z: word): word {
    x ^ y ^ z
  }

  function Maj(x: word, y: word, z: word): word {
    (x & y) ^ (x & z) ^ (y & z)
  }

  function F(t: nat, x: word, y: word, z: word): word {
    if t < 20 then Ch(x, y, z) else if t < 40 then Parity(x, y, z) else if t < 60 then Maj(x, y, z) else Parity(x, y, z)
  }

  function K(t: nat): word {
    if t < 20 then 0x5A82_7999 else if t < 40 then 0x6ED9_EBA1 else if t < 60 then 0x8F1B_BCDC else 0xCA62_C1D6
  }

  /** The `t`-th big-endian word of a block. */
  function BlockWord(block: bytes, t: nat): word
    requires |block| == 64 && t < 16
  {
    (block[4 * t] as word << 24) | (block[4 * t + 1] as word << 16) | (block[4 * t + 2] as word << 8) | block[4 * t + 3] as word
  }

  function Xor4(w: word, x: word, y: word, z: word): word {
    w ^ x ^ y ^ z
  }

  /** The first `n` words of the message schedule. */
  function Schedule(block: bytes, n: nat): (w: seq<word>)
    requires |block| == 64
    ensures |w| == n
  {
    if n == 0 then [] else
      var w := Schedule(block, n - 1);
      var t := n - 1;
      w + [if t < 16 then BlockWord(block, t) else Rotl1(Xor4(w[t - 3], w[t - 8], w[t - 14], w[t - 16]))]
  }

  /** Addition modulo 2^32. */
  function Plus(x: word, y: word): word {
    x + y
  }

  function Sum5(v: word, w: word, x: word, y: word, z: word): word {
    v + w + x + y + z
  }

  function Round(s: Digest, t: nat, w: word): Digest {
    Digest(Sum5(Rotl5(s.a), F(t, s.b, s.c, s.d), s.e, K(t), w), s.a, Rotl30(s.b), s.c, s.d)
  }

  function Rounds(s: Digest, w: seq<word>, t: nat): Digest
    requires t <= |w|
  {
    if t == 0 then s else Round(Rounds(s, w, t - 1), t - 1, w[t - 1])
  }

  function Compress(h: Digest, block: bytes): Digest
    requires |block| == 64
  {
    var s := Rounds(h, Schedule(block, 80), 80);
    Digest(Plus(h.a, s.a), Plus(h.b, s.b), Plus(h.c, s.c), Plus(h.d, s.d), Plus(h.e, s.e))
  }

  /** Compression of a whole number of blocks. */
  function Absorb(h: Digest, data: bytes): Digest
    requires |data| % 64 == 0
    decreases |data|
  {
    if data == [] then h else Absorb(Compress(h, data[..64]), data[64..])
  }

  function Length32(n: nat): (bs: bytes)
    ensures |bs| == 4
  {
    [n / 0x100_0000 % 256, n / 0x1_0000 % 256, n / 0x100 % 256, n % 256]
  }

  /** The eight bytes of a 64-bit big-endian number. */
  function Length64(n: nat): (bs: bytes)
    ensures |bs| == 8
  {
    [n / 0x100_0000_0000_0000 % 256, n / 0x1_0000_0000_0000 % 256, n / 0x100_0000_0000 % 256, n / 0x1_0000_0000 % 256] + Length32(n)
  }

  /** How many zeros bring a message of `n` bytes and its 0x80 to 56 modulo 64. */
  function ZerosAfter(n: nat): (k: nat)
    ensures k < 64 && (n + 1 + k) % 64 == 56
  {
    (119 - n % 64) % 64
  }

  lemma PaddingFills(n: nat, zeros: nat)
    requires (n + 1 + zeros) % 64 == 56
    ensures (n + (1 + zeros + 8)) % 64 == 0
  {
  }

  function Padding(n: nat): (p: bytes)
    ensures (n + |p|) % 64 == 0
  {
    PaddingFills(n, ZerosAfter(n));
    [0x80] + Zeros(ZerosAfter(n)) + Length64(8 * n)
  }

  function Hash(message: bytes): Digest {
    Absorb(INITIAL, message + Padding(|message|))
  }

  function WordBytes(x: word): (bs: bytes)
    ensures |bs| == 4
  {
    [((x >> 24) & 0xFF) as int, ((x >> 16) & 0xFF) as int, ((x >> 8) & 0xFF) as int, (x & 0xFF) as int]
  }

  function DigestBytes(h: Digest): (bs: bytes)
    ensures |bs| == 20
  {
    WordBytes(h.a) + WordBytes(h.b) + WordBytes(h.c) + WordBytes(h.d) + WordBytes(h.e)
  }

  // ----- the padding the streaming code appends: the length in 32 bits, four zeros before it

  function StreamPadding(n: nat): (p: bytes)
    ensures (n + |p|) % 64 == 0
  {
    PaddingFills(n, ZerosAfter(n));
    [0x80] + Zeros(ZerosAfter(n)) + (Zeros(4) + Length32(8 * n))
  }

  lemma SomeByte(h: nat)
    requires 0 < h < 0x1_0000_0000
    ensures h / 0x100_0000 % 256 != 0 || h / 0x1_0000 % 256 != 0 || h / 0x100 % 256 != 0 || h % 256 != 0
  {
  }

  lemma HighBytes(n: nat)
    requires 0x1_0000_0000 <= n < 0x1_0000_0000_0000_0000
    ensures Length64(n)[..4] != Zeros(4)
  {
    var h := n / 0x1_0000_0000;
    assert n / 0x100_0000_0000 == h / 0x100 && n / 0x1_0000_0000_0000 == h / 0x1_0000;
    assert n / 0x100_0000_0000_0000 == h / 0x100_0000;
    var bs := Length64(n)[..4];
    assert bs == [h / 0x100_0000 % 256, h / 0x1_0000 % 256, h / 0x100 % 256, h % 256];
    SomeByte(h);
    assert Zeros(4) == [0, 0, 0, 0];
  }

  /** It is the standard padding exactly for messages under 2^29 bytes. */
  lemma StreamPaddingIsStandardExactlyBelowLimit(n: nat)
    requires n < 0x2000_0000_0000_0000
    ensures StreamPadding(n) == Padding(n) <==> n < 0x2000_0000
  {
    var front := [0x80] + Zeros(ZerosAfter(n));
    var k := |front|;
    assert StreamPadding(n)[k..] == Zeros(4) + Length32(8 * n);
    assert Padding(n)[k..] == Length64(8 * n);
    if n < 0x2000_0000 {
      assert Length64(8 * n)[..4] == Zeros(4);
      assert Length64(8 * n) == Zeros(4) + Length32(8 * n);
    } else {
      HighBytes(8 * n);
      assert (Zeros(4) + Length32(8 * n))[..4] == Zeros(4);
    }
  }

  // ----- the word operations of the code, and what they mean in the standard's terms

  /** `left_rotate` by 1, 5 and 30, with an exclusive or. */
  function LeftRotate1(value: word): (r: word)
    ensures r == Rotl1(value)
  {
    (value << 1) ^ (value >> 31)
  }

  function LeftRotate5(value: word): (r: word)
    ensures r == Rotl5(value)
  {
    (value << 5) ^ (value >> 27)
  }

  function LeftRotate30(value: word): (r: word)
    ensures r == Rotl30(value)
  {
    (value << 30) ^ (value >> 2)
  }

  /** The choice and majority functions, with inclusive ors. */
  function Choose(b: word, c: word, d: word): word {
    (b & c) | (!b & d)
  }

  function Majority(b: word, c: word, d: word): word {
    (b & c) | (b & d) | (c & d)
  }

  lemma NoDifference(x: word, y: word)
    requires x ^ y == 0
    ensures x == y
  {
  }

  lemma ChoiceDifference(x: word, y: word, z: word)
    ensures Choose(x, y, z) ^ Ch(x, y, z) == 0
  {
  }

  lemma MajorityDifference(x: word, y: word, z: word)
    ensures Majority(x, y, z) ^ Maj(x, y, z) == 0
  {
  }

  lemma InclusiveIsExclusive(x: word, y: word, z: word)
    ensures Choose(x, y, z) == Ch(x, y, z)
    ensures Majority(x, y, z) == Maj(x, y, z)
  {
    hide Choose, Ch, Majority, Maj;
    ChoiceDifference(x, y, z);
    NoDifference(Choose(x, y, z), Ch(x, y, z));
    MajorityDifference(x, y, z);
    NoDifference(Majority(x, y, z), Maj(x, y, z));
  }

  lemma AbsorbNothing(h: Digest)
    ensures Absorb(h, []) == h
  {
  }

  lemma {:induction false} AbsorbAppend(h: Digest, data: bytes, block: bytes)
    requires |data| % 64 == 0 && |block| == 64
    ensures Absorb(h, data + block) == Compress(Absorb(h, data), block)
    decreases |data|
  {
    hide Compress;
    if data == [] {
      assert data + block == block && block[64..] == [] && block[..64] == block;
    } else {
      AbsorbAppend(Compress(h, data[..64]), data[64..], block);
      assert (data + block)[..64] == data[..64] && (data + block)[64..] == data[64..] + block;
    }
  }

  // ----- the class

  function DigestOf(a: seq<word>): Digest
    requires |a| == 5
  {
    Digest(a[0], a[1], a[2], a[3], a[4])
  }

  function ZerosTo56(index: nat): (k: nat)
    requires index < 64
  {
    if index <= 56 then 56 - index else 120 - index
  }

  lemma SameZeros(n: nat)
    ensures ZerosTo56(if n % 64 == 63 then 0 else n % 64 + 1) == ZerosAfter(n)
  {
  }

  lemma PaddingParts(m: bytes)
    ensures m + StreamPadding(|m|)
            == ((m + [0x80]) + Zeros(ZerosAfter(|m|))) + (Zeros(4) + Length32(8 * |m|))
  {
  }

  class Sha1State {
    const digest: array<word>
    const block: array<byte>
    var blockByteIndex: nat
    var byteCount: nat

    /** Every byte processed since the last reset. */
    ghost var message: bytes

    /** The digest has absorbed the whole blocks of the message; the block array holds the rest. */
    ghost predicate Valid()
      reads this, digest, block
    {
      && digest.Length == 5 && block.Length == 64 && blockByteIndex < 64
      && byteCount == |message| && |message| % 64 == blockByteIndex
      && (var whole := |message| - blockByteIndex;
          && message[whole..] == block[..blockByteIndex]
          && DigestOf(digest[..]) == Absorb(INITIAL, message[..whole]))
    }

    /** Sets the five words of the digest. */
    method SetDigest(h: Digest)
      requires digest.Length == 5
      modifies digest
      ensures DigestOf(digest[..]) == h
    {
      digest[0] := h.a;
      digest[1] := h.b;
      digest[2] := h.c;
      digest[3] := h.d;
      digest[4] := h.e;
    }

    method Reset()
      requires digest.Length == 5 && block.Length == 64
      modifies this, digest
      ensures Valid() && message == []
    {
      hide DigestOf, Absorb;
      SetDigest(INITIAL);
      blockByteIndex := 0;
      byteCount := 0;
      message := [];
      AbsorbNothing(INITIAL);
      assert message[..0] == [] && message[0..] == [] == block[..0];
    }

    constructor ()
      ensures Valid() && message == [] && fresh(digest) && fresh(block)
    {
      digest := new word[5];
      block := new byte[64](_ => 0);
      blockByteIndex, byteCount, message := 0, 0, [];
      new;
      Reset();
    }

    /** The `i`-th word of a block, assembled byte by byte. */
    static method LoadWord(block: array<byte>, i: nat) returns (w: word)
      requires block.Length == 64 && i < 16
      ensures w == BlockWord(block[..], i)
    {
      w := block[i * 4] as word << 24;
      w := w | (block[i * 4 + 1] as word << 16);
      w := w | (block[i * 4 + 2] as word << 8);
      w := w | block[i * 4 + 3] as word;
    }

    /** The message schedule of a block. */
    static method Expand(block: array<byte>) returns (w: array<word>)
      requires block.Length == 64
      ensures fresh(w) && w.Length == 80 && w[..] == Schedule(block[..], 80)
    {
      hide BlockWord, Xor4, Rotl1;
      w := new word[80](_ => 0);
      ghost var data := block[..];
      for i := 0 to 16
        invariant block[..] == data
        invariant w[..i] == Schedule(data, i)
      {
        w[i] := LoadWord(block, i);
        assert w[..i + 1] == w[..i] + [w[i]];
      }
      for i := 16 to 80
        invariant block[..] == data
        invariant w[..i] == Schedule(data, i)
      {
        w[i] := LeftRotate1(Xor4(w[i - 3], w[i - 8], w[i - 14], w[i - 16]));
        assert w[..i + 1] == w[..i] + [w[i]];
      }
      assert w[..] == w[..80];
    }

    /** The round function and constant of round `i`. */
    static method Mix(i: nat, b: word, c: word, d: word) returns (f: word, k: word)
      ensures f == F(i, b, c, d) && k == K(i)
    {
      hide Ch, Maj, Parity, Choose, Majority;
      InclusiveIsExclusive(b, c, d);
      f, k := 0, 0;
      if i < 20 {
        f := Choose(b, c, d);
        k := 0x5A82_7999;
      } else if i < 40 {
        f := Parity(b, c, d);
        k := 0x6ED9_EBA1;
      } else if i < 60 {
        f := Majority(b, c, d);
        k := 0x8F1B_BCDC;
      } else {
        f := Parity(b, c, d);
        k := 0xCA62_C1D6;
      }
    }

    method ProcessBlock()
      requires digest.Length == 5 && block.Length == 64 && digest as object != block
      modifies digest
      ensures DigestOf(digest[..]) == Compress(old(DigestOf(digest[..])), old(block[..]))
    {
      hide Schedule, F, K, Rotl5, Rotl30, Sum5, Plus;
      ghost var data := block[..];
      var w := Expand(block);
      var a, b, c, d, e := digest[0], digest[1], digest[2], digest[3], digest[4];
      ghost var start, words := DigestOf(digest[..]), w[..];
      for i := 0 to 80
        invariant w[..] == words && digest[..] == old(digest[..])
        invariant Digest(a, b, c, d, e) == Rounds(start, words, i)
      {
        var f, k := Mix(i, b, c, d);
        var temp := Sum5(LeftRotate5(a), f, e, k, w[i]);
        e := d;
        d := c;
        c := LeftRotate30(b);
        b := a;
        a := temp;
      }
      digest[0] := Plus(digest[0], a);
      digest[1] := Plus(digest[1], b);
      digest[2] := Plus(digest[2], c);
      digest[3] := Plus(digest[3], d);
      digest[4] := Plus(digest[4], e);
      assert words == Schedule(data, 80);
      assert Compress(start, data) == DigestOf(digest[..]);
    }

    method ProcessByte(octet: byte)
      requires Valid()
      modifies this, digest, block
      ensures Valid() && message == old(message) + [octet]
      ensures blockByteIndex == if old(blockByteIndex) == 63 then 0 else old(blockByteIndex) + 1
    {
      hide Compress, Absorb;
      ghost var whole := |message| - blockByteIndex;
      block[blockByteIndex] := octet;
      blockByteIndex := blockByteIndex + 1;
      byteCount := byteCount + 1;
      message := message + [octet];
      assert message[whole..] == block[..blockByteIndex];
      assert message[..whole] == old(message)[..whole];
      if blockByteIndex == 64 {
        blockByteIndex := 0;
        AbsorbAppend(INITIAL, message[..whole], message[whole..]);
        assert message == message[..whole] + message[whole..];
        assert message[..|message|] == message;
        assert block[..64] == block[..];
        ProcessBlock();
      }
    }

    method ProcessBytes(data: bytes)
      requires Valid()
      modifies this, digest, block
      ensures Valid() && message == old(message) + data
    {
      for i := 0 to |data|
        invariant Valid() && message == old(message) + data[..i]
      {
        assert data[..i + 1] == data[..i] + [data[i]];
        ProcessByte(data[i]);
      }
      assert data[..|data|] == data;
    }

    /** A padding zero. */
    method ProcessZero(ghost n: nat, ghost before: bytes)
      requires Valid() && message == before + Zeros(n)
      modifies this, digest, block
      ensures Valid() && message == before + Zeros(n + 1)
      ensures blockByteIndex == if old(blockByteIndex) == 63 then 0 else old(blockByteIndex) + 1
    {
      hide Absorb;
      assert Zeros(n + 1) == Zeros(n) + [0];
      ProcessByte(0);
    }

    /** The zeros that bring the block index to 56, going through a full block when it is already past. */
    method PadBlock()
      requires Valid()
      modifies this, digest, block
      ensures Valid() && message == old(message) + Zeros(ZerosTo56(old(blockByteIndex)))
    {
      hide Absorb;
      ghost var n: nat := 0;
      if blockByteIndex > 56 {
        while blockByteIndex != 0
          invariant Valid() && message == old(message) + Zeros(n)
          invariant blockByteIndex == if n == 64 - old(blockByteIndex) then 0 else old(blockByteIndex) + n
          invariant n <= 64 - old(blockByteIndex)
          decreases 64 - old(blockByteIndex) - n
        {
          ProcessZero(n, old(message));
          n := n + 1;
        }
      }
      while blockByteIndex < 56
        invariant Valid() && message == old(message) + Zeros(n)
        invariant blockByteIndex <= 56 && n + (56 - blockByteIndex) == ZerosTo56(old(blockByteIndex))
        decreases 56 - blockByteIndex
      {
        ProcessZero(n, old(message));
        n := n + 1;
      }
    }

    /** The number of processed bytes may wrap around in the code; only its low 32 bits are used here. */
    method AppendLength(bitCount: nat)
      requires Valid()
      modifies this, digest, block
      ensures Valid() && message == old(message) + (Zeros(4) + Length32(bitCount))
    {
      hide Valid;
      ProcessZero(0, message);
      ProcessZero(1, old(message));
      ProcessZero(2, old(message));
      ProcessZero(3, old(message));
      ProcessByte(bitCount / 0x100_0000 % 256);
      ProcessByte(bitCount / 0x1_0000 % 256);
      ProcessByte(bitCount / 0x100 % 256);
      ProcessByte(bitCount % 256);
      assert message == old(message) + (Zeros(4) + Length32(bitCount));
    }

    method AppendPadding(bitCount: nat)
      requires Valid() && bitCount == 8 * |message| && blockByteIndex == |message| % 64
      modifies this, digest, block
      ensures Valid() && message == old(message) + StreamPadding(|old(message)|)
    {
      hide Valid, Length32, StreamPadding, ZerosAfter, Zeros;
      SameZeros(|message|);
      PaddingParts(message);
      ProcessByte(0x80);
      PadBlock();
      AppendLength(bitCount);
    }

    method GetDigest() returns (result: Digest)
      requires Valid()
      modifies this, digest, block
      ensures Valid() && message == old(message) + StreamPadding(|old(message)|)
      ensures result == Absorb(INITIAL, old(message) + StreamPadding(|old(message)|))
    {
      hide Absorb, StreamPadding;
      AppendPadding(byteCount * 8);
      assert message[..|message|] == message;
      result := Digest(digest[0], digest[1], digest[2], digest[3], digest[4]);
    }

    method GetDigestBytes() returns (result: bytes)
      requires Valid()
      modifies this, digest, block
      ensures Valid()
      ensures result == DigestBytes(Absorb(INITIAL, old(message) + StreamPadding(|old(message)|)))
    {
      hide Valid, Absorb, WordBytes, StreamPadding;
      var d := GetDigest();
      result := WordBytes(d.a) + WordBytes(d.b) + WordBytes(d.c) + WordBytes(d.d) + WordBytes(d.e);
    }
  }

  /** However a message under 2^29 bytes is cut into calls, the digest is the standard's hash of it. */
  method HashInParts(parts: seq<bytes>) returns (result: bytes)
    requires |Joined(parts)| < 0x2000_0000
    ensures result == DigestBytes(Hash(Joined(parts)))
  {
    hide Absorb, DigestBytes;
    var state := new Sha1State();
    for i := 0 to |parts|
      invariant state.Valid() && fresh(state) && fresh(state.digest) && fresh(state.block)
      invariant state.message == Joined(parts[..i])
    {
      assert parts[..i + 1][..i] == parts[..i];
      state.ProcessBytes(parts[i]);
    }
    assert parts[..|parts|] == parts;
    StreamPaddingIsStandardExactlyBelowLimit(|Joined(parts)|);
    result := state.GetDigestBytes();
  }
}
