/**
  Frames that have not arrived completely. The read waits only while the length it sees exceeds everything
  that has arrived, its own prefix included. After that it takes what has arrived, followed by the zeros of
  the block, for the frame.
 */
module FramePrefixes {
  import opened Bytes
  import opened BlockBuffer
  import opened Numeric
  import opened VarNumeric
  import opened Arrays
  import opened Buffers
  import opened Framing

  // ----- numbers cut short

  /** What is left of `u` when all but the first `j` bytes of its written form are read as zero. */
  function Kept(u: nat, j: nat): nat
    decreases j
  {
    if j == 0 then 0 else u % 128 + 128 * Kept(u / 128, j - 1)
  }

  lemma ZeroByte(bits: nat, rest: bytes, shift: nat, acc: nat)
    requires shift < bits && acc < Pow2(shift)
    ensures DecVarFrom(bits, [0] + rest, shift, acc) == Got(acc, rest)
  {
    hide Pow2, DecVarFrom;
    var bs := [0] + rest;
    assert bs[0] == 0 && bs[1..] == rest;
    DecVarStep(bits, bs, shift, acc);
    assert Chunk(bits, 0, shift) == 0;
  }

  lemma CutStep(low: nat, kept: nat, shift: nat)
    ensures (low + 128 * kept) * Pow2(shift) == low * Pow2(shift) + kept * Pow2(shift + 7)
  {
    Pow2Step(shift);
    var p := Pow2(shift);
    assert (low + 128 * kept) * p == low * p + 128 * kept * p;
    assert 128 * kept * p == kept * (128 * p);
  }

  lemma {:induction false} CutNumber(bits: nat, u: nat, j: nat, rest: bytes, shift: nat, acc: nat)
    requires shift < bits && acc < Pow2(shift) && u * Pow2(shift) < Pow2(bits) && j < |VarBytes(u)|
    ensures DecVarFrom(bits, VarBytes(u)[..j] + ([0] + rest), shift, acc) == Got(acc + Kept(u, j) * Pow2(shift), rest)
    decreases j
  {
    hide DecVarFrom, Pow2, Chunk;
    var bs := VarBytes(u)[..j] + ([0] + rest);
    if j == 0 {
      assert bs == [0] + rest;
      ZeroByte(bits, rest, shift, acc);
    } else {
      var more := VarBytes(u / 128);
      assert VarBytes(u) == [u % 128 + 128] + more;
      assert bs == [u % 128 + 128] + (more[..j - 1] + ([0] + rest));
      RoomForRest(bits, u, shift, acc);
      ContinuedByte(bits, u, bs, more[..j - 1] + ([0] + rest), shift, acc);
      CutStep(u % 128, Kept(u / 128, j - 1), shift);
      CutNumber(bits, u / 128, j - 1, rest, shift + 7, acc + Chunk(bits, u % 128 + 128, shift));
    }
  }

  /** Cutting a number makes it smaller, unless it is zero. */
  lemma {:induction false} KeptIsLess(u: nat, j: nat)
    requires j < |VarBytes(u)|
    ensures Kept(u, j) <= u && (Kept(u, j) == u <==> u == 0)
    decreases j
  {
    if j == 0 {
    } else {
      KeptIsLess(u / 128, j - 1);
    }
  }

  lemma {:induction false} LengthMonotone(u: nat, v: nat)
    requires u <= v
    ensures |VarBytes(u)| <= |VarBytes(v)|
    decreases v
  {
    if u < 128 {
    } else {
      LengthMonotone(u / 128, v / 128);
    }
  }

  /** The last byte of the written form is zero only for the number zero. */
  lemma {:induction false} LastByte(u: nat)
    ensures VarBytes(u)[|VarBytes(u)| - 1] == 0 <==> u == 0
    decreases u
  {
    if u < 128 {
    } else {
      LastByte(u / 128);
      assert VarBytes(u)[|VarBytes(u)| - 1] == VarBytes(u / 128)[|VarBytes(u / 128)| - 1];
    }
  }

  /** A written `int` of which `j` bytes arrived, then a zero. */
  lemma CutVarInt(v: int32, j: nat, rest: bytes)
    requires j < |EncVarInt(v)|
    ensures var u := Kept(ToUnsigned(v, TWO_32), j);
            && DecVarInt(EncVarInt(v)[..j] + ([0] + rest)) == Got(ToSigned(u, TWO_32), rest)
            && |EncVarInt(ToSigned(u, TWO_32))| <= |EncVarInt(v)|
            && (ToSigned(u, TWO_32) == v <==> v == 0)
  {
    var full := ToUnsigned(v, TWO_32);
    KeptIsLess(full, j);
    LengthMonotone(Kept(full, j), full);
    Widths();
    assert Pow2(0) == 1;
    hide VarBytes, Kept, Pow2, DecVarFrom;
    CutNumber(32, full, j, rest, 0, 0);
  }

  // ----- bodies cut short

  predicate AllZero(bs: bytes) {
    bs == Zeros(|bs|)
  }

  lemma AllZeroAppend(a: bytes, b: bytes)
    ensures AllZero(a + b) <==> AllZero(a) && AllZero(b)
  {
    if AllZero(a + b) {
      assert forall i :: 0 <= i < |a| ==> a[i] == (a + b)[i];
      assert forall i :: 0 <= i < |b| ==> b[i] == (a + b)[|a| + i];
    }
  }

  /** Reading data of which `got` arrived, with zeros behind, gives the data exactly when the rest is zeros and
      there are enough of them. */
  lemma CutData(got: bytes, missing: bytes, pad: nat)
    ensures Front(|got + missing|, got + Zeros(pad)) == got + missing <==> AllZero(missing) && |missing| <= pad
  {
    var data, read := got + missing, Front(|got + missing|, got + Zeros(pad));
    if |missing| <= pad {
      assert read == got + Zeros(|missing|);
      assert read[|got|..] == Zeros(|missing|) && data[|got|..] == missing;
    } else {
      assert |read| < |data|;
    }
  }

  /** The missing bytes of an id are zeros only when it is zero, which is written as one byte. */
  lemma CutIdZero(v: int32, j: nat)
    requires j < |EncVarInt(v)|
    ensures AllZero(EncVarInt(v)[j..]) <==> v == 0
    ensures v == 0 ==> |EncVarInt(v)| == 1
  {
    var u := ToUnsigned(v, TWO_32);
    LastByte(u);
    var tail := EncVarInt(v)[j..];
    assert tail[|tail| - 1] == VarBytes(u)[|VarBytes(u)| - 1];
    if v == 0 {
      assert tail == [0] == Zeros(1);
    }
  }

  /** A body of which the id arrived. */
  lemma CutBehindId(p: Packet, j: nat, pad: nat)
    requires |EncVarInt(p.id)| <= j <= |Body(p)|
    ensures var got := p.data[..j - |EncVarInt(p.id)|];
            DecBody(|Body(p)|, Body(p)[..j] + Zeros(pad)) == Got(Packet(p.id, Front(|p.data|, got + Zeros(pad))),
                                                                 Back(|p.data|, got + Zeros(pad)))
    ensures Packet(p.id, Front(|p.data|, p.data[..j - |EncVarInt(p.id)|] + Zeros(pad))) == p
            <==> AllZero(Body(p)[j..]) && |Body(p)| - j <= pad
  {
    hide DecVarInt, EncVarInt, AllZero;
    var id, k := EncVarInt(p.id), |EncVarInt(p.id)|;
    var got, missing := p.data[..j - k], p.data[j - k..];
    assert Body(p)[..j] + Zeros(pad) == id + (got + Zeros(pad));
    VarIntRoundTrip(p.id, got + Zeros(pad));
    assert got + missing == p.data && Body(p)[j..] == missing;
    CutData(got, missing, pad);
  }

  /** A body of which not even the id arrived. */
  lemma CutInId(p: Packet, j: nat, pad: nat)
    requires j < |EncVarInt(p.id)| && pad > 0
    ensures var r := DecBody(|Body(p)|, Body(p)[..j] + Zeros(pad));
            r.Got? && (r.value == p <==> AllZero(Body(p)[j..]) && |Body(p)| - j <= pad)
  {
    hide DecVarInt, EncVarInt, AllZero;
    var id, zeros := EncVarInt(p.id), Zeros(pad - 1);
    assert Zeros(pad) == [0] + zeros;
    assert Body(p)[..j] + Zeros(pad) == id[..j] + ([0] + zeros);
    CutVarInt(p.id, j, zeros);
    assert Body(p)[j..] == id[j..] + p.data;
    AllZeroAppend(id[j..], p.data);
    CutIdZero(p.id, j);
    if p.id == 0 {
      assert [] + p.data == p.data && [] + zeros == zeros;
      CutData([], p.data, pad - 1);
    }
  }

  /** A body of which `j` bytes arrived, with zeros behind, always reads as a packet. It is the one that was sent
      exactly when the missing bytes are zeros and there are enough zeros to stand for them. */
  lemma CutBody(p: Packet, j: nat, pad: nat)
    requires j <= |Body(p)| && pad > 0
    ensures var r := DecBody(|Body(p)|, Body(p)[..j] + Zeros(pad));
            && r.Got?
            && (r.value == p <==> AllZero(Body(p)[j..]) && |Body(p)| - j <= pad)
            && (j >= |EncVarInt(p.id)| ==>
                  r.value == Packet(p.id, Front(|p.data|, p.data[..j - |EncVarInt(p.id)|] + Zeros(pad))))
  {
    hide DecBody, Body, EncVarInt, AllZero, Front, Back;
    if j >= |EncVarInt(p.id)| {
      CutBehindId(p, j, pad);
    } else {
      CutInId(p, j, pad);
    }
  }

  // ----- frames cut short

  /** The zeros behind `m` bytes in blocks that hold nothing else. */
  function Padding(m: nat): (pad: nat)
    ensures 0 < pad <= 4096 && (m + pad) % 4096 == 0
  {
    BLOCK_SIZE - m % BLOCK_SIZE
  }

  lemma PaddedZeros(stream: bytes)
    ensures Padded(stream) == stream + Zeros(Padding(|stream|))
  {
  }

  /** The length that the first `m` bytes of a frame of `content` announce. */
  function LengthSeen(content: bytes, m: nat): (length: nat)
    requires |content| < 0x8000_0000
    ensures length <= |content|
    ensures m < |EncVarInt(|content|)| && content != [] ==> length < |content|
    ensures m >= |EncVarInt(|content|)| ==> length == |content|
  {
    if m < |EncVarInt(|content|)| then (KeptIsLess(|content|, m); Kept(|content|, m)) else |content|
  }

  /** What is stored behind that length. */
  function Behind(content: bytes, m: nat): bytes
    requires |content| < 0x8000_0000 && m < |EncString(content)|
  {
    var k := |EncVarInt(|content|)|;
    if m < k then Zeros(Padding(m) - 1) else content[..m - k] + Zeros(Padding(m))
  }

  lemma PrefixOfText(content: bytes, m: nat)
    requires |content| < 0x8000_0000 && m < |EncVarInt(|content|)|
    ensures EncString(content)[..m] == EncVarInt(|content|)[..m]
  {
    hide EncVarInt;
  }

  lemma PrefixCut(content: bytes, m: nat)
    requires |content| < 0x8000_0000 && m < |EncVarInt(|content|)|
    ensures DecVarInt(Padded(EncString(content)[..m])) == Got(LengthSeen(content, m), Behind(content, m))
  {
    hide DecVarInt, EncVarInt, Padded, EncString;
    var length, pad := EncVarInt(|content|), Padding(m);
    CutVarInt(|content|, m, Zeros(pad - 1));
    PrefixOfText(content, m);
    PaddedZeros(length[..m]);
    assert Zeros(pad) == [0] + Zeros(pad - 1);
  }

  lemma PrefixArrived(content: bytes, m: nat)
    requires |content| < 0x8000_0000 && |EncVarInt(|content|)| <= m < |EncString(content)|
    ensures DecVarInt(Padded(EncString(content)[..m])) == Got(LengthSeen(content, m), Behind(content, m))
  {
    hide DecVarInt, EncVarInt, Padded;
    var length, zeros := EncVarInt(|content|), Zeros(Padding(m));
    var got := content[..m - |length|];
    assert EncString(content)[..m] == length + got;
    PaddedZeros(length + got);
    assert (length + got) + zeros == length + (got + zeros);
    VarIntRoundTrip(|content|, got + zeros);
  }

  /** Whatever the content, the read of an incomplete frame waits exactly while the length it sees exceeds all
      that has arrived. Then it takes what has arrived and the zeros behind for the content. */
  lemma CutFrame(compressed: bool, z: Zlib, content: bytes, m: nat)
    requires |content| < 0x8000_0000 && m < |EncString(content)|
    ensures ReadFrame(compressed, z, EncString(content)[..m])
            == if LengthSeen(content, m) > m then Wait
               else Taken(compressed, z, LengthSeen(content, m), Behind(content, m))
  {
    hide DecVarInt, EncVarInt, Padded, LengthSeen, Behind, Taken, EncString;
    if m < |EncVarInt(|content|)| {
      PrefixCut(content, m);
    } else {
      PrefixArrived(content, m);
    }
  }

  /** If the length of an incomplete frame had arrived, everything that has arrived is drained. */
  lemma CutFrameDrained(content: bytes, m: nat)
    requires |content| < 0x8000_0000 && |EncVarInt(|content|)| <= m < |EncString(content)|
    ensures |EncVarInt(LengthSeen(content, m))| + LengthSeen(content, m) == |EncString(content)| > m
  {
  }

  /** How many bytes stand before the body in a layout without compression: the zero for its size. */
  function Offset(compressed: bool): nat {
    if compressed then 1 else 0
  }

  /** The body travels as it is. */
  predicate Uncompressed(compressed: bool, threshold: int32, p: Packet) {
    compressed ==> SizeAsInt(|Body(p)|) < threshold
  }

  lemma UncompressedContent(compressed: bool, threshold: int32, z: Zlib, p: Packet)
    requires Uncompressed(compressed, threshold, p)
    ensures Content(compressed, threshold, z, p) == Zeros(Offset(compressed)) + Body(p)
  {
    ZeroIsOneByte();
    assert [] + Body(p) == Body(p);
    assert Zeros(1) == [0] && Zeros(0) == [];
  }

  /** Reading the content from a zero on: in both layouts the body starts behind the offset. */
  lemma ContentFromZeros(compressed: bool, z: Zlib, length: nat, bs: bytes)
    requires compressed ==> bs != [] && bs[0] == 0
    ensures DecContent(compressed, z, length, bs)
            == DecBody(length - Offset(compressed), bs[Offset(compressed)..])
  {
    hide EncVarInt, DecBody;
    assert bs[0..] == bs;
    if compressed {
      assert bs == [0] + bs[1..];
      ZeroIsOneByte();
      VarIntRoundTrip(0, bs[1..]);
    }
  }

  lemma BodyOfZeros(size: int, n: nat)
    requires n > 0
    ensures DecBody(size, Zeros(n)) == if size < 1 then Fail
                                       else Got(Packet(0, Front(size - 1, Zeros(n - 1))), Back(size - 1, Zeros(n - 1)))
  {
    assert Zeros(n) == [0] + Zeros(n - 1);
    ZeroIsOneByte();
    VarIntRoundTrip(0, Zeros(n - 1));
  }

  lemma ShortLengths(length: nat, m: nat)
    requires length < 0x8000_0000 && m < |EncVarInt(length)|
    ensures m < 5 && Padding(m) > 100
  {
    Widths();
    VarBytesBound(length);
  }

  lemma SmallNumber(v: int32)
    requires 0 <= v < 128
    ensures |EncVarInt(v)| == 1
  {
  }

  /** An incomplete frame whose length has not arrived completely: the packet is made of zeros alone, or there
      is not even room for its id. */
  lemma CutInLength(compressed: bool, z: Zlib, content: bytes, m: nat)
    requires |content| < 0x8000_0000 && m < |EncVarInt(|content|)| && LengthSeen(content, m) <= m
    requires m < |EncString(content)|
    ensures var size, drained := LengthSeen(content, m) - Offset(compressed), 1 + LengthSeen(content, m);
            Taken(compressed, z, LengthSeen(content, m), Behind(content, m))
            == if size < 1 then Broken(drained) else Frame(Packet(0, Zeros(size - 1)), drained)
  {
    hide LengthSeen, EncVarInt, DecContent, DecBody, Padding;
    var length, n, h := LengthSeen(content, m), Padding(m) - 1, Offset(compressed);
    ShortLengths(|content|, m);
    SmallNumber(length);
    ContentFromZeros(compressed, z, length, Zeros(n));
    assert Zeros(n)[h..] == Zeros(n - h);
    var size: int := length as int - h as int;
    BodyOfZeros(size, n - h);
    if size >= 1 {
      assert Front(size - 1, Zeros(n - h - 1)) == Zeros(size - 1);
    }
  }

  /** Content of which `j` bytes arrived, seen from where its body starts. */
  lemma BehindOffset(h: nat, body: bytes, j: nat, pad: nat)
    requires h <= 1 && j <= h + |body| && (if j < h then pad > 1 else pad > 0)
    ensures var content, i, q := Zeros(h) + body, if j < h then 0 else j - h, if j < h then pad - 1 else pad;
            var bs := content[..j] + Zeros(pad);
            && (h == 1 ==> bs != [] && bs[0] == 0)
            && h <= |bs| && bs[h..] == body[..i] + Zeros(q)
            && (AllZero(content[j..]) <==> AllZero(body[i..]))
            && (|content| - j <= pad <==> |body| - i <= q)
  {
    var content := Zeros(h) + body;
    if j < h {
      assert content[j..] == Zeros(1) + body && body[0..] == body;
      AllZeroAppend(Zeros(1), body);
    } else {
      assert content[j..] == body[j - h..];
      assert (content[..j] + Zeros(pad))[h..] == body[..j - h] + Zeros(pad);
    }
  }

  /** A frame of which at least the length, and as many bytes as it announces, have arrived. */
  lemma CutInContent(compressed: bool, z: Zlib, p: Packet, content: bytes, j: nat, pad: nat)
    requires content == Zeros(Offset(compressed)) + Body(p) && |content| < 0x8000_0000
    requires j <= |content| && (if j < Offset(compressed) then pad > 1 else pad > 0)
    ensures var r := DecContent(compressed, z, |content|, content[..j] + Zeros(pad));
            && r.Got?
            && (r.value == p <==> AllZero(content[j..]) && |content| - j <= pad)
  {
    hide DecContent, DecBody, Body, AllZero;
    var h := Offset(compressed);
    BehindOffset(h, Body(p), j, pad);
    ContentFromZeros(compressed, z, |content|, content[..j] + Zeros(pad));
    CutBody(p, if j < h then 0 else j - h, if j < h then pad - 1 else pad);
  }

  /** Once the length has arrived, and is no more than what has arrived, a packet is taken. */
  lemma CutBehindLength(compressed: bool, z: Zlib, p: Packet, content: bytes, m: nat)
    requires content == Zeros(Offset(compressed)) + Body(p) && |content| < 0x8000_0000
    requires |EncVarInt(|content|)| <= m < |EncString(content)| && |content| <= m
    ensures var r := Taken(compressed, z, LengthSeen(content, m), Behind(content, m));
            && r.Frame? && r.drained == |EncString(content)|
            && (r.packet == p <==> AllZero(EncString(content)[m..]) && |EncString(content)| - m <= Padding(m))
  {
    hide DecContent, Body, AllZero;
    CutFrameDrained(content, m);
    var k := |EncVarInt(|content|)|;
    assert EncString(content)[m..] == content[m - k..];
    if m == k {
      Widths();
      VarBytesBound(|content|);
    }
    hide EncVarInt, EncString;
    CutInContent(compressed, z, p, content, m - k, Padding(m));
  }

  lemma ZeroBody(p: Packet, size: int)
    ensures size >= 1 && p == Packet(0, Zeros(size - 1)) ==> |Body(p)| == size
  {
    ZeroIsOneByte();
  }

  /** For any incomplete frame in a layout without compression: a packet is taken whenever the length has
      arrived and is no more than what has arrived, and everything is drained. Whatever has arrived, the packet
      is the one that was sent exactly when that is so, all missing bytes are zeros, and the block has as many
      zeros left. */
  lemma CutFrameIsPacketExactlyWhenZeros(compressed: bool, threshold: int32, z: Zlib, p: Packet, m: nat)
    requires Fits(compressed, threshold, z, p) && Uncompressed(compressed, threshold, p)
    requires m < |EncFrame(compressed, threshold, z, p)|
    ensures var frame, content := EncFrame(compressed, threshold, z, p), Content(compressed, threshold, z, p);
            var r, k := ReadFrame(compressed, z, frame[..m]), |EncVarInt(|content|)|;
            && (k <= m && |content| <= m ==> r.Frame? && r.drained == |frame|)
            && (r.Frame? && r.packet == p <==>
                  k <= m && |content| <= m && AllZero(frame[m..]) && |frame| - m <= Padding(m))
  {
    hide Taken, Body, AllZero, EncVarInt, EncString, Content, LengthSeen, ReadFrame, Behind, Padding;
    var content := Content(compressed, threshold, z, p);
    CutFrame(compressed, z, content, m);
    UncompressedContent(compressed, threshold, z, p);
    BodyNotEmpty(p);
    if LengthSeen(content, m) > m {
    } else if m < |EncVarInt(|content|)| {
      CutInLength(compressed, z, content, m);
      ZeroBody(p, LengthSeen(content, m) - Offset(compressed));
    } else {
      CutBehindLength(compressed, z, p, content, m);
    }
  }
}
