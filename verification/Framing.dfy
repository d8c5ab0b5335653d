/**
  Packet frames of `ZincConnection`, with encryption off. zlib is a pair of functions of which the
  proofs only use that the second undoes the first.
 */
module Framing {
  import opened Bytes
  import opened BlockBuffer
  import opened Numeric
  import opened VarNumeric
  import opened Arrays
  import opened Buffers
  import opened ConnectionState

  datatype Packet = Packet(id: int32, data: bytes)

  datatype Zlib = Zlib(compress: bytes -> bytes, uncompress: (bytes, nat) -> bytes)

  ghost predicate Inverts(z: Zlib) {
    forall x :: z.uncompress(z.compress(x), |x|) == x
  }

  /** What is framed: the id, then the payload. */
  function Body(p: Packet): bytes {
    EncVarInt(p.id) + p.data
  }

  /** The part of a frame behind its length: the plain body; or with compression on, the size of a
      compressed body and that body, a zero standing for a body too short to be compressed. */
  function Content(compressed: bool, threshold: int32, z: Zlib, p: Packet): bytes {
    var dataLength := SizeAsInt(|Body(p)|);
    if !compressed then Body(p)
    else if dataLength < threshold then EncVarInt(0) + Body(p)
    else EncVarInt(dataLength) + z.compress(Body(p))
  }

  function EncFrame(compressed: bool, threshold: int32, z: Zlib, p: Packet): bytes {
    EncString(Content(compressed, threshold, z, p))
  }

  /** `read` waits for more bytes; takes a packet off the stream; or fails, when a size is negative: the code
      then asks for a huge vector and throws. Bytes that have not arrived read as the padding of a block. */
  datatype Reading = Wait | Broken(drained: nat) | Frame(packet: Packet, drained: nat)

  /** A read of `n` bytes from stored bytes: short where they end. */
  function TakeSize(n: int, bs: bytes): Parsed<bytes> {
    if n < 0 then Fail else Got(Front(n, bs), Back(n, bs))
  }

  function DecBody(size: int, bs: bytes): Parsed<Packet> {
    var (id, rest) :- DecVarInt(bs);
    var (data, rest') :- TakeSize(size - |EncVarInt(id)|, rest);
    Got(Packet(id, data), rest')
  }

  function DecContent(compressed: bool, z: Zlib, length: nat, bs: bytes): Parsed<Packet> {
    if !compressed then DecBody(length, bs) else
      var (dataLength, rest) :- DecVarInt(bs);
      if dataLength == 0 then DecBody(length - 1, rest)
      else if dataLength < 0 then Fail
      else
        var (raw, _) :- TakeSize(length - |EncVarInt(dataLength)|, rest);
        DecBody(dataLength, Padded(z.uncompress(raw, dataLength)))
  }

  /** A number is always found where a zero comes last. */
  lemma {:induction false} ZeroEndsNumber(bits: nat, bs: bytes, shift: nat, acc: nat)
    requires shift < bits && acc < Pow2(shift) && bs != [] && bs[|bs| - 1] == 0
    ensures DecVarFrom(bits, bs, shift, acc).Got?
    decreases |bs|
  {
    hide Chunk, Pow2;
    DecVarStep(bits, bs, shift, acc);
    if bs[0] < 128 || shift + 7 >= bits {
    } else {
      ZeroEndsNumber(bits, bs[1..], shift + 7, acc + Chunk(bits, bs[0], shift));
    }
  }

  lemma PaddedNumber(stream: bytes)
    ensures DecVarInt(Padded(stream)).Got?
  {
    hide Padded;
    assert Pow2(0) == 1;
    ZeroEndsNumber(32, Padded(stream), 0, 0);
  }

  /** What `read` makes of the bytes behind a length, and how much it drains for it. */
  function Taken(compressed: bool, z: Zlib, length: int32, bs: bytes): Reading
    requires length >= 0
  {
    var content, drained := DecContent(compressed, z, length, bs), |EncVarInt(length)| + length;
    if content.Fail? then Broken(drained) else Frame(content.value, drained)
  }

  /** The wait test compares the length with everything that has arrived, its own prefix included. */
  function ReadFrame(compressed: bool, z: Zlib, stream: bytes): Reading {
    PaddedNumber(stream);
    var prefix := DecVarInt(Padded(stream));
    if prefix.value < 0 || prefix.value > |stream| then Wait else Taken(compressed, z, prefix.value, prefix.rest)
  }

  /** All sizes of the frame fit the `int` they are cast to. */
  predicate Fits(compressed: bool, threshold: int32, z: Zlib, p: Packet) {
    |Body(p)| < 0x8000_0000 && |Content(compressed, threshold, z, p)| < 0x8000_0000
  }

  lemma BodyRoundTrip(p: Packet, rest: bytes)
    ensures DecBody(|Body(p)|, Body(p) + rest) == Got(p, rest)
  {
    hide DecVarInt, EncVarInt;
    assert Body(p) + rest == EncVarInt(p.id) + (p.data + rest);
    assert |Body(p)| == |EncVarInt(p.id)| + |p.data|;
    VarIntRoundTrip(p.id, p.data + rest);
    FrontOfAppend(p.data, rest);
  }

  lemma ZeroIsOneByte()
    ensures EncVarInt(0) == [0]
  {
  }

  /** The three layouts. */
  lemma FrameLayouts(compressed: bool, threshold: int32, z: Zlib, p: Packet)
    ensures var frame, body := EncFrame(compressed, threshold, z, p), EncVarInt(p.id) + p.data;
            && (!compressed ==> frame == EncString(body))
            && (compressed && |body| < 0x8000_0000 && |body| >= threshold ==>
                  frame == EncString(EncVarInt(|body|) + z.compress(body)))
            && (compressed && |body| < 0x8000_0000 && |body| < threshold ==> frame == EncString([0] + body))
  {
    hide EncString, EncVarInt;
    ZeroIsOneByte();
  }

  lemma BodyNotEmpty(p: Packet)
    ensures |Body(p)| > 0
  {
  }

  lemma PlainContent(p: Packet, z: Zlib, rest: bytes)
    ensures DecContent(false, z, |Body(p)|, Body(p) + rest) == Got(p, rest)
  {
    hide DecBody, Body;
    BodyRoundTrip(p, rest);
  }

  lemma ShortContent(p: Packet, z: Zlib, rest: bytes)
    ensures var content := EncVarInt(0) + Body(p);
            DecContent(true, z, |content|, content + rest) == Got(p, rest)
  {
    hide DecVarInt, EncVarInt, DecBody, Body;
    var body := Body(p);
    assert (EncVarInt(0) + body) + rest == EncVarInt(0) + (body + rest);
    VarIntRoundTrip(0, body + rest);
    ZeroIsOneByte();
    BodyRoundTrip(p, rest);
  }

  lemma CompressedContent(p: Packet, z: Zlib, rest: bytes)
    requires Inverts(z) && |Body(p)| < 0x8000_0000
    ensures var content := EncVarInt(|Body(p)|) + z.compress(Body(p));
            var r := DecContent(true, z, |content|, content + rest);
            r.Got? && r.value == p
  {
    hide DecVarInt, EncVarInt, DecBody, Body, Padded;
    var body := Body(p);
    var length, c := EncVarInt(|body|), z.compress(body);
    assert (length + c) + rest == length + (c + rest);
    VarIntRoundTrip(|body|, c + rest);
    FrontOfAppend(c, rest);
    var zeros := Padded(body)[|body|..];
    assert Padded(body) == body + zeros;
    BodyRoundTrip(p, zeros);
    BodyNotEmpty(p);
  }

  lemma ContentRoundTrip(compressed: bool, threshold: int32, z: Zlib, p: Packet, rest: bytes)
    requires Inverts(z) && Fits(compressed, threshold, z, p)
    ensures var content := Content(compressed, threshold, z, p);
            var r := DecContent(compressed, z, |content|, content + rest);
            r.Got? && r.value == p
  {
    hide DecContent, Body, EncVarInt;
    if compressed {
      if |Body(p)| < threshold {
        ShortContent(p, z, rest);
      } else {
        CompressedContent(p, z, rest);
      }
    } else {
      PlainContent(p, z, rest);
    }
  }

  /** Whatever layout it was sent in, a frame is read back as its packet, and the read drains exactly
      that frame. */
  lemma FrameRoundTrip(compressed: bool, threshold: int32, z: Zlib, p: Packet, rest: bytes)
    requires Inverts(z) && Fits(compressed, threshold, z, p)
    ensures var frame := EncFrame(compressed, threshold, z, p);
            ReadFrame(compressed, z, frame + rest) == Frame(p, |frame|)
  {
    hide DecVarInt, EncVarInt, DecContent, Content, Padded;
    var content, frame := Content(compressed, threshold, z, p), EncFrame(compressed, threshold, z, p);
    var stored := Padded(frame + rest);
    var behind := stored[|frame|..];
    assert stored[..|frame|] == frame by {
      assert (frame + rest)[..|frame|] == frame;
    }
    assert stored == EncVarInt(|content|) + (content + behind);
    VarIntRoundTrip(|content|, content + behind);
    ContentRoundTrip(compressed, threshold, z, p, behind);
  }

  /** A negative length counts as more than any number of bytes: the read waits, and goes on waiting. */
  lemma NegativeLengthWaits(compressed: bool, z: Zlib, length: int32, rest: bytes)
    requires length < 0
    ensures ReadFrame(compressed, z, EncVarInt(length) + rest) == Wait
  {
    hide EncVarInt, DecVarInt, Taken, Padded;
    var stream := EncVarInt(length) + rest;
    var behind := Padded(stream)[|EncVarInt(length)|..];
    assert stream[..|EncVarInt(length)|] == EncVarInt(length);
    assert Padded(stream) == EncVarInt(length) + behind;
    VarIntRoundTrip(length, behind);
  }

  /** The read waits exactly for as many bytes as the length announces. Otherwise it drains the length and that many
      bytes, whether or not it finds a packet in them. */
  lemma ReadDrainsTheFrame(compressed: bool, z: Zlib, stream: bytes)
    ensures DecVarInt(Padded(stream)).Got?
    ensures var r, length := ReadFrame(compressed, z, stream), DecVarInt(Padded(stream)).value;
            && (r.Wait? <==> length < 0 || length > |stream|)
            && (!r.Wait? ==> r.drained == |EncVarInt(length)| + length)
  {
    hide DecContent, DecVarInt, EncVarInt, Padded;
    PaddedNumber(stream);
  }

  function EncFrames(compressed: bool, threshold: int32, z: Zlib, ps: seq<Packet>): bytes {
    if ps == [] then [] else EncFrame(compressed, threshold, z, ps[0]) + EncFrames(compressed, threshold, z, ps[1..])
  }

  /** `n` reads one after the other, each on what the previous one left. */
  function ReadFrames(compressed: bool, z: Zlib, n: nat, stream: bytes): Parsed<seq<Packet>>
    decreases n
  {
    if n == 0 then Got([], stream)
    else
      var f := ReadFrame(compressed, z, stream);
      if !f.Frame? || f.drained > |stream| then Fail else
        var (ps, rest) :- ReadFrames(compressed, z, n - 1, stream[f.drained..]);
        Got([f.packet] + ps, rest)
  }

  lemma ReadFramesStep(compressed: bool, z: Zlib, n: nat, p: Packet, frame: bytes, tail: bytes)
    requires n > 0 && ReadFrame(compressed, z, frame + tail) == Frame(p, |frame|)
    ensures ReadFrames(compressed, z, n, frame + tail)
            == match ReadFrames(compressed, z, n - 1, tail)
               case Fail => Fail
               case Got(ps, rest) => Got([p] + ps, rest)
  {
    hide ReadFrame;
    assert (frame + tail)[|frame|..] == tail;
  }

  /** The frames of any packets, sent with one compression setting, are read back in order. */
  lemma {:induction false} FramesRoundTrip(compressed: bool, threshold: int32, z: Zlib, ps: seq<Packet>, rest: bytes)
    requires Inverts(z) && forall i :: 0 <= i < |ps| ==> Fits(compressed, threshold, z, ps[i])
    ensures ReadFrames(compressed, z, |ps|, EncFrames(compressed, threshold, z, ps) + rest) == Got(ps, rest)
  {
    hide ReadFrame, EncFrame, Fits, Inverts;
    if ps == [] {
      assert EncFrames(compressed, threshold, z, ps) + rest == rest;
    } else {
      var frame, more := EncFrame(compressed, threshold, z, ps[0]), EncFrames(compressed, threshold, z, ps[1..]);
      FrameRoundTrip(compressed, threshold, z, ps[0], more + rest);
      FramesRoundTrip(compressed, threshold, z, ps[1..], rest);
      ReadFramesStep(compressed, z, |ps|, ps[0], frame, more + rest);
      Associative(frame, more, rest);
      assert [ps[0]] + ps[1..] == ps;
    }
  }

  // ----- the connection

  /** `evbuffer_drain`. */
  function Drained(stream: bytes, n: nat): bytes {
    if n <= |stream| then stream[n..] else []
  }

  /** A parsed packet, whatever follows it. */
  ghost predicate Yields(p: Parsed<Packet>, r: Option<Packet>) {
    if p.Got? then r == Some(p.value) else r.None?
  }

  lemma LengthOfVarInt(v: int32)
    ensures |EncVarInt(v)| == |VarBytes(ToUnsigned(v, TWO_32))|
  {
  }

  /** One more than a size below a threshold is still a size. */
  lemma SizeAfterOne(n: nat)
    requires SizeAsInt(n) < 0x7FFF_FFFF
    ensures SizeAsInt(n + 1) == SizeAsInt(n) + 1
  {
  }

  class ZincConnection {
    var state: State
    var isCompressed: bool
    var shouldContinue: bool

    /** Bytes that arrived and were not drained, and bytes that were sent. */
    var input: bytes
    var output: bytes

    /** Set by the server: why to refuse the login (0 for no reason), and whether it was acknowledged. */
    var kickAtLogin: int
    var loginFinished: bool

    const ip: string
    const threshold: int32
    const zlib: Zlib

    constructor (ip: string, threshold: int32, zlib: Zlib)
      ensures state == Handshake && !isCompressed && shouldContinue && input == [] && output == []
      ensures kickAtLogin == 0 && !loginFinished
      ensures this.ip == ip && this.threshold == threshold && this.zlib == zlib
    {
      state, isCompressed, shouldContinue := Handshake, false, true;
      input, output := [], [];
      kickAtLogin, loginFinished := 0, false;
      this.ip, this.threshold, this.zlib := ip, threshold, zlib;
    }

    method SendPlain(tmpData: ByteBuffer, packet: Packet, dataLength: int32)
      requires tmpData.Valid() && tmpData.internal.written == [] && tmpData.internal.Dropped() == 0
      requires !isCompressed && dataLength == SizeAsInt(|Body(packet)|)
      modifies tmpData.internal
      ensures tmpData.Valid() && tmpData.internal.Dropped() == 0
      ensures tmpData.internal.written == EncFrame(isCompressed, threshold, zlib, packet)
    {
      hide Holds, EncVarInt;
      tmpData.WriteVarInt(dataLength);
      tmpData.WriteVarInt(packet.id);
      tmpData.WriteBytes(packet.data);
      assert tmpData.internal.written == EncVarInt(dataLength) + (EncVarInt(packet.id) + packet.data);
    }

    method SendShort(tmpData: ByteBuffer, packet: Packet, dataLength: int32)
      requires tmpData.Valid() && tmpData.internal.written == [] && tmpData.internal.Dropped() == 0
      requires isCompressed && dataLength == SizeAsInt(|Body(packet)|) && dataLength < threshold
      modifies tmpData.internal
      ensures tmpData.Valid() && tmpData.internal.Dropped() == 0
      ensures tmpData.internal.written == EncFrame(isCompressed, threshold, zlib, packet)
    {
      hide Holds, EncVarInt;
      ZeroIsOneByte();
      SizeAfterOne(|Body(packet)|);
      tmpData.WriteVarInt(1 + dataLength);
      tmpData.WriteVarInt(0);
      tmpData.WriteVarInt(packet.id);
      tmpData.WriteBytes(packet.data);
      assert tmpData.internal.written == EncVarInt(1 + dataLength) + (EncVarInt(0) + Body(packet));
    }

    /** Fills the buffer with the body to compress it, and leaves the buffer empty. */
    method CompressBody(tmpData: ByteBuffer, packet: Packet) returns (compressedData: bytes)
      requires tmpData.Valid() && tmpData.internal.written == [] && tmpData.internal.Dropped() == 0
      modifies tmpData.internal
      ensures tmpData.Valid() && tmpData.internal.written == [] && tmpData.internal.Dropped() == 0
      ensures compressedData == zlib.compress(Body(packet))
    {
      hide Holds, EncVarInt;
      tmpData.WriteVarInt(packet.id);
      tmpData.WriteBytes(packet.data);
      var plain := tmpData.GetBytes();
      assert plain == Body(packet);
      compressedData := zlib.compress(plain);
      tmpData.Clear();
    }

    method SendCompressed(tmpData: ByteBuffer, packet: Packet, dataLength: int32)
      requires tmpData.Valid() && tmpData.internal.written == [] && tmpData.internal.Dropped() == 0
      requires isCompressed && dataLength == SizeAsInt(|Body(packet)|) && dataLength >= threshold
      modifies tmpData.internal
      ensures tmpData.Valid() && tmpData.internal.Dropped() == 0
      ensures tmpData.internal.written == EncFrame(isCompressed, threshold, zlib, packet)
    {
      hide Holds, EncVarInt;
      var compressedData := CompressBody(tmpData, packet);
      var sizeLength := ByteBuffer.GetVarNumericLength(ToUnsigned(dataLength, TWO_32));
      LengthOfVarInt(dataLength);
      tmpData.WriteVarInt(SizeAsInt(sizeLength + |compressedData|));
      tmpData.WriteVarInt(dataLength);
      tmpData.WriteBytes(compressedData);
      assert tmpData.internal.written == EncString(EncVarInt(dataLength) + compressedData);
    }

    /** With compression on, a body that reaches the threshold is sent compressed behind its size, and a shorter
        one as it is behind a zero. Without compression the body is sent as it is. */
    method Send(packet: Packet)
      modifies `output
      ensures output == old(output) + EncFrame(isCompressed, threshold, zlib, packet)
      ensures var body := EncVarInt(packet.id) + packet.data;
              && (!isCompressed ==> output == old(output) + EncString(body))
              && (isCompressed && |body| < 0x8000_0000 ==>
                    output == old(output) + EncString(if |body| >= threshold
                                                      then EncVarInt(|body|) + zlib.compress(body)
                                                      else [0] + body))
    {
      hide Holds, EncVarInt, EncFrame, Content;
      FrameLayouts(isCompressed, threshold, zlib, packet);
      var tmpData := new ByteBuffer();
      var idLength := ByteBuffer.GetVarNumericLength(ToUnsigned(packet.id, TWO_32));
      LengthOfVarInt(packet.id);
      var dataLength := SizeAsInt(idLength + |packet.data|);
      if isCompressed {
        if dataLength < threshold {
          SendShort(tmpData, packet, dataLength);
        } else {
          SendCompressed(tmpData, packet, dataLength);
        }
      } else {
        SendPlain(tmpData, packet, dataLength);
      }
      var data := tmpData.GetBytes();
      output := output + data;
    }

    method SetupCompression()
      modifies `output, `isCompressed
      ensures isCompressed == (old(isCompressed) || state == Login)
      ensures output == old(output) + if state != Login then []
              else EncFrame(old(isCompressed), threshold, zlib, Packet(3, EncVarInt(threshold)))
    {
      hide Holds, EncFrame;
      if state != Login {
        return;
      }
      var packet := new ByteBuffer();
      packet.WriteVarInt(threshold);
      var data := packet.GetBytes();
      Send(Packet(3, data));
      isCompressed := true;
    }

    method Uncompress(buffer: ByteBuffer, length: nat, dataLength: int32) returns (r: Option<ByteBuffer>)
      requires buffer.internal.Readable() && dataLength != 0
      modifies buffer.internal
      ensures var raw := TakeSize(length - |EncVarInt(dataLength)|, old(buffer.internal.Stored()));
              if dataLength < 0 || raw.Fail? then r.None?
              else r.Some? && fresh(r.value) && fresh(r.value.internal) && r.value.internal.Readable()
                   && r.value.internal.Stored() == Padded(zlib.uncompress(raw.value, dataLength))
    {
      hide Holds, EncVarInt, Padded;
      var sizeLength := ByteBuffer.GetVarNumericLength(ToUnsigned(dataLength, TWO_32));
      LengthOfVarInt(dataLength);
      if dataLength < 0 || length < sizeLength {
        return None;
      }
      var raw := buffer.ReadStored(length - sizeLength);
      var unpacked := zlib.uncompress(raw, dataLength);
      var plain := new ByteBuffer.Of(unpacked);
      assert Padded(unpacked)[0..] == Padded(unpacked);
      r := Some(plain);
    }

    static method ReadBody(buffer: ByteBuffer, size: int) returns (r: Option<Packet>)
      requires buffer.internal.Readable()
      modifies buffer.internal
      ensures Yields(DecBody(size, old(buffer.internal.Stored())), r)
    {
      hide Holds, EncVarInt, DecVarInt;
      var id :- buffer.ReadStoredVarInt();
      var idLength := ByteBuffer.GetVarNumericLength(ToUnsigned(id, TWO_32));
      LengthOfVarInt(id);
      if size < idLength {
        return None;
      }
      var data := buffer.ReadStored(size - idLength);
      r := Some(Packet(id, data));
    }

    method ReadContent(buffer: ByteBuffer, length: nat) returns (r: Option<Packet>)
      requires buffer.internal.Readable()
      modifies buffer.internal
      ensures Yields(DecContent(isCompressed, zlib, length, old(buffer.internal.Stored())), r)
    {
      hide Holds, DecBody, EncVarInt, DecVarInt, Padded;
      if isCompressed {
        var dataLength :- buffer.ReadStoredVarInt();
        if dataLength != 0 {
          var plain :- Uncompress(buffer, length, dataLength);
          r := ReadBody(plain, dataLength);
        } else {
          r := ReadBody(buffer, length - 1);
        }
      } else {
        r := ReadBody(buffer, length);
      }
    }

    /** A packet with id -1 asks for more bytes; there is no value where the code throws. */
    method Read() returns (r: Option<Packet>)
      modifies `input, `shouldContinue
      ensures var f := ReadFrame(isCompressed, zlib, old(input));
              && (f.Wait? ==> r == Some(Packet(-1, [])) && input == old(input) && shouldContinue == old(shouldContinue))
              && (f.Broken? ==> r.None? && !shouldContinue && input == Drained(old(input), f.drained))
              && (f.Frame? ==> r == Some(f.packet) && !shouldContinue && input == Drained(old(input), f.drained))
    {
      hide Holds, DecContent, DecVarInt, EncVarInt, VarBytes, TakeSize, Drained, Padded;
      PaddedNumber(input);
      var buffer := new ByteBuffer.Of(input);
      assert Padded(input)[0..] == Padded(input);
      var number := buffer.ReadStoredVarInt();
      var length := number.value;
      if length < 0 || length > |input| {
        return Some(Packet(-1, []));
      }
      var prefix := ByteBuffer.GetVarNumericLength(ToUnsigned(length, TWO_32));
      LengthOfVarInt(length);
      input := Drained(input, prefix + length);
      shouldContinue := false;
      r := ReadContent(buffer, length);
    }
  }

  /** The stream at packet `i`: empty when there are no more packets, else it starts with its frame. */
  lemma NextFrame(compressed: bool, threshold: int32, z: Zlib, packets: seq<Packet>, i: nat)
    requires Inverts(z) && forall j :: 0 <= j < |packets| ==> Fits(compressed, threshold, z, packets[j])
    requires i <= |packets|
    ensures var stream := EncFrames(compressed, threshold, z, packets[i..]);
            && (i < |packets| <==> stream != [])
            && (i < |packets| ==>
              && ReadFrame(compressed, z, stream).Frame?
              && ReadFrame(compressed, z, stream).packet == packets[i]
              && Drained(stream, ReadFrame(compressed, z, stream).drained)
                 == EncFrames(compressed, threshold, z, packets[i + 1..]))
  {
    hide Fits, ReadFrame;
    if i < |packets| {
      var tail := EncFrames(compressed, threshold, z, packets[i + 1..]);
      assert packets[i..][1..] == packets[i + 1..];
      FrameRoundTrip(compressed, threshold, z, packets[i], tail);
    }
  }

  method ReceiveAll(compressed: bool, threshold: int32, zlib: Zlib, ghost packets: seq<Packet>, stream: bytes)
    returns (received: seq<Packet>, left: bytes)
    requires Inverts(zlib) && forall i :: 0 <= i < |packets| ==> Fits(compressed, threshold, zlib, packets[i])
    requires stream == EncFrames(compressed, threshold, zlib, packets)
    ensures received == packets && left == []
  {
    hide EncFrames, Fits, ReadFrame, Drained;
    var receiver := new ZincConnection("", threshold, zlib);
    receiver.isCompressed, receiver.input := compressed, stream;
    received := [];
    while receiver.input != []
      invariant fresh(receiver) && receiver.isCompressed == compressed
      invariant |received| <= |packets| && received == packets[..|received|]
      invariant receiver.input == EncFrames(compressed, threshold, zlib, packets[|received|..])
      decreases |packets| - |received|
    {
      NextFrame(compressed, threshold, zlib, packets, |received|);
      var r := receiver.Read();
      received := received + [r.value];
    }
    left := receiver.input;
    NextFrame(compressed, threshold, zlib, packets, |received|);
  }

  lemma {:induction false} EncFramesSnoc(compressed: bool, threshold: int32, z: Zlib, ps: seq<Packet>, i: nat)
    requires i < |ps|
    ensures EncFrames(compressed, threshold, z, ps[..i + 1])
            == EncFrames(compressed, threshold, z, ps[..i]) + EncFrame(compressed, threshold, z, ps[i])
  {
    hide EncFrame;
    if i > 0 {
      EncFramesSnoc(compressed, threshold, z, ps[1..], i - 1);
      assert ps[1..][..i] == ps[..i + 1][1..] && ps[1..][..i - 1] == ps[..i][1..];
    } else {
      assert ps[..1][1..] == [];
    }
  }

  /** Any packets, sent by one connection and read by another with the same compression setting, arrive
      unchanged and in order, one per read, and nothing is left over. */
  method Relay(compressed: bool, threshold: int32, zlib: Zlib, packets: seq<Packet>)
    returns (received: seq<Packet>, left: bytes)
    requires Inverts(zlib) && forall i :: 0 <= i < |packets| ==> Fits(compressed, threshold, zlib, packets[i])
    ensures received == packets && left == []
  {
    var sender := new ZincConnection("", threshold, zlib);
    sender.isCompressed := compressed;
    for i := 0 to |packets|
      invariant sender.isCompressed == compressed && fresh(sender)
      invariant sender.output == EncFrames(compressed, threshold, zlib, packets[..i])
    {
      EncFramesSnoc(compressed, threshold, zlib, packets, i);
      sender.Send(packets[i]);
    }
    assert packets[..|packets|] == packets;
    received, left := ReceiveAll(compressed, threshold, zlib, packets, sender.output);
  }
}
