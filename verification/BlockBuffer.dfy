/**
  `InternalByteBuffer`: a queue of bytes stored in blocks of 4096 bytes, with a write cursor, a read
  cursor and optional recycling of blocks the reader has consumed.
 */
module BlockBuffer {
  import opened Bytes

  const BLOCK_SIZE: nat := 4096

  ghost predicate AllFull(blocks: seq<bytes>) {
    forall i :: 0 <= i < |blocks| ==> |blocks[i]| == BLOCK_SIZE
  }

  /** The contents of all blocks, in order. */
  ghost function Flat(blocks: seq<bytes>): bytes {
    if blocks == [] then [] else blocks[0] + Flat(blocks[1..])
  }

  lemma {:induction false} FlatLength(blocks: seq<bytes>)
    requires AllFull(blocks)
    ensures |Flat(blocks)| == BLOCK_SIZE * |blocks|
  {
    if blocks == [] {
    } else {
      FlatLength(blocks[1..]);
    }
  }

  lemma {:induction false} FlatAppend(a: seq<bytes>, b: seq<bytes>)
    ensures Flat(a + b) == Flat(a) + Flat(b)
  {
    if a == [] {
      assert a + b == b;
    } else {
      FlatAppend(a[1..], b);
      var front, rest, more := a[0], Flat(a[1..]), Flat(b);
      assert (a + b)[0] == a[0] && (a + b)[1..] == a[1..] + b;
      assert Flat(a + b) == front + (rest + more);
      Associative(front, rest, more);
    }
  }

  lemma FlatSingle(block: bytes)
    ensures Flat([block]) == block
  {
    assert [block][1..] == [];
    assert Flat([block]) == block + Flat([]);
  }

  lemma FlatSplit(blocks: seq<bytes>, i: nat)
    requires i < |blocks|
    ensures Flat(blocks) == Flat(blocks[..i]) + (blocks[i] + Flat(blocks[i + 1..]))
  {
    var before, rest := blocks[..i], blocks[i..];
    assert blocks == before + rest;
    FlatAppend(before, rest);
    assert rest[0] == blocks[i] && rest[1..] == blocks[i + 1..];
    assert Flat(rest) == blocks[i] + Flat(blocks[i + 1..]);
  }

  lemma ThreeParts(all: bytes, front: bytes, middle: bytes, back: bytes)
    requires all == front + (middle + back)
    ensures all[..|front|] == front && all[|front|..|front| + |middle|] == middle && all[|front| + |middle|..] == back
  {
  }

  /** Block `i` occupies positions `4096*i .. 4096*(i+1)` of the flat contents. */
  lemma FlatBlock(blocks: seq<bytes>, i: nat)
    requires AllFull(blocks) && i < |blocks|
    ensures |Flat(blocks)| == BLOCK_SIZE * |blocks|
    ensures Flat(blocks[..i]) == Flat(blocks)[..BLOCK_SIZE * i]
    ensures blocks[i] == Flat(blocks)[BLOCK_SIZE * i..BLOCK_SIZE * (i + 1)]
    ensures Flat(blocks[i + 1..]) == Flat(blocks)[BLOCK_SIZE * (i + 1)..]
  {
    FlatSplit(blocks, i);
    FlatLength(blocks);
    FlatLength(blocks[..i]);
    assert |blocks[i]| == BLOCK_SIZE;
    var flat, front, back := Flat(blocks), Flat(blocks[..i]), Flat(blocks[i + 1..]);
    assert |front| == BLOCK_SIZE * i && |flat| == BLOCK_SIZE * |blocks|;
    hide Flat, AllFull;
    ThreeParts(flat, front, blocks[i], back);
  }

  lemma SplitLast(flat: bytes, n: nat, last: bytes)
    requires n + |last| == |flat| && last == flat[n..n + |last|]
    ensures flat == flat[..n] + last
  {
  }

  lemma OverwriteTail(front: bytes, last: bytes, at: nat, chunk: bytes)
    requires at + |chunk| <= |last|
    ensures var p := |front| + at;
            front + (last[..at] + chunk + last[at + |chunk|..])
            == (front + last)[..p] + chunk + (front + last)[p + |chunk|..]
  {
    var p := |front| + at;
    assert (front + last)[..p] == front + last[..at];
    assert (front + last)[p + |chunk|..] == last[at + |chunk|..];
  }

  /** Overwriting inside the last block overwrites the same positions of the flat contents. */
  lemma FlatOverwriteLast(blocks: seq<bytes>, at: nat, chunk: bytes)
    requires AllFull(blocks) && blocks != [] && at + |chunk| <= BLOCK_SIZE
    ensures |Flat(blocks)| == BLOCK_SIZE * |blocks|
    ensures var n := |blocks| - 1;
            var p := BLOCK_SIZE * n + at;
            Flat(blocks[n := blocks[n][..at] + chunk + blocks[n][at + |chunk|..]])
            == Flat(blocks)[..p] + chunk + Flat(blocks)[p + |chunk|..]
  {
    hide Flat;
    var n := |blocks| - 1;
    var was := blocks[n];
    var last := was[..at] + chunk + was[at + |chunk|..];
    var next := blocks[n := last];
    FlatBlock(blocks, n);
    FlatBlock(next, n);
    assert next[..n] == blocks[..n];
    hide AllFull;
    SplitLast(Flat(blocks), BLOCK_SIZE * n, was);
    SplitLast(Flat(next), BLOCK_SIZE * n, last);
    OverwriteTail(Flat(blocks)[..BLOCK_SIZE * n], was, at, chunk);
  }

  /** The state of a buffer: the blocks hold a suffix of what was written (all of it unless blocks
      were recycled), padded with zeros, and the read cursor stands at the first byte not read yet. */
  ghost predicate Holds(blocks: seq<bytes>, writeBlock: nat, writeOffset: nat,
                        readBlock: nat, readOffset: nat, written: bytes, taken: nat)
  {
    var size, pointer := writeBlock * BLOCK_SIZE + writeOffset, readBlock * BLOCK_SIZE + readOffset;
    && AllFull(blocks)
    && |blocks| == writeBlock + 1
    && writeOffset < BLOCK_SIZE
    && readOffset < BLOCK_SIZE
    && pointer <= size <= |written|
    && taken == |written| - size + pointer
    && Flat(blocks) == written[|written| - size..] + Zeros(BLOCK_SIZE - writeOffset)
  }

  lemma HoldsInitially()
    ensures Holds([Zeros(BLOCK_SIZE)], 0, 0, 0, 0, [], 0)
  {
    FlatSingle(Zeros(BLOCK_SIZE));
  }

  /** The blocks after `chunk` was copied into block `at`. */
  function Filled(blocks: seq<bytes>, at: nat, offset: nat, chunk: bytes): seq<bytes>
    requires at < |blocks| && offset + |chunk| <= |blocks[at]|
  {
    var block := blocks[at];
    blocks[at := block[..offset] + chunk + block[offset + |chunk|..]]
  }

  lemma FilledFlat(blocks: seq<bytes>, wb: nat, wo: nat, rb: nat, ro: nat, written: bytes, taken: nat,
                   chunk: bytes)
    requires Holds(blocks, wb, wo, rb, ro, written, taken)
    requires |chunk| <= BLOCK_SIZE - wo
    ensures var next, size := Filled(blocks, wb, wo, chunk), wb * BLOCK_SIZE + wo;
            && AllFull(next)
            && Flat(next) == (written + chunk)[|written| - size..] + Zeros(BLOCK_SIZE - wo - |chunk|)
  {
    FlatOverwriteLast(blocks, wo, chunk);
    var size := wb * BLOCK_SIZE + wo;
    var kept, padding := written[|written| - size..], Zeros(BLOCK_SIZE - wo);
    assert (written + chunk)[|written| - size..] == kept + chunk;
    assert Flat(blocks)[..size] == kept;
    assert Flat(blocks)[size + |chunk|..] == padding[|chunk|..] == Zeros(BLOCK_SIZE - wo - |chunk|);
  }

  /** Filling `chunk` into the current block, which stays open. */
  lemma HoldsAfterFill(blocks: seq<bytes>, wb: nat, wo: nat, rb: nat, ro: nat, written: bytes, taken: nat,
                       chunk: bytes)
    requires Holds(blocks, wb, wo, rb, ro, written, taken)
    requires 0 < |chunk| < BLOCK_SIZE - wo
    ensures Holds(Filled(blocks, wb, wo, chunk), wb, wo + |chunk|, rb, ro, written + chunk, taken)
  {
    FilledFlat(blocks, wb, wo, rb, ro, written, taken, chunk);
  }

  /** Filling up the current block, after which a fresh one is opened. */
  lemma HoldsAfterFillUp(blocks: seq<bytes>, wb: nat, wo: nat, rb: nat, ro: nat, written: bytes, taken: nat,
                         chunk: bytes)
    requires Holds(blocks, wb, wo, rb, ro, written, taken)
    requires |chunk| == BLOCK_SIZE - wo
    ensures Holds(Filled(blocks, wb, wo, chunk) + [Zeros(BLOCK_SIZE)], wb + 1, 0, rb, ro, written + chunk, taken)
  {
    FilledFlat(blocks, wb, wo, rb, ro, written, taken, chunk);
    FlatAppend(Filled(blocks, wb, wo, chunk), [Zeros(BLOCK_SIZE)]);
    FlatSingle(Zeros(BLOCK_SIZE));
  }

  /** What the read cursor can reach. */
  ghost function Reachable(blocks: seq<bytes>, pointer: nat): bytes
    requires AllFull(blocks) && pointer <= BLOCK_SIZE * |blocks|
  {
    FlatLength(blocks);
    Flat(blocks)[pointer..]
  }

  lemma SliceStep(flat: bytes, at: nat, block: bytes, from: nat, n: nat)
    requires at + |block| <= |flat| && flat[at..at + |block|] == block && from + n <= |block|
    ensures flat[at + from..] == block[from..from + n] + flat[at + from + n..]
  {
    forall i | at + from <= i < at + from + n ensures flat[i] == block[i - at] {
      assert flat[at..at + |block|][i - at] == flat[i];
    }
    assert block[from..from + n] == flat[at + from..at + from + n];
  }

  lemma ReachableStep(blocks: seq<bytes>, rb: nat, ro: nat, n: nat)
    requires AllFull(blocks) && rb < |blocks| && ro + n <= BLOCK_SIZE
    ensures var pointer := rb * BLOCK_SIZE + ro;
            && |blocks[rb]| == BLOCK_SIZE
            && pointer + n <= BLOCK_SIZE * |blocks|
            && Reachable(blocks, pointer) == blocks[rb][ro..ro + n] + Reachable(blocks, pointer + n)
  {
    FlatBlock(blocks, rb);
    assert |blocks[rb]| == BLOCK_SIZE;
    hide Flat, AllFull;
    SliceStep(Flat(blocks), BLOCK_SIZE * rb, blocks[rb], ro, n);
  }

  lemma NothingReachable(blocks: seq<bytes>, pointer: nat)
    requires AllFull(blocks) && pointer == BLOCK_SIZE * |blocks|
    ensures Reachable(blocks, pointer) == []
  {
    FlatLength(blocks);
  }

  lemma HoldsReachable(blocks: seq<bytes>, wb: nat, wo: nat, rb: nat, ro: nat, written: bytes, taken: nat)
    requires Holds(blocks, wb, wo, rb, ro, written, taken)
    ensures AllFull(blocks) && ro < BLOCK_SIZE && taken <= |written| && rb * BLOCK_SIZE + ro <= BLOCK_SIZE * |blocks|
    ensures wo < BLOCK_SIZE && |written[taken..]| == wb * BLOCK_SIZE + wo - (rb * BLOCK_SIZE + ro)
    ensures Reachable(blocks, rb * BLOCK_SIZE + ro) == written[taken..] + Zeros(BLOCK_SIZE - wo)
  {
  }

  lemma HoldsAfterAdvance(blocks: seq<bytes>, wb: nat, wo: nat, rb: nat, ro: nat, written: bytes, taken: nat,
                          n: nat)
    requires Holds(blocks, wb, wo, rb, ro, written, taken)
    requires ro + n <= BLOCK_SIZE && taken + n <= |written|
    ensures if ro + n == BLOCK_SIZE then Holds(blocks, wb, wo, rb + 1, 0, written, taken + n)
            else Holds(blocks, wb, wo, rb, ro + n, written, taken + n)
  {
  }

  /** Dropping the front block moves both cursors back by one block. */
  lemma HoldsAfterRecycle(blocks: seq<bytes>, wb: nat, wo: nat, rb: nat, ro: nat, written: bytes, taken: nat)
    requires Holds(blocks, wb, wo, rb, ro, written, taken) && 0 < rb
    ensures 0 < wb && Holds(blocks[1..], wb - 1, wo, rb - 1, ro, written, taken)
  {
    FlatBlock(blocks, 0);
    var size := wb * BLOCK_SIZE + wo;
    assert written[|written| - size..][BLOCK_SIZE..] == written[|written| - size + BLOCK_SIZE..];
  }

  /** Without the front block the same bytes are reachable, one block earlier. */
  lemma RecycledBytes(blocks: seq<bytes>, pointer: nat)
    requires AllFull(blocks) && BLOCK_SIZE <= pointer <= BLOCK_SIZE * |blocks|
    ensures AllFull(blocks[1..])
    ensures Reachable(blocks[1..], pointer - BLOCK_SIZE) == Reachable(blocks, pointer)
  {
    FlatBlock(blocks, 0);
    FlatLength(blocks[1..]);
    hide Flat;
  }

  lemma FrontWithin(unread: bytes, stored: bytes, pad: nat, n: nat)
    requires stored == unread + Zeros(pad)
    ensures n <= |unread| ==> Front(n, stored) == unread[..n]
  {
    if n <= |unread| {
      FrontOfMore(unread, Zeros(pad), n);
    }
  }

  class InternalByteBuffer {
    var blocks: seq<bytes>
    var writeBlock: nat
    var writeOffset: nat
    var readBlock: nat
    var readOffset: nat
    var enableBlockRecycle: bool

    /** Everything written since the last clear, and how much of it has been read. */
    ghost var written: bytes
    ghost var taken: nat

    ghost predicate Valid()
      reads this
    {
      Holds(blocks, writeBlock, writeOffset, readBlock, readOffset, written, taken)
    }

    function ReaderPointer(): nat
      reads this
    {
      readBlock * BLOCK_SIZE + readOffset
    }

    /** All blocks have full size and the read cursor is within them, though perhaps past the written bytes. */
    ghost predicate Readable()
      reads this
    {
      AllFull(blocks) && readOffset < BLOCK_SIZE && ReaderPointer() <= BLOCK_SIZE * |blocks|
    }

    /** The stored bytes from the read cursor on: what is unread, then the padding of the last block. */
    ghost function Stored(): bytes
      requires Readable()
      reads this
    {
      Reachable(blocks, ReaderPointer())
    }

    function Size(): nat
      reads this
    {
      writeBlock * BLOCK_SIZE + writeOffset
    }

    ghost function Unread(): (unread: bytes)
      requires Valid()
      reads this
      ensures taken <= |written| && |unread| == Size() - ReaderPointer()
    {
      written[taken..]
    }

    /** How many of the written bytes were recycled away. */
    ghost function Dropped(): int
      reads this
    {
      |written| - Size()
    }

    constructor ()
      ensures Valid() && written == [] && taken == 0 && Dropped() == 0 && !enableBlockRecycle
    {
      blocks := [Zeros(BLOCK_SIZE)];
      writeBlock, writeOffset, readBlock, readOffset := 0, 0, 0, 0;
      enableBlockRecycle := false;
      written, taken := [], 0;
      new;
      HoldsInitially();
    }

    method Clear()
      modifies this
      ensures Valid() && written == [] && taken == 0 && Dropped() == 0
      ensures enableBlockRecycle == old(enableBlockRecycle)
    {
      HoldsInitially();
      blocks := [Zeros(BLOCK_SIZE)];
      writeBlock, writeOffset, readBlock, readOffset := 0, 0, 0, 0;
      written, taken := [], 0;
    }

    /** Moves the read cursor, anywhere. The buffer is consistent afterwards exactly when that is a position
        among the bytes still held. */
    method SetReader(block: nat, offset: nat)
      requires Valid()
      modifies this
      ensures readBlock == block && readOffset == offset && blocks == old(blocks) && Size() == old(Size())
      ensures written == old(written) && enableBlockRecycle == old(enableBlockRecycle)
      ensures Valid() <==> offset < BLOCK_SIZE && block * BLOCK_SIZE + offset <= Size()
      ensures Valid() ==> taken == |written| - Size() + block * BLOCK_SIZE + offset
    {
      readBlock, readOffset := block, offset;
      taken := |written| - Size() + ReaderPointer();
    }

    method ToggleBlockRecycle(state: bool)
      requires Valid()
      modifies this`enableBlockRecycle
      ensures Valid() && enableBlockRecycle == state
    {
      enableBlockRecycle := state;
    }

    /** One round of the copy loop: fill the current block, and open a new one when it is full. */
    method WriteChunk(chunk: bytes)
      requires Valid() && 0 < |chunk| <= BLOCK_SIZE - writeOffset
      modifies this
      ensures Valid()
      ensures written == old(written) + chunk && taken == old(taken) && Dropped() == old(Dropped())
      ensures enableBlockRecycle == old(enableBlockRecycle)
    {
      var filled := Filled(blocks, writeBlock, writeOffset, chunk);
      if writeOffset + |chunk| == BLOCK_SIZE {
        HoldsAfterFillUp(blocks, writeBlock, writeOffset, readBlock, readOffset, written, taken, chunk);
        blocks := filled + [Zeros(BLOCK_SIZE)];
        writeBlock, writeOffset := writeBlock + 1, 0;
      } else {
        HoldsAfterFill(blocks, writeBlock, writeOffset, readBlock, readOffset, written, taken, chunk);
        blocks := filled;
        writeOffset := writeOffset + |chunk|;
      }
      written := written + chunk;
    }

    method Write(data: bytes)
      requires Valid()
      modifies this
      ensures Valid()
      ensures written == old(written) + data && taken == old(taken) && Dropped() == old(Dropped())
      ensures enableBlockRecycle == old(enableBlockRecycle)
    {
      var remaining := |data|;
      while remaining > 0
        invariant 0 <= remaining <= |data|
        invariant Valid()
        invariant written == old(written) + data[..|data| - remaining] && taken == old(taken)
        invariant Dropped() == old(Dropped())
        invariant enableBlockRecycle == old(enableBlockRecycle)
      {
        var spaceLeft := BLOCK_SIZE - writeOffset;
        var toCopy := if remaining < spaceLeft then remaining else spaceLeft;
        var from := |data| - remaining;
        var chunk := data[from..from + toCopy];
        assert data[..from + toCopy] == data[..from] + chunk;
        remaining := remaining - toCopy;
        WriteChunk(chunk);
      }
      assert data[..|data|] == data;
    }

    /** Inside the blocks what is stored is what is unread and the padding. */
    lemma StoredBytes()
      requires Valid()
      ensures Readable() && Stored() == Unread() + Zeros(BLOCK_SIZE - writeOffset)
    {
      HoldsReachable(blocks, writeBlock, writeOffset, readBlock, readOffset, written, taken);
    }

    method RecycleFront()
      requires Readable() && 0 < readBlock <= |blocks| && readOffset == 0
      modifies this`blocks, this`readBlock, this`writeBlock
      ensures Readable() && Stored() == old(Stored())
      ensures old(Valid()) ==> Valid()
    {
      hide Holds, AllFull, Reachable;
      RecycledBytes(blocks, ReaderPointer());
      if Valid() {
        HoldsAfterRecycle(blocks, writeBlock, writeOffset, readBlock, readOffset, written, taken);
      }
      readBlock := readBlock - 1;
      if writeBlock > 0 {
        writeBlock := writeBlock - 1;
      }
      blocks := blocks[1..];
    }

    /** One round of the copy loop: take bytes of the current block, and leave it when it is used up. */
    method ReadChunk(n: nat) returns (chunk: bytes)
      requires Readable() && readBlock < |blocks|
      requires 0 < n <= BLOCK_SIZE - readOffset
      modifies this
      ensures written == old(written) && enableBlockRecycle == old(enableBlockRecycle)
      ensures !enableBlockRecycle ==> Dropped() == old(Dropped())
      ensures Readable() && |chunk| == n && old(Stored()) == chunk + Stored()
      ensures old(Valid() && n <= |Unread()|) ==> Valid() && taken == old(taken) + n
    {
      hide Flat, Reachable, AllFull, Holds;
      ReachableStep(blocks, readBlock, readOffset, n);
      if Valid() && n <= |Unread()| {
        HoldsAfterAdvance(blocks, writeBlock, writeOffset, readBlock, readOffset, written, taken, n);
      }
      chunk := blocks[readBlock][readOffset..readOffset + n];
      readOffset := readOffset + n;
      taken := taken + n;
      if readOffset == BLOCK_SIZE {
        readBlock := readBlock + 1;
        readOffset := 0;
        if enableBlockRecycle {
          RecycleFront();
        }
      }
    }

    lemma NothingStored()
      requires Readable() && readBlock >= |blocks|
      ensures Stored() == []
    {
      NothingReachable(blocks, ReaderPointer());
    }

    lemma UnreadLength()
      ensures Valid() ==> taken <= |written| && |Unread()| == |written| - taken
    {
    }

    /** A read returns the next stored bytes, fewer where the blocks end. As long as it stays within the written
        bytes they are exactly the next unread ones. */
    method Read(length: nat) returns (result: bytes)
      requires Readable()
      modifies this
      ensures written == old(written) && enableBlockRecycle == old(enableBlockRecycle)
      ensures !enableBlockRecycle ==> Dropped() == old(Dropped())
      ensures Readable() && result == Front(length, old(Stored())) && Stored() == Back(length, old(Stored()))
      ensures old(Valid() && length <= |Unread()|) ==>
                Valid() && result == old(Unread())[..length] && taken == old(taken) + length
    {
      hide Holds, Stored, Unread, AllFull;
      result := [];
      ghost var stored := Stored();
      ghost var valid, unread := Valid(), if Valid() then Unread() else [];
      if Valid() {
        StoredBytes();
        FrontWithin(unread, stored, BLOCK_SIZE - writeOffset, length);
      }
      UnreadLength();
      var remaining := length;
      assert [] + stored == stored;
      while remaining > 0
        invariant 0 <= remaining && |result| + remaining == length
        invariant written == old(written) && enableBlockRecycle == old(enableBlockRecycle)
        invariant !enableBlockRecycle ==> Dropped() == old(Dropped())
        invariant Readable() && stored == result + Stored()
        invariant valid && |result| <= |unread| ==> Valid() && taken == old(taken) + |result|
      {
        if readBlock >= |blocks| {
          NothingStored();
          FrontBack(stored, result, Stored(), length);
          return;
        }
        var available := BLOCK_SIZE - readOffset;
        var toCopy := if remaining < available then remaining else available;
        remaining := remaining - toCopy;
        ghost var before := Stored();
        UnreadLength();
        var chunk := ReadChunk(toCopy);
        assert before == chunk + Stored();
        Associative(result, chunk, Stored());
        result := result + chunk;
      }
      FrontBack(stored, result, Stored(), length);
    }

    method GetBytes() returns (result: bytes)
      requires Valid()
      ensures |result| == Size()
      ensures result == written[|written| - Size()..]
      ensures result[ReaderPointer()..] == Unread()
      ensures ReaderPointer() < Size() ==> result[ReaderPointer()] == Unread()[0]
    {
      result := [];
      var i := 0;
      while i < |blocks|
        invariant 0 <= i <= writeBlock
        invariant result == Flat(blocks)[..BLOCK_SIZE * i]
      {
        FlatBlock(blocks, i);
        if i < writeBlock {
          result := result + blocks[i];
        } else if i == writeBlock {
          result := result + blocks[i][..writeOffset];
          assert result == Flat(blocks)[..Size()];
          break;
        } else {
          break;
        }
        i := i + 1;
      }
    }
  }

  /** What a user of a buffer may do with it. */
  datatype Op = Write(data: bytes) | Read(length: nat) | Recycle(state: bool)

  /** The reference: a plain byte queue. Reads beyond its end are outside the contract. */
  datatype Queue = Queue(unread: bytes, outputs: seq<bytes>)

  predicate InBounds(q: Queue, op: Op) {
    op.Read? ==> op.length <= |q.unread|
  }

  function QueueStep(q: Queue, op: Op): Queue
    requires InBounds(q, op)
  {
    match op
    case Write(data) => q.(unread := q.unread + data)
    case Read(n) => Queue(q.unread[n..], q.outputs + [q.unread[..n]])
    case Recycle(_) => q
  }

  ghost predicate AllInBounds(q: Queue, ops: seq<Op>)
    decreases ops
  {
    ops == [] || (InBounds(q, ops[0]) && AllInBounds(QueueStep(q, ops[0]), ops[1..]))
  }

  ghost function QueueRun(q: Queue, ops: seq<Op>): Queue
    requires AllInBounds(q, ops)
    decreases ops
  {
    if ops == [] then q else QueueRun(QueueStep(q, ops[0]), ops[1..])
  }

  ghost function AllWritten(ops: seq<Op>): bytes {
    if ops == [] then [] else (if ops[0].Write? then ops[0].data else []) + AllWritten(ops[1..])
  }

  lemma QueueStepConserves(q: Queue, op: Op)
    requires InBounds(q, op)
    ensures var next := QueueStep(q, op);
            Joined(next.outputs) + next.unread
            == Joined(q.outputs) + q.unread + if op.Write? then op.data else []
  {
    var next := QueueStep(q, op);
    if op.Read? {
      assert next.outputs[..|next.outputs| - 1] == q.outputs;
      assert q.unread == q.unread[..op.length] + next.unread;
    }
  }

  /** Conservation on the reference queue: what was read, then what is unread, is what was written. */
  lemma {:induction false} QueueConserves(q: Queue, ops: seq<Op>)
    requires AllInBounds(q, ops)
    ensures var end := QueueRun(q, ops);
            Joined(end.outputs) + end.unread == Joined(q.outputs) + q.unread + AllWritten(ops)
    decreases ops
  {
    hide Joined, QueueStep, InBounds;
    if ops == [] {
      assert Joined(q.outputs) + q.unread + [] == Joined(q.outputs) + q.unread;
    } else {
      var op := ops[0];
      var next, data := QueueStep(q, op), if op.Write? then op.data else [];
      QueueStepConserves(q, op);
      QueueConserves(next, ops[1..]);
      Associative(Joined(q.outputs) + q.unread, data, AllWritten(ops[1..]));
    }
  }

  /** One step of a user; a read appends to the outputs. */
  method Apply(buffer: InternalByteBuffer, op: Op, outputs: seq<bytes>) returns (outputs': seq<bytes>)
    requires buffer.Valid() && InBounds(Queue(buffer.Unread(), outputs), op)
    modifies buffer
    ensures buffer.Valid()
    ensures Queue(buffer.Unread(), outputs') == QueueStep(Queue(old(buffer.Unread()), outputs), op)
  {
    outputs' := outputs;
    ghost var unread := buffer.Unread();
    match op
    case Write(data) =>
      buffer.Write(data);
      assert buffer.Unread() == unread + data;
    case Read(length) =>
      var output := buffer.Read(length);
      outputs' := outputs + [output];
      assert buffer.Unread() == unread[length..];
    case Recycle(state) =>
      buffer.ToggleBlockRecycle(state);
  }

  /** The block buffer refines the queue: over any interleaving of writes, in-bounds reads and recycle
      switches, a fresh buffer gives the outputs of the queue and is left with the same unread bytes;
      its own size, stored bytes and read cursor agree with that. */
  method Replay(ops: seq<Op>) returns (outputs: seq<bytes>, stored: bytes, pointer: nat)
    requires AllInBounds(Queue([], []), ops)
    ensures outputs == QueueRun(Queue([], []), ops).outputs
    ensures pointer <= |stored| && stored[pointer..] == QueueRun(Queue([], []), ops).unread
    ensures Joined(outputs) + stored[pointer..] == AllWritten(ops)
  {
    var buffer := new InternalByteBuffer();
    outputs := [];
    ghost var q, end := Queue([], []), QueueRun(Queue([], []), ops);
    for i := 0 to |ops|
      invariant buffer.Valid() && fresh(buffer)
      invariant q == Queue(buffer.Unread(), outputs)
      invariant AllInBounds(q, ops[i..]) && QueueRun(q, ops[i..]) == end
    {
      assert ops[i..][0] == ops[i] && ops[i..][1..] == ops[i + 1..];
      outputs := Apply(buffer, ops[i], outputs);
      q := QueueStep(q, ops[i]);
    }
    stored := buffer.GetBytes();
    pointer := buffer.ReaderPointer();
    QueueConserves(Queue([], []), ops);
  }
}
