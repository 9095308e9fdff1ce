/** The logger's multi-block ring buffer, each method one atomic step. A writer
    reserves space, stores a record there and moves its pointer on; a reader asks
    whether there is anything to read, reads it in place and moves its pointer on. */
module RingBuffers {

  type Byte = b: int | 0 <= b < 256
  type Record = seq<Byte>

  /** The positions alone: where the writer and the reader are, and where each
      block ended when the writer last left it (0 once the reader has entered it). */
  datatype Cursors = Cursors(writeBlock: nat, writeOffset: nat, readBlock: nat, readOffset: nat, ends: seq<nat>)

  predicate Indexed(c: Cursors, blocks: nat) {
    |c.ends| == blocks && c.writeBlock < blocks && c.readBlock < blocks
  }

  /** The reader is in the writer's block behind it, or in the block before it with
      that block's end marked. With one block, the block before is the same one, and
      then the reader must be at that end. */
  ghost predicate InStep(c: Cursors, blocks: nat, size: nat) {
    && Indexed(c, blocks)
    && c.writeOffset <= size && c.readOffset <= size
    && (forall i :: 0 <= i < blocks ==> c.ends[i] <= size)
    && (if c.ends[c.readBlock] == 0 then c.readBlock == c.writeBlock && c.readOffset <= c.writeOffset
        else
          && c.writeBlock == (c.readBlock + 1) % blocks && c.readOffset <= c.ends[c.readBlock]
          && (blocks == 1 ==> c.readOffset == c.ends[c.readBlock]))
  }

  /** The reader is in the writer's block and, if there is no other, has read all of it. */
  predicate MayLeave(c: Cursors, blocks: nat)
    requires Indexed(c, blocks)
  {
    c.readBlock == c.writeBlock && c.ends[c.readBlock] == 0 && (blocks == 1 ==> c.readOffset == c.writeOffset)
  }

  /** get_write_pointer on the positions. */
  function Reserve(c: Cursors, blocks: nat, size: nat, wanted: nat): (c': Cursors)
    requires Indexed(c, blocks)
    ensures Indexed(c', blocks)
  {
    if c.writeOffset + wanted > size then
      c.(ends := c.ends[c.writeBlock := c.writeOffset], writeOffset := 0, writeBlock := (c.writeBlock + 1) % blocks)
    else c
  }

  /** check_wrap_read_pointer on the positions. */
  function WrapRead(c: Cursors, blocks: nat): (c': Cursors)
    requires Indexed(c, blocks)
    ensures Indexed(c', blocks)
  {
    var end := c.ends[c.readBlock];
    if end != 0 && c.readOffset == end then
      var next := (c.readBlock + 1) % blocks;
      c.(readBlock := next, readOffset := 0, ends := c.ends[next := 0])
    else c
  }

  predicate Readable(c: Cursors) {
    if c.readBlock == c.writeBlock then c.readOffset < c.writeOffset else true
  }

  lemma NextBlock(b: nat, blocks: nat)
    requires b < blocks
    ensures (b + 1) % blocks == if b + 1 == blocks then 0 else b + 1
    ensures (b + 1) % blocks == b <==> blocks == 1
  {
  }

  /** A reader that goes on asking and moving past one record at a time is told the
      truth every time, while these records are unread and the writer does nothing. */
  ghost predicate ToldTruth(c: Cursors, blocks: nat, queue: seq<Record>)
    requires Indexed(c, blocks)
    decreases |queue|
  {
    var at := WrapRead(c, blocks);
    && Readable(at) == (queue != [])
    && (queue != [] ==> ToldTruth(at.(readOffset := at.readOffset + |queue[0]|), blocks, queue[1..]))
  }

  ghost function Bytes(records: seq<Record>): nat {
    if records == [] then 0 else |records[0]| + Bytes(records[1..])
  }

  /** The positions have room for exactly these records: those left behind in the
      reader's block when the writer has moved on, and those in the writer's block. */
  ghost predicate Spans(c: Cursors, blocks: nat, behind: seq<Record>, current: seq<Record>)
    requires Indexed(c, blocks)
  {
    && (forall r :: r in behind + current ==> |r| > 0)
    && (if c.ends[c.readBlock] == 0 then behind == [] && c.readOffset + Bytes(current) == c.writeOffset
        else c.readOffset + Bytes(behind) == c.ends[c.readBlock] && Bytes(current) == c.writeOffset)
  }

  /** Whether to go on to the next block is decided rightly. */
  lemma WrapReadSpans(c: Cursors, blocks: nat, size: nat, behind: seq<Record>, current: seq<Record>)
    requires InStep(c, blocks, size) && Spans(c, blocks, behind, current)
    ensures var at := WrapRead(c, blocks);
            && InStep(at, blocks, size) && Spans(at, blocks, behind, current)
            && Readable(at) == (behind + current != [])
            && (at.ends[at.readBlock] == 0 <==> behind == [])
  {
    NextBlock(c.readBlock, blocks);
    assert behind != [] ==> behind[0] in behind + current;
    assert current != [] ==> current[0] in behind + current;
  }

  /** While the two are in step, the positions answer truly until everything is read. */
  lemma {:induction false} InStepTruth(c: Cursors, blocks: nat, size: nat, behind: seq<Record>, current: seq<Record>)
    requires InStep(c, blocks, size) && Spans(c, blocks, behind, current)
    ensures ToldTruth(c, blocks, behind + current)
    decreases |behind| + |current|
  {
    hide WrapRead;
    var at := WrapRead(c, blocks);
    WrapReadSpans(c, blocks, size, behind, current);
    if behind != [] {
      assert (behind + current)[1..] == behind[1..] + current;
      InStepTruth(at.(readOffset := at.readOffset + |behind[0]|), blocks, size, behind[1..], current);
    } else if current != [] {
      assert behind + current == current && [] + current[1..] == current[1..];
      InStepTruth(at.(readOffset := at.readOffset + |current[0]|), blocks, size, [], current[1..]);
    }
  }

  /** A reader in a block whose end mark is gone and which the writer has left is told
      for ever that there is more. */
  lemma {:induction false} LostTruth(c: Cursors, blocks: nat, queue: seq<Record>)
    requires Indexed(c, blocks) && c.readBlock != c.writeBlock && c.ends[c.readBlock] == 0
    ensures !ToldTruth(c, blocks, queue)
    decreases |queue|
  {
    if queue != [] {
      LostTruth(c.(readOffset := c.readOffset + |queue[0]|), blocks, queue[1..]);
    }
  }

  /** A reader two blocks behind: it wipes the end mark of the next block on entering it. */
  lemma {:induction false} LappedTruth(c: Cursors, blocks: nat, behind: seq<Record>, current: seq<Record>)
    requires Indexed(c, blocks) && blocks >= 2 && c.writeBlock != (c.readBlock + 1) % blocks
    requires 0 < c.ends[c.readBlock] == c.readOffset + Bytes(behind)
    requires forall r :: r in behind ==> |r| > 0
    requires c.readBlock == c.writeBlock ==> c.writeOffset == 0
    ensures !ToldTruth(c, blocks, behind + current)
    decreases |behind|
  {
    if behind == [] {
      assert behind + current == current;
      LostTruth(WrapRead(c, blocks), blocks, current);
    } else if c.readBlock != c.writeBlock {
      assert (behind + current)[1..] == behind[1..] + current;
      LappedTruth(c.(readOffset := c.readOffset + |behind[0]|), blocks, behind[1..], current);
    }
  }

  /** Nothing in the buffer stops the writer from going on to the next block. That is
      safe exactly when the reader may be left: otherwise a reader that just keeps
      reading is told that there is nothing while there is, or that there is something
      when there is not. */
  lemma WrapIsSafeIff(c: Cursors, blocks: nat, size: nat, wanted: nat, behind: seq<Record>, current: seq<Record>)
    requires InStep(c, blocks, size) && Spans(c, blocks, behind, current)
    requires wanted <= size < c.writeOffset + wanted
    ensures ToldTruth(Reserve(c, blocks, size, wanted), blocks, behind + current) <==> MayLeave(c, blocks)
    ensures MayLeave(c, blocks) ==>
      var c' := Reserve(c, blocks, size, wanted); InStep(c', blocks, size) && Spans(c', blocks, current, [])
  {
    var c' := Reserve(c, blocks, size, wanted);
    NextBlock(c.readBlock, blocks);
    NextBlock(c.writeBlock, blocks);
    assert current == [] ==> Bytes(current) == 0;
    if MayLeave(c, blocks) {
      assert behind + current == current == current + [];
      InStepTruth(c', blocks, size, current, []);
    } else if blocks >= 2 {
      LappedTruth(c', blocks, behind, current);
    }
  }

  /** How it goes wrong, for every wrap with the reader in another block: a reader that
      gets to the end of its block enters the one left behind, and at the end of what
      was written there it is told that there is more and stays where it is. With two
      blocks, a reader that has not got to the end of its block is told that there is
      nothing. */
  lemma LappedReader(c: Cursors, blocks: nat, size: nat, wanted: nat)
    requires InStep(c, blocks, size) && wanted <= size < c.writeOffset + wanted
    requires c.readBlock != c.writeBlock
    ensures var c' := Reserve(c, blocks, size, wanted);
            var entered := WrapRead(c'.(readOffset := c.ends[c.readBlock]), blocks);
            var finished := entered.(readOffset := c.writeOffset);
            && entered.readBlock == c.writeBlock && entered.readOffset == 0
            && Readable(finished) && WrapRead(finished, blocks) == finished
            && (blocks == 2 && c.readOffset < c.ends[c.readBlock] ==> WrapRead(c', blocks) == c' && !Readable(c'))
  {
    NextBlock(c.readBlock, blocks);
    NextBlock(c.writeBlock, blocks);
  }

  /** The records recs lie one after another in the block, from offset to end. */
  ghost predicate Laid(block: seq<Byte>, offset: nat, recs: seq<Record>, end: nat)
    decreases |recs|
  {
    if recs == [] then offset == end
    else
      && 0 < |recs[0]| && offset + |recs[0]| <= end <= |block|
      && block[offset..offset + |recs[0]|] == recs[0]
      && Laid(block, offset + |recs[0]|, recs[1..], end)
  }

  lemma {:induction false} LaidBounds(block: seq<Byte>, offset: nat, recs: seq<Record>, end: nat)
    requires Laid(block, offset, recs, end)
    ensures offset <= end
    ensures offset == end <==> recs == []
    decreases |recs|
  {
  }

  lemma {:induction false} LaidSpans(block: seq<Byte>, offset: nat, recs: seq<Record>, end: nat)
    requires Laid(block, offset, recs, end)
    ensures offset + Bytes(recs) == end && forall r :: r in recs ==> |r| > 0
    decreases |recs|
  {
    if recs != [] {
      LaidSpans(block, offset + |recs[0]|, recs[1..], end);
      assert recs == [recs[0]] + recs[1..];
    }
  }

  /** Bytes outside [offset, end) do not matter. */
  lemma {:induction false} LaidElsewhere(block: seq<Byte>, block': seq<Byte>, offset: nat, recs: seq<Record>, end: nat)
    requires Laid(block, offset, recs, end) && |block'| == |block|
    requires forall i :: offset <= i < end && i < |block| ==> block'[i] == block[i]
    ensures Laid(block', offset, recs, end)
    decreases |recs|
  {
    if recs != [] {
      assert block'[offset..offset + |recs[0]|] == block[offset..offset + |recs[0]|];
      LaidElsewhere(block, block', offset + |recs[0]|, recs[1..], end);
    }
  }

  lemma {:induction false} LaidAppend(block: seq<Byte>, offset: nat, recs: seq<Record>, end: nat, n: nat)
    requires Laid(block, offset, recs, end) && 1 <= n && end + n <= |block|
    ensures var r: Record := block[end..end + n]; Laid(block, offset, recs + [r], end + n)
    decreases |recs|
  {
    var r: Record := block[end..end + n];
    var rs: seq<Record> := [r];
    LaidBounds(block, offset, recs, end);
    if recs == [] {
      assert rs[1..] == [];
    } else {
      assert (recs + [r])[1..] == recs[1..] + [r];
      LaidAppend(block, offset + |recs[0]|, recs[1..], end, n);
    }
  }

  class RingBuffer {
    const memBlockSize: nat
    const noBlocks: nat
    const memBlocks: array2<Byte>
    const memBlocksEnd: array<nat>
    var writePtrOffset: nat
    var writeBlockIndex: nat
    var readPtrOffset: nat
    var readBlockIndex: nat

    // The unread records: those left behind in the reader's block when the writer
    // has moved on, and those in the writer's block.
    ghost var Behind: seq<Record>
    ghost var Current: seq<Record>

    ghost function Positions(): Cursors
      reads this, memBlocksEnd
    {
      Cursors(writeBlockIndex, writePtrOffset, readBlockIndex, readPtrOffset, memBlocksEnd[..])
    }

    ghost function Block(b: nat): (block: seq<Byte>)
      requires b < memBlocks.Length0
      reads memBlocks
      ensures |block| == memBlocks.Length1 && forall i :: 0 <= i < |block| ==> block[i] == memBlocks[b, i]
    {
      seq(memBlocks.Length1, i requires 0 <= i < memBlocks.Length1 reads memBlocks => memBlocks[b, i])
    }

    /** The queue that the buffer stands for. */
    ghost function Unread(): seq<Record>
      reads this
    {
      Behind + Current
    }

    ghost predicate Valid()
      reads this, memBlocks, memBlocksEnd
    {
      && memBlocks.Length0 == noBlocks && memBlocks.Length1 == memBlockSize && memBlocksEnd.Length == noBlocks
      && InStep(Positions(), noBlocks, memBlockSize)
      && (if memBlocksEnd[readBlockIndex] == 0 then
            Behind == [] && Laid(Block(writeBlockIndex), readPtrOffset, Current, writePtrOffset)
          else
            && Laid(Block(readBlockIndex), readPtrOffset, Behind, memBlocksEnd[readBlockIndex])
            && Laid(Block(writeBlockIndex), 0, Current, writePtrOffset))
    }

    /** The reader's pointer is at the next record, not at the end of a finished block. */
    ghost predicate AtRecord()
      requires Valid()
      reads this, memBlocks, memBlocksEnd
    {
      Unread() != [] && (memBlocksEnd[readBlockIndex] == 0 || Behind != [])
    }

    constructor (memBlockSize: nat, noBlocks: nat)
      ensures noBlocks > 0 ==> Valid()
      ensures Positions() == Cursors(0, 0, 0, 0, seq(noBlocks, _ => 0)) && Unread() == []
      ensures fresh(memBlocks) && fresh(memBlocksEnd)
      ensures this.memBlockSize == memBlockSize && this.noBlocks == noBlocks
    {
      this.memBlockSize, this.noBlocks := memBlockSize, noBlocks;
      memBlocks := new Byte[noBlocks, memBlockSize];
      memBlocksEnd := new nat[noBlocks](_ => 0);
      writePtrOffset, writeBlockIndex, readPtrOffset, readBlockIndex := 0, 0, 0, 0;
      Behind, Current := [], [];
    }

    /** Reserve room, going on to the next block when this one has too little left,
        wherever the reader is. */
    method GetWritePointer(wantedSpace: nat) returns (block: nat, offset: nat)
      requires Valid() && wantedSpace <= memBlockSize
      modifies this, memBlocksEnd
      ensures Positions() == Reserve(old(Positions()), noBlocks, memBlockSize, wantedSpace)
      ensures old(writePtrOffset) + wantedSpace <= memBlockSize ==>
        block == old(writeBlockIndex) && offset == old(writePtrOffset) && Positions() == old(Positions())
      ensures old(writePtrOffset) + wantedSpace > memBlockSize ==>
        && block == (if old(writeBlockIndex) + 1 == noBlocks then 0 else old(writeBlockIndex) + 1) && offset == 0
        && Positions() == Cursors(block, 0, old(readBlockIndex), old(readPtrOffset),
                                  old(memBlocksEnd[..][writeBlockIndex := writePtrOffset]))
      ensures old(writePtrOffset + wantedSpace <= memBlockSize || MayLeave(Positions(), noBlocks)) ==>
        Valid() && Unread() == old(Unread()) && (old(AtRecord()) ==> AtRecord())
      ensures block == writeBlockIndex && offset == writePtrOffset && offset + wantedSpace <= memBlockSize
    {
      hide Laid;
      block, offset := writeBlockIndex, writePtrOffset;
      NextBlock(block, noBlocks);
      if offset + wantedSpace > memBlockSize {
        memBlocksEnd[block] := offset;
        offset := 0;
        block := (block + 1) % noBlocks;
        writeBlockIndex := block;
        writePtrOffset := offset;
        Behind, Current := Current, [];
        StartsLaid(Block(block));
      }
    }

    lemma StartsLaid(block: seq<Byte>)
      ensures Laid(block, 0, [], 0)
    {
    }

    method Fill(block: nat, offset: nat, record: Record)
      requires block < memBlocks.Length0 && offset + |record| <= memBlocks.Length1
      modifies memBlocks
      ensures Block(block) == old(Block(block)[..offset] + record + Block(block)[offset + |record|..])
      ensures forall b :: 0 <= b < memBlocks.Length0 && b != block ==> Block(b) == old(Block(b))
    {
      var i := 0;
      while i < |record|
        invariant 0 <= i <= |record|
        invariant forall b, j :: 0 <= b < memBlocks.Length0 && 0 <= j < memBlocks.Length1 ==>
          memBlocks[b, j] == if b == block && offset <= j < offset + i then record[j - offset] else old(memBlocks[b, j])
      {
        memBlocks[block, offset + i] := record[i];
        i := i + 1;
      }
    }

    /** The writer fills what it reserved, as Logger::write_buffer does in place. */
    method StoreRecord(record: Record)
      requires Valid() && writePtrOffset + |record| <= memBlockSize
      modifies memBlocks
      ensures Valid() && (old(AtRecord()) ==> AtRecord())
      ensures Block(writeBlockIndex)[writePtrOffset..writePtrOffset + |record|] == record
    {
      hide Laid;
      ghost var reading, writing := Block(readBlockIndex), Block(writeBlockIndex);
      Fill(writeBlockIndex, writePtrOffset, record);
      if memBlocksEnd[readBlockIndex] == 0 {
        LaidElsewhere(writing, Block(writeBlockIndex), readPtrOffset, Current, writePtrOffset);
      } else {
        LaidElsewhere(writing, Block(writeBlockIndex), 0, Current, writePtrOffset);
        LaidElsewhere(reading, Block(readBlockIndex), readPtrOffset, Behind, memBlocksEnd[readBlockIndex]);
      }
    }

    /** What was stored becomes the newest record. */
    method ForwardWritePointer(n: nat)
      requires Valid() && 1 <= n && writePtrOffset + n <= memBlockSize
      modifies this`writePtrOffset, this`Current
      ensures Valid()
      ensures Positions() == old(Positions()).(writeOffset := old(writePtrOffset) + n)
      ensures Unread() == old(Unread()) + [Block(writeBlockIndex)[old(writePtrOffset)..writePtrOffset]]
      ensures old(AtRecord()) ==> AtRecord()
    {
      hide Laid;
      var offset := writePtrOffset;
      LaidAppend(Block(writeBlockIndex), if memBlocksEnd[readBlockIndex] == 0 then readPtrOffset else 0,
                 Current, offset, n);
      Current := Current + [Block(writeBlockIndex)[offset..offset + n]];
      writePtrOffset := n + offset;
    }

    method CheckWrapReadPointer()
      requires Valid()
      modifies this`readBlockIndex, this`readPtrOffset, memBlocksEnd
      ensures Valid()
      ensures Positions() == WrapRead(old(Positions()), noBlocks)
      ensures Unread() == old(Unread())
      ensures AtRecord() <==> Unread() != []
      ensures memBlocksEnd[readBlockIndex] == 0 || Behind != []
    {
      hide Laid;
      var end := memBlocksEnd[readBlockIndex];
      NextBlock(readBlockIndex, noBlocks);
      if end != 0 {
        LaidBounds(Block(readBlockIndex), readPtrOffset, Behind, end);
      }
      if end != 0 && readPtrOffset == end {
        readBlockIndex := (readBlockIndex + 1) % noBlocks;
        readPtrOffset := 0;
        memBlocksEnd[readBlockIndex] := 0;
      }
    }

    /** True exactly when there is an unread record. */
    method CanRead() returns (r: bool)
      requires Valid()
      modifies this`readBlockIndex, this`readPtrOffset, memBlocksEnd
      ensures Valid()
      ensures Unread() == old(Unread())
      ensures Positions() == WrapRead(old(Positions()), noBlocks) && r == Readable(Positions())
      ensures r <==> Unread() != []
      ensures r <==> AtRecord()
    {
      hide Laid;
      CheckWrapReadPointer();
      if readBlockIndex == writeBlockIndex {
        LaidBounds(Block(writeBlockIndex), readPtrOffset, Current, writePtrOffset);
        r := readPtrOffset < writePtrOffset;
      } else {
        r := true;
      }
    }

    /** The place of the oldest unread record, whose bytes are all there. */
    method GetReadPointer() returns (block: nat, offset: nat)
      requires Valid()
      modifies this`readBlockIndex, this`readPtrOffset, memBlocksEnd
      ensures Valid()
      ensures Positions() == WrapRead(old(Positions()), noBlocks) && Unread() == old(Unread())
      ensures block == readBlockIndex < noBlocks && offset == readPtrOffset
      ensures Unread() != [] ==>
        var r := Unread()[0];
        AtRecord() && offset + |r| <= memBlockSize && Block(block)[offset..offset + |r|] == r
    {
      CheckWrapReadPointer();
      block, offset := readBlockIndex, readPtrOffset;
    }

    method Copy(block: nat, offset: nat, n: nat) returns (record: Record)
      requires block < memBlocks.Length0 && offset + n <= memBlocks.Length1
      ensures record == Block(block)[offset..offset + n]
    {
      record := [];
      while |record| < n
        invariant |record| <= n && record == Block(block)[offset..offset + |record|]
      {
        record := record + [memBlocks[block, offset + |record|]];
      }
    }

    /** The oldest record is read; the reader knows its size from the record itself. */
    method ForwardReadPointer(n: nat)
      requires Valid() && AtRecord() && n == |Unread()[0]|
      modifies this`readPtrOffset, this`Behind, this`Current
      ensures Valid()
      ensures Positions() == old(Positions()).(readOffset := old(readPtrOffset) + n)
      ensures Unread() == old(Unread())[1..]
    {
      readPtrOffset := readPtrOffset + n;
      if memBlocksEnd[readBlockIndex] == 0 {
        LaidBounds(Block(writeBlockIndex), readPtrOffset, Current[1..], writePtrOffset);
        Current := Current[1..];
      } else {
        LaidBounds(Block(readBlockIndex), readPtrOffset, Behind[1..], memBlocksEnd[readBlockIndex]);
        Behind := Behind[1..];
      }
    }

    /** The positions always have room for exactly the unread records. */
    lemma PositionsSpan()
      requires Valid()
      ensures Spans(Positions(), noBlocks, Behind, Current)
    {
      if memBlocksEnd[readBlockIndex] == 0 {
        LaidSpans(Block(writeBlockIndex), readPtrOffset, Current, writePtrOffset);
      } else {
        LaidSpans(Block(readBlockIndex), readPtrOffset, Behind, memBlocksEnd[readBlockIndex]);
        LaidSpans(Block(writeBlockIndex), 0, Current, writePtrOffset);
      }
    }

    lemma Shape()
      requires Valid()
      ensures memBlocks.Length0 == noBlocks && memBlocks.Length1 == memBlockSize && Indexed(Positions(), noBlocks)
      ensures forall r :: r in Unread() ==> |r| > 0
    {
      PositionsSpan();
    }

    /** Whether the reader of this buffer can go on being told the truth once the writer
        has gone on to the next block. */
    lemma LeavingIsSafeIff(wantedSpace: nat)
      requires Valid() && wantedSpace <= memBlockSize < writePtrOffset + wantedSpace
      ensures ToldTruth(Reserve(Positions(), noBlocks, memBlockSize, wantedSpace), noBlocks, Unread())
              <==> MayLeave(Positions(), noBlocks)
    {
      PositionsSpan();
      WrapIsSafeIff(Positions(), noBlocks, memBlockSize, wantedSpace, Behind, Current);
    }
  }

  /** One step of the writer (the first three) or of the reader. */
  datatype Step = GetWrite(wanted: nat) | Store(record: Record) | ForwardWrite | CanRead | GetRead | ForwardRead

  /** What the reader sees: the answer of can_read, and the record that get_read_pointer points at. */
  datatype Reply = Told(more: bool) | Shown(record: Record)

  /** A plain queue that does what the steps are for; it knows nothing of blocks. */
  datatype Queue = Queue(stored: Record, waiting: seq<Record>, replies: seq<Reply>)

  function Serve(q: Queue, step: Step): Queue {
    match step
    case GetWrite(_) => q.(stored := [])
    case Store(record) => q.(stored := record)
    case ForwardWrite => q.(stored := [], waiting := q.waiting + [q.stored])
    case CanRead => q.(replies := q.replies + [Told(q.waiting != [])])
    case GetRead => if q.waiting == [] then q else q.(replies := q.replies + [Shown(q.waiting[0])])
    case ForwardRead => if q.waiting == [] then q else q.(waiting := q.waiting[1..])
  }

  function Plain(steps: seq<Step>): Queue {
    if steps == [] then Queue([], [], [])
    else Serve(Plain(steps[..|steps| - 1]), steps[|steps| - 1])
  }

  /** Where the buffer stands: its positions, the room the writer has reserved and not
      used, and whether the reader has found a record that it has not moved past. */
  datatype Stand = Stand(c: Cursors, reserved: nat, found: bool)

  function Move(s: Stand, q: Queue, step: Step, blocks: nat, size: nat): (s': Stand)
    requires Indexed(s.c, blocks)
    ensures Indexed(s'.c, blocks)
  {
    match step
    case GetWrite(wanted) => s.(c := Reserve(s.c, blocks, size, wanted), reserved := wanted)
    case Store(_) => s
    case ForwardWrite => s.(c := s.c.(writeOffset := s.c.writeOffset + |q.stored|), reserved := 0)
    case CanRead => s.(c := WrapRead(s.c, blocks), found := q.waiting != [])
    case GetRead => s.(c := WrapRead(s.c, blocks), found := q.waiting != [])
    case ForwardRead =>
      if q.waiting == [] then s
      else s.(c := s.c.(readOffset := s.c.readOffset + |q.waiting[0]|), found := false)
  }

  function StandAfter(steps: seq<Step>, blocks: nat, size: nat): (s: Stand)
    requires blocks > 0
    ensures Indexed(s.c, blocks)
  {
    if steps == [] then Stand(Cursors(0, 0, 0, 0, seq(blocks, _ => 0)), 0, false)
    else
      var before := steps[..|steps| - 1];
      Move(StandAfter(before, blocks, size), Plain(before), steps[|steps| - 1], blocks, size)
  }

  /** What Logger's writer and reader keep to. */
  predicate Follows(s: Stand, q: Queue, step: Step, size: nat) {
    match step
    case GetWrite(wanted) => wanted <= size
    case Store(record) => |record| <= s.reserved
    case ForwardWrite => q.stored != []
    case CanRead => true
    case GetRead => true
    case ForwardRead => s.found
  }

  /** And the one thing they do not see to themselves: that the writer goes on to the
      next block only when it may leave. */
  predicate Permitted(s: Stand, q: Queue, step: Step, blocks: nat, size: nat)
    requires Indexed(s.c, blocks)
  {
    && Follows(s, q, step, size)
    && (step.GetWrite? && s.c.writeOffset + step.wanted > size ==> MayLeave(s.c, blocks))
  }

  ghost predicate Orderly(steps: seq<Step>, blocks: nat, size: nat)
    requires blocks > 0
  {
    forall i :: 0 <= i < |steps| ==>
      Permitted(StandAfter(steps[..i], blocks, size), Plain(steps[..i]), steps[i], blocks, size)
  }

  /** How many bytes have been written and handed over. */
  function Written(steps: seq<Step>): nat {
    if steps == [] then 0
    else
      var before := steps[..|steps| - 1];
      Written(before) + if steps[|steps| - 1].ForwardWrite? then |Plain(before).stored| else 0
  }

  /** Every reservation fits in the first block behind what has been written. */
  ghost predicate Fits(steps: seq<Step>, size: nat) {
    forall i :: 0 <= i < |steps| && steps[i].GetWrite? ==> Written(steps[..i]) + steps[i].wanted <= size
  }

  /** A step that reserves no more than there is in the block moves the writer by what it hands over. */
  lemma MovesWithin(s: Stand, q: Queue, step: Step, blocks: nat, size: nat)
    requires Indexed(s.c, blocks) && (step.GetWrite? ==> s.c.writeOffset + step.wanted <= size)
    ensures var c := Move(s, q, step, blocks, size).c;
            && c.writeBlock == s.c.writeBlock
            && c.writeOffset == s.c.writeOffset + if step.ForwardWrite? then |q.stored| else 0
  {
  }

  lemma {:induction false} StaysInBlock(steps: seq<Step>, blocks: nat, size: nat)
    requires blocks > 0 && Fits(steps, size)
    ensures var c := StandAfter(steps, blocks, size).c; c.writeBlock == 0 && c.writeOffset == Written(steps)
  {
    hide Move;
    hide Plain;
    hide Indexed;
    if steps != [] {
      var n := |steps| - 1;
      assert forall i :: 0 <= i < n ==> steps[..n][i] == steps[i] && steps[..n][..i] == steps[..i];
      StaysInBlock(steps[..n], blocks, size);
      MovesWithin(StandAfter(steps[..n], blocks, size), Plain(steps[..n]), steps[n], blocks, size);
    }
  }

  /** A schedule whose records fit in one block is orderly wherever the reader is. */
  lemma FittingIsOrderly(steps: seq<Step>, blocks: nat, size: nat)
    requires blocks > 0 && Fits(steps, size)
    requires forall i :: 0 <= i < |steps| ==>
      Follows(StandAfter(steps[..i], blocks, size), Plain(steps[..i]), steps[i], size)
    ensures Orderly(steps, blocks, size)
  {
    forall i | 0 <= i < |steps|
      ensures Permitted(StandAfter(steps[..i], blocks, size), Plain(steps[..i]), steps[i], blocks, size)
    {
      assert forall j :: 0 <= j < i ==> steps[..i][j] == steps[j] && steps[..i][..j] == steps[..j];
      StaysInBlock(steps[..i], blocks, size);
    }
  }

  /** The buffer is where s says and holds what q says. */
  ghost predicate Agrees(rb: RingBuffer, s: Stand, q: Queue)
    reads rb, rb.memBlocks, rb.memBlocksEnd
  {
    && rb.Valid() && rb.Positions() == s.c && rb.Unread() == q.waiting
    && (s.found ==> rb.AtRecord())
    && |q.stored| <= s.reserved && s.c.writeOffset + s.reserved <= rb.memBlockSize
    && rb.Block(s.c.writeBlock)[s.c.writeOffset..s.c.writeOffset + |q.stored|] == q.stored
  }

  /** Any one permitted step of the writer leaves the buffer where a queue would be; n is
      the size of what it has stored. */
  method WriterStep(rb: RingBuffer, step: Step, n: nat, ghost s: Stand, ghost q: Queue)
    requires Agrees(rb, s, q) && Permitted(s, q, step, rb.noBlocks, rb.memBlockSize)
    requires step.GetWrite? || step.Store? || (step.ForwardWrite? && n == |q.stored|)
    modifies rb, rb.memBlocks, rb.memBlocksEnd
    ensures Agrees(rb, Move(s, q, step, rb.noBlocks, rb.memBlockSize), Serve(q, step))
  {
    hide Laid;
    hide RingBuffer.Valid;
    hide Reserve;
    hide MayLeave;
    rb.Shape();
    match step {
      case GetWrite(wanted) =>
        var _, _ := rb.GetWritePointer(wanted);
      case Store(record) =>
        rb.StoreRecord(record);
      case ForwardWrite =>
        rb.ForwardWritePointer(n);
    }
  }

  /** So does any one of the reader, who is told and shown what a queue would say; n is
      the size of the record it is at, which it finds from the type that heads it. */
  method ReaderStep(rb: RingBuffer, step: Step, n: nat, ghost s: Stand, ghost q: Queue) returns (reply: seq<Reply>)
    requires Agrees(rb, s, q) && Permitted(s, q, step, rb.noBlocks, rb.memBlockSize)
    requires step.CanRead? || step.GetRead? || step.ForwardRead?
    requires n == if q.waiting == [] then 0 else |q.waiting[0]|
    modifies rb, rb.memBlocksEnd
    ensures Agrees(rb, Move(s, q, step, rb.noBlocks, rb.memBlockSize), Serve(q, step))
    ensures Serve(q, step).replies == q.replies + reply
  {
    hide Laid;
    hide RingBuffer.Valid;
    hide WrapRead;
    hide Readable;
    hide Spans;
    rb.Shape();
    reply := [];
    ghost var writing := rb.Block(s.c.writeBlock);
    match step {
      case CanRead =>
        var more := rb.CanRead();
        reply := [Told(more)];
      case GetRead =>
        var block, offset := rb.GetReadPointer();
        rb.Shape();
        if n > 0 {
          var record := rb.Copy(block, offset, n);
          reply := [Shown(record)];
        }
      case ForwardRead =>
        rb.ForwardReadPointer(n);
    }
    assert rb.Block(s.c.writeBlock) == writing;
  }

  ghost function Sizes(records: seq<Record>): seq<nat> {
    seq(|records|, i requires 0 <= i < |records| => |records[i]|)
  }

  lemma SizesServed(q: Queue, step: Step)
    ensures var q', sizes := Serve(q, step), Sizes(q.waiting);
            match step
            case GetWrite(_) => q'.stored == [] && Sizes(q'.waiting) == sizes && q'.replies == q.replies
            case Store(record) => q'.stored == record && Sizes(q'.waiting) == sizes && q'.replies == q.replies
            case ForwardWrite =>
              q'.stored == [] && Sizes(q'.waiting) == sizes + [|q.stored|] && q'.replies == q.replies
            case ForwardRead =>
              && q'.stored == q.stored && Sizes(q'.waiting) == (if sizes == [] then [] else sizes[1..])
              && q'.replies == q.replies
            case _ => q'.stored == q.stored && Sizes(q'.waiting) == sizes
  {
  }

  lemma NoSteps(rb: RingBuffer)
    requires rb.noBlocks > 0 && rb.Valid() && rb.Unread() == []
    requires rb.Positions() == Cursors(0, 0, 0, 0, seq(rb.noBlocks, _ => 0))
    ensures Agrees(rb, StandAfter([], rb.noBlocks, rb.memBlockSize), Plain([]))
    ensures Plain([]) == Queue([], [], []) && Sizes(Plain([]).waiting) == []
  {
  }

  lemma OneMore(steps: seq<Step>, i: nat, blocks: nat, size: nat)
    requires i < |steps| && blocks > 0 && Orderly(steps, blocks, size)
    ensures Permitted(StandAfter(steps[..i], blocks, size), Plain(steps[..i]), steps[i], blocks, size)
    ensures var before, after := steps[..i], steps[..i + 1];
            && Plain(after) == Serve(Plain(before), steps[i])
            && StandAfter(after, blocks, size) ==
               Move(StandAfter(before, blocks, size), Plain(before), steps[i], blocks, size)
  {
    assert steps[..i + 1][..i] == steps[..i];
  }

  /** However the single steps of writer and reader fall between one another, as long as
      the writer leaves a block only when it may: can_read answers exactly whether
      something is unread, get_read_pointer gives the oldest unread record whole, and no
      write is refused, lost, doubled or moved. */
  method Interleave(memBlockSize: nat, noBlocks: nat, steps: seq<Step>) returns (replies: seq<Reply>)
    requires noBlocks > 0 && Orderly(steps, noBlocks, memBlockSize)
    ensures replies == Plain(steps).replies
  {
    hide Agrees;
    hide Move;
    hide Orderly;
    hide Permitted;
    hide Plain;
    hide RingBuffer.Valid;
    hide Serve;
    hide StandAfter;
    var rb := new RingBuffer(memBlockSize, noBlocks);
    NoSteps(rb);
    var stored: nat := 0;
    var sizes: seq<nat> := [];
    replies := [];
    var i := 0;
    assert steps[..0] == [];
    while i < |steps|
      invariant 0 <= i <= |steps|
      invariant fresh(rb) && fresh(rb.memBlocks) && fresh(rb.memBlocksEnd)
      invariant rb.memBlockSize == memBlockSize && rb.noBlocks == noBlocks
      invariant Agrees(rb, StandAfter(steps[..i], noBlocks, memBlockSize), Plain(steps[..i]))
      invariant replies == Plain(steps[..i]).replies && stored == |Plain(steps[..i]).stored|
      invariant sizes == Sizes(Plain(steps[..i]).waiting)
    {
      OneMore(steps, i, noBlocks, memBlockSize);
      ghost var s, q := StandAfter(steps[..i], noBlocks, memBlockSize), Plain(steps[..i]);
      SizesServed(q, steps[i]);
      match steps[i] {
        case GetWrite(_) =>
          WriterStep(rb, steps[i], stored, s, q);
          stored := 0;
        case Store(record) =>
          WriterStep(rb, steps[i], stored, s, q);
          stored := |record|;
        case ForwardWrite =>
          WriterStep(rb, steps[i], stored, s, q);
          sizes, stored := sizes + [stored], 0;
        case ForwardRead =>
          var _ := ReaderStep(rb, steps[i], if sizes == [] then 0 else sizes[0], s, q);
          sizes := if sizes == [] then [] else sizes[1..];
        case _ =>
          var reply := ReaderStep(rb, steps[i], if sizes == [] then 0 else sizes[0], s, q);
          replies := replies + reply;
      }
      i := i + 1;
    }
    assert steps[..i] == steps;
  }
}
