/** Where a stored body stands after seeking, what is read from there, and what closing it leaves usable. */
module BodyPositions {
  import opened BodyStorage

  // ----- seeking -----

  function Base(size: nat, pos: nat, whence: Whence): nat {
    match whence
    case FromStart => 0
    case FromCurrent => pos
    case FromEnd => size
  }

  /** Positions that a 64-bit offset can name. */
  predicate Reachable(size: nat, pos: nat) {
    size <= MAX_INT64 && pos <= MAX_INT64
  }

  lemma TargetIs(size: nat, pos: nat, offset: Int64, whence: Whence)
    requires Reachable(size, pos)
    ensures var to := Base(size, pos, whence) + offset;
            Target(size, pos, offset, whence) == if to <= MAX_INT64 then to else to - 2 * (MAX_INT64 + 1)
  {
    var to := Base(size, pos, whence) + offset;
    if to > MAX_INT64 {
      assert to + MAX_INT64 + 1 == 2 * (MAX_INT64 + 1) + (to - MAX_INT64 - 1);
    }
  }

  /** Memory moves exactly to a position between the start and the largest 64-bit number, and stays otherwise. */
  lemma MemorySeeksIff(data: seq<Byte>, s: Memory, offset: Int64, whence: Whence)
    requires Reachable(|data|, s.pos) && !s.closed
    ensures var (to, op) := (Base(|data|, s.pos, whence) + offset, Op.Seek(offset, whence));
            if 0 <= to <= MAX_INT64
            then MemReply(data, s, op) == Moved(to) && MemStep(data, s, op) == s.(pos := to)
            else MemReply(data, s, op) == BadSeek && MemStep(data, s, op) == s
  {
    TargetIs(|data|, s.pos, offset, whence);
  }

  /** A file moves exactly to a position between the start and its limit. */
  lemma DiskSeeksIff(data: seq<Byte>, limit: nat, s: Disk, offset: Int64, whence: Whence)
    requires Reachable(|data|, s.pos) && limit <= MAX_INT64 && !s.closed
    ensures var (to, op) := (Base(|data|, s.pos, whence) + offset, Op.Seek(offset, whence));
            if 0 <= to <= limit
            then DiskReply(data, limit, s, op) == Moved(to) && DiskStep(data, limit, s, op) == s.(pos := to)
            else DiskReply(data, limit, s, op) == BadSeek && DiskStep(data, limit, s, op) == s
  {
    TargetIs(|data|, s.pos, offset, whence);
  }

  /** Positions stay within reach, whatever is done. */
  lemma {:induction false} MemoryStaysReachable(data: seq<Byte>, s: Memory, ops: seq<Op>)
    requires Reachable(|data|, s.pos)
    ensures Reachable(|data|, MemoryAfter(data, s, ops).pos)
    decreases |ops|
  {
    if ops != [] {
      MemoryStaysReachable(data, MemStep(data, s, ops[0]), ops[1..]);
    }
  }

  lemma {:induction false} DiskStaysReachable(data: seq<Byte>, limit: nat, s: Disk, ops: seq<Op>)
    requires Reachable(|data|, s.pos)
    ensures Reachable(|data|, DiskAfter(data, limit, s, ops).pos)
    decreases |ops|
  {
    if ops != [] {
      DiskStaysReachable(data, limit, DiskStep(data, limit, s, ops[0]), ops[1..]);
    }
  }

  function MemoryAfter(data: seq<Byte>, s: Memory, ops: seq<Op>): Memory
    decreases |ops|
  {
    if ops == [] then s else MemoryAfter(data, MemStep(data, s, ops[0]), ops[1..])
  }

  function DiskAfter(data: seq<Byte>, limit: nat, s: Disk, ops: seq<Op>): Disk
    decreases |ops|
  {
    if ops == [] then s else DiskAfter(data, limit, DiskStep(data, limit, s, ops[0]), ops[1..])
  }

  // ----- reading on from a position -----

  function Reads(sizes: seq<nat>): seq<Op>
    decreases |sizes|
  {
    if sizes == [] then [] else [Op.Read(sizes[0])] + Reads(sizes[1..])
  }

  /** The bytes that these replies deliver, one after the other. */
  function Collected(replies: seq<Reply>): seq<Byte>
    decreases |replies|
  {
    if replies == [] then [] else Delivered(replies[0]) + Collected(replies[1..])
  }

  predicate Enough(sizes: seq<nat>, left: nat) {
    |sizes| >= left && forall i :: 0 <= i < |sizes| ==> sizes[i] > 0
  }

  lemma MemoryReadMoves(data: seq<Byte>, s: Memory, n: nat)
    requires !s.closed && s.pos <= |data| && n > 0
    ensures var next := MemStep(data, s, Op.Read(n));
            && next == s.(pos := next.pos) && s.pos <= next.pos <= |data| && (s.pos < |data| ==> s.pos < next.pos)
            && Delivered(MemReply(data, s, Op.Read(n))) == data[s.pos..next.pos]
  {
  }

  lemma MemoryRepliesFirst(data: seq<Byte>, s: Memory, op: Op, rest: seq<Op>)
    ensures Collected(MemReplies(data, s, [op] + rest)) ==
              Delivered(MemReply(data, s, op)) + Collected(MemReplies(data, MemStep(data, s, op), rest))
  {
    assert ([op] + rest)[1..] == rest;
    var later := MemReplies(data, MemStep(data, s, op), rest);
    assert MemReplies(data, s, [op] + rest) == [MemReply(data, s, op)] + later;
    assert MemReplies(data, s, [op] + rest)[1..] == later;
  }

  /** Reading on with enough buffers of any sizes delivers everything from the position to the end. */
  lemma {:induction false} MemoryReadsOn(data: seq<Byte>, s: Memory, sizes: seq<nat>)
    requires !s.closed && s.pos <= |data| && Enough(sizes, |data| - s.pos)
    ensures Collected(MemReplies(data, s, Reads(sizes))) == data[s.pos..]
    decreases |sizes|
  {
    if sizes != [] {
      var op := Op.Read(sizes[0]);
      var next := MemStep(data, s, op);
      MemoryReadMoves(data, s, sizes[0]);
      MemoryReadsOn(data, next, sizes[1..]);
      MemoryRepliesFirst(data, s, op, Reads(sizes[1..]));
      assert data[s.pos..] == data[s.pos..next.pos] + data[next.pos..];
    }
  }

  lemma DiskReadMoves(data: seq<Byte>, limit: nat, s: Disk, n: nat)
    requires !s.closed && s.pos <= |data| && n > 0
    ensures var next := DiskStep(data, limit, s, Op.Read(n));
            && next == s.(pos := next.pos) && s.pos <= next.pos <= |data| && (s.pos < |data| ==> s.pos < next.pos)
            && Delivered(DiskReply(data, limit, s, Op.Read(n))) == data[s.pos..next.pos]
  {
  }

  lemma DiskRepliesFirst(data: seq<Byte>, limit: nat, s: Disk, op: Op, rest: seq<Op>)
    ensures Collected(DiskReplies(data, limit, s, [op] + rest)) ==
              Delivered(DiskReply(data, limit, s, op))
              + Collected(DiskReplies(data, limit, DiskStep(data, limit, s, op), rest))
  {
    assert ([op] + rest)[1..] == rest;
    var later := DiskReplies(data, limit, DiskStep(data, limit, s, op), rest);
    assert DiskReplies(data, limit, s, [op] + rest) == [DiskReply(data, limit, s, op)] + later;
    assert DiskReplies(data, limit, s, [op] + rest)[1..] == later;
  }

  lemma {:induction false} DiskReadsOn(data: seq<Byte>, limit: nat, s: Disk, sizes: seq<nat>)
    requires !s.closed && s.pos <= |data| && Enough(sizes, |data| - s.pos)
    ensures Collected(DiskReplies(data, limit, s, Reads(sizes))) == data[s.pos..]
    decreases |sizes|
  {
    if sizes != [] {
      var op := Op.Read(sizes[0]);
      var next := DiskStep(data, limit, s, op);
      DiskReadMoves(data, limit, s, sizes[0]);
      DiskReadsOn(data, limit, next, sizes[1..]);
      DiskRepliesFirst(data, limit, s, op, Reads(sizes[1..]));
      assert data[s.pos..] == data[s.pos..next.pos] + data[next.pos..];
    }
  }

  /** A seek into the payload and reads after it deliver the rest of the payload from there, whatever was done before.
      From the end the position counts backwards. */
  lemma SeekThenRead(data: seq<Byte>, limit: nat, m: Memory, d: Disk, offset: Int64, whence: Whence, sizes: seq<nat>)
    requires !m.closed && !d.closed && m.pos == d.pos && Reachable(|data|, m.pos) && |data| <= limit <= MAX_INT64
    requires var to := Base(|data|, m.pos, whence) + offset; 0 <= to <= |data| && Enough(sizes, |data| - to)
    ensures var (to, ops) := (Base(|data|, m.pos, whence) + offset, [Op.Seek(offset, whence)] + Reads(sizes));
            && Collected(MemReplies(data, m, ops)) == data[to..]
            && Collected(DiskReplies(data, limit, d, ops)) == data[to..]
  {
    var op := Op.Seek(offset, whence);
    var ops := [op] + Reads(sizes);
    assert ops[1..] == Reads(sizes);
    MemorySeeksIff(data, m, offset, whence);
    DiskSeeksIff(data, limit, d, offset, whence);
    MemoryReadsOn(data, MemStep(data, m, op), sizes);
    DiskReadsOn(data, limit, DiskStep(data, limit, d, op), sizes);
  }

  // ----- closing -----

  predicate OfStorage(op: Op) {
    op.Read? || op.Seek? || op.Bytes? || op.NewReader?
  }

  predicate OfReader(op: Op) {
    op.ReaderRead? || op.ReaderClose?
  }

  /** A closed storage refuses every operation of its own, stays closed, and can be closed again. */
  lemma ClosedRefuses(data: seq<Byte>, limit: nat, m: Memory, d: Disk, op: Op)
    requires m.closed && d.closed
    ensures OfStorage(op) ==> MemReply(data, m, op) == StorageClosed && MemStep(data, m, op) == m
    ensures OfStorage(op) ==> DiskReply(data, limit, d, op) == StorageClosed && DiskStep(data, limit, d, op) == d
    ensures op.Close? ==> MemReply(data, m, op) == Fine && DiskReply(data, limit, d, op) == Fine
    ensures MemStep(data, m, op).closed && DiskStep(data, limit, d, op).closed
  {
  }

  /** Readers opened before do not notice the closing: their replies are those they would have got without it. */
  lemma {:induction false} ReadersOutliveTheStorage(data: seq<Byte>, limit: nat, m: Memory, d: Disk, ops: seq<Op>)
    requires forall i :: 0 <= i < |ops| ==> OfReader(ops[i])
    ensures MemReplies(data, m.(closed := true), ops) == MemReplies(data, m, ops)
    ensures DiskReplies(data, limit, d.(closed := true), ops) == DiskReplies(data, limit, d, ops)
    decreases |ops|
  {
    if ops != [] {
      ReadersOutliveTheStorage(data, limit, MemStep(data, m, ops[0]), DiskStep(data, limit, d, ops[0]), ops[1..]);
    }
  }

  /** Every cursor is its own: an operation of one reader moves neither the storage nor another reader, and no
      operation of the storage moves a reader. */
  lemma CursorsAreIndependent(data: seq<Byte>, limit: nat, m: Memory, d: Disk, op: Op, k: nat)
    requires k < |m.readers| && k < |d.readers|
    ensures var (m', d') := (MemStep(data, m, op), DiskStep(data, limit, d, op));
            && k < |m'.readers| && k < |d'.readers|
            && (!OfReader(op) || op.k != k ==> m'.readers[k] == m.readers[k] && d'.readers[k] == d.readers[k])
            && (OfReader(op) ==> m'.pos == m.pos && d'.pos == d.pos && m'.closed == m.closed && d'.closed == d.closed)
  {
  }
}
