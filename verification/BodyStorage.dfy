/** Request bodies kept for replay, in memory or in a file: when the two kinds of storage can be told apart. */
module BodyStorage {

  const MAX_INT64 := 0x7FFF_FFFF_FFFF_FFFF
  /** The most that one read from a file delivers. */
  const MAX_READ := 0x4000_0000

  type Byte = x: int | 0 <= x < 256
  type Int64 = x: int | -MAX_INT64 - 1 <= x <= MAX_INT64

  datatype Whence = FromStart | FromCurrent | FromEnd

  datatype Op =
    | Read(n: nat) | Seek(offset: Int64, whence: Whence) | Bytes | NewReader | Close
    | ReaderRead(k: nat, n: nat) | ReaderClose(k: nat)

  datatype Reply = Got(bytes: seq<Byte>) | AtEnd | Moved(pos: int) | Whole(bytes: seq<Byte>) | Opened | Fine
                 | StorageClosed | FileClosed | BadSeek

  function Min(a: int, b: int): int {
    if a < b then a else b
  }

  function Wrap(x: int): (r: Int64)
    ensures -MAX_INT64 - 1 <= x <= MAX_INT64 ==> r == x
  {
    (x + MAX_INT64 + 1) % (2 * (MAX_INT64 + 1)) - MAX_INT64 - 1
  }

  function Delivered(r: Reply): seq<Byte> {
    if r.Got? then r.bytes else []
  }

  // ----- cursors: a reader over bytes, and a file -----

  function MemRead(data: seq<Byte>, pos: nat, n: nat): Reply {
    if pos >= |data| then AtEnd else Got(data[pos..Min(pos + n, |data|)])
  }

  function FileRead(data: seq<Byte>, pos: nat, n: nat): Reply {
    if n == 0 then Got([])
    else if pos >= |data| then AtEnd
    else Got(data[pos..Min(pos + Min(n, MAX_READ), |data|)])
  }

  function Target(size: nat, pos: nat, offset: Int64, whence: Whence): Int64 {
    Wrap((match whence case FromStart => 0 case FromCurrent => pos case FromEnd => size) + offset)
  }

  function MemSeek(size: nat, pos: nat, offset: Int64, whence: Whence): Reply {
    var to := Target(size, pos, offset, whence);
    if to < 0 then BadSeek else Moved(to)
  }

  /** A file system refuses positions beyond its largest file. */
  function FileSeek(size: nat, limit: nat, pos: nat, offset: Int64, whence: Whence): Reply {
    var to := Target(size, pos, offset, whence);
    if to < 0 || to > limit then BadSeek else Moved(to)
  }

  function After(pos: nat, r: Reply): nat {
    match r
    case Got(bytes) => pos + |bytes|
    case Moved(to) => if to >= 0 then to else pos
    case _ => pos
  }

  // ----- the two storages, one operation at a time -----

  /** Closing a reader over memory does nothing, so its position is all there is to it. */
  datatype Memory = Memory(closed: bool, pos: nat, readers: seq<nat>)

  datatype Cursor = Cursor(pos: nat, open: bool)

  datatype Disk = Disk(closed: bool, pos: nat, readers: seq<Cursor>)

  function MemReply(data: seq<Byte>, s: Memory, op: Op): Reply {
    match op
    case Read(n) => if s.closed then StorageClosed else MemRead(data, s.pos, n)
    case Seek(offset, whence) => if s.closed then StorageClosed else MemSeek(|data|, s.pos, offset, whence)
    case Bytes => if s.closed then StorageClosed else Whole(data)
    case NewReader => if s.closed then StorageClosed else Opened
    case Close => Fine
    case ReaderRead(k, n) => if k < |s.readers| then MemRead(data, s.readers[k], n) else Fine
    case ReaderClose(k) => Fine
  }

  function MemStep(data: seq<Byte>, s: Memory, op: Op): Memory {
    var r := MemReply(data, s, op);
    match op
    case Read(_) => s.(pos := After(s.pos, r))
    case Seek(_, _) => s.(pos := After(s.pos, r))
    case Bytes => s
    case NewReader => if s.closed then s else s.(readers := s.readers + [0])
    case Close => s.(closed := true)
    case ReaderRead(k, n) => if k < |s.readers| then s.(readers := s.readers[k := After(s.readers[k], r)]) else s
    case ReaderClose(k) => s
  }

  function DiskReply(data: seq<Byte>, limit: nat, s: Disk, op: Op): Reply {
    match op
    case Read(n) => if s.closed then StorageClosed else FileRead(data, s.pos, n)
    case Seek(offset, whence) => if s.closed then StorageClosed else FileSeek(|data|, limit, s.pos, offset, whence)
    case Bytes => if s.closed then StorageClosed else Whole(data)
    case NewReader => if s.closed then StorageClosed else Opened
    case Close => Fine
    case ReaderRead(k, n) =>
      if k >= |s.readers| then Fine
      else if s.readers[k].open then FileRead(data, s.readers[k].pos, n) else FileClosed
    case ReaderClose(k) => if k < |s.readers| && !s.readers[k].open then FileClosed else Fine
  }

  function DiskStep(data: seq<Byte>, limit: nat, s: Disk, op: Op): Disk {
    var r := DiskReply(data, limit, s, op);
    match op
    case Read(_) => s.(pos := After(s.pos, r))
    case Seek(_, _) => s.(pos := After(s.pos, r))
    case Bytes => s
    case NewReader => if s.closed then s else s.(readers := s.readers + [Cursor(0, true)])
    case Close => s.(closed := true)
    case ReaderRead(k, n) =>
      if k < |s.readers| then s.(readers := s.readers[k := s.readers[k].(pos := After(s.readers[k].pos, r))]) else s
    case ReaderClose(k) => if k < |s.readers| then s.(readers := s.readers[k := s.readers[k].(open := false)]) else s
  }

  function MemReplies(data: seq<Byte>, s: Memory, ops: seq<Op>): (r: seq<Reply>)
    ensures |r| == |ops|
    decreases |ops|
  {
    if ops == [] then [] else [MemReply(data, s, ops[0])] + MemReplies(data, MemStep(data, s, ops[0]), ops[1..])
  }

  function DiskReplies(data: seq<Byte>, limit: nat, s: Disk, ops: seq<Op>): (r: seq<Reply>)
    ensures |r| == |ops|
    decreases |ops|
  {
    if ops == [] then []
    else [DiskReply(data, limit, s, ops[0])] + DiskReplies(data, limit, DiskStep(data, limit, s, ops[0]), ops[1..])
  }

  // ----- what gives the kind of storage away -----

  /** An empty buffer at the end of the payload, or more than one file read delivers. */
  predicate TellingRead(data: seq<Byte>, pos: nat, n: nat) {
    (n == 0 && pos >= |data|) || (n > MAX_READ && |data| - pos > MAX_READ)
  }

  /** The operations to which an open file and memory reply differently. */
  predicate Telling(data: seq<Byte>, limit: nat, s: Disk, op: Op) {
    match op
    case Read(n) => !s.closed && TellingRead(data, s.pos, n)
    case Seek(offset, whence) => !s.closed && Target(|data|, s.pos, offset, whence) > limit
    case ReaderRead(k, n) => k < |s.readers| && (!s.readers[k].open || TellingRead(data, s.readers[k].pos, n))
    case ReaderClose(k) => k < |s.readers| && !s.readers[k].open
    case _ => false
  }

  predicate SomeTelling(data: seq<Byte>, limit: nat, s: Disk, ops: seq<Op>)
    decreases |ops|
  {
    ops != []
    && (Telling(data, limit, s, ops[0]) || SomeTelling(data, limit, DiskStep(data, limit, s, ops[0]), ops[1..]))
  }

  ghost predicate Twins(m: Memory, d: Disk) {
    && m.closed == d.closed && m.pos == d.pos && |m.readers| == |d.readers|
    && forall k :: 0 <= k < |m.readers| ==> m.readers[k] == d.readers[k].pos
  }

  lemma ReadsAgreeIff(data: seq<Byte>, pos: nat, n: nat)
    ensures MemRead(data, pos, n) == FileRead(data, pos, n) <==> !TellingRead(data, pos, n)
  {
    if pos < |data| && n > 0 {
      var mem, file := MemRead(data, pos, n).bytes, FileRead(data, pos, n).bytes;
      assert |mem| == Min(n, |data| - pos) && |file| == Min(Min(n, MAX_READ), |data| - pos);
    }
  }

  lemma StepAgreesIff(data: seq<Byte>, limit: nat, m: Memory, d: Disk, op: Op)
    requires Twins(m, d)
    ensures MemReply(data, m, op) == DiskReply(data, limit, d, op) <==> !Telling(data, limit, d, op)
    ensures !Telling(data, limit, d, op) ==> Twins(MemStep(data, m, op), DiskStep(data, limit, d, op))
  {
    match op
    case Read(n) => ReadsAgreeIff(data, m.pos, n);
    case ReaderRead(k, n) => if k < |m.readers| { ReadsAgreeIff(data, m.readers[k], n); }
    case _ =>
  }

  /** Whatever is done to them, the two storages reply alike exactly until something telling is done. */
  lemma {:induction false} RepliesAgreeIff(data: seq<Byte>, limit: nat, m: Memory, d: Disk, ops: seq<Op>)
    requires Twins(m, d)
    ensures MemReplies(data, m, ops) == DiskReplies(data, limit, d, ops) <==> !SomeTelling(data, limit, d, ops)
    decreases |ops|
  {
    if ops != [] {
      var mem, disk := MemReplies(data, m, ops), DiskReplies(data, limit, d, ops);
      StepAgreesIff(data, limit, m, d, ops[0]);
      if Telling(data, limit, d, ops[0]) {
        assert mem[0] != disk[0];
      } else {
        RepliesAgreeIff(data, limit, MemStep(data, m, ops[0]), DiskStep(data, limit, d, ops[0]), ops[1..]);
        assert mem[0] == disk[0];
        assert mem[1..] == MemReplies(data, MemStep(data, m, ops[0]), ops[1..]);
        assert disk[1..] == DiskReplies(data, limit, DiskStep(data, limit, d, ops[0]), ops[1..]);
        if mem[1..] == disk[1..] {
          assert mem == [mem[0]] + mem[1..] && disk == [disk[0]] + disk[1..];
        }
      }
    }
  }

  // ----- a replayed body is the payload -----

  /** The bytes that a reader delivers from a position on, read by read. */
  function Drained(data: seq<Byte>, pos: nat, sizes: seq<nat>): seq<Byte>
    decreases |sizes|
  {
    if sizes == [] then []
    else
      var r := FileRead(data, pos, sizes[0]);
      Delivered(r) + Drained(data, After(pos, r), sizes[1..])
  }

  /** Reading with any buffers delivers a prefix of what is left. */
  lemma {:induction false} DrainedIsPrefix(data: seq<Byte>, pos: nat, sizes: seq<nat>)
    requires pos <= |data|
    ensures Drained(data, pos, sizes) <= data[pos..]
    decreases |sizes|
  {
    if sizes != [] {
      var r := FileRead(data, pos, sizes[0]);
      var to := After(pos, r);
      var rest := Drained(data, to, sizes[1..]);
      DrainedIsPrefix(data, to, sizes[1..]);
      assert Drained(data, pos, sizes) == data[pos..to] + rest;
      assert data[pos..] == data[pos..to] + data[to..];
    }
  }

  lemma {:induction false} DrainedLength(data: seq<Byte>, pos: nat, sizes: seq<nat>)
    requires pos <= |data| && |sizes| >= |data| - pos && forall i :: 0 <= i < |sizes| ==> sizes[i] > 0
    ensures |Drained(data, pos, sizes)| >= |data| - pos
    decreases |sizes|
  {
    if sizes != [] {
      var r := FileRead(data, pos, sizes[0]);
      DrainedLength(data, After(pos, r), sizes[1..]);
    }
  }

  /** A new reader delivers the payload, whatever the sizes of the buffers it is read with. */
  lemma ReplayIsPayload(data: seq<Byte>, sizes: seq<nat>)
    requires |sizes| >= |data| && forall i :: 0 <= i < |sizes| ==> sizes[i] > 0
    ensures Drained(data, 0, sizes) == data
  {
    DrainedIsPrefix(data, 0, sizes);
    DrainedLength(data, 0, sizes);
  }

  // ----- the objects -----

  class BytesReader {
    const data: seq<Byte>
    var pos: nat

    constructor (data: seq<Byte>)
      ensures this.data == data && pos == 0
    {
      this.data, pos := data, 0;
    }

    method Read(n: nat) returns (r: Reply)
      modifies this
      ensures r == MemRead(data, old(pos), n) && pos == After(old(pos), r)
    {
      if pos >= |data| {
        return AtEnd;
      }
      var to := Min(pos + n, |data|);
      r := Got(data[pos..to]);
      pos := to;
    }

    method Seek(offset: Int64, whence: Whence) returns (r: Reply)
      modifies this
      ensures r == MemSeek(|data|, old(pos), offset, whence) && pos == After(old(pos), r)
    {
      var base := match whence case FromStart => 0 case FromCurrent => pos case FromEnd => |data|;
      var to := Wrap(base + offset);
      if to < 0 {
        return BadSeek;
      }
      pos := to;
      r := Moved(to);
    }
  }

  class File {
    const contents: seq<Byte>
    const limit: nat
    var pos: nat
    var open: bool

    constructor (contents: seq<Byte>, limit: nat)
      ensures this.contents == contents && this.limit == limit && pos == 0 && open
    {
      this.contents, this.limit, pos, open := contents, limit, 0, true;
    }

    method Read(n: nat) returns (r: Reply)
      modifies this
      ensures r == (if open then FileRead(contents, old(pos), n) else FileClosed)
      ensures pos == After(old(pos), r) && open == old(open)
    {
      if !open {
        return FileClosed;
      }
      if n > 0 && pos >= |contents| {
        return AtEnd;
      }
      var to := if n == 0 then pos else Min(pos + Min(n, MAX_READ), |contents|);
      r := Got(if n == 0 then [] else contents[pos..to]);
      pos := to;
    }

    method Seek(offset: Int64, whence: Whence) returns (r: Reply)
      modifies this
      ensures r == (if open then FileSeek(|contents|, limit, old(pos), offset, whence) else FileClosed)
      ensures pos == After(old(pos), r) && open == old(open)
    {
      if !open {
        return FileClosed;
      }
      var base := match whence case FromStart => 0 case FromCurrent => pos case FromEnd => |contents|;
      var to := Wrap(base + offset);
      if to < 0 || to > limit {
        return BadSeek;
      }
      pos := to;
      r := Moved(to);
    }

    method Close() returns (r: Reply)
      modifies this
      ensures r == (if old(open) then Fine else FileClosed) && !open && pos == old(pos)
    {
      r := if open then Fine else FileClosed;
      open := false;
    }

    /** Reads until the buffer is full or the file ends. */
    method ReadFull(n: nat) returns (bytes: seq<Byte>)
      requires open && pos + n <= |contents|
      modifies this
      ensures open && bytes == contents[old(pos)..old(pos) + n]
    {
      bytes := [];
      while |bytes| < n
        invariant open && |bytes| <= n && pos == old(pos) + |bytes|
        invariant bytes == contents[old(pos)..pos]
      {
        var r := Read(n - |bytes|);
        assert r.Got? && |r.bytes| > 0;
        bytes := bytes + r.bytes;
      }
    }
  }

  /** The usage counters; only those of files are clamped at zero. */
  class CacheStats {
    var diskFiles: int
    var diskBytes: int
    var memoryBuffers: int
    var memoryBytes: int

    constructor ()
      ensures diskFiles == diskBytes == memoryBuffers == memoryBytes == 0
    {
      diskFiles, diskBytes, memoryBuffers, memoryBytes := 0, 0, 0, 0;
    }

    method IncrementDiskFiles(size: nat)
      modifies this`diskFiles, this`diskBytes
      ensures diskFiles == old(diskFiles) + 1 && diskBytes == old(diskBytes) + size
    {
      diskFiles := diskFiles + 1;
      diskBytes := diskBytes + size;
    }

    method DecrementDiskFiles(size: nat)
      modifies this`diskFiles, this`diskBytes
      ensures diskFiles == (if old(diskFiles) < 1 then 0 else old(diskFiles) - 1)
      ensures diskBytes == (if old(diskBytes) < size then 0 else old(diskBytes) - size)
    {
      diskFiles := diskFiles - 1;
      if diskFiles < 0 {
        diskFiles := 0;
      }
      diskBytes := diskBytes - size;
      if diskBytes < 0 {
        diskBytes := 0;
      }
    }

    method IncrementMemoryBuffers(size: nat)
      modifies this`memoryBuffers, this`memoryBytes
      ensures memoryBuffers == old(memoryBuffers) + 1 && memoryBytes == old(memoryBytes) + size
    {
      memoryBuffers := memoryBuffers + 1;
      memoryBytes := memoryBytes + size;
    }

    method DecrementMemoryBuffers(size: nat)
      modifies this`memoryBuffers, this`memoryBytes
      ensures memoryBuffers == old(memoryBuffers) - 1 && memoryBytes == old(memoryBytes) - size
    {
      memoryBuffers := memoryBuffers - 1;
      memoryBytes := memoryBytes - size;
    }
  }

  class MemoryStorage {
    const data: seq<Byte>
    const reader: BytesReader
    const stats: CacheStats
    var closed: bool

    ghost predicate Valid()
      reads this, reader
    {
      reader.data == data
    }

    function Now(): Memory
      reads this, reader
    {
      Memory(closed, reader.pos, [])
    }

    constructor (data: seq<Byte>, stats: CacheStats)
      modifies stats
      ensures Valid() && fresh(reader) && this.data == data && this.stats == stats && Now() == Memory(false, 0, [])
      ensures stats.memoryBuffers == old(stats.memoryBuffers) + 1
      ensures stats.memoryBytes == old(stats.memoryBytes) + |data|
      ensures stats.diskFiles == old(stats.diskFiles) && stats.diskBytes == old(stats.diskBytes)
    {
      this.data, this.stats, closed := data, stats, false;
      reader := new BytesReader(data);
      new;
      stats.IncrementMemoryBuffers(|data|);
    }

    method Read(n: nat) returns (r: Reply)
      requires Valid()
      modifies reader
      ensures Valid() && r == MemReply(data, old(Now()), Op.Read(n)) && Now() == MemStep(data, old(Now()), Op.Read(n))
    {
      if closed {
        return StorageClosed;
      }
      r := reader.Read(n);
    }

    method Seek(offset: Int64, whence: Whence) returns (r: Reply)
      requires Valid()
      modifies reader
      ensures Valid() && r == MemReply(data, old(Now()), Op.Seek(offset, whence))
      ensures Now() == MemStep(data, old(Now()), Op.Seek(offset, whence))
    {
      if closed {
        return StorageClosed;
      }
      r := reader.Seek(offset, whence);
    }

    method Close() returns (r: Reply)
      requires Valid()
      modifies this`closed, stats
      ensures Valid() && r == Fine && Now() == MemStep(data, old(Now()), Op.Close)
      ensures stats.memoryBuffers == old(stats.memoryBuffers) - (if old(closed) then 0 else 1)
      ensures stats.memoryBytes == old(stats.memoryBytes) - (if old(closed) then 0 else |data|)
      ensures stats.diskFiles == old(stats.diskFiles) && stats.diskBytes == old(stats.diskBytes)
    {
      if !closed {
        closed := true;
        stats.DecrementMemoryBuffers(|data|);
      }
      r := Fine;
    }

    method Bytes() returns (r: Reply)
      requires Valid()
      ensures r == MemReply(data, Now(), Op.Bytes)
    {
      r := if closed then StorageClosed else Whole(data);
    }

    method NewReader() returns (r: Reply, replay: BytesReader?)
      requires Valid()
      ensures r == MemReply(data, Now(), Op.NewReader) && (replay != null <==> r == Opened)
      ensures replay != null ==> fresh(replay) && replay.data == data && replay.pos == 0
    {
      if closed {
        return StorageClosed, null;
      }
      replay := new BytesReader(data);
      r := Opened;
    }
  }

  class DiskStorage {
    const file: File
    const stats: CacheStats
    var closed: bool

    /** The storage owns its file, which is open while the storage is. */
    ghost predicate Valid()
      reads this, file
    {
      file.open == !closed && |file.contents| <= file.limit <= MAX_INT64 && file.pos <= file.limit
    }

    function Now(): Disk
      reads this, file
    {
      Disk(closed, file.pos, [])
    }

    constructor (data: seq<Byte>, limit: nat, stats: CacheStats)
      requires |data| <= limit <= MAX_INT64
      modifies stats
      ensures Valid() && fresh(file) && file.contents == data && file.limit == limit && this.stats == stats
      ensures Now() == Disk(false, 0, [])
      ensures stats.diskFiles == old(stats.diskFiles) + 1 && stats.diskBytes == old(stats.diskBytes) + |data|
      ensures stats.memoryBuffers == old(stats.memoryBuffers) && stats.memoryBytes == old(stats.memoryBytes)
    {
      file := new File(data, limit);
      this.stats, closed := stats, false;
      new;
      stats.IncrementDiskFiles(|data|);
    }

    method Read(n: nat) returns (r: Reply)
      requires Valid()
      modifies file
      ensures Valid() && r == DiskReply(file.contents, file.limit, old(Now()), Op.Read(n))
      ensures Now() == DiskStep(file.contents, file.limit, old(Now()), Op.Read(n))
    {
      if closed {
        return StorageClosed;
      }
      r := file.Read(n);
    }

    method Seek(offset: Int64, whence: Whence) returns (r: Reply)
      requires Valid()
      modifies file
      ensures Valid() && r == DiskReply(file.contents, file.limit, old(Now()), Op.Seek(offset, whence))
      ensures Now() == DiskStep(file.contents, file.limit, old(Now()), Op.Seek(offset, whence))
    {
      if closed {
        return StorageClosed;
      }
      r := file.Seek(offset, whence);
    }

    method Close() returns (r: Reply)
      requires Valid()
      modifies this`closed, file, stats
      ensures Valid() && r == Fine && Now() == DiskStep(file.contents, file.limit, old(Now()), Op.Close)
      ensures old(closed) ==> stats.diskFiles == old(stats.diskFiles) && stats.diskBytes == old(stats.diskBytes)
      ensures !old(closed) && old(stats.diskFiles) >= 1 ==> stats.diskFiles == old(stats.diskFiles) - 1
      ensures !old(closed) && old(stats.diskBytes) >= |file.contents| ==>
              stats.diskBytes == old(stats.diskBytes) - |file.contents|
      ensures stats.memoryBuffers == old(stats.memoryBuffers) && stats.memoryBytes == old(stats.memoryBytes)
    {
      if !closed {
        closed := true;
        var _ := file.Close();
        stats.DecrementDiskFiles(|file.contents|);
      }
      r := Fine;
    }

    /** Remembers the cursor, reads the whole file from its start, and puts the cursor back. */
    method Bytes() returns (r: Reply)
      requires Valid()
      modifies file
      ensures Valid() && r == DiskReply(file.contents, file.limit, old(Now()), Op.Bytes) && Now() == old(Now())
    {
      if closed {
        return StorageClosed;
      }
      var current := file.Seek(0, FromCurrent);
      if current.BadSeek? {
        return current;
      }
      var start := file.Seek(0, FromStart);
      if start.BadSeek? {
        return start;
      }
      var bytes := file.ReadFull(|file.contents|);
      var restored := file.Seek(current.pos, FromStart);
      if restored.BadSeek? {
        return restored;
      }
      r := Whole(bytes);
    }

    /** A second file over the same payload, with a cursor of its own. */
    method NewReader() returns (r: Reply, replay: File?)
      requires Valid()
      ensures r == DiskReply(file.contents, file.limit, Now(), Op.NewReader) && (replay != null <==> r == Opened)
      ensures replay != null ==> fresh(replay) && replay.contents == file.contents && replay.pos == 0 && replay.open
    {
      if closed {
        return StorageClosed, null;
      }
      replay := new File(file.contents, file.limit);
      r := Opened;
    }
  }

  // ----- choosing a storage -----

  datatype Created = InMemory | OnDisk | TooLarge | DiskFailed

  /** The disk cache as a request finds it; `writable` says whether a cache file can be created and written. */
  datatype Setup = Setup(enabled: bool, threshold: int, available: int -> bool, writable: bool, limit: nat)

  predicate WantsDisk(setup: Setup, size: int) {
    setup.enabled && size >= setup.threshold && setup.available(size)
  }

  /** What a reader limited to one byte more than the maximum delivers. */
  function Taken(stream: seq<Byte>, maxBytes: Int64): seq<Byte> {
    var most := Wrap(maxBytes + 1);
    if most <= 0 then [] else stream[..Min(most, |stream|)]
  }

  /** A body within the maximum is kept whole, except that the largest 64-bit maximum keeps nothing. */
  lemma KeptWholeIff(stream: seq<Byte>, maxBytes: Int64)
    ensures |Taken(stream, maxBytes)| <= maxBytes && Taken(stream, maxBytes) == stream <==>
              |stream| <= maxBytes && (maxBytes < MAX_INT64 || stream == [])
  {
    if maxBytes == MAX_INT64 {
      assert Wrap(maxBytes + 1) < 0;
    } else if 0 < maxBytes + 1 <= |stream| {
      assert |Taken(stream, maxBytes)| == maxBytes + 1;
    }
  }

  method CreateBodyStorage(setup: Setup, data: seq<Byte>, stats: CacheStats)
    returns (kind: Created, memory: MemoryStorage?, disk: DiskStorage?)
    requires |data| <= setup.limit <= MAX_INT64
    modifies stats
    ensures kind == OnDisk <==>
            setup.enabled && |data| >= setup.threshold && setup.available(|data|) && setup.writable
    ensures kind == InMemory <==> kind != OnDisk
    ensures memory != null <==> kind == InMemory
    ensures disk != null <==> kind == OnDisk
    ensures memory != null ==>
            fresh(memory) && memory.Valid() && memory.data == data && memory.Now() == Memory(false, 0, [])
    ensures disk != null ==>
            fresh(disk) && disk.Valid() && disk.file.contents == data && disk.Now() == Disk(false, 0, [])
    ensures stats.memoryBuffers == old(stats.memoryBuffers) + (if kind == InMemory then 1 else 0)
    ensures stats.memoryBytes == old(stats.memoryBytes) + (if kind == InMemory then |data| else 0)
    ensures stats.diskFiles == old(stats.diskFiles) + (if kind == OnDisk then 1 else 0)
    ensures stats.diskBytes == old(stats.diskBytes) + (if kind == OnDisk then |data| else 0)
  {
    memory, disk := null, null;
    if WantsDisk(setup, |data|) && setup.writable {
      disk := new DiskStorage(data, setup.limit, stats);
      return OnDisk, memory, disk;
    }
    memory := new MemoryStorage(data, stats);
    kind := InMemory;
  }

  /** A stream announced as large goes to disk directly; either way its size is what decides, not the announcement. */
  method CreateFromReader(setup: Setup, stream: seq<Byte>, announced: int, maxBytes: Int64, stats: CacheStats)
    returns (kind: Created, memory: MemoryStorage?, disk: DiskStorage?)
    requires |stream| <= setup.limit <= MAX_INT64
    modifies stats
    ensures var direct := announced > 0 && setup.enabled && announced >= setup.threshold && setup.available(announced);
            var kept := |Taken(stream, maxBytes)|;
            && (kind == TooLarge <==> |stream| > maxBytes && (setup.writable || !direct))
            && (kind == DiskFailed <==> direct && !setup.writable)
            && (kind == OnDisk <==>
                  && setup.writable && |stream| <= maxBytes
                  && (direct || (setup.enabled && kept >= setup.threshold && setup.available(kept))))
    ensures memory != null <==> kind == InMemory
    ensures disk != null <==> kind == OnDisk
    ensures memory != null ==>
            memory.Valid() && memory.data == Taken(stream, maxBytes) && memory.Now() == Memory(false, 0, [])
    ensures disk != null ==>
            disk.Valid() && disk.file.contents == Taken(stream, maxBytes) && disk.Now() == Disk(false, 0, [])
    ensures stats.memoryBuffers == old(stats.memoryBuffers) + (if kind == InMemory then 1 else 0)
    ensures stats.memoryBytes == old(stats.memoryBytes) + (if kind == InMemory then |Taken(stream, maxBytes)| else 0)
    ensures stats.diskFiles == old(stats.diskFiles) + (if kind == OnDisk then 1 else 0)
    ensures stats.diskBytes == old(stats.diskBytes) + (if kind == OnDisk then |Taken(stream, maxBytes)| else 0)
  {
    memory, disk := null, null;
    var data := Taken(stream, maxBytes);
    TooLargeIff(stream, maxBytes);
    if announced > 0 && WantsDisk(setup, announced) {
      if !setup.writable {
        return DiskFailed, memory, disk;
      }
      if |data| > maxBytes {
        return TooLarge, memory, disk;
      }
      disk := new DiskStorage(data, setup.limit, stats);
      return OnDisk, memory, disk;
    }
    if |data| > maxBytes {
      return TooLarge, memory, disk;
    }
    kind, memory, disk := CreateBodyStorage(setup, data, stats);
  }

  lemma TooLargeIff(stream: seq<Byte>, maxBytes: Int64)
    requires |stream| <= MAX_INT64
    ensures |Taken(stream, maxBytes)| > maxBytes <==> |stream| > maxBytes
    ensures |Taken(stream, maxBytes)| <= |stream|
  {
    if maxBytes == MAX_INT64 {
      assert Wrap(maxBytes + 1) < 0;
    }
  }
}
