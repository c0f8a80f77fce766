/**
 * The two request-body storages and their creation (common/body_storage.go, 42-348), as objects that share the
 * counters and the directory of one disk cache.
 */
module BodyStorage {
  import opened Common
  import opened DiskCacheConfig
  import opened BodySessions

  // ---------------------------------------------------------------------------------------------
  // Readers with a cursor
  // ---------------------------------------------------------------------------------------------

  /** bytes.Reader */
  class BytesReader {
    const data: Bytes
    var i: nat

    constructor (data: Bytes)
      ensures this.data == data && i == 0
    {
      this.data := data;
      i := 0;
    }

    method Read(n: nat) returns (bytes: Bytes, error: Option<Error>)
      modifies this
      ensures (bytes, error) == RawRead(false, data, old(i), n)
      ensures i == old(i) + |bytes|
    {
      if i >= |data| {
        return [], Some(Eof);
      }
      bytes, error := data[i..Min(i + n, |data|)], None;
      i := i + |bytes|;
    }

    method Seek(offset: int, whence: Whence) returns (r: Result<nat, Error>)
      modifies this
      ensures Target(data, old(i), offset, whence) == if r.Ok? then Some(r.value) else None
      ensures r.Ok? ==> i == r.value
      ensures r.Err? ==> i == old(i) && r.error == BadPosition
    {
      var target := Target(data, i, offset, whence);
      if target.None? {
        return Err(BadPosition);
      }
      i := target.value;
      r := Ok(i);
    }
  }

  /** os.File opened on a complete cache file. It keeps the file's content when the file is unlinked. */
  class File {
    const content: Bytes
    var pos: nat
    var open: bool

    constructor (content: Bytes)
      ensures this.content == content && pos == 0 && open
    {
      this.content := content;
      pos, open := 0, true;
    }

    method Read(n: nat) returns (bytes: Bytes, error: Option<Error>)
      modifies this
      ensures open == old(open)
      ensures (bytes, error) == if open then RawRead(true, content, old(pos), n) else ([], Some(ReaderClosed))
      ensures pos == old(pos) + |bytes|
    {
      if !open {
        return [], Some(ReaderClosed);
      }
      if n == 0 {
        return [], None;
      }
      if pos >= |content| {
        return [], Some(Eof);
      }
      bytes, error := content[pos..Min(pos + n, |content|)], None;
      pos := pos + |bytes|;
    }

    method Seek(offset: int, whence: Whence) returns (r: Result<nat, Error>)
      requires open
      modifies this`pos
      ensures Target(content, old(pos), offset, whence) == if r.Ok? then Some(r.value) else None
      ensures r.Ok? ==> pos == r.value
      ensures r.Err? ==> pos == old(pos) && r.error == BadPosition
    {
      var target := Target(content, pos, offset, whence);
      if target.None? {
        return Err(BadPosition);
      }
      pos := target.value;
      r := Ok(pos);
    }

    method Close() returns (error: Option<Error>)
      modifies this`open
      ensures !open && error == if old(open) then None else Some(ReaderClosed)
    {
      error := if open then None else Some(ReaderClosed);
      open := false;
    }
  }

  /** What a Read call of a storage reports. */
  function ReadOut(bytes: Bytes, error: Option<Error>): Out {
    if error == Some(StorageClosed) then Failed(StorageClosed) else Delivered(bytes, error)
  }

  function SeekOut(r: Result<nat, Error>): Out {
    match r case Ok(p) => Position(p) case Err(e) => Failed(e)
  }

  function BytesOut(r: Result<Bytes, Error>): Out {
    match r case Ok(bytes) => Whole(bytes) case Err(e) => Failed(e)
  }

  // ---------------------------------------------------------------------------------------------
  // Memory
  // ---------------------------------------------------------------------------------------------

  class MemoryStorage {
    const cache: DiskCache
    const data: Bytes
    const size: nat
    const reader: BytesReader
    var closed: bool

    ghost predicate Valid()
      reads this
    {
      reader.data == data && size == |data|
    }

    ghost function State(): Session
      reads this, reader
    {
      Session(data, reader.i, closed, [])
    }

    /** newMemoryStorage */
    constructor (cache: DiskCache, data: Bytes)
      modifies cache`counters
      ensures Valid() && fresh(reader) && this.cache == cache && State() == Opened(data)
      ensures cache.counters == AddMemory(old(cache.counters), |data|)
    {
      this.cache, this.data, this.size := cache, data, |data|;
      reader := new BytesReader(data);
      closed := false;
      new;
      cache.IncrementMemoryBuffers(size);
    }

    method Read(n: nat) returns (bytes: Bytes, error: Option<Error>)
      requires Valid()
      modifies reader
      ensures Step(false, old(State()), Op.Read(n)) == (State(), ReadOut(bytes, error))
    {
      if closed {
        return [], Some(StorageClosed);
      }
      bytes, error := reader.Read(n);
    }

    method Seek(offset: int, whence: Whence) returns (r: Result<nat, Error>)
      requires Valid()
      modifies reader
      ensures Step(false, old(State()), Op.Seek(offset, whence)) == (State(), SeekOut(r))
    {
      if closed {
        return Err(StorageClosed);
      }
      r := reader.Seek(offset, whence);
    }

    method GetBytes() returns (r: Result<Bytes, Error>)
      requires Valid()
      ensures Step(false, State(), Op.GetBytes) == (State(), BytesOut(r))
    {
      r := if closed then Err(StorageClosed) else Ok(data);
    }

    method NewReader() returns (r: Result<BytesReader, Error>)
      requires Valid()
      ensures Step(false, State(), Op.NewReader).1 == if r.Ok? then GotReader else Failed(r.error)
      ensures r.Ok? ==> fresh(r.value) && r.value.data == data && r.value.i == 0
    {
      if closed {
        return Err(StorageClosed);
      }
      var reader := new BytesReader(data);
      r := Ok(reader);
    }

    method Size() returns (n: nat)
      requires Valid()
      ensures Step(false, State(), Op.Size) == (State(), Length(n))
    {
      n := size;
    }

    method Close()
      requires Valid()
      modifies this`closed, cache`counters
      ensures Step(false, old(State()), Op.Close) == (State(), Done)
      ensures cache.counters == if old(closed) then old(cache.counters) else DropMemory(old(cache.counters), size)
    {
      if !closed {
        closed := true;
        cache.DecrementMemoryBuffers(size);
      }
    }
  }

  // ---------------------------------------------------------------------------------------------
  // Disk
  // ---------------------------------------------------------------------------------------------

  class DiskStorage {
    const cache: DiskCache
    const path: nat
    const size: nat
    const file: File
    var closed: bool

    ghost predicate Valid()
      reads this, file
    {
      size == |file.content| <= MAX_INT64 && file.pos <= MAX_INT64 && (!closed ==> file.open)
    }

    ghost function State(): Session
      reads this, file
    {
      Session(file.content, file.pos, closed, [])
    }

    /** The object both ways of creating a disk storage end with. */
    constructor (cache: DiskCache, path: nat, file: File)
      requires file.open && file.pos == 0 && |file.content| <= MAX_INT64
      ensures Valid() && this.cache == cache && this.path == path && this.file == file
      ensures State() == Opened(file.content)
    {
      this.cache, this.path, this.size, this.file := cache, path, |file.content|, file;
      closed := false;
    }

    method Read(n: nat) returns (bytes: Bytes, error: Option<Error>)
      requires Valid()
      modifies file
      ensures Valid() && Step(true, old(State()), Op.Read(n)) == (State(), ReadOut(bytes, error))
    {
      if closed {
        return [], Some(StorageClosed);
      }
      bytes, error := file.Read(n);
    }

    method Seek(offset: int, whence: Whence) returns (r: Result<nat, Error>)
      requires Valid()
      modifies file
      ensures Valid() && Step(true, old(State()), Op.Seek(offset, whence)) == (State(), SeekOut(r))
    {
      if closed {
        return Err(StorageClosed);
      }
      r := file.Seek(offset, whence);
    }

    /** Remembers the cursor, reads the file from its start until the buffer is full, and puts the cursor back. */
    method GetBytes() returns (r: Result<Bytes, Error>)
      requires Valid()
      modifies file
      ensures Valid() && Step(true, old(State()), Op.GetBytes) == (State(), BytesOut(r))
    {
      if closed {
        return Err(StorageClosed);
      }
      var current := file.Seek(0, Current);
      if current.Err? {
        return Err(current.error);
      }
      var start := file.Seek(0, Start);
      if start.Err? {
        return Err(BadPosition);
      }
      var data: Bytes := [];
      while |data| < size
        invariant Valid() && !closed
        invariant |data| <= size && file.pos == |data| && data == file.content[..|data|]
        decreases size - |data|
      {
        var bytes, error := file.Read(size - |data|);
        data := data + bytes;
        if error.Some? && |data| < size {
          return Err(Eof);
        }
      }
      assert data == file.content;
      var back := file.Seek(current.value, Start);
      if back.Err? {
        return Err(back.error);
      }
      r := Ok(data);
    }

    /** A second descriptor on the cache file, found by its path. */
    method NewReader() returns (r: Result<File, Error>)
      requires Valid()
      ensures closed ==> r == Err(StorageClosed)
      ensures !closed && path !in cache.files ==> r == Err(FileMissing)
      ensures !closed && path in cache.files ==> r.Ok?
      ensures r.Ok? ==> fresh(r.value) && r.value.content == cache.files[path] && r.value.pos == 0 && r.value.open
    {
      if closed {
        return Err(StorageClosed);
      }
      if path !in cache.files {
        return Err(FileMissing);
      }
      var file := new File(cache.files[path]);
      r := Ok(file);
    }

    method Size() returns (n: nat)
      requires Valid()
      ensures Step(true, State(), Op.Size) == (State(), Length(n))
    {
      n := size;
    }

    method Close()
      requires Valid()
      modifies this`closed, file`open, cache`counters, cache`files
      ensures Valid() && Step(true, old(State()), Op.Close) == (State(), Done)
      ensures cache.counters == if old(closed) then old(cache.counters) else DropDisk(old(cache.counters), size)
      ensures cache.files == if old(closed) then old(cache.files) else old(cache.files) - {path}
    {
      if !closed {
        closed := true;
        var _ := file.Close();
        cache.files := cache.files - {path};
        cache.DecrementDiskFiles(size);
      }
    }
  }

  datatype Storage = Memory(m: MemoryStorage) | Disk(d: DiskStorage)

  // ---------------------------------------------------------------------------------------------
  // A caller with one storage and the readers it opened
  // ---------------------------------------------------------------------------------------------

  ghost predicate MemoryAt(m: MemoryStorage, readers: seq<BytesReader>, s: Session)
    reads m, m.reader, readers
  {
    && m.Valid() && m.State() == s.(readers := []) && m.reader !in readers && |readers| == |s.readers|
    && (forall k | 0 <= k < |readers| :: readers[k].data == s.data && s.readers[k] == Handle(readers[k].i, true))
    && (forall j, k | 0 <= j < k < |readers| :: readers[j] != readers[k])
  }

  /** One call on a memory storage or on one of its readers. */
  method CallMemory(m: MemoryStorage, readers: seq<BytesReader>, op: Op, ghost s: Session)
    returns (now: seq<BytesReader>, out: Out)
    requires MemoryAt(m, readers, s)
    modifies m`closed, m.reader, m.cache`counters, readers
    ensures MemoryAt(m, now, Step(false, s, op).0) && out == Step(false, s, op).1
    ensures readers <= now && fresh(now[|readers|..])
  {
    now := readers;
    if !op.NewReader? && !op.ReaderRead? && !op.ReaderClose? {
      StorageIgnoresReaders(false, s, op);
    }
    match op
    case Read(n) =>
      var bytes, error := m.Read(n);
      out := ReadOut(bytes, error);
    case Seek(offset, whence) =>
      var r := m.Seek(offset, whence);
      out := SeekOut(r);
    case GetBytes =>
      var r := m.GetBytes();
      out := BytesOut(r);
    case NewReader =>
      var r := m.NewReader();
      if r.Err? {
        return now, Failed(r.error);
      }
      now, out := readers + [r.value], GotReader;
    case Size =>
      var n := m.Size();
      out := Length(n);
    case Close =>
      m.Close();
      out := Done;
    case ReaderRead(k, n) =>
      if k >= |readers| {
        return now, NoReader;
      }
      var bytes, error := readers[k].Read(n);
      out := Delivered(bytes, error);
    case ReaderClose(k) =>
      out := if k < |readers| then Done else NoReader;
  }

  /** Any sequence of calls on a memory storage and its readers gives the outputs of the session. */
  method DriveMemory(m: MemoryStorage, ops: seq<Op>) returns (outs: seq<Out>)
    requires m.Valid()
    modifies m`closed, m.reader, m.cache`counters
    ensures m.Valid() && m.State() == Run(false, old(m.State()), ops).(readers := [])
    ensures outs == Outs(false, old(m.State()), ops)
  {
    hide Step;
    var readers: seq<BytesReader> := [];
    ghost var start := m.State();
    ghost var s := start;
    outs := [];
    for k := 0 to |ops|
      invariant MemoryAt(m, readers, s) && fresh(readers)
      invariant s == Run(false, start, ops[..k]) && outs == Outs(false, start, ops[..k])
    {
      OneMoreOp(false, start, ops[..k], ops[k]);
      assert ops[..k + 1] == ops[..k] + [ops[k]];
      ghost var before := readers;
      var out: Out;
      readers, out := CallMemory(m, readers, ops[k], s);
      assert readers == before + readers[|before|..];
      s := Step(false, s, ops[k]).0;
      outs := outs + [out];
    }
    assert ops[..|ops|] == ops;
  }

  /** The cache file of an open storage is in its place. */
  ghost predicate DiskAt(d: DiskStorage, readers: seq<File>, s: Session)
    reads d, d.file, d.cache, readers
  {
    && d.Valid() && d.State() == s.(readers := []) && d.file !in readers && |readers| == |s.readers|
    && (!d.closed ==> d.path in d.cache.files && d.cache.files[d.path] == s.data)
    && (forall k | 0 <= k < |readers| ::
          readers[k].content == s.data && s.readers[k] == Handle(readers[k].pos, readers[k].open))
    && (forall j, k | 0 <= j < k < |readers| :: readers[j] != readers[k])
  }

  /** One call on a disk storage or on one of its readers. */
  method CallDisk(d: DiskStorage, readers: seq<File>, op: Op, ghost s: Session) returns (now: seq<File>, out: Out)
    requires DiskAt(d, readers, s)
    modifies d`closed, d.file, d.cache`counters, d.cache`files, readers
    ensures DiskAt(d, now, Step(true, s, op).0) && out == Step(true, s, op).1
    ensures readers <= now && fresh(now[|readers|..])
  {
    now := readers;
    if !op.NewReader? && !op.ReaderRead? && !op.ReaderClose? {
      StorageIgnoresReaders(true, s, op);
    }
    match op
    case Read(n) =>
      var bytes, error := d.Read(n);
      out := ReadOut(bytes, error);
    case Seek(offset, whence) =>
      var r := d.Seek(offset, whence);
      out := SeekOut(r);
    case GetBytes =>
      var r := d.GetBytes();
      out := BytesOut(r);
    case NewReader =>
      var r := d.NewReader();
      if r.Err? {
        return now, Failed(r.error);
      }
      now, out := readers + [r.value], GotReader;
    case Size =>
      var n := d.Size();
      out := Length(n);
    case Close =>
      d.Close();
      out := Done;
    case ReaderRead(k, n) =>
      if k >= |readers| {
        return now, NoReader;
      }
      var bytes, error := readers[k].Read(n);
      out := if error == Some(ReaderClosed) then Failed(ReaderClosed) else Delivered(bytes, error);
    case ReaderClose(k) =>
      if k >= |readers| {
        return now, NoReader;
      }
      var error := readers[k].Close();
      out := if error.Some? then Failed(error.value) else Done;
  }

  /** Any sequence of calls on a disk storage and its readers gives the outputs of the session. */
  method DriveDisk(d: DiskStorage, ops: seq<Op>) returns (outs: seq<Out>)
    requires DiskAt(d, [], d.State())
    modifies d`closed, d.file, d.cache`counters, d.cache`files
    ensures d.Valid() && d.State() == Run(true, old(d.State()), ops).(readers := [])
    ensures outs == Outs(true, old(d.State()), ops)
  {
    hide Step;
    var readers: seq<File> := [];
    ghost var start := d.State();
    ghost var s := start;
    outs := [];
    for k := 0 to |ops|
      invariant DiskAt(d, readers, s) && fresh(readers)
      invariant s == Run(true, start, ops[..k]) && outs == Outs(true, start, ops[..k])
    {
      OneMoreOp(true, start, ops[..k], ops[k]);
      assert ops[..k + 1] == ops[..k] + [ops[k]];
      ghost var before := readers;
      var out: Out;
      readers, out := CallDisk(d, readers, ops[k], s);
      assert readers == before + readers[|before|..];
      s := Step(true, s, ops[k]).0;
      outs := outs + [out];
    }
    assert ops[..|ops|] == ops;
  }

  // ---------------------------------------------------------------------------------------------
  // Creation
  // ---------------------------------------------------------------------------------------------

  // Sizes and limits are int64 in the source, hence the bounds by MAX_INT64.

  /** Where the file system fails, if it does. */
  datatype Fault = NoFault | OnCreate | OnWrite

  predicate UsesDisk(config: Config, c: Counters, size: int) {
    config.enabled && size >= config.Threshold() && c.diskBytes + size <= config.MaxBytes()
  }

  function Created(config: Config, c: Counters, size: int, diskFails: bool): Counters {
    if UsesDisk(config, c, size) && !diskFails then AddDisk(c, size) else AddMemory(c, size)
  }

  /** int64 addition of one. */
  function AddOne(x: int): int {
    if x == MAX_INT64 then -MAX_INT64 - 1 else x + 1
  }

  /** What io.LimitReader(stream, maxBytes+1) lets through. */
  function Limited(stream: Bytes, maxBytes: int): Bytes {
    if AddOne(maxBytes) <= 0 then [] else stream[..Min(AddOne(maxBytes), |stream|)]
  }

  /** A body goes to disk if the cache is enabled, the body large enough, and the cache has room for it. */
  lemma UsesDiskMeans(config: Config, c: Counters, size: int)
    ensures UsesDisk(config, c, size) <==>
              && config.enabled && size >= config.thresholdMB * 1048576
              && c.diskBytes + size <= config.maxSizeMB * 1048576
  {
  }

  datatype Outcome = Rejected(error: Error) | Stored(onDisk: bool, data: Bytes)

  predicate StreamsToDisk(config: Config, c: Counters, contentLength: int) {
    contentLength > 0 && UsesDisk(config, c, contentLength)
  }

  /** The result of CreateBodyStorageFromReader. */
  function FromReader(config: Config, c: Counters, stream: Bytes, contentLength: int, maxBytes: int,
                      diskFails: bool): Outcome
  {
    var taken := Limited(stream, maxBytes);
    var direct := StreamsToDisk(config, c, contentLength);
    if direct && diskFails then Rejected(DiskFailed)
    else if |taken| > maxBytes then Rejected(TooLarge)
    else Stored(direct || (UsesDisk(config, c, |taken|) && !diskFails), taken)
  }

  /** The counters afterwards: one more storage of the kind, and one more hit. */
  function Counted(c: Counters, o: Outcome): Counters {
    match o
    case Rejected(_) => c
    case Stored(true, data) => AddDisk(c, |data|).(diskHits := c.diskHits + 1)
    case Stored(false, data) => AddMemory(c, |data|).(memoryHits := c.memoryHits + 1)
  }

  /** A slice is on disk or in memory, and counted there. */
  lemma CreatedMeans(config: Config, c: Counters, size: int, diskFails: bool)
    ensures Created(config, c, size, diskFails) ==
            if UsesDisk(config, c, size) && !diskFails
            then Counters(c.files + 1, c.diskBytes + size, c.buffers, c.memoryBytes, c.diskHits, c.memoryHits)
            else Counters(c.files, c.diskBytes, c.buffers + 1, c.memoryBytes + size, c.diskHits, c.memoryHits)
  {
  }

  /**
   * A stream with a positive declared length that would use the disk goes there, or is lost when the disk fails; any
   * other is read first and then goes where a slice of its bytes goes.  The kind it ends up with counts one hit.
   */
  lemma FromReaderMeans(config: Config, c: Counters, stream: Bytes, contentLength: int, maxBytes: int, diskFails: bool)
    requires 0 <= maxBytes < MAX_INT64
    ensures var o := FromReader(config, c, stream, contentLength, maxBytes, diskFails);
            var direct := contentLength > 0 && UsesDisk(config, c, contentLength);
            && (direct && diskFails ==> o == Rejected(DiskFailed))
            && (!(direct && diskFails) && |stream| > maxBytes ==> o == Rejected(TooLarge))
            && (!(direct && diskFails) && |stream| <= maxBytes ==>
                  o == Stored(!diskFails && (direct || UsesDisk(config, c, |stream|)), stream))
    ensures var o := FromReader(config, c, stream, contentLength, maxBytes, diskFails);
            && (o.Rejected? ==> Counted(c, o) == c)
            && (o.Stored? && o.onDisk ==>
                  Counted(c, o) == Counters(c.files + 1, c.diskBytes + |o.data|, c.buffers, c.memoryBytes,
                                            c.diskHits + 1, c.memoryHits))
            && (o.Stored? && !o.onDisk ==>
                  Counted(c, o) == Counters(c.files, c.diskBytes, c.buffers + 1, c.memoryBytes + |o.data|,
                                            c.diskHits, c.memoryHits + 1))
  {
    hide UsesDisk;
  }

  method NewDiskStorage(cache: DiskCache, data: Bytes, path: nat, fault: Fault) returns (r: Result<DiskStorage, Error>)
    requires |data| <= MAX_INT64
    modifies cache
    ensures r.Ok? <==> path !in old(cache.files) && fault == NoFault
    ensures r.Ok? ==> fresh(r.value) && fresh(r.value.file)
    ensures r.Ok? ==> r.value.Valid() && r.value.cache == cache && r.value.path == path
    ensures r.Ok? ==> r.value.State() == Opened(data)
    ensures r.Ok? ==> cache.files == old(cache.files)[path := data]
                      && cache.counters == AddDisk(old(cache.counters), |data|)
    ensures r.Err? ==> r.error == DiskFailed && cache.files == old(cache.files) && cache.counters == old(cache.counters)
  {
    if path in cache.files || fault == OnCreate {
      return Err(DiskFailed);
    }
    cache.files := cache.files[path := data];
    if fault == OnWrite {
      cache.files := cache.files - {path};
      return Err(DiskFailed);
    }
    var file := new File(data);
    cache.IncrementDiskFiles(|data|);
    var storage := new DiskStorage(cache, path, file);
    r := Ok(storage);
  }

  method NewDiskStorageFromReader(cache: DiskCache, stream: Bytes, maxBytes: int, path: nat, fault: Fault)
    returns (r: Result<DiskStorage, Error>)
    requires maxBytes <= MAX_INT64
    modifies cache
    ensures r.Ok? <==> path !in old(cache.files) && fault == NoFault && |Limited(stream, maxBytes)| <= maxBytes
    ensures r.Ok? ==> fresh(r.value) && fresh(r.value.file)
    ensures r.Ok? ==> r.value.Valid() && r.value.cache == cache && r.value.path == path
    ensures r.Ok? ==> r.value.State() == Opened(Limited(stream, maxBytes))
    ensures r.Ok? ==> cache.files == old(cache.files)[path := Limited(stream, maxBytes)]
                      && cache.counters == AddDisk(old(cache.counters), |Limited(stream, maxBytes)|)
    ensures r.Err? ==> cache.files == old(cache.files) && cache.counters == old(cache.counters)
    ensures r.Err? ==> r.error == if path in old(cache.files) || fault != NoFault then DiskFailed else TooLarge
  {
    if path in cache.files || fault == OnCreate {
      return Err(DiskFailed);
    }
    var written := Limited(stream, maxBytes);
    cache.files := cache.files[path := written];
    if fault == OnWrite {
      cache.files := cache.files - {path};
      return Err(DiskFailed);
    }
    if |written| > maxBytes {
      cache.files := cache.files - {path};
      return Err(TooLarge);
    }
    var file := new File(written);
    cache.IncrementDiskFiles(|written|);
    var storage := new DiskStorage(cache, path, file);
    r := Ok(storage);
  }

  /** A new storage that holds the data with its cursor at the start; a disk storage also has its file. */
  ghost predicate Holds(s: Storage, cache: DiskCache, data: Bytes)
    reads match s case Memory(m) => {m, m.reader} case Disk(d) => {d, d.file, cache}
  {
    match s
    case Memory(m) => m.Valid() && m.cache == cache && m.State() == Opened(data)
    case Disk(d) =>
      && d.Valid() && d.cache == cache && d.State() == Opened(data)
      && d.path in cache.files && cache.files[d.path] == data
  }

  method CreateBodyStorage(cache: DiskCache, data: Bytes, path: nat, fault: Fault) returns (s: Storage)
    requires |data| <= MAX_INT64
    modifies cache
    ensures Holds(s, cache, data)
    ensures var diskFails := path in old(cache.files) || fault != NoFault;
            && cache.counters == Created(cache.config, old(cache.counters), |data|, diskFails)
            && (s.Disk? <==> UsesDisk(cache.config, old(cache.counters), |data|) && !diskFails)
    ensures cache.files == if s.Disk? then old(cache.files)[path := data] else old(cache.files)
  {
    var size := |data|;
    if cache.config.enabled && size >= cache.config.Threshold() && cache.IsDiskCacheAvailable(size) {
      var r := NewDiskStorage(cache, data, path, fault);
      if r.Err? {
        var m := new MemoryStorage(cache, data);
        return Memory(m);
      }
      return Disk(r.value);
    }
    var m := new MemoryStorage(cache, data);
    s := Memory(m);
  }

  method CreateBodyStorageFromReader(cache: DiskCache, stream: Bytes, contentLength: int, maxBytes: int,
                                     path: nat, fault: Fault)
    returns (r: Result<Storage, Error>)
    requires maxBytes <= MAX_INT64
    modifies cache
    ensures var o := FromReader(cache.config, old(cache.counters), stream, contentLength, maxBytes,
                                path in old(cache.files) || fault != NoFault);
            && cache.counters == Counted(old(cache.counters), o)
            && (r.Err? ==> o == Rejected(r.error) && cache.files == old(cache.files))
            && (r.Ok? ==> && o.Stored? && r.value.Disk? == o.onDisk && Holds(r.value, cache, o.data)
                          && cache.files == if o.onDisk then old(cache.files)[path := o.data] else old(cache.files))
  {
    if cache.config.enabled && contentLength > 0 && contentLength >= cache.config.Threshold()
       && cache.IsDiskCacheAvailable(contentLength) {
      var d := NewDiskStorageFromReader(cache, stream, maxBytes, path, fault);
      if d.Err? {
        return Err(d.error);
      }
      cache.counters := cache.counters.(diskHits := cache.counters.diskHits + 1);
      return Ok(Disk(d.value));
    }
    var data := Limited(stream, maxBytes);
    if |data| > maxBytes {
      return Err(TooLarge);
    }
    var storage := CreateBodyStorage(cache, data, path, fault);
    if storage.Memory? {
      cache.counters := cache.counters.(memoryHits := cache.counters.memoryHits + 1);
    } else {
      cache.counters := cache.counters.(diskHits := cache.counters.diskHits + 1);
    }
    r := Ok(storage);
  }

  // ---------------------------------------------------------------------------------------------
  // Creation from a stream
  // ---------------------------------------------------------------------------------------------

  /**
   * Unless the disk fails, a stream is stored exactly when it has at most maxBytes bytes, or maxBytes + 1 wraps
   * around; it is rejected as too large otherwise, with the counters untouched.
   */
  lemma StoredIffItFits(config: Config, c: Counters, stream: Bytes, contentLength: int, maxBytes: int)
    requires -MAX_INT64 - 1 <= maxBytes <= MAX_INT64
    ensures var o := FromReader(config, c, stream, contentLength, maxBytes, false);
            && (o.Stored? <==> |stream| <= maxBytes || maxBytes == MAX_INT64)
            && (o.Rejected? ==> o.error == TooLarge && Counted(c, o) == c)
  {
  }

  /** What is stored is the whole stream, except that a limit of MaxInt64 silently stores nothing. */
  lemma StoredIsTheStream(config: Config, c: Counters, stream: Bytes, contentLength: int, maxBytes: int,
                          diskFails: bool)
    requires -MAX_INT64 - 1 <= maxBytes <= MAX_INT64
    requires FromReader(config, c, stream, contentLength, maxBytes, diskFails).Stored?
    ensures var data := FromReader(config, c, stream, contentLength, maxBytes, diskFails).data;
            data == stream <==> maxBytes != MAX_INT64 || stream == []
  {
  }

  /** Under that limit a stream of one byte is stored as nothing. */
  lemma MaxInt64StoresNothing(config: Config, c: Counters, b: byte)
    ensures var o := FromReader(config, c, [b], -1, MAX_INT64, true);
            o == Stored(false, []) && Counted(c, o).memoryHits == c.memoryHits + 1
  {
  }

  // ---------------------------------------------------------------------------------------------
  // Runs: conservation of the counters
  // ---------------------------------------------------------------------------------------------

  datatype Store = Store(onDisk: bool, size: nat, closed: bool)

  /** The counters and every storage created so far. */
  datatype System = System(counters: Counters, stores: seq<Store>)

  datatype Event =
    | Create(data: Bytes, diskFails: bool)
    | CreateFromReader(stream: Bytes, contentLength: int, maxBytes: int, diskFails: bool)
    | CloseStore(k: nat)

  const EMPTY := System(Counters(0, 0, 0, 0, 0, 0), [])

  function Closed(c: Counters, s: Store): Counters {
    if s.closed then c else if s.onDisk then DropDisk(c, s.size) else DropMemory(c, s.size)
  }

  function Happen(config: Config, s: System, e: Event): System {
    match e
    case Create(data, diskFails) =>
      System(Created(config, s.counters, |data|, diskFails),
             s.stores + [Store(UsesDisk(config, s.counters, |data|) && !diskFails, |data|, false)])
    case CreateFromReader(stream, contentLength, maxBytes, diskFails) =>
      (var o := FromReader(config, s.counters, stream, contentLength, maxBytes, diskFails);
       System(Counted(s.counters, o), if o.Stored? then s.stores + [Store(o.onDisk, |o.data|, false)] else s.stores))
    case CloseStore(k) =>
      if k < |s.stores|
      then System(Closed(s.counters, s.stores[k]), s.stores[k := s.stores[k].(closed := true)])
      else s
  }

  function Happened(config: Config, s: System, events: seq<Event>): System {
    if events == [] then s
    else Happen(config, Happened(config, s, events[..|events| - 1]), events[|events| - 1])
  }

  /** How many open storages of the kind there are. */
  function OpenCount(stores: seq<Store>, onDisk: bool): nat {
    if stores == [] then 0
    else OpenCount(stores[..|stores| - 1], onDisk) + if Counts(stores[|stores| - 1], onDisk) then 1 else 0
  }

  function OpenBytes(stores: seq<Store>, onDisk: bool): nat {
    if stores == [] then 0
    else OpenBytes(stores[..|stores| - 1], onDisk)
         + if Counts(stores[|stores| - 1], onDisk) then stores[|stores| - 1].size else 0
  }

  predicate Counts(s: Store, onDisk: bool) {
    !s.closed && s.onDisk == onDisk
  }

  /** The counters are the number and the bytes of the open storages. */
  ghost predicate Conserved(s: System) {
    && s.counters.files == OpenCount(s.stores, true) && s.counters.diskBytes == OpenBytes(s.stores, true)
    && s.counters.buffers == OpenCount(s.stores, false) && s.counters.memoryBytes == OpenBytes(s.stores, false)
  }

  lemma {:induction false} OneStoreClosed(stores: seq<Store>, k: nat, onDisk: bool)
    requires k < |stores|
    ensures var after, counted := stores[k := stores[k].(closed := true)], Counts(stores[k], onDisk);
            && OpenCount(after, onDisk) == OpenCount(stores, onDisk) - (if counted then 1 else 0)
            && OpenBytes(after, onDisk) == OpenBytes(stores, onDisk) - (if counted then stores[k].size else 0)
  {
    var n := |stores| - 1;
    var after := stores[k := stores[k].(closed := true)];
    if k == n {
      assert after[..n] == stores[..n];
    } else {
      assert after[..n] == stores[..n][k := stores[k].(closed := true)];
      OneStoreClosed(stores[..n], k, onDisk);
    }
  }

  /** An open storage is part of what the counters hold, so taking it off never goes below zero. */
  lemma ClampNeverFires(s: System, k: nat)
    requires Conserved(s) && k < |s.stores| && !s.stores[k].closed
    ensures Closed(s.counters, s.stores[k]) ==
              (var c, size := s.counters, s.stores[k].size;
               if s.stores[k].onDisk then c.(files := c.files - 1, diskBytes := c.diskBytes - size)
               else c.(buffers := c.buffers - 1, memoryBytes := c.memoryBytes - size))
  {
    OneStoreClosed(s.stores, k, true);
  }

  lemma StoreConserves(s: System, c: Counters, store: Store)
    requires Conserved(s) && !store.closed
    requires var added := if store.onDisk then AddDisk(s.counters, store.size) else AddMemory(s.counters, store.size);
             c == added.(diskHits := c.diskHits, memoryHits := c.memoryHits)
    ensures Conserved(System(c, s.stores + [store]))
  {
  }

  lemma CloseConserves(s: System, k: nat)
    requires Conserved(s) && k < |s.stores|
    ensures Conserved(System(Closed(s.counters, s.stores[k]), s.stores[k := s.stores[k].(closed := true)]))
  {
    hide OpenCount, OpenBytes;
    OneStoreClosed(s.stores, k, true);
    OneStoreClosed(s.stores, k, false);
  }

  lemma EventConserves(config: Config, s: System, e: Event)
    requires Conserved(s)
    ensures Conserved(Happen(config, s, e))
  {
    hide UsesDisk, FromReader, Conserved, Closed;
    match e
    case Create(data, diskFails) =>
      StoreConserves(s, Happen(config, s, e).counters,
                     Store(UsesDisk(config, s.counters, |data|) && !diskFails, |data|, false));
    case CreateFromReader(stream, contentLength, maxBytes, diskFails) =>
      var o := FromReader(config, s.counters, stream, contentLength, maxBytes, diskFails);
      if o.Stored? {
        StoreConserves(s, Counted(s.counters, o), Store(o.onDisk, |o.data|, false));
      } else {
        assert Happen(config, s, e) == s;
      }
    case CloseStore(k) =>
      if k < |s.stores| {
        CloseConserves(s, k);
      }
  }

  /** After any run of creations, failed or not, and closings, repeated or not, the counters are exact. */
  lemma {:induction false} RunConserves(config: Config, events: seq<Event>)
    ensures Conserved(Happened(config, EMPTY, events))
  {
    if events != [] {
      RunConserves(config, events[..|events| - 1]);
      EventConserves(config, Happened(config, EMPTY, events[..|events| - 1]), events[|events| - 1]);
    }
  }

  // ---------------------------------------------------------------------------------------------
  // Runs: the disk maximum
  // ---------------------------------------------------------------------------------------------

  /** A stream that goes to disk by its declared length and is longer than what is left. */
  predicate Overruns(config: Config, s: System, e: Event) {
    && e.CreateFromReader?
    && StreamsToDisk(config, s.counters, e.contentLength) && !e.diskFails
    && |Limited(e.stream, e.maxBytes)| <= e.maxBytes
    && s.counters.diskBytes + |Limited(e.stream, e.maxBytes)| > config.MaxBytes()
  }

  /** From a state within the limit, one event leaves it exactly when it overruns. */
  lemma LeavesLimitIff(config: Config, s: System, e: Event)
    requires Conserved(s) && s.counters.diskBytes <= config.MaxBytes()
    ensures Happen(config, s, e).counters.diskBytes > config.MaxBytes() <==> Overruns(config, s, e)
  {
  }

  /** Every state of a run is within the limit exactly when no event of the run overruns. */
  lemma {:induction false} RunWithinLimitIff(config: Config, events: seq<Event>)
    requires config.maxSizeMB >= 0
    ensures (forall n | 0 <= n <= |events| :: WithinLimit(config, Happened(config, EMPTY, events[..n]))) <==>
              forall n | 0 <= n < |events| :: !Overruns(config, Happened(config, EMPTY, events[..n]), events[n])
  {
    hide Overruns, Happen, Conserved;
    if forall n | 0 <= n < |events| :: !Overruns(config, Happened(config, EMPTY, events[..n]), events[n]) {
      for n := 0 to |events|
        invariant forall m | 0 <= m <= n :: WithinLimit(config, Happened(config, EMPTY, events[..m]))
      {
        assert events[..n + 1][..n] == events[..n];
        RunConserves(config, events[..n]);
        LeavesLimitIff(config, Happened(config, EMPTY, events[..n]), events[n]);
      }
    }
    if forall n | 0 <= n <= |events| :: WithinLimit(config, Happened(config, EMPTY, events[..n])) {
      forall n | 0 <= n < |events|
        ensures !Overruns(config, Happened(config, EMPTY, events[..n]), events[n])
      {
        assert events[..n + 1][..n] == events[..n];
        RunConserves(config, events[..n]);
        LeavesLimitIff(config, Happened(config, EMPTY, events[..n]), events[n]);
        assert WithinLimit(config, Happened(config, EMPTY, events[..n + 1]));
      }
    }
  }

  predicate WithinLimit(config: Config, s: System) {
    s.counters.diskBytes <= config.MaxBytes()
  }

  /** No stream is longer than its declared length. Creations from a byte slice always qualify. */
  predicate Honest(events: seq<Event>) {
    forall i | 0 <= i < |events| && events[i].CreateFromReader? && events[i].contentLength > 0 ::
      |events[i].stream| <= events[i].contentLength
  }

  /** One after the other, honest creations under a fixed configuration never exceed the configured maximum. */
  lemma {:induction false} HonestRunsStayWithinLimit(config: Config, events: seq<Event>)
    requires config.maxSizeMB >= 0 && Honest(events)
    ensures Happened(config, EMPTY, events).counters.diskBytes <= config.MaxBytes()
  {
    if events != [] {
      var n := |events| - 1;
      HonestRunsStayWithinLimit(config, events[..n]);
      RunConserves(config, events[..n]);
      LeavesLimitIff(config, Happened(config, EMPTY, events[..n]), events[n]);
    }
  }

  /** A stream longer than it declares can exceed the maximum. */
  lemma UnderdeclaredStreamExceeds(stream: Bytes)
    requires |stream| == 0x10_0001
    ensures var config := Config(true, 0, 1);
            var after := Happened(config, EMPTY, [CreateFromReader(stream, 1, 0x20_0000, false)]);
            after.counters.diskBytes > config.MaxBytes()
  {
  }
}
