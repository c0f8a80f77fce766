/**
 * What a caller of a request-body storage can observe (common/body_storage.go, 14-283): the storage's own
 * cursor, and readers with cursors of their own. The two kinds of storage differ in three places only; `Step`
 * marks each with `disk`.
 */
module BodySessions {
  import opened Common
  import opened DiskCacheConfig

  const MAX_INT64: int := 0x7FFF_FFFF_FFFF_FFFF

  datatype Error = Eof | StorageClosed | ReaderClosed | BadPosition | FileMissing | TooLarge | DiskFailed

  datatype Whence = Start | Current | End

  function Min(a: int, b: int): int { if a < b then a else b }

  /** At most n bytes from the cursor on. */
  function Chunk(data: Bytes, cursor: nat, n: nat): (r: Bytes) {
    if cursor >= |data| then [] else data[cursor..Min(cursor + n, |data|)]
  }

  /** bytes.Reader reports the end before it looks at the buffer; os.File answers an empty buffer first. */
  function RawRead(disk: bool, data: Bytes, cursor: nat, n: nat): (Bytes, Option<Error>) {
    if disk && n == 0 then ([], None)
    else if cursor >= |data| then ([], Some(Eof))
    else (Chunk(data, cursor, n), None)
  }

  /** The new cursor, unless it is negative or no int64. Seeking beyond the end is allowed. */
  function Target(data: Bytes, cursor: nat, offset: int, whence: Whence): Option<nat> {
    var base := match whence case Start => 0 case Current => cursor case End => |data|;
    if 0 <= base + offset <= MAX_INT64 then Some(base + offset) else None
  }

  datatype Handle = Handle(cursor: nat, open: bool)

  datatype Session = Session(data: Bytes, cursor: nat, closed: bool, readers: seq<Handle>)

  function Opened(data: Bytes): Session {
    Session(data, 0, false, [])
  }

  datatype Op =
    | Read(n: nat)
    | Seek(offset: int, whence: Whence)
    | GetBytes
    | NewReader
    | Size
    | Close
    | ReaderRead(k: nat, n: nat)
    | ReaderClose(k: nat)

  datatype Out =
    | Delivered(bytes: Bytes, error: Option<Error>)
    | Position(p: nat)
    | Whole(bytes: Bytes)
    | GotReader
    | Length(n: nat)
    | Done
    | Failed(reason: Error)
    | NoReader

  function Step(disk: bool, s: Session, op: Op): (Session, Out) {
    match op
    case Read(n) =>
      if s.closed then (s, Failed(StorageClosed))
      else
        var (bytes, error) := RawRead(disk, s.data, s.cursor, n);
        (s.(cursor := s.cursor + |bytes|), Delivered(bytes, error))
    case Seek(offset, whence) =>
      if s.closed then (s, Failed(StorageClosed))
      else (match Target(s.data, s.cursor, offset, whence)
            case None => (s, Failed(BadPosition))
            case Some(p) => (s.(cursor := p), Position(p)))
    case GetBytes => (s, if s.closed then Failed(StorageClosed) else Whole(s.data))
    case NewReader =>
      if s.closed then (s, Failed(StorageClosed))
      else (s.(readers := s.readers + [Handle(0, true)]), GotReader)
    case Size => (s, Length(|s.data|))
    case Close => (s.(closed := true), Done)
    case ReaderRead(k, n) =>
      if k >= |s.readers| then (s, NoReader)
      else
        var h := s.readers[k];
        if disk && !h.open then (s, Failed(ReaderClosed))
        else
          var (bytes, error) := RawRead(disk, s.data, h.cursor, n);
          (s.(readers := s.readers[k := h.(cursor := h.cursor + |bytes|)]), Delivered(bytes, error))
    case ReaderClose(k) =>
      if k >= |s.readers| then (s, NoReader)
      else if !disk then (s, Done)
      else if !s.readers[k].open then (s, Failed(ReaderClosed))
      else (s.(readers := s.readers[k := s.readers[k].(open := false)]), Done)
  }

  function Run(disk: bool, s: Session, ops: seq<Op>): Session
    decreases |ops|
  {
    if ops == [] then s else Run(disk, Step(disk, s, ops[0]).0, ops[1..])
  }

  function Outs(disk: bool, s: Session, ops: seq<Op>): seq<Out>
    decreases |ops|
  {
    if ops == [] then [] else [Step(disk, s, ops[0]).1] + Outs(disk, Step(disk, s, ops[0]).0, ops[1..])
  }

  lemma {:induction false} OneMoreOp(disk: bool, s: Session, ops: seq<Op>, op: Op)
    ensures Run(disk, s, ops + [op]) == Step(disk, Run(disk, s, ops), op).0
    ensures Outs(disk, s, ops + [op]) == Outs(disk, s, ops) + [Step(disk, Run(disk, s, ops), op).1]
    decreases |ops|
  {
    hide Step;
    if ops == [] {
      assert ([] + [op])[1..] == [];
    } else {
      assert (ops + [op])[1..] == ops[1..] + [op];
      OneMoreOp(disk, Step(disk, s, ops[0]).0, ops[1..], op);
    }
  }

  /** A call of the storage itself neither looks at the readers nor changes them. */
  lemma StorageIgnoresReaders(disk: bool, s: Session, op: Op)
    requires !op.NewReader? && !op.ReaderRead? && !op.ReaderClose?
    ensures var alone, whole := Step(disk, s.(readers := []), op), Step(disk, s, op);
            alone.1 == whole.1 && alone.0 == whole.0.(readers := []) && whole.0.readers == s.readers
  {
  }

  // ---------------------------------------------------------------------------------------------
  // Memory and disk look the same
  // ---------------------------------------------------------------------------------------------

  /** Same body, same cursors, except those of readers the caller has closed. */
  ghost predicate Alike(m: Session, d: Session) {
    && m.data == d.data && m.cursor == d.cursor && m.closed == d.closed && |m.readers| == |d.readers|
    && forall k | 0 <= k < |d.readers| && d.readers[k].open :: m.readers[k].cursor == d.readers[k].cursor
  }

  /** The calls that tell the two apart: an empty read at the end, and a reader used after its own Close. */
  predicate Telling(d: Session, op: Op) {
    match op
    case Read(n) => !d.closed && n == 0 && d.cursor >= |d.data|
    case ReaderRead(k, n) =>
      k < |d.readers| && (!d.readers[k].open || (n == 0 && d.readers[k].cursor >= |d.data|))
    case ReaderClose(k) => k < |d.readers| && !d.readers[k].open
    case _ => false
  }

  lemma StepAlike(m: Session, d: Session, op: Op)
    requires Alike(m, d)
    ensures Step(false, m, op).1 == Step(true, d, op).1 <==> !Telling(d, op)
    ensures !Telling(d, op) ==> Alike(Step(false, m, op).0, Step(true, d, op).0)
  {
  }

  predicate NothingTells(d: Session, ops: seq<Op>)
    decreases |ops|
  {
    ops == [] || (!Telling(d, ops[0]) && NothingTells(Step(true, d, ops[0]).0, ops[1..]))
  }

  /** Whatever the caller does, the outputs agree exactly when no call is a telling one. */
  lemma {:induction false} IndistinguishableIff(m: Session, d: Session, ops: seq<Op>)
    requires Alike(m, d)
    ensures Outs(false, m, ops) == Outs(true, d, ops) <==> NothingTells(d, ops)
    decreases |ops|
  {
    if ops != [] {
      var op := ops[0];
      StepAlike(m, d, op);
      var m', d' := Step(false, m, op), Step(true, d, op);
      if !Telling(d, op) {
        IndistinguishableIff(m'.0, d'.0, ops[1..]);
      }
      assert Outs(false, m, ops)[0] == m'.1 && Outs(true, d, ops)[0] == d'.1;
      assert Outs(false, m, ops)[1..] == Outs(false, m'.0, ops[1..]);
      assert Outs(true, d, ops)[1..] == Outs(true, d'.0, ops[1..]);
    }
  }

  /** An empty read at the end of a body, on its own. */
  lemma EmptyReadTells(data: Bytes)
    ensures var ops := [Seek(0, End), Read(0)];
            |data| <= MAX_INT64 ==>
              && Outs(false, Opened(data), ops) == [Position(|data|), Delivered([], Some(Eof))]
              && Outs(true, Opened(data), ops) == [Position(|data|), Delivered([], None)]
  {
    var ops := [Seek(0, End), Read(0)];
    assert ops[1..] == [Read(0)] && ops[1..][1..] == [];
    assert forall disk | |data| <= MAX_INT64 ::
             Step(disk, Opened(data), Seek(0, End)) == (Session(data, |data|, false, []), Position(|data|));
  }

  /** No read with an empty buffer, and no reader used after its own Close; `gone` are those closed before. */
  predicate Careful(ops: seq<Op>, gone: set<nat>) {
    ops == [] ||
    match ops[0]
    case Read(n) => n > 0 && Careful(ops[1..], gone)
    case ReaderRead(k, n) => n > 0 && k !in gone && Careful(ops[1..], gone)
    case ReaderClose(k) => k !in gone && Careful(ops[1..], gone + {k})
    case _ => Careful(ops[1..], gone)
  }

  lemma {:induction false} CarefulTellsNothing(d: Session, ops: seq<Op>, gone: set<nat>)
    requires Careful(ops, gone)
    requires forall k | 0 <= k < |d.readers| && !d.readers[k].open :: k in gone
    ensures NothingTells(d, ops)
    decreases |ops|
  {
    if ops != [] {
      var next := if ops[0].ReaderClose? then gone + {ops[0].k} else gone;
      CarefulTellsNothing(Step(true, d, ops[0]).0, ops[1..], next);
    }
  }

  /** A careful caller cannot tell a memory storage from a disk storage of the same bytes. */
  lemma Indistinguishable(data: Bytes, ops: seq<Op>)
    requires Careful(ops, {})
    ensures Outs(false, Opened(data), ops) == Outs(true, Opened(data), ops)
  {
    CarefulTellsNothing(Opened(data), ops, {});
    IndistinguishableIff(Opened(data), Opened(data), ops);
  }

  // ---------------------------------------------------------------------------------------------
  // Readers
  // ---------------------------------------------------------------------------------------------

  /** All bytes the run delivers through reader k. */
  function ReadBy(disk: bool, s: Session, ops: seq<Op>, k: nat): Bytes
    decreases |ops|
  {
    if ops == [] then []
    else
      var (next, out) := Step(disk, s, ops[0]);
      (if ops[0].ReaderRead? && ops[0].k == k && out.Delivered? then out.bytes else [])
      + ReadBy(disk, next, ops[1..], k)
  }

  ghost predicate ReaderReady(s: Session, k: nat) {
    k < |s.readers| && s.readers[k].open && s.readers[k].cursor <= |s.data|
  }

  lemma StepAdvances(disk: bool, s: Session, op: Op, k: nat)
    requires ReaderReady(s, k) && op != ReaderClose(k)
    ensures var (next, out) := Step(disk, s, op);
            && ReaderReady(next, k) && next.data == s.data
            && s.data[..next.readers[k].cursor] == s.data[..s.readers[k].cursor]
                 + (if op.ReaderRead? && op.k == k && out.Delivered? then out.bytes else [])
  {
  }

  lemma {:induction false} RunAdvances(disk: bool, s: Session, ops: seq<Op>, k: nat)
    requires ReaderReady(s, k) && ReaderClose(k) !in ops
    ensures var end := Run(disk, s, ops);
            && ReaderReady(end, k) && end.data == s.data
            && s.data[..end.readers[k].cursor] == s.data[..s.readers[k].cursor] + ReadBy(disk, s, ops, k)
    decreases |ops|
  {
    hide Step;
    if ops == [] {
      assert s.data[..s.readers[k].cursor] + [] == s.data[..s.readers[k].cursor];
    } else {
      StepAdvances(disk, s, ops[0], k);
      RunAdvances(disk, Step(disk, s, ops[0]).0, ops[1..], k);
    }
  }

  /**
   * A reader opened on an open storage delivers the body from its start, in order and without gaps, whatever
   * happens to the storage and to other readers in between, Close of the storage included. It reports the end
   * only after the whole body was delivered, and until then every non-empty read makes progress.
   */
  lemma ReaderDeliversBody(disk: bool, s: Session, ops: seq<Op>, n: nat)
    requires !s.closed && n > 0
    requires ReaderClose(|s.readers|) !in ops
    ensures var k := |s.readers|;
            var begun := Step(disk, s, NewReader).0;
            var got := ReadBy(disk, begun, ops, k);
            var out := Step(disk, Run(disk, begun, ops), ReaderRead(k, n)).1;
            && got <= s.data
            && out.Delivered?
            && got + out.bytes <= s.data
            && (out.error.Some? <==> got == s.data)
            && (out.error.Some? ==> out.error == Some(Eof))
            && (out.error.None? ==> |out.bytes| == Min(n, |s.data| - |got|) > 0)
  {
    var k := |s.readers|;
    var begun := Step(disk, s, NewReader).0;
    assert ReaderReady(begun, k) && begun.data == s.data && begun.readers[k].cursor == 0;
    RunAdvances(disk, begun, ops, k);
    var end := Run(disk, begun, ops);
    var got := ReadBy(disk, begun, ops, k);
    assert got == s.data[..end.readers[k].cursor] by {
      assert s.data[..0] + got == got;
    }
    NextRead(disk, end, k, n);
    hide Step, Run, ReadBy;
  }

  /** What one more non-empty read of a reader delivers. */
  lemma NextRead(disk: bool, s: Session, k: nat, n: nat)
    requires ReaderReady(s, k) && n > 0
    ensures var at, out := s.readers[k].cursor, Step(disk, s, ReaderRead(k, n)).1;
            && out.Delivered? && s.data[..at] + out.bytes <= s.data
            && (out.error.Some? <==> at == |s.data|) && (out.error.Some? ==> out.error == Some(Eof))
            && (out.error.None? ==> |out.bytes| == Min(n, |s.data| - at) > 0)
  {
  }

  /** GetBytes, Size and the readers leave the storage's own cursor where it was, and the body never changes. */
  lemma OnlyReadAndSeekMove(disk: bool, s: Session, op: Op)
    ensures Step(disk, s, op).0.data == s.data
    ensures !op.Read? && !op.Seek? ==> Step(disk, s, op).0.cursor == s.cursor
    ensures s.closed ==> Step(disk, s, op).0.closed
    ensures s.closed && op in {GetBytes, NewReader} ==> Step(disk, s, op) == (s, Failed(StorageClosed))
  {
  }

  /** A reader that is open reads like its storage, at its own cursor. */
  lemma ReaderReadMeans(disk: bool, s: Session, k: nat, n: nat)
    requires k < |s.readers| && s.readers[k].open && n > 0
    ensures var (next, out) := Step(disk, s, ReaderRead(k, n));
            var at := s.readers[k].cursor;
            && (at >= |s.data| ==> next == s && out == Delivered([], Some(Eof)))
            && (at + n <= |s.data| ==>
                  && next == s.(readers := s.readers[k := Handle(at + n, true)])
                  && out == Delivered(s.data[at..at + n], None))
            && (at < |s.data| < at + n ==>
                  && next == s.(readers := s.readers[k := Handle(|s.data|, true)])
                  && out == Delivered(s.data[at..], None))
  {
  }

  // ---------------------------------------------------------------------------------------------
  // The storage's own cursor
  // ---------------------------------------------------------------------------------------------

  /** All bytes the run delivers through the storage itself. */
  function ReadByStorage(disk: bool, s: Session, ops: seq<Op>): Bytes
    decreases |ops|
  {
    if ops == [] then []
    else
      var (next, out) := Step(disk, s, ops[0]);
      (if ops[0].Read? && out.Delivered? then out.bytes else []) + ReadByStorage(disk, next, ops[1..])
  }

  lemma StorageAdvances(disk: bool, s: Session, op: Op)
    requires s.cursor <= |s.data| && !op.Seek?
    ensures var (next, out) := Step(disk, s, op);
            && next.data == s.data && s.cursor <= next.cursor <= |s.data|
            && s.data[..next.cursor] == s.data[..s.cursor] + (if op.Read? && out.Delivered? then out.bytes else [])
  {
  }

  /** Between seeks the storage delivers its body from the cursor on, in order and without gaps. */
  lemma {:induction false} StorageDelivers(disk: bool, s: Session, ops: seq<Op>)
    requires s.cursor <= |s.data| && forall op | op in ops :: !op.Seek?
    ensures var end := Run(disk, s, ops);
            && end.data == s.data && s.cursor <= end.cursor <= |s.data|
            && ReadByStorage(disk, s, ops) == s.data[s.cursor..end.cursor]
    decreases |ops|
  {
    hide Step;
    if ops != [] {
      assert ops[0] in ops && forall op | op in ops[1..] :: op in ops;
      StorageAdvances(disk, s, ops[0]);
      StorageDelivers(disk, Step(disk, s, ops[0]).0, ops[1..]);
      var a, b, c := s.cursor, Step(disk, s, ops[0]).0.cursor, Run(disk, s, ops).cursor;
      assert s.data[..b][a..] == s.data[a..b];
      assert s.data[a..b] + s.data[b..c] == s.data[a..c];
    }
  }

  /** One read of an open storage: as many bytes as fit, at the end none and the end reported. */
  lemma ReadMeans(disk: bool, s: Session, n: nat)
    requires !s.closed && n > 0
    ensures var (next, out) := Step(disk, s, Read(n));
            && (s.cursor >= |s.data| ==> next == s && out == Delivered([], Some(Eof)))
            && (s.cursor + n <= |s.data| ==>
                  next == s.(cursor := s.cursor + n) && out == Delivered(s.data[s.cursor..s.cursor + n], None))
            && (s.cursor < |s.data| < s.cursor + n ==>
                  next == s.(cursor := |s.data|) && out == Delivered(s.data[s.cursor..], None))
  {
  }

  /** Seeking counts from the start, the cursor or the end; only a negative or too large position is refused. */
  lemma SeekMeans(disk: bool, s: Session, offset: int)
    requires !s.closed && -0x8000_0000_0000_0000 <= offset <= 0x7FFF_FFFF_FFFF_FFFF
    ensures Step(disk, s, Seek(offset, Start)) ==
            if offset >= 0 then (s.(cursor := offset), Position(offset)) else (s, Failed(BadPosition))
    ensures 0 <= s.cursor + offset <= 0x7FFF_FFFF_FFFF_FFFF ==>
              Step(disk, s, Seek(offset, Current)) == (s.(cursor := s.cursor + offset), Position(s.cursor + offset))
    ensures 0 <= |s.data| + offset <= 0x7FFF_FFFF_FFFF_FFFF ==>
              Step(disk, s, Seek(offset, End)) == (s.(cursor := |s.data| + offset), Position(|s.data| + offset))
    ensures s.cursor + offset < 0 || s.cursor + offset > 0x7FFF_FFFF_FFFF_FFFF ==>
              Step(disk, s, Seek(offset, Current)) == (s, Failed(BadPosition))
    ensures |s.data| + offset < 0 || |s.data| + offset > 0x7FFF_FFFF_FFFF_FFFF ==>
              Step(disk, s, Seek(offset, End)) == (s, Failed(BadPosition))
  {
  }

  /** The calls that do not move anything, and what a closed storage answers. */
  lemma OtherCallsMean(disk: bool, s: Session, n: nat, offset: int, whence: Whence)
    ensures Step(disk, s, Size) == (s, Length(|s.data|))
    ensures Step(disk, s, Close) == (Session(s.data, s.cursor, true, s.readers), Done)
    ensures !s.closed ==> Step(disk, s, GetBytes) == (s, Whole(s.data))
    ensures !s.closed ==>
              Step(disk, s, NewReader) == (Session(s.data, s.cursor, false, s.readers + [Handle(0, true)]), GotReader)
    ensures s.closed ==>
              && Step(disk, s, Read(n)) == (s, Failed(StorageClosed))
              && Step(disk, s, Seek(offset, whence)) == (s, Failed(StorageClosed))
  {
  }
}
