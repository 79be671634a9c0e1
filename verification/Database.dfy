/**
  The database as a state machine: writers, publishing, expiry, compaction with its fence,
  two renames and remapping, and crashes at any moment followed by recovery.
 */
module Database {
  import opened Wrappers
  import opened Bytes
  import opened Frames
  import opened LogScan
  import opened TornLog
  import opened Changes
  import opened Records
  import opened Durability

  datatype Phase =
    | Idle
    | Fenced(base: nat)
    | Snapped(base: nat, temp: seq<Frame>)
    | Sealed(base: nat, temp: seq<Frame>)
    | SnapRenamed(base: nat, temp: seq<Frame>)
    | WalRenamed(base: nat, temp: seq<Frame>)
    | Remapped

  /**
    `disk` is what the two file names lead to, `open` what the reader's handles lead to.
    `history` holds the accepted writes that no crash has lost, oldest first; the last of them
    are those in the log.  The first `acked` have been acknowledged to their callers.  The
    first `floor` frames of the log were complete when it became the log.
   */
  datatype State = State(
    mode: ValueMode, now: i64, history: seq<Write>, acked: nat,
    disk: Files, open: Files, floor: nat, store: Stored,
    writer: Option<map<bytes, Option<nat>>>, phase: Phase)

  datatype Step =
    | Tick(to: i64)
    | Expire(key: bytes)
    | Append(write: Write)
    | Flush(n: nat)
    | Publish(key: bytes)
    | Acknowledge
    | Fence(base: nat)
    | TakeEntries(order: seq<bytes>)
    | Abandon
    | Seal
    | RenameSnapshot
    | RenameWal
    | RemapStore
    | Reopen
    | Restart(scan: Mode, clocks: (seq<i64>, seq<i64>), to: i64)

  function Start(s: State): int {
    |s.history| - |s.disk.wal|
  }

  /** What a recovery scan finds in the two files. */
  function Scanned(s: State, scan: Mode): (Scan, Scan)
    requires s.disk.written <= Size(s.disk.wal)
  {
    (ScanFrom(FileBytes(s.disk, SnapshotFile), scan, 0), ScanFrom(FileBytes(s.disk, WalFile), scan, 0))
  }

  /** No frame reads inside the torn frame of the log. */
  ghost predicate NothingNested(f: Files)
    requires f.written <= Size(f.wal)
  {
    forall x :: Size(f.wal[..Complete(f.wal, f.written)]) < x < f.written ==> !ValidAt(Cut(f.wal, f.written), x)
  }

  /** For each key written, the sequence its record has after the write, if it has a record. */
  function Sequences(store: Stored, ops: seq<Op>): map<bytes, Option<nat>> {
    map k | k in Written(ops) :: if k in store.records then Some(store.records[k].sequence) else None
  }

  /** A publication takes place only if the record is still the one the write made. */
  ghost predicate Publishable(s: State, k: bytes) {
    && s.writer.Some? && k in s.writer.value && s.writer.value[k].Some?
    && k in s.store.records && s.store.records[k].sequence == s.writer.value[k].value
    && s.disk.wal != [] && LastSet(LastChanges(s.disk.wal), k) >= 0
  }

  ghost predicate Enabled(s: State, step: Step)
    requires s.disk.written <= Size(s.disk.wal) && s.open.written <= Size(s.open.wal)
  {
    match step
    case Tick(to) => s.now <= to
    case Expire(_) => true
    case Append(w) => s.writer.None? && (s.phase.Idle? || s.phase.Fenced? || s.phase.Snapped?) && WriteOk(w)
    case Flush(n) => (s.phase.Idle? || s.phase.Fenced? || s.phase.Snapped?) && s.disk.written + n <= Size(s.disk.wal)
    case Publish(k) => s.mode.OnDisk? && s.disk.written == Size(s.disk.wal) && Publishable(s, k)
    case Acknowledge => s.writer.Some? && s.disk.written == Size(s.disk.wal)
    case Fence(base) => s.phase.Idle? && base <= |s.disk.wal| && Size(s.disk.wal[..base]) <= s.disk.written
    case TakeEntries(order) => s.phase.Fenced? && AllLive(s.store.records, order, s.now)
    case Abandon => s.phase.Fenced? || s.phase.Snapped?
    case Seal => s.phase.Snapped? && s.writer.None?
    case RenameSnapshot => s.phase.Sealed?
    case RenameWal => s.phase.SnapRenamed? && s.phase.base <= |s.disk.wal|
    case RemapStore => s.phase.WalRenamed? && s.phase.base <= |s.open.wal|
    case Reopen => s.phase.Remapped?
    case Restart(scan, clocks, to) =>
      && s.now <= to && (scan.Strict? || NothingNested(s.disk)) && Complete(s.disk.wal, s.disk.written) <= |s.disk.wal| <= |s.history|
      && AllBy(clocks.0, to) && AllBy(clocks.1, to)
      && |clocks.0| == |LogChanges(Scanned(s, scan).0.frames)| && |clocks.1| == |LogChanges(Scanned(s, scan).1.frames)|
  }

  ghost function Appended(s: State, w: Write): State {
    var wal := s.disk.wal + [WriteFrame(w)];
    var store := ApplyAll(s.store, AppliedOps(WriteOps(w)));
    s.(history := s.history + [w], disk := s.disk.(wal := wal), open := s.open.(wal := wal),
       store := store, writer := Some(Sequences(store, WriteOps(w))))
  }

  ghost function Restarted(s: State, scan: Mode, clocks: (seq<i64>, seq<i64>), to: i64): State
    requires s.disk.written <= Size(s.disk.wal) && s.open.written <= Size(s.open.wal)
    requires Enabled(s, Restart(scan, clocks, to))
  {
    var found := Scanned(s, scan);
    var whole := s.disk.wal[..Complete(s.disk.wal, s.disk.written)];
    var files := Files(s.disk.snap, whole, Size(whole));
    s.(now := to, history := s.history[..Start(s) + |whole|], disk := files, open := files,
       store := Replayed(LogChanges(found.0.frames), LogChanges(found.1.frames), s.mode, clocks), writer := None, phase := Idle)
  }

  ghost function Do(s: State, step: Step): State
    requires s.disk.written <= Size(s.disk.wal) && s.open.written <= Size(s.open.wal)
    requires Enabled(s, step)
  {
    match step
    case Tick(to) => s.(now := to)
    case Expire(k) => s.(store := s.store.Reap(k, s.now))
    case Append(w) => Appended(s, w)
    case Flush(n) => s.(disk := s.disk.(written := s.disk.written + n), open := s.open.(written := s.disk.written + n))
    case Publish(k) =>
      var c := LastChanges(s.disk.wal)[LastSet(LastChanges(s.disk.wal), k)];
      s.(store := s.store.Put(k, RefTo(c, WalFile, OnDisk), c.op.expireAt, c.op.meta))
    case Acknowledge => s.(writer := None, acked := |s.history|)
    case Fence(base) => s.(phase := Fenced(base))
    case TakeEntries(order) => s.(phase := Snapped(s.phase.base, Snapshot(s.open, s.store.records, order)))
    case Abandon => s.(phase := Idle)
    case Seal =>
      s.(phase := Sealed(s.phase.base, s.phase.temp),
         disk := s.disk.(written := Size(s.disk.wal)), open := s.open.(written := Size(s.disk.wal)))
    case RenameSnapshot =>
      s.(phase := SnapRenamed(s.phase.base, s.phase.temp), disk := s.disk.(snap := s.phase.temp), floor := |s.disk.wal|)
    case RenameWal =>
      var tail := s.disk.wal[s.phase.base..];
      s.(phase := WalRenamed(s.phase.base, s.phase.temp), disk := Files(s.disk.snap, tail, Size(tail)), floor := |tail|)
    case RemapStore =>
      s.(phase := Remapped, store := s.store.(records := Remap(s.phase.temp, Size(s.open.wal[..s.phase.base]), s.store.records)))
    case Reopen => s.(phase := Idle, open := s.disk)
    case Restart(scan, clocks, to) => Restarted(s, scan, clocks, to)
  }

  function Init(mode: ValueMode, now: i64): State {
    State(mode, now, [], 0, Files([], [], 0), Files([], [], 0), 0, Stored(map[], 0), None, Idle)
  }

  // --- the invariant ------------------------------------------------------------------------

  ghost predicate HistoryOk(ws: seq<Write>) {
    forall i :: 0 <= i < |ws| ==> WriteOk(ws[i])
  }

  ghost predicate LogOf(wal: seq<Frame>, ws: seq<Write>) {
    |wal| <= |ws| && forall i :: 0 <= i < |wal| ==> wal[i] == WriteFrame(ws[|ws| - |wal| + i])
  }

  /** Every part of the log from the floor on says what that part of the history says. */
  ghost predicate PrefixOk(snap: seq<Frame>, wal: seq<Frame>, ws: seq<Write>, c: nat, k: bytes, now: i64)
    requires c <= |wal| <= |ws|
  {
    Agree(DiskDoc(snap, wal[..c], k), HistoryDoc(ws[..|ws| - |wal| + c], k), now)
  }

  ghost predicate PrefixesOk(snap: seq<Frame>, wal: seq<Frame>, ws: seq<Write>, floor: nat, now: i64)
    requires |wal| <= |ws|
  {
    forall c, k :: floor <= c <= |wal| ==> PrefixOk(snap, wal, ws, c, k, now)
  }

  /** The new snapshot is right about every key that the log behind the fence does not decide. */
  ghost predicate TempOk(temp: seq<Frame>, tail: seq<Frame>, k: bytes, d: Option<Doc>, now: i64) {
    Touched(LogOps(tail), k) || Agree(DiskDoc([], temp, k), d, now)
  }

  ghost predicate TempsOk(temp: seq<Frame>, tail: seq<Frame>, ws: seq<Write>, now: i64) {
    forall k :: TempOk(temp, tail, k, HistoryDoc(ws, k), now)
  }

  ghost predicate AllHeld(f: Files, records: map<bytes, Record>, ws: seq<Write>, now: i64)
    requires f.written <= Size(f.wal)
  {
    forall k :: Held(f, records, k, HistoryDoc(ws, k), now)
  }

  ghost predicate FilesInv(s: State) {
    && FilesOk(s.disk) && FilesOk(s.open) && HistoryOk(s.history)
    && |s.disk.wal| <= |s.history| && LogOf(s.disk.wal, s.history)
    && s.floor <= |s.disk.wal| && Size(s.disk.wal[..s.floor]) <= s.disk.written
    && s.acked <= |s.history| && (s.acked > Start(s) ==> Size(s.disk.wal[..s.acked - Start(s)]) <= s.disk.written)
  }

  ghost predicate PhaseInv(s: State) {
    match s.phase
    case Idle => s.open == s.disk
    case Fenced(base) => s.open == s.disk && base <= |s.disk.wal|
    case Snapped(base, temp) =>
      s.open == s.disk && base <= |s.disk.wal| && Clean(temp) && TempsOk(temp, s.disk.wal[base..], s.history, s.now)
    case Sealed(base, temp) =>
      && s.open == s.disk && base <= |s.disk.wal| && Clean(temp) && TempsOk(temp, s.disk.wal[base..], s.history, s.now)
      && s.disk.written == Size(s.disk.wal)
    case SnapRenamed(base, temp) =>
      && s.disk == s.open.(snap := temp) && base <= |s.disk.wal| && Clean(temp) && TempsOk(temp, s.disk.wal[base..], s.history, s.now)
      && s.disk.written == Size(s.disk.wal)
    case WalRenamed(base, temp) =>
      && base <= |s.open.wal| && s.open.written == Size(s.open.wal) && Clean(temp)
      && s.disk == Files(temp, s.open.wal[base..], Size(s.open.wal[base..]))
    case Remapped => true
  }

  ghost predicate WriterInv(s: State) {
    s.writer.Some? ==>
      && !s.phase.Sealed? && !s.phase.SnapRenamed? && !s.phase.WalRenamed? && !s.phase.Remapped?
      && s.history != [] && s.disk.wal != []
      && forall k :: k in s.writer.value && s.writer.value[k].Some? ==> EndsSet(WriteOps(s.history[|s.history| - 1]), k)
  }

  predicate EndsSet(ops: seq<Op>, k: bytes) {
    Last(ops, k) >= 0 && ops[Last(ops, k)].Set?
  }

  /** The files through which the records are to be read. */
  function Through(s: State): Files {
    if s.phase.Remapped? then s.disk else s.open
  }

  ghost predicate Inv(s: State) {
    && FilesInv(s)
    && PrefixesOk(s.disk.snap, s.disk.wal, s.history, s.floor, s.now)
    && AllHeld(Through(s), s.store.records, s.history, s.now)
    && PhaseInv(s) && WriterInv(s)
  }
}
