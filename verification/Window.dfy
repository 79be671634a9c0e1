/**
  Between remapping and reopening the records hold the new locations while the reader still
  has the old files open.  What `get` answers there, exactly, and a run that reads a wrong value.
 */
module ReopenWindow {
  import opened Wrappers
  import opened Bytes
  import opened Frames
  import opened LogScan
  import opened TornLog
  import opened Changes
  import opened Records
  import opened Durability
  import opened Database
  import opened DatabaseInvariant

  // --- what the old handles answer ----------------------------------------------------------

  /** `get` through the open handles answers what the accepted writes say. */
  ghost predicate Right(s: State, k: bytes)
    requires s.open.written <= Size(s.open.wal)
  {
    Get(s.open, s.store.records, k, s.now) == Some(Shown(HistoryDoc(s.history, k), s.now))
  }

  /** A record that is looked up in a file finds there what the renamed files hold at its place. */
  ghost predicate SameBytes(s: State, k: bytes)
    requires s.open.written <= Size(s.open.wal) && s.disk.written <= Size(s.disk.wal)
  {
    Live(s.store.records, k, s.now) && s.store.records[k].ref.Disk? ==>
      var loc := s.store.records[k].ref.loc;
      ReadLoc(FileBytes(s.open, loc.file), loc) == ReadLoc(FileBytes(s.disk, loc.file), loc)
  }

  lemma GetsAgree(f: Files, g: Files, records: map<bytes, Record>, k: bytes, now: i64)
    requires f.written <= Size(f.wal) && g.written <= Size(g.wal) && Get(g, records, k, now).Some?
    ensures Get(f, records, k, now) == Get(g, records, k, now) <==>
      (Live(records, k, now) && records[k].ref.Disk? ==>
        var loc := records[k].ref.loc;
        ReadLoc(FileBytes(f, loc.file), loc) == ReadLoc(FileBytes(g, loc.file), loc))
  {
    hide FileBytes, ReadLoc;
  }

  /**
    In every state of every run `get` through the open handles is right, except that between
    remapping and reopening it is right exactly for the keys whose bytes are the same in both files.
   */
  lemma OldHandlesExact(mode: ValueMode, now: i64, states: seq<State>, steps: seq<Step>, i: nat, k: bytes)
    requires IsRun(states, steps) && states[0] == Init(mode, now) && i < |states|
    ensures var s := states[i];
      && s.open.written <= Size(s.open.wal) && s.disk.written <= Size(s.disk.wal)
      && (Right(s, k) <==> !s.phase.Remapped? || SameBytes(s, k))
  {
    hide *;
    RunKeepsInv(mode, now, states, steps, i);
    var s := states[i];
    InvFiles(s);
    GetShowsHistory(mode, now, states, steps, i, k);
    if s.phase.Remapped? {
      GetsAgree(s.open, s.disk, s.store.records, k, s.now);
      RightIs(s, k);
    } else {
      RightIs(s, k);
    }
  }

  lemma InvFiles(s: State)
    requires Inv(s)
    ensures FilesOk(s.open) && FilesOk(s.disk) && s.open.written <= Size(s.open.wal) && s.disk.written <= Size(s.disk.wal)
  {
    hide Clean, EncodeAll, PrefixesOk, AllHeld, PhaseInv, WriterInv, LogOf, HistoryOk;
  }

  lemma RightIs(s: State, k: bytes)
    requires s.open.written <= Size(s.open.wal) && s.disk.written <= Size(s.disk.wal)
    ensures Right(s, k) <==> Get(s.open, s.store.records, k, s.now) == Some(Shown(HistoryDoc(s.history, k), s.now))
    ensures SameBytes(s, k) <==>
      (Live(s.store.records, k, s.now) && s.store.records[k].ref.Disk? ==>
        var loc := s.store.records[k].ref.loc;
        ReadLoc(FileBytes(s.open, loc.file), loc) == ReadLoc(FileBytes(s.disk, loc.file), loc))
  {
    hide Get, HistoryDoc, Shown, FileBytes, ReadLoc, Live;
  }

  // --- seen before the remapping: old files and old locations only ----------------------------

  /** The logs have been renamed and remapping comes next. */
  ghost predicate Ready(s: State) {
    s.phase.WalRenamed? && s.phase.base <= |s.open.wal| && s.open.written == Size(s.open.wal)
  }

  /** The state after remapping. */
  ghost function Remapping(s: State): State
    requires Ready(s)
  {
    s.(phase := Phase.Remapped, store := s.store.(records := Remap(s.phase.temp, Size(s.open.wal[..s.phase.base]), s.store.records)))
  }

  lemma RemappingIs(s: State)
    requires Inv(s) && Enabled(s, RemapStore)
    ensures Ready(s) && Do(s, RemapStore) == Remapping(s)
  {
    hide Clean, EncodeAll, PrefixesOk, AllHeld, WriterInv, LogOf, HistoryOk, Remap;
  }

  /** What the records and files of a state are worth for one key, once the logs have been renamed. */
  ghost predicate OnFile(s: State, k: bytes, d: Doc, loc: ValueLoc)
    requires Ready(s)
  {
    && k in s.store.records && s.store.records[k].ref == Disk(loc) && !Expired(s.store.records[k].expireAt, s.now)
    && HistoryDoc(s.history, k) == Some(d) && d.expireAt == s.store.records[k].expireAt && d.meta == s.store.records[k].meta
    && Reads(FileBytes(s.open, loc.file), loc, d.value)
    && FilesOk(s.open) && Clean(s.phase.temp) && LastWord(s.open, loc, k)
    && Agree(DiskDoc(s.phase.temp, s.open.wal[s.phase.base..], k), Some(d), s.now)
  }

  lemma OnFileIn(s: State, k: bytes)
    requires Inv(s) && Ready(s)
    ensures Live(s.store.records, k, s.now) && s.store.records[k].ref.Disk? ==>
      HistoryDoc(s.history, k).Some? && OnFile(s, k, HistoryDoc(s.history, k).value, s.store.records[k].ref.loc)
  {
    hide HistoryDoc, DiskDoc, Clean, EncodeAll, LogOf, HistoryOk, FileBytes, LastWord;
    var tail := s.disk.wal;
    assert Held(s.open, s.store.records, k, HistoryDoc(s.history, k), s.now);
    assert PrefixOk(s.phase.temp, tail, s.history, |tail|, k, s.now);
    assert tail[..|tail|] == tail && s.history[..|s.history|] == s.history;
  }

  /** Where remapping sends a location. */
  function Moved(s: State, k: bytes, loc: ValueLoc): ValueLoc
    requires s.phase.WalRenamed? && s.phase.base <= |s.open.wal|
  {
    RemapRef(s.phase.temp, Size(s.open.wal[..s.phase.base]), k, Disk(loc)).loc
  }

  lemma LocReads(b: bytes, loc: ValueLoc, v: bytes)
    requires Reads(b, loc, v)
    ensures loc.offset + loc.len <= |b| && |v| == loc.len
    ensures ReadLoc(b, loc) == Some(b[loc.offset..loc.offset + loc.len])
  {
  }

  /** Right after remapping, a read is right exactly if the old files hold the same bytes at the old and the new place. */
  lemma RemapThenRead(s: State, k: bytes, d: Doc, loc: ValueLoc)
    requires Ready(s) && OnFile(s, k, d, loc)
    ensures var t, moved := Remapping(s), Moved(s, k, loc);
      && (Right(t, k) <==> ReadLoc(FileBytes(s.open, moved.file), moved) == ReadLoc(FileBytes(s.open, loc.file), loc))
      && Get(t.open, t.store.records, k, s.now)
         == match ReadLoc(FileBytes(s.open, moved.file), moved)
            case None => None
            case Some(v) => Some(Some(d.(value := v)))
  {
    hide HistoryDoc, DiskDoc, Clean, EncodeAll, FileBytes, SnapshotLoc, LastWord;
  }

  /**
    A value behind the fence is read at its old place minus the length of the part before the
    fence: right exactly if the old log repeats itself at that distance.
   */
  lemma BehindTheFence(s: State, k: bytes, d: Doc, loc: ValueLoc)
    requires Ready(s) && OnFile(s, k, d, loc)
    requires loc.file.WalFile? && loc.offset >= Size(s.open.wal[..s.phase.base])
    ensures var log, n := EncodeAll(s.open.wal), Size(s.open.wal[..s.phase.base]);
      && loc.offset + loc.len <= |log|
      && Get(s.open, Remapping(s).store.records, k, s.now) == Some(Some(d.(value := log[loc.offset - n..loc.offset - n + loc.len])))
      && (Right(Remapping(s), k) <==> log[loc.offset - n..loc.offset - n + loc.len] == log[loc.offset..loc.offset + loc.len])
  {
    hide HistoryDoc, DiskDoc, Clean, EncodeAll, SnapshotLoc, LastWord, Cut, Right, Get;
    WholeCut(s.open.wal);
    RemapThenRead(s, k, d, loc);
    LocReads(FileBytes(s.open, WalFile), loc, d.value);
    var log, moved := EncodeAll(s.open.wal), Moved(s, k, loc);
    LocReads(log, moved, log[moved.offset..moved.offset + loc.len]);
  }

  /** The new snapshot holds the value of a record that points before the fence, as long as it was. */
  lemma NewPlace(s: State, k: bytes, d: Doc, loc: ValueLoc)
    requires Ready(s) && OnFile(s, k, d, loc) && (loc.file.WalFile? ==> loc.offset < Size(s.open.wal[..s.phase.base]))
    ensures SnapshotLoc(s.phase.temp, k) == Some(Moved(s, k, loc))
    ensures Moved(s, k, loc).file == SnapshotFile && Moved(s, k, loc).len == loc.len
  {
    hide HistoryDoc, DiskDoc, Clean, EncodeAll, SnapshotLoc, Cut, LogOps, Touched, LastWord;
    NotBehind(s.open, s.phase.base, loc, k);
    UntouchedDoc(s.phase.temp, s.open.wal[s.phase.base..], k);
    SnapshotLocReads(s.phase.temp, k);
  }

  /** A value before the fence is read from the old snapshot at its place in the new one. */
  lemma BeforeTheFence(s: State, k: bytes, d: Doc, loc: ValueLoc)
    requires Ready(s) && OnFile(s, k, d, loc) && (loc.file.WalFile? ==> loc.offset < Size(s.open.wal[..s.phase.base]))
    ensures SnapshotLoc(s.phase.temp, k).Some?
    ensures var before, at := EncodeAll(s.open.snap), SnapshotLoc(s.phase.temp, k).value.offset;
      Right(Remapping(s), k) <==> |d.value| == 0 || (at + |d.value| <= |before| && before[at..at + |d.value|] == d.value)
  {
    hide HistoryDoc, DiskDoc, Clean, EncodeAll, SnapshotLoc, Cut, Right, Moved, LastWord;
    NewPlace(s, k, d, loc);
    RemapThenRead(s, k, d, loc);
    LocReads(FileBytes(s.open, loc.file), loc, d.value);
  }

  /** In the first compaction no value from before the fence can be read through the old handles. */
  lemma WindowBeforeReopen(s: State, k: bytes, d: Doc, loc: ValueLoc)
    requires Ready(s) && OnFile(s, k, d, loc) && s.open.snap == []
    requires loc.file.WalFile? && loc.offset < Size(s.open.wal[..s.phase.base]) && loc.len > 0
    ensures Get(s.open, Remapping(s).store.records, k, s.now) == None
  {
    hide HistoryDoc, DiskDoc, Clean, EncodeAll, SnapshotLoc, Cut, Right, Moved, LastWord;
    EmptySize();
    NewPlace(s, k, d, loc);
    RemapThenRead(s, k, d, loc);
  }

  lemma RunMoves(states: seq<State>, steps: seq<Step>, i: nat)
    requires IsRun(states, steps) && i < |steps|
    ensures i + 1 < |states| && states[i].disk.written <= Size(states[i].disk.wal) && states[i].open.written <= Size(states[i].open.wal)
    ensures Enabled(states[i], steps[i]) && states[i + 1] == Do(states[i], steps[i])
  {
    hide Enabled, Do, EncodeAll;
    assert Moves(states[i], steps[i], states[i + 1]);
  }

  /** All records on file when a run remaps are as the lemmas above require. */
  lemma RemapInRun(mode: ValueMode, now: i64, states: seq<State>, steps: seq<Step>, i: nat, k: bytes)
    requires IsRun(states, steps) && states[0] == Init(mode, now) && i < |steps| && steps[i] == RemapStore
    ensures i + 1 < |states| && Ready(states[i]) && states[i + 1] == Remapping(states[i])
    ensures var s := states[i];
      Live(s.store.records, k, s.now) && s.store.records[k].ref.Disk? ==>
        HistoryDoc(s.history, k).Some? && OnFile(s, k, HistoryDoc(s.history, k).value, s.store.records[k].ref.loc)
  {
    hide *;
    RunMoves(states, steps, i);
    RunKeepsInv(mode, now, states, steps, i);
    var s := states[i];
    RemappingIs(s);
    OnFileIn(s, k);
  }
}
