/**
  The loops of compaction and recovery carry out the steps of the database's state machine:
  the same snapshot, the same rotated log, the same remapped and recovered store.
 */
module Refinement {
  import opened Wrappers
  import opened Bytes
  import opened Frames
  import opened LogScan
  import opened TornLog
  import opened Changes
  import opened Records
  import opened Durability
  import opened Database
  import opened DatabaseInvariant
  import opened Stores
  import Compaction
  import Recovery

  // --- the snapshot -------------------------------------------------------------------------

  /** Reading values through open files. */
  function Reading(f: Files): ValueReader
    requires f.written <= Size(f.wal)
  {
    (l: ValueLoc) =>
      var v := if f.written <= Size(f.wal) then ReadLoc(FileBytes(f, l.file), l) else None;
      if v.Some? then Ok(v.value) else Err(ReadFailed)
  }

  function KeysIn(entries: seq<Entry>): (r: seq<bytes>)
    ensures |r| == |entries| && forall i :: 0 <= i < |r| ==> r[i] == entries[i].key
  {
    if entries == [] then [] else [entries[0].key] + KeysIn(entries[1..])
  }

  /** What `Entries` yields is what the model of compaction takes, in the order the record map gives. */
  lemma EntriesTaken(f: Files, records: map<bytes, Record>, entries: seq<Entry>, now: i64)
    requires f.written <= Size(f.wal)
    requires forall k :: Lives(records, k, now) <==> HasEntry(entries, k)
    requires forall e :: e in entries ==> IsEntry(records, e, Reading(f))
    ensures AllLive(records, KeysIn(entries), now)
    ensures (forall k :: k in KeysIn(entries) ==> k in records) && Compaction.FramesOf(entries) == Snapshot(f, records, KeysIn(entries))
  {
    hide FileBytes, ReadLoc, Expired, EncodeAll;
    var order := KeysIn(entries);
    forall k
      ensures k in order <==> HasEntry(entries, k)
    {
      if k in order {
        var i :| 0 <= i < |order| && order[i] == k;
        assert entries[i].key == k;
      }
      if HasEntry(entries, k) {
        var i :| 0 <= i < |entries| && entries[i].key == k;
        assert order[i] == k;
      }
    }
    forall k
      ensures k in order <==> Live(records, k, now)
    {
      assert Lives(records, k, now) <==> HasEntry(entries, k);
    }
    assert forall k :: k in order ==> Live(records, k, now) && k in records;
    forall i | 0 <= i < |entries|
      ensures Compaction.FrameOf(entries[i]) == EntryFrame(order[i], EntryDoc(f, records[order[i]]))
    {
      assert entries[i] in entries && IsEntry(records, entries[i], Reading(f));
    }
  }

  /** Every live value can be read: a held location reads. */
  lemma LiveReads(s: State, k: bytes)
    requires Inv(s) && s.phase.Fenced? && Lives(s.store.records, k, s.now)
    ensures s.open.written <= Size(s.open.wal) && Materialized(s.store.records[k].ref, Reading(s.open)).Ok?
  {
    hide HistoryDoc, Clean, EncodeAll, PrefixesOk, WriterInv, LogOf, HistoryOk, LastWord, FileBytes;
    assert Held(s.open, s.store.records, k, HistoryDoc(s.history, k), s.now);
  }

  lemma SnapshotFits(s: State, entries: seq<Entry>)
    requires Clean(Compaction.FramesOf(entries))
    ensures Compaction.EntriesFit(entries) && forall e :: e in entries ==> |e.key| <= MAX_KEY_LEN
  {
    hide Normal;
    forall e | e in entries
      ensures Fits(Compaction.FrameOf(e)) && Normal(Compaction.FrameOf(e)) == Compaction.FrameOf(e) && |e.key| <= MAX_KEY_LEN
    {
      var i :| 0 <= i < |entries| && entries[i] == e;
      assert Compaction.FramesOf(entries)[i] == Compaction.FrameOf(e);
    }
  }

  lemma TakenClean(s: State, order: seq<bytes>)
    requires Inv(s) && s.phase.Fenced? && AllLive(s.store.records, order, s.now)
    ensures s.open.written <= Size(s.open.wal) && s.disk.written <= Size(s.disk.wal) && Enabled(s, TakeEntries(order))
    ensures Clean(Snapshot(s.open, s.store.records, order))
    ensures Do(s, TakeEntries(order)).phase == Snapped(s.phase.base, Snapshot(s.open, s.store.records, order))
  {
    hide Clean, EncodeAll, PrefixesOk, LogOf, Held, HistoryDoc, HistoryOk, AllHeld, TempsOk;
    TakeEntriesHelds(s.open, s.store.records, order, s.history, s.now, s.disk.wal[s.phase.base..]);
  }

  /** In a state of the machine, taking the entries and writing them never fails, and writes the snapshot of the step `TakeEntries`. */
  method TakeSnapshot(store: Store, open: Files, now: i64, ghost s: State) returns (file: bytes, result: Compaction.SnapshotResult, ghost order: seq<bytes>)
    requires store.Valid() && store.View() == s.store && open == s.open && now == s.now
    requires Inv(s) && s.phase.Fenced? && open.written <= Size(open.wal) && s.disk.written <= Size(s.disk.wal)
    ensures Enabled(s, TakeEntries(order))
    ensures var t := Do(s, TakeEntries(order));
      && t.phase.Snapped? && file == EncodeAll(t.phase.temp) && result.count == |t.phase.temp| && result.size == |file|
      && Compaction.LocationsOf(result.locations, t.phase.temp)
  {
    hide *;
    var entries := ReadAll(store, open, now, s);
    order := KeysIn(entries);
    EntriesTaken(open, s.store.records, entries, now);
    TakenClean(s, order);
    SnapshotFits(s, entries);
    SizeIs(Compaction.FramesOf(entries));
    FramesCount(entries);
    var written := Compaction.WriteSnapshotEntries(entries);
    file, result := written.value.0, written.value.1;
  }

  lemma FramesCount(entries: seq<Entry>)
    ensures |Compaction.FramesOf(entries)| == |entries|
  {
  }

  method ReadAll(store: Store, open: Files, now: i64, ghost s: State) returns (entries: seq<Entry>)
    requires store.Valid() && store.View() == s.store && open == s.open && now == s.now
    requires Inv(s) && s.phase.Fenced? && open.written <= Size(open.wal)
    ensures forall k :: Lives(s.store.records, k, now) <==> HasEntry(entries, k)
    ensures forall e :: e in entries ==> IsEntry(s.store.records, e, Reading(open))
  {
    hide Inv, Sound, Lives, HasEntry, Reading, EncodeAll;
    var got := store.Entries(now, Reading(open));
    forall k | Lives(s.store.records, k, now)
      ensures k in s.store.records && Materialized(s.store.records[k].ref, Reading(open)).Ok?
    {
      LiveReads(s, k);
      LivesIn(s.store.records, k, now);
    }
    assert got.Ok?;
    entries := got.value;
  }

  lemma LivesIn(m: map<bytes, Record>, k: bytes, now: i64)
    requires Lives(m, k, now)
    ensures k in m
  {
  }

  // --- the rotated log ------------------------------------------------------------------------

  /** The frames of some appends, one after the other. */
  function Appends(pieces: seq<seq<Frame>>): seq<Frame> {
    if pieces == [] then [] else pieces[0] + Appends(pieces[1..])
  }

  function Encodings(pieces: seq<seq<Frame>>): (r: seq<bytes>)
    ensures |r| == |pieces| && forall i :: 0 <= i < |r| ==> r[i] == EncodeAll(pieces[i])
  {
    if pieces == [] then [] else [EncodeAll(pieces[0])] + Encodings(pieces[1..])
  }

  lemma {:induction false} AppendsEncoded(pieces: seq<seq<Frame>>)
    ensures Flatten(Encodings(pieces)) == EncodeAll(Appends(pieces))
  {
    hide EncodeAll;
    if pieces == [] {
      EmptySize();
    } else {
      AppendsEncoded(pieces[1..]);
      EncodeAllConcat(pieces[0], Appends(pieces[1..]));
      assert Encodings(pieces)[1..] == Encodings(pieces[1..]);
    }
  }

  /**
    Whatever writers append while the log is copied: the sealed log holds the frames of before
    and those of the first appends, whole, and the copy holds those from the fence on.
   */
  method Rotate(wal: Compaction.Wal, ghost frames: seq<Frame>, ghost pieces: seq<seq<Frame>>, baseFrames: nat, base: nat, leftover: Option<bytes>)
    returns (temp: bytes, ghost n: nat)
    requires wal.content == EncodeAll(frames) && wal.coming == Encodings(pieces) && !wal.isSealed && wal.queued == []
    requires baseFrames <= |frames| && base == Size(frames[..baseFrames]) && base <= |wal.content|
    modifies wal
    ensures n <= |pieces| && wal.content == EncodeAll(frames + Appends(pieces[..n]))
    ensures temp == EncodeAll((frames + Appends(pieces[..n]))[baseFrames..])
  {
    hide *;
    temp := Compaction.CopyTail(wal, base, leftover);
    n := SealedAt(old(wal.content), wal.content, old(wal.coming), wal.coming, frames, pieces);
    var all := frames + Appends(pieces[..n]);
    assert all[..baseFrames] == frames[..baseFrames];
    TailBytes(all, baseFrames);
    assert Size(all[..baseFrames]) == base;
  }

  /** What has been written of the pieces is a whole number of them. */
  ghost method SealedAt(before: bytes, after: bytes, coming: seq<bytes>, left: seq<bytes>, frames: seq<Frame>, pieces: seq<seq<Frame>>) returns (n: nat)
    requires before == EncodeAll(frames) && coming == Encodings(pieces)
    requires after + Flatten(left) == before + Flatten(coming) && Compaction.Suffix(left, coming)
    ensures n <= |pieces| && after == EncodeAll(frames + Appends(pieces[..n]))
  {
    hide EncodeAll, Flatten, Appends;
    n := |coming| - |left|;
    assert left == coming[n..];
    FlattenSplit(coming, n);
    FrontEncodings(pieces, n);
    AppendsEncoded(pieces[..n]);
    EncodeAllConcat(frames, Appends(pieces[..n]));
    assert before + Flatten(coming) == before + Flatten(coming[..n]) + Flatten(left);
    SameEnd(after, before + Flatten(coming[..n]), Flatten(left));
  }

  lemma FrontEncodings(pieces: seq<seq<Frame>>, n: nat)
    requires n <= |pieces|
    ensures Encodings(pieces)[..n] == Encodings(pieces[..n])
  {
    hide EncodeAll;
  }

  lemma SameEnd(a: bytes, b: bytes, end: bytes)
    requires a + end == b + end
    ensures a == b
  {
    assert |a| == |b|;
    assert a == (a + end)[..|a|] && b == (b + end)[..|b|];
  }

  /** A copy of the sealed log from the fence on is the log that `RenameWal` installs. */
  lemma RotatedInstalled(s: State, temp: bytes)
    requires Inv(s) && s.phase.SnapRenamed? && s.phase.base <= |s.disk.wal| && temp == EncodeAll(s.disk.wal[s.phase.base..])
    ensures s.open.written <= Size(s.open.wal) && s.disk.written <= Size(s.disk.wal) && Enabled(s, RenameWal)
    ensures var t := Do(s, RenameWal); t.disk.written <= Size(t.disk.wal) && FileBytes(t.disk, WalFile) == temp
  {
    hide Clean, EncodeAll, PrefixesOk, LogOf, HistoryOk, AllHeld, TempsOk;
    WholeCut(s.disk.wal[s.phase.base..]);
  }

  // --- the remapped store -----------------------------------------------------------------------

  /** `remap_store` in a state of the machine leaves the store of the step `RemapStore`. */
  method RemapStep(store: Store, base: nat, locations: map<bytes, ValueLoc>, ghost s: State)
    requires store.Valid() && store.View() == s.store
    requires s.open.written <= Size(s.open.wal) && s.disk.written <= Size(s.disk.wal) && Enabled(s, RemapStore)
    requires base == Size(s.open.wal[..s.phase.base]) && Compaction.LocationsOf(locations, s.phase.temp)
    modifies store
    ensures store.Valid() && store.View() == Do(s, RemapStore).store
  {
    hide Sound, Remap, EncodeAll, Compaction.LocationsOf;
    Compaction.RemapStore(store, base, s.phase.temp, locations);
  }

  // --- recovery -----------------------------------------------------------------------------

  /** Recovery of the files a crash left behind gives the store and the log of the step `Restart`; an empty file may be missing. */
  method RestartStep(store: Store, snapshot: Option<bytes>, wal: Option<bytes>, scan: Mode, mode: ValueMode, clocks: (seq<i64>, seq<i64>), ghost to: i64, ghost s: State)
    returns (info: Recovery.RecoveryInfo, walAfter: Option<bytes>)
    requires store.Valid() && store.View() == Stored(map[], 0) && mode == s.mode
    requires Inv(s) && s.open.written <= Size(s.open.wal) && s.disk.written <= Size(s.disk.wal) && Enabled(s, Restart(scan, clocks, to))
    requires Recovery.FileOr(snapshot) == FileBytes(s.disk, SnapshotFile) && Recovery.FileOr(wal) == FileBytes(s.disk, WalFile)
    modifies store
    ensures var t := Do(s, Restart(scan, clocks, to));
      && store.Valid() && store.View() == t.store
      && Recovery.FileOr(walAfter) == EncodeAll(t.disk.wal) && info.walFrames == |t.disk.wal|
  {
    hide *;
    ClocksFit(s, scan, clocks, to);
    info, walAfter := Recovery.Recover(store, snapshot, wal, scan, true, mode, clocks);
    RecoveredIs(s, scan, clocks, to);
    TruncatedNothing(wal, ScanFrom(Recovery.FileOr(wal), scan, 0).corrupt, walAfter);
  }

  lemma ClocksFit(s: State, scan: Mode, clocks: (seq<i64>, seq<i64>), to: i64)
    requires s.open.written <= Size(s.open.wal) && s.disk.written <= Size(s.disk.wal) && Enabled(s, Restart(scan, clocks, to))
    ensures |clocks.0| == |LogChanges(ScanFrom(FileBytes(s.disk, SnapshotFile), scan, 0).frames)|
    ensures |clocks.1| == |LogChanges(ScanFrom(FileBytes(s.disk, WalFile), scan, 0).frames)|
  {
    hide FileBytes, ScanFrom, LogChanges, EncodeAll, NothingNested, Complete;
  }

  lemma RecoveredIs(s: State, scan: Mode, clocks: (seq<i64>, seq<i64>), to: i64)
    requires Inv(s) && s.open.written <= Size(s.open.wal) && s.disk.written <= Size(s.disk.wal) && Enabled(s, Restart(scan, clocks, to))
    requires |clocks.0| == |LogChanges(ScanFrom(FileBytes(s.disk, SnapshotFile), scan, 0).frames)|
    requires |clocks.1| == |LogChanges(ScanFrom(FileBytes(s.disk, WalFile), scan, 0).frames)|
    ensures var a, b, t := ScanFrom(FileBytes(s.disk, SnapshotFile), scan, 0), ScanFrom(FileBytes(s.disk, WalFile), scan, 0), Do(s, Restart(scan, clocks, to));
      && t.store == ApplyAll(ApplyAll(Stored(map[], 0), RecoveredOps(LogChanges(a.frames), SnapshotFile, s.mode, clocks.0)),
                             RecoveredOps(LogChanges(b.frames), WalFile, s.mode, clocks.1))
      && TruncatedFile(FileBytes(s.disk, WalFile), b.corrupt) == EncodeAll(t.disk.wal) && |b.frames| == |t.disk.wal|
  {
    hide FileBytes, ScanFrom, LogChanges, EncodeAll, NothingNested, Complete, TruncatedFile, ApplyAll, RecoveredOps, PrefixesOk, AllHeld, PhaseInv, WriterInv, LogOf, HistoryOk, Clean;
    RestartFinds(s, scan);
  }

  lemma TruncatedNothing(wal: Option<bytes>, corrupt: seq<(nat, nat)>, after: Option<bytes>)
    requires after == if wal.Some? then Some(TruncatedFile(wal.value, corrupt)) else wal
    ensures Recovery.FileOr(after) == TruncatedFile(Recovery.FileOr(wal), corrupt)
  {
  }
}
