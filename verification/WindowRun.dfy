/** A run in which `get`, between remapping and reopening, answers the value of another key. */
module WindowRun {
  import opened Wrappers
  import opened Bytes
  import opened Frames
  import opened LogScan
  import opened TornLog
  import opened Changes
  import opened Records
  import opened Durability
  import opened Database
  import opened DatabaseInvariant
  import opened ReopenWindow

  /** Some run leads from s to t. */
  ghost predicate Reaches(s: State, t: State) {
    exists states, steps :: IsRun(states, steps) && states[0] == s && states[|steps|] == t
  }

  lemma ReachesSelf(s: State)
    ensures Reaches(s, s)
  {
    hide Enabled, Do;
    assert IsRun([s], []);
  }

  lemma ReachesOn(a: State, s: State, step: Step)
    requires Reaches(a, s) && s.disk.written <= Size(s.disk.wal) && s.open.written <= Size(s.open.wal) && Enabled(s, step)
    ensures Reaches(a, Do(s, step))
  {
    hide Enabled, Do, EncodeAll;
    var t := Do(s, step);
    var states, steps :| IsRun(states, steps) && states[0] == a && states[|steps|] == s;
    var more, on := states + [t], steps + [step];
    forall i | 0 <= i < |on|
      ensures Moves(more[i], on[i], more[i + 1])
    {
      if i < |steps| {
        assert Moves(states[i], steps[i], states[i + 1]);
      }
    }
    assert IsRun(more, on) && more[0] == a && more[|on|] == t;
  }

  function SetOne(k: bytes, v: bytes): Write {
    One(Set(k, v, 0, None))
  }

  function Place(wal: seq<Frame>, k: bytes, v: bytes): ValueLoc {
    ValueLoc(WalFile, Size(wal) + HEADER_SIZE + |k|, |v|)
  }

  /** No write is under way, everything appended is in the file, and the log is open. */
  ghost predicate Quiet(s: State) {
    && s.mode.OnDisk? && s.writer.None? && s.open == s.disk && s.disk.written == Size(s.disk.wal)
    && (s.phase.Idle? || s.phase.Fenced?)
  }

  /** A quiet database after one key has been set, published and acknowledged. */
  ghost function Wrote(s: State, k: bytes, v: bytes): State {
    var wal := s.disk.wal + [WriteFrame(SetOne(k, v))];
    var disk := Files(s.disk.snap, wal, Size(wal));
    s.(history := s.history + [SetOne(k, v)], acked := |s.history| + 1, disk := disk, open := disk,
       store := s.store.Put(k, Memory(v), 0, None).Put(k, Disk(Place(s.disk.wal, k, v)), 0, None))
  }

  lemma PublishedPlace(wal: seq<Frame>, k: bytes, v: bytes)
    ensures var more := wal + [WriteFrame(SetOne(k, v))];
      && LastChanges(more) == [Change(Set(k, v, 0, None), Size(wal) + HEADER_SIZE + |k|)]
      && LastSet(LastChanges(more), k) == 0
  {
    hide *;
    var f := WriteFrame(SetOne(k, v));
    assert (wal + [f])[..|wal|] == wal;
    LastChangesAre(wal + [f]);
    SetChanges(k, v, Size(wal), |Encoded(f)|);
    OnlySet(Change(Set(k, v, 0, None), Size(wal) + HEADER_SIZE + |k|));
  }

  lemma SetChanges(k: bytes, v: bytes, at: nat, n: nat)
    ensures FrameChanges(Located(at, WriteFrame(SetOne(k, v)), n)) == [Change(Set(k, v, 0, None), at + HEADER_SIZE + |k|)]
  {
  }

  lemma OnlySet(c: Change)
    requires c.op.Set?
    ensures LastSet([c], c.op.key) == 0
  {
  }

  lemma AppliedOne(s: Stored, k: bytes, v: bytes)
    ensures ApplyAll(s, AppliedOps(WriteOps(SetOne(k, v)))) == s.Put(k, Memory(v), 0, None)
    ensures Sequences(s.Put(k, Memory(v), 0, None), WriteOps(SetOne(k, v))) == map[k := Some(s.sequence + 1)]
  {
    var ops := AppliedOps(WriteOps(SetOne(k, v)));
    assert ops == [PutOp(k, Memory(v), 0, None)] && ops[..0] == [];
    assert Set(k, v, 0, None) in WriteOps(SetOne(k, v));
  }

  lemma WriteReaches(a: State, s: State, k: bytes, v: bytes)
    requires Reaches(a, s) && Quiet(s) && WriteOk(SetOne(k, v))
    ensures Reaches(a, Wrote(s, k, v)) && Quiet(Wrote(s, k, v))
  {
    hide Reaches, EncodeAll, WriteOk, WriteFrame, ApplyAll, AppliedOps, Sequences, LastChanges, LastSet, WriteOps;
    var f := WriteFrame(SetOne(k, v));
    AppliedOne(s.store, k, v);
    PublishedPlace(s.disk.wal, k, v);
    CutGrows(s.disk.wal, f, s.disk.written);
    ReachesOn(a, s, Append(SetOne(k, v)));
    var s1 := Do(s, Append(SetOne(k, v)));
    var n := Size(s1.disk.wal) - s1.disk.written;
    ReachesOn(a, s1, Flush(n));
    var s2 := Do(s1, Flush(n));
    ReachesOn(a, s2, Publish(k));
    var s3 := Do(s2, Publish(k));
    ReachesOn(a, s3, Acknowledge);
    assert Do(s3, Acknowledge) == Wrote(s, k, v);
  }

  // --- the run --------------------------------------------------------------------------------

  /** Two keys in memory and on disk, the first before the fence and the second behind it. */
  ghost function BeforeRotation(now: i64, a: bytes, x: bytes, b: bytes, y: bytes): State {
    var s := Wrote(Init(OnDisk, now), a, x);
    Wrote(s.(phase := Fenced(1)), b, y)
  }

  lemma TwoWrites(now: i64, a: bytes, x: bytes, b: bytes, y: bytes)
    requires WriteOk(SetOne(a, x)) && WriteOk(SetOne(b, y))
    ensures Reaches(Init(OnDisk, now), BeforeRotation(now, a, x, b, y)) && Quiet(BeforeRotation(now, a, x, b, y))
  {
    hide Reaches, EncodeAll, WriteOk, WriteFrame;
    var s0 := Init(OnDisk, now);
    EmptySize();
    ReachesSelf(s0);
    WriteReaches(s0, s0, a, x);
    var s1 := Wrote(s0, a, x);
    assert s1.disk.wal == [WriteFrame(SetOne(a, x))] == s1.disk.wal[..1];
    ReachesOn(s0, s1, Fence(1));
    assert Do(s1, Fence(1)) == s1.(phase := Fenced(1));
    WriteReaches(s0, s1.(phase := Fenced(1)), b, y);
  }

  /** A compaction of a quiet, fenced database, up to where the logs have been renamed. */
  lemma RotationReaches(a: State, s: State, order: seq<bytes>)
    requires Reaches(a, s) && Quiet(s) && s.phase.Fenced? && s.phase.base <= |s.disk.wal| && AllLive(s.store.records, order, s.now)
    ensures exists t ::
      && Reaches(a, t) && t.phase.WalRenamed? && t.phase.base == s.phase.base && t.open == s.open
      && t.store == s.store && t.history == s.history && t.now == s.now && t.open.written <= Size(t.open.wal)
      && t.disk.written <= Size(t.disk.wal)
  {
    hide Reaches, EncodeAll, Snapshot, AllLive;
    ReachesOn(a, s, TakeEntries(order));
    var s1 := Do(s, TakeEntries(order));
    ReachesOn(a, s1, Seal);
    var s2 := Do(s1, Seal);
    ReachesOn(a, s2, RenameSnapshot);
    var s3 := Do(s2, RenameSnapshot);
    ReachesOn(a, s3, RenameWal);
  }

  /** Where the second of two frames with values of one length was, less the first, lies the first value. */
  lemma FirstValueThere(a: bytes, x: bytes, b: bytes, y: bytes)
    requires |a| == |b| && |x| == |y|
    ensures var f, g := WriteFrame(SetOne(a, x)), WriteFrame(SetOne(b, y));
      var at := Place([f], b, y).offset - Size([f]);
      && at == HEADER_SIZE + |a| && at + |x| <= |EncodeAll([f] + [g])| && EncodeAll([f] + [g])[at..at + |x|] == x
  {
    hide EncodeAll, Encoded;
    var f, g := WriteFrame(SetOne(a, x)), WriteFrame(SetOne(b, y));
    EncodeAllConcat([f], [g]);
    ValueInPlace(f, [], EncodeAll([g]));
    OneEncoded(f);
    assert [] + Encoded(f) + EncodeAll([g]) == Encoded(f) + EncodeAll([g]);
    EncodedLength(f);
  }

  lemma OneEncoded(f: Frame)
    ensures EncodeAll([f]) == Encoded(f)
  {
    hide Encoded;
    assert [f][1..] == [] && Encoded(f) + [] == Encoded(f);
  }

  lemma TwoInHistory(a: bytes, x: bytes, b: bytes, y: bytes)
    ensures HistoryDoc([SetOne(a, x)] + [SetOne(b, y)], b) == Some(Doc(y, 0, None))
  {
    HistorySnoc([SetOne(a, x)], SetOne(b, y), b);
  }

  lemma RemappedRead(now: i64, a: bytes, x: bytes, b: bytes, y: bytes, t: State)
    requires |a| == |b| && |x| == |y|
    requires var s := BeforeRotation(now, a, x, b, y);
      t.phase.WalRenamed? && t.phase.base == 1 && t.open == s.open && t.store == s.store && t.open.written <= Size(t.open.wal)
    ensures var records := Remap(t.phase.temp, Size(t.open.wal[..1]), t.store.records);
      Get(t.open, records, b, t.now) == Some(Some(Doc(x, 0, None)))
  {
    hide *;
    var f, g := WriteFrame(SetOne(a, x)), WriteFrame(SetOne(b, y));
    FirstValueThere(a, x, b, y);
    Positions(now, a, x, b, y);
    WholeCut(t.open.wal);
    ShiftedRead(t.open, t.phase.temp, Size([f]), t.store.records, b, t.now, Place([f], b, y), x);
  }

  lemma Positions(now: i64, a: bytes, x: bytes, b: bytes, y: bytes)
    ensures var s, f, g := BeforeRotation(now, a, x, b, y), WriteFrame(SetOne(a, x)), WriteFrame(SetOne(b, y));
      && s.open.wal == [f] + [g] && s.open.wal[..1] == [f] && s.open.written == Size([f] + [g])
      && b in s.store.records && s.store.records[b].ref == Disk(Place([f], b, y))
      && s.store.records[b].expireAt == 0 && s.store.records[b].meta == None
      && Place([f], b, y).file.WalFile? && Place([f], b, y).len == |y| && Place([f], b, y).offset >= Size([f])
  {
    hide EncodeAll, WriteFrame;
    var f := WriteFrame(SetOne(a, x));
    assert Init(OnDisk, now).disk.wal + [f] == [f];
  }

  lemma ShiftedRead(f: Files, temp: seq<Frame>, n: nat, records: map<bytes, Record>, k: bytes, now: i64, loc: ValueLoc, v: bytes)
    requires f.written == Size(f.wal) && Cut(f.wal, f.written) == EncodeAll(f.wal)
    requires k in records && records[k].ref == Disk(loc) && records[k].expireAt == 0 && records[k].meta == None
    requires loc.file.WalFile? && loc.offset >= n && loc.len == |v|
    requires loc.offset - n + |v| <= |EncodeAll(f.wal)| && EncodeAll(f.wal)[loc.offset - n..loc.offset - n + |v|] == v
    ensures Get(f, Remap(temp, n, records), k, now) == Some(Some(Doc(v, 0, None)))
  {
    hide EncodeAll, Cut, SnapshotLoc;
  }

  /**
    Set one key, fence, set another with key and value of the same lengths, and compact.
    After remapping and before reopening, `get` of the second key answers the first one's value.
   */
  lemma OtherValueRead(now: i64, a: bytes, x: bytes, b: bytes, y: bytes)
    requires WriteOk(SetOne(a, x)) && WriteOk(SetOne(b, y)) && a != b && x != y && |a| == |b| && |x| == |y|
    ensures exists t ::
      && Reaches(Init(OnDisk, now), t) && t.phase.Remapped? && t.open.written <= Size(t.open.wal)
      && HistoryDoc(t.history, b) == Some(Doc(y, 0, None))
      && Get(t.open, t.store.records, b, t.now) == Some(Some(Doc(x, 0, None)))
  {
    hide Reaches, EncodeAll, WriteOk, WriteFrame, HistoryDoc, Get;
    var s := BeforeRotation(now, a, x, b, y);
    TwoWrites(now, a, x, b, y);
    RotationReaches(Init(OnDisk, now), s, [a, b]);
    assert s.history == [SetOne(a, x)] + [SetOne(b, y)];
    var t :| Reaches(Init(OnDisk, now), t) && t.phase.WalRenamed? && t.phase.base == s.phase.base && t.open == s.open
      && t.store == s.store && t.history == s.history && t.now == s.now && t.open.written <= Size(t.open.wal)
      && t.disk.written <= Size(t.disk.wal);
    ReachesOn(Init(OnDisk, now), t, RemapStore);
    RemappedRead(now, a, x, b, y, t);
    TwoInHistory(a, x, b, y);
  }
}
