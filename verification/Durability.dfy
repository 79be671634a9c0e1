/**
  The store against its files: what the log says, where the records point, and how both
  survive appending, publishing, compaction and recovery.
 */
module Durability {
  import opened Wrappers
  import opened Bytes
  import opened Frames
  import opened LogScan
  import opened TornLog
  import opened Changes
  import opened Records

  /** A snapshot file, and a log of which only the first bytes are in its file yet. */
  datatype Files = Files(snap: seq<Frame>, wal: seq<Frame>, written: nat)

  function Size(fs: seq<Frame>): nat {
    |EncodeAll(fs)|
  }

  ghost predicate FilesOk(f: Files) {
    Clean(f.snap) && Clean(f.wal) && f.written <= Size(f.wal)
  }

  function FileBytes(f: Files, file: ValueFile): bytes
    requires f.written <= Size(f.wal)
  {
    if file.SnapshotFile? then EncodeAll(f.snap) else Cut(f.wal, f.written)
  }

  /** Reading a location; an empty value is not looked up in the file. */
  function ReadLoc(b: bytes, loc: ValueLoc): Option<bytes> {
    if loc.len == 0 then Some([])
    else if loc.offset + loc.len <= |b| then Some(b[loc.offset..loc.offset + loc.len])
    else None
  }

  function Materialize(f: Files, ref: ValueRef): Option<bytes>
    requires f.written <= Size(f.wal)
  {
    match ref
    case Memory(v) => Some(v)
    case Disk(loc) => ReadLoc(FileBytes(f, loc.file), loc)
  }

  // --- what files and histories mean --------------------------------------------------------------

  /** The document of k once the snapshot and then the log are replayed. */
  function DiskDoc(snap: seq<Frame>, wal: seq<Frame>, k: bytes): Option<Doc> {
    After(After(None, LogOps(snap), k), LogOps(wal), k)
  }

  function HistoryOps(ws: seq<Write>): seq<Op> {
    if ws == [] then [] else HistoryOps(ws[..|ws| - 1]) + WriteOps(ws[|ws| - 1])
  }

  /** The document of k after a history of writes. */
  function HistoryDoc(ws: seq<Write>, k: bytes): Option<Doc> {
    After(None, HistoryOps(ws), k)
  }

  /** That is what the last operation on k set, if it was a set and has not run out. */
  lemma HistorySaid(ws: seq<Write>, k: bytes, t: i64, v: bytes, e: i64, m: Option<bytes>)
    ensures Shown(HistoryDoc(ws, k), t) == Some(Doc(v, e, m)) <==>
      && (e == 0 || t < e)
      && exists i :: 0 <= i < |HistoryOps(ws)| && HistoryOps(ws)[i] == Set(k, v, e, m) && forall j :: i < j < |HistoryOps(ws)| ==> HistoryOps(ws)[j].key != k
  {
    hide HistoryOps;
    var ops := HistoryOps(ws);
    var last := Last(ops, k);
    forall i | 0 <= i < |ops| && ops[i].key == k && forall j :: i < j < |ops| ==> ops[j].key != k
      ensures i == last
    {
    }
  }

  lemma HistorySnoc(ws: seq<Write>, w: Write, k: bytes)
    ensures HistoryDoc(ws + [w], k) == After(HistoryDoc(ws, k), WriteOps(w), k)
  {
    hide WriteOps, After;
    assert (ws + [w])[..|ws|] == ws;
    AfterConcat(None, HistoryOps(ws), WriteOps(w), k);
  }

  lemma LogOpsOne(f: Frame)
    ensures LogOps([f]) == FrameOps(f)
  {
    hide FrameOps;
    assert [f][1..] == [];
    assert FrameOps(f) + [] == FrameOps(f);
  }

  lemma DiskDocSnoc(snap: seq<Frame>, wal: seq<Frame>, f: Frame, k: bytes)
    ensures DiskDoc(snap, wal + [f], k) == After(DiskDoc(snap, wal, k), FrameOps(f), k)
    ensures Touched(LogOps(wal + [f]), k) <==> Touched(LogOps(wal), k) || Touched(FrameOps(f), k)
  {
    hide FrameOps, After, LogOps, Last;
    LogOpsConcat(wal, [f]);
    LogOpsOne(f);
    AfterConcat(After(None, LogOps(snap), k), LogOps(wal), FrameOps(f), k);
  }

  lemma DiskDocConcat(snap: seq<Frame>, a: seq<Frame>, b: seq<Frame>, k: bytes)
    ensures DiskDoc(snap, a + b, k) == After(DiskDoc(snap, a, k), LogOps(b), k)
    ensures Touched(LogOps(a + b), k) <==> Touched(LogOps(a), k) || Touched(LogOps(b), k)
  {
    hide After, LogOps, Last;
    LogOpsConcat(a, b);
    AfterConcat(After(None, LogOps(snap), k), LogOps(a), LogOps(b), k);
  }

  // --- where values lie -------------------------------------------------------------------------

  function FileChanges(fs: seq<Frame>): seq<Change> {
    LogChanges(LocateAll(fs, 0))
  }

  /** Behind the frame that holds this offset the log does not touch k. */
  ghost predicate Settled(wal: seq<Frame>, offset: nat, k: bytes) {
    forall c :: 0 <= c <= |wal| && offset < Size(wal[..c]) ==> !Touched(LogOps(wal[c..]), k)
  }

  /** A location is the last word on its key in the files. */
  ghost predicate LastWord(f: Files, loc: ValueLoc, k: bytes) {
    if loc.file.SnapshotFile? then !Touched(LogOps(f.wal), k) else Settled(f.wal, loc.offset, k)
  }

  predicate Reads(b: bytes, loc: ValueLoc, v: bytes) {
    loc.offset + loc.len <= |b| && b[loc.offset..loc.offset + loc.len] == v
  }

  /** The record stands for the document: in memory, or at a location that reads its value. */
  ghost predicate RecordOk(f: Files, r: Record, d: Doc, k: bytes)
    requires f.written <= Size(f.wal)
  {
    && r.expireAt == d.expireAt && r.meta == d.meta
    && match r.ref
       case Memory(v) => v == d.value
       case Disk(loc) => Reads(FileBytes(f, loc.file), loc, d.value) && LastWord(f, loc, k)
  }

  /** The store shows the document of k from now on. */
  ghost predicate Held(f: Files, records: map<bytes, Record>, k: bytes, d: Option<Doc>, now: i64)
    requires f.written <= Size(f.wal)
  {
    if k in records then
      (d.Some? && RecordOk(f, records[k], d.value, k)) || (Expired(records[k].expireAt, now) && Dead(d, now))
    else Dead(d, now)
  }

  /** What `get` answers at time now, reading through the given files. */
  function Get(f: Files, records: map<bytes, Record>, k: bytes, now: i64): Option<Option<Doc>>
    requires f.written <= Size(f.wal)
  {
    if k !in records || Expired(records[k].expireAt, now) then Some(None)
    else match Materialize(f, records[k].ref)
      case None => None
      case Some(v) => Some(Some(Doc(v, records[k].expireAt, records[k].meta)))
  }

  /** A held document is what `get` answers, at every later time. */
  lemma HeldReads(f: Files, records: map<bytes, Record>, k: bytes, d: Option<Doc>, now: i64, t: i64)
    requires FilesOk(f) && Held(f, records, k, d, now) && now <= t
    ensures Get(f, records, k, t) == Some(Shown(d, t))
  {
    hide FileBytes, LastWord, Clean;
  }

  // --- steps --------------------------------------------------------------------------------

  lemma HeldLater(f: Files, records: map<bytes, Record>, k: bytes, d: Option<Doc>, now: i64, t: i64)
    requires FilesOk(f) && Held(f, records, k, d, now) && now <= t
    ensures Held(f, records, k, d, t)
  {
    hide RecordOk;
  }

  lemma HeldReap(f: Files, s: Stored, k: bytes, d: Option<Doc>, now: i64, x: bytes)
    requires FilesOk(f) && Held(f, s.records, k, d, now)
    ensures Held(f, s.Reap(x, now).records, k, d, now)
  {
  }

  lemma SettledAppend(wal: seq<Frame>, f: Frame, offset: nat, k: bytes)
    requires Settled(wal, offset, k) && !Touched(FrameOps(f), k)
    ensures Settled(wal + [f], offset, k)
  {
    hide EncodeAll, LogOps, FrameOps, Touched;
    forall c | 0 <= c <= |wal + [f]| && offset < Size((wal + [f])[..c])
      ensures !Touched(LogOps((wal + [f])[c..]), k)
    {
      if c <= |wal| {
        assert (wal + [f])[..c] == wal[..c] && (wal + [f])[c..] == wal[c..] + [f];
        DiskDocSnoc([], wal[c..], f, k);
      } else {
        assert (wal + [f])[c..] == [];
        UntouchedEmpty(k);
      }
    }
  }

  lemma UntouchedEmpty(k: bytes)
    ensures !Touched(LogOps([]), k)
  {
  }

  lemma CutGrows(wal: seq<Frame>, f: Frame, written: nat)
    requires written <= Size(wal)
    ensures written <= Size(wal + [f]) && Cut(wal + [f], written) == Cut(wal, written)
  {
    hide *;
    assert Size(wal) == |EncodeAll(wal)| && Size(wal + [f]) == |EncodeAll(wal + [f])| by { SizeIs(wal); SizeIs(wal + [f]); }
    EncodeAllConcat(wal, [f]);
    CutIs(wal, written);
    CutIs(wal + [f], written);
  }

  lemma SizeIs(fs: seq<Frame>)
    ensures Size(fs) == |EncodeAll(fs)|
  {
  }

  /** A write is applied at once and appended; what was written before still reads. */
  lemma HeldAppend(f: Files, s: Stored, k: bytes, d: Option<Doc>, frame: Frame, now: i64)
    requires FilesOk(f) && Held(f, s.records, k, d, now)
    ensures f.written <= Size(f.wal + [frame])
    ensures var ops := FrameOps(frame);
      Held(f.(wal := f.wal + [frame]), ApplyAll(s, AppliedOps(ops)).records, k, After(d, ops, k), now)
  {
    hide FrameOps, EncodeAll, LogOps, Settled, ApplyAll, AppliedOps, Clean, Cut;
    var ops, x := FrameOps(frame), Located(0, frame, 0);
    CutGrows(f.wal, frame, f.written);
    FrameChangesSayOps(x);
    var cs := FrameChanges(x);
    AppliedCarriesOut(cs, WalFile, now);
    ReplayDecides(s, AppliedOps(ops), cs, WalFile, InMemory, k, now);
    if !Touched(ops, k) {
      DiskDocSnoc([], f.wal, frame, k);
      if k in s.records && s.records[k].ref.Disk? && s.records[k].ref.loc.file.WalFile? && Settled(f.wal, s.records[k].ref.loc.offset, k) {
        SettledAppend(f.wal, frame, s.records[k].ref.loc.offset, k);
      }
    }
  }

  lemma SplitChanges(fs: seq<Frame>, c: nat)
    requires Clean(fs) && c <= |fs|
    ensures var a, b := FileChanges(fs[..c]), LogChanges(LocateAll(fs[c..], Size(fs[..c])));
      && FileChanges(fs) == a + b && Ops(b) == LogOps(fs[c..]) && Ops(a) == LogOps(fs[..c])
      && AllReadIn(EncodeAll(fs), Size(fs[..c]), Size(fs), b)
  {
    hide *;
    var before, rest := EncodeAll(fs[..c]), EncodeAll(fs[c..]);
    assert fs == fs[..c] + fs[c..];
    SizeIs(fs[..c]);
    SizeIs(fs);
    assert FileChanges(fs[..c]) == LogChanges(LocateAll(fs[..c], 0)) && FileChanges(fs) == LogChanges(LocateAll(fs, 0)) by { FileChangesAre(fs); FileChangesAre(fs[..c]); }
    LocateAllConcat(fs[..c], fs[c..], 0);
    LogChangesConcat(LocateAll(fs[..c], 0), LocateAll(fs[c..], |before|));
    CleanParts(fs, c);
    LogChangesSayOps(fs[..c], 0);
    LogChangesSayOps(fs[c..], |before|);
    LogInPlace(before, fs[c..], []);
    EncodeAllConcat(fs[..c], fs[c..]);
    assert before + rest + [] == EncodeAll(fs);
  }

  lemma FileChangesAre(fs: seq<Frame>)
    ensures FileChanges(fs) == LogChanges(LocateAll(fs, 0))
  {
  }

  lemma ChangeReads(b: bytes, lo: nat, hi: nat, cs: seq<Change>, i: nat, file: ValueFile)
    requires AllReadIn(b, lo, hi, cs) && i < |cs| && cs[i].op.Set?
    ensures lo <= cs[i].at && cs[i].at + |cs[i].op.value| <= hi <= |b|
    ensures Reads(b, ValueLoc(file, cs[i].at, |cs[i].op.value|), cs[i].op.value)
  {
    assert ReadsIn(b, lo, hi, cs[i]);
  }

  /** The last change on a key reads from the log, and nothing behind it touches the key. */
  lemma LastSettled(fs: seq<Frame>, k: bytes)
    requires Clean(fs)
    ensures Ops(FileChanges(fs)) == LogOps(fs)
    ensures var cs, i := FileChanges(fs), Last(LogOps(fs), k);
      i >= 0 && cs[i].op.Set? ==>
        && Reads(EncodeAll(fs), ValueLoc(WalFile, cs[i].at, |cs[i].op.value|), cs[i].op.value)
        && Settled(fs, cs[i].at, k)
  {
    hide FileChanges, LogOps, EncodeAll, Size, AllReadIn, LogChanges, Last;
    assert fs[..0] == [] && fs[0..] == fs;
    SplitChanges(fs, 0);
    FileChangesAre(fs);
    LogChangesSayOps(fs, 0);
    EmptySize();
    var cs, i := FileChanges(fs), Last(LogOps(fs), k);
    if i >= 0 && cs[i].op.Set? {
      ChangeReads(EncodeAll(fs), 0, Size(fs), cs, i, WalFile) by { NoChanges(); assert [] + LogChanges(LocateAll(fs, 0)) == cs; }
      forall c | 0 <= c <= |fs| && cs[i].at < Size(fs[..c])
        ensures !Touched(LogOps(fs[c..]), k)
      {
        BehindUntouched(fs, c, k, i);
      }
    }
  }

  lemma BehindUntouched(fs: seq<Frame>, c: nat, k: bytes, i: nat)
    requires Clean(fs) && c <= |fs| && i < |FileChanges(fs)|
    requires Ops(FileChanges(fs)) == LogOps(fs) && i == Last(LogOps(fs), k)
    requires FileChanges(fs)[i].op.Set? && FileChanges(fs)[i].at < Size(fs[..c])
    ensures !Touched(LogOps(fs[c..]), k)
  {
    hide *;
    SplitChanges(fs, c);
    var a, b := FileChanges(fs[..c]), LogChanges(LocateAll(fs[c..], Size(fs[..c])));
    assert fs == fs[..c] + fs[c..];
    LogOpsConcat(fs[..c], fs[c..]);
    LastConcat(LogOps(fs[..c]), LogOps(fs[c..]), k);
    SplitLengths(a, b);
    var j := Last(LogOps(fs[c..]), k);
    assert Touched(LogOps(fs[c..]), k) <==> j >= 0 by { TouchedIs(LogOps(fs[c..]), k); }
    if j >= 0 {
      assert i == |a| + j && FileChanges(fs)[i] == b[j];
      ChangeReads(EncodeAll(fs), Size(fs[..c]), Size(fs), b, j, WalFile);
    }
  }

  lemma TouchedIs(ops: seq<Op>, k: bytes)
    ensures Touched(ops, k) <==> Last(ops, k) >= 0
  {
  }

  lemma EmptySize()
    ensures Size([]) == 0 && EncodeAll([]) == []
  {
  }

  lemma NoChanges()
    ensures FileChanges([]) == [] && LogOps([]) == []
  {
  }

  // --- recovery -----------------------------------------------------------------------------

  /** The store that recovery builds: the snapshot first, then the log. */
  function Replayed(snap: seq<Change>, wal: seq<Change>, mode: ValueMode, clocks: (seq<i64>, seq<i64>)): Stored
    requires |clocks.0| == |snap| && |clocks.1| == |wal|
  {
    ApplyAll(ApplyAll(Stored(map[], 0), RecoveredOps(snap, SnapshotFile, mode, clocks.0)), RecoveredOps(wal, WalFile, mode, clocks.1))
  }

  /** Whatever the clock reads on the way, recovery shows what the files say. */
  lemma RecoverHeld(snap: seq<Frame>, wal: seq<Frame>, mode: ValueMode, clocks: (seq<i64>, seq<i64>), k: bytes, now: i64)
    requires Clean(snap) && Clean(wal)
    requires |clocks.0| == |FileChanges(snap)| && |clocks.1| == |FileChanges(wal)|
    requires AllBy(clocks.0, now) && AllBy(clocks.1, now)
    ensures Held(Files(snap, wal, Size(wal)), Replayed(FileChanges(snap), FileChanges(wal), mode, clocks).records, k, DiskDoc(snap, wal, k), now)
  {
    hide Last, Ops, FileChanges, RecoveredOps, ApplyAll, CarriesOut, AllCarryOut, EncodeAll, LogOps, Clean, Settled, Cut;
    var cs, ds := FileChanges(snap), FileChanges(wal);
    var s0 := Stored(map[], 0);
    var s1 := ApplyAll(s0, RecoveredOps(cs, SnapshotFile, mode, clocks.0));
    RecoveredCarriesOut(cs, SnapshotFile, mode, clocks.0, now);
    RecoveredCarriesOut(ds, WalFile, mode, clocks.1, now);
    ReplayDecides(s0, RecoveredOps(cs, SnapshotFile, mode, clocks.0), cs, SnapshotFile, mode, k, now);
    ReplayDecides(s1, RecoveredOps(ds, WalFile, mode, clocks.1), ds, WalFile, mode, k, now);
    LastSettled(snap, k);
    LastSettled(wal, k);
    WholeCut(wal);
  }

  lemma WholeCut(wal: seq<Frame>)
    ensures Cut(wal, Size(wal)) == EncodeAll(wal)
  {
    assert EncodeAll(wal)[..Size(wal)] == EncodeAll(wal);
  }

  // --- publishing ---------------------------------------------------------------------------

  /** The changes of the last frame of a log, at their places in its file. */
  function LastChanges(wal: seq<Frame>): seq<Change>
    requires wal != []
  {
    FrameChanges(Located(Size(wal[..|wal| - 1]), wal[|wal| - 1], |Encoded(wal[|wal| - 1])|))
  }

  lemma LastChangesEnd(wal: seq<Frame>, k: bytes)
    requires Clean(wal) && wal != []
    ensures var i, l := Last(LogOps(wal), k), Last(Ops(LastChanges(wal)), k);
      && Ops(LastChanges(wal)) == FrameOps(wal[|wal| - 1])
      && Ops(FileChanges(wal)) == LogOps(wal)
      && (l >= 0 ==> i >= 0 && FileChanges(wal)[i] == LastChanges(wal)[l])
  {
    hide *;
    var n := |wal| - 1;
    var f := wal[n];
    assert wal == wal[..n] + [f] && wal[n..] == [f];
    SplitChanges(wal, n);
    LocateOne(f, Size(wal[..n]));
    CleanLast(wal);
    LogChangesOne(Located(Size(wal[..n]), f, |Encoded(f)|));
    assert LastChanges(wal) == LogChanges(LocateAll([f], Size(wal[..n]))) by { LastChangesAre(wal); }
    LogOpsOne(f);
    LogOpsConcat(wal[..n], [f]);
    LastConcat(LogOps(wal[..n]), LogOps([f]), k);
    SplitLengths(FileChanges(wal[..n]), LastChanges(wal));
  }

  lemma CleanLast(wal: seq<Frame>)
    requires Clean(wal) && wal != []
    ensures Normal(wal[|wal| - 1]) == wal[|wal| - 1] && Clean(wal[..|wal| - 1])
  {
  }

  lemma SplitLengths(a: seq<Change>, b: seq<Change>)
    ensures Ops(a + b) == Ops(a) + Ops(b) && |Ops(a)| == |a|
    ensures forall k :: -1 <= Last(Ops(b), k) < |b|
  {
    hide Last;
  }

  lemma LastChangesAre(wal: seq<Frame>)
    requires wal != []
    ensures var n := |wal| - 1; LastChanges(wal) == FrameChanges(Located(Size(wal[..n]), wal[n], |Encoded(wal[n])|))
  {
  }

  lemma LogChangesOne(x: Located)
    ensures LogChanges([x]) == FrameChanges(x)
  {
    hide FrameChanges;
    assert [x][1..] == [];
    assert FrameChanges(x) + [] == FrameChanges(x);
  }

  lemma LocateOne(f: Frame, at: nat)
    ensures LocateAll([f], at) == [Located(at, Normal(f), |Encoded(f)|)]
  {
    hide Encoded, Normal;
    assert [f][1..] == [];
  }

  /** Once its frame is in the file, the last set of a key may be published: its location reads the value. */
  lemma HeldPublish(f: Files, s: Stored, k: bytes, now: i64)
    requires FilesOk(f) && f.wal != [] && f.written == Size(f.wal)
    requires var l := Last(Ops(LastChanges(f.wal)), k); l >= 0 && LastChanges(f.wal)[l].op.Set?
    ensures var c := LastChanges(f.wal)[Last(Ops(LastChanges(f.wal)), k)];
      Held(f, s.Put(k, RefTo(c, WalFile, OnDisk), c.op.expireAt, c.op.meta).records, k, DocOf(c.op), now)
  {
    hide LastChanges, Last, EncodeAll, LogOps, Settled, Cut, FileChanges;
    LastChangesEnd(f.wal, k);
    LastSettled(f.wal, k);
    WholeCut(f.wal);
  }

  lemma HeldOther(f: Files, s: Stored, k: bytes, d: Option<Doc>, now: i64, x: bytes, ref: ValueRef, e: i64, m: Option<bytes>)
    requires FilesOk(f) && Held(f, s.records, k, d, now) && x != k
    ensures Held(f, s.Put(x, ref, e, m).records, k, d, now)
  {
    hide RecordOk;
  }

  lemma HeldFlush(f: Files, records: map<bytes, Record>, k: bytes, d: Option<Doc>, now: i64, n: nat)
    requires FilesOk(f) && Held(f, records, k, d, now) && f.written + n <= Size(f.wal)
    ensures Held(f.(written := f.written + n), records, k, d, now)
  {
    hide Clean, EncodeAll, LogOps, Settled, Touched, Cut;
    CutIs(f.wal, f.written);
    CutIs(f.wal, f.written + n);
    if k in records && records[k].ref.Disk? {
      var loc := records[k].ref.loc;
      if loc.offset + loc.len <= f.written {
        SliceOfPrefix(EncodeAll(f.wal)[..f.written], EncodeAll(f.wal)[..f.written + n], f.written, loc.offset, loc.offset + loc.len);
      }
    }
  }

  // --- the snapshot ---------------------------------------------------------------------------

  predicate Live(records: map<bytes, Record>, k: bytes, now: i64) {
    k in records && !Expired(records[k].expireAt, now)
  }

  ghost predicate AllLive(records: map<bytes, Record>, order: seq<bytes>, now: i64) {
    forall k :: k in order <==> Live(records, k, now)
  }

  /** The entry of a live record, its value read through the open files. */
  function EntryDoc(f: Files, r: Record): Doc
    requires f.written <= Size(f.wal)
  {
    var v := Materialize(f, r.ref);
    Doc(if v.Some? then v.value else [], r.expireAt, r.meta)
  }

  function EntryFrame(k: bytes, d: Doc): Frame {
    Frame(TYPE_SET, k, d.value, d.meta, d.expireAt)
  }

  /** One set frame for each entry, in whatever order the record map yields them. */
  function Snapshot(f: Files, records: map<bytes, Record>, order: seq<bytes>): (fs: seq<Frame>)
    requires f.written <= Size(f.wal) && forall k :: k in order ==> k in records
    ensures |fs| == |order|
    ensures forall i :: 0 <= i < |order| ==> fs[i] == EntryFrame(order[i], EntryDoc(f, records[order[i]]))
  {
    if order == [] then []
    else
      var n := |order| - 1;
      assert order[n] in order;
      Snapshot(f, records, order[..n]) + [EntryFrame(order[n], EntryDoc(f, records[order[n]]))]
  }

  lemma EntrySays(x: bytes, d: Doc, k: bytes, before: Option<Doc>)
    ensures After(before, FrameOps(EntryFrame(x, d)), k) == if k == x then Some(d) else before
  {
  }

  lemma {:induction false} SnapshotDoc(f: Files, records: map<bytes, Record>, order: seq<bytes>, k: bytes)
    requires f.written <= Size(f.wal) && forall x :: x in order ==> x in records
    ensures DiskDoc([], Snapshot(f, records, order), k) == if k in order then Some(EntryDoc(f, records[k])) else None
  {
    if order == [] {
      NoDoc(k);
    } else {
      hide *;
      var n := |order| - 1;
      assert order[n] in order && order == order[..n] + [order[n]];
      SnapshotDoc(f, records, order[..n], k);
      var init, frame := Snapshot(f, records, order[..n]), EntryFrame(order[n], EntryDoc(f, records[order[n]]));
      EntrySays(order[n], EntryDoc(f, records[order[n]]), k, DiskDoc([], init, k));
      DiskDocSnoc([], init, frame, k);
      assert Snapshot(f, records, order) == init + [frame];
    }
  }

  lemma NoDoc(k: bytes)
    ensures DiskDoc([], [], k) == None
  {
  }

  /** A snapshot taken at any moment says of every key what the store shows then. */
  lemma SnapshotHeld(f: Files, records: map<bytes, Record>, order: seq<bytes>, k: bytes, d: Option<Doc>, now: i64)
    requires FilesOk(f) && AllLive(records, order, now) && Held(f, records, k, d, now)
    ensures Agree(DiskDoc([], Snapshot(f, records, order), k), d, now)
    ensures k in order ==> Some(EntryDoc(f, records[k])) == d
  {
    hide DiskDoc, Snapshot, Clean, FileBytes, LastWord;
    SnapshotDoc(f, records, order, k);
  }

  /** Where the snapshot writer says the value of k lies. */
  function SnapshotLoc(temp: seq<Frame>, k: bytes): Option<ValueLoc> {
    var i := Last(LogOps(temp), k);
    if 0 <= i < |FileChanges(temp)| && LogOps(temp)[i].Set?
    then Some(ValueLoc(SnapshotFile, FileChanges(temp)[i].at, |LogOps(temp)[i].value|))
    else None
  }

  // --- remapping ----------------------------------------------------------------------------

  /** Log locations behind the fence shift; all others go to the new snapshot, if it has the key. */
  function RemapRef(temp: seq<Frame>, base: nat, k: bytes, ref: ValueRef): ValueRef {
    if ref.Memory? then ref
    else if ref.loc.file.WalFile? && ref.loc.offset >= base then Disk(ref.loc.(offset := ref.loc.offset - base))
    else
      var l := SnapshotLoc(temp, k);
      if l.Some? then Disk(l.value) else ref
  }

  function Remap(temp: seq<Frame>, base: nat, records: map<bytes, Record>): (r: map<bytes, Record>)
    ensures r.Keys == records.Keys
  {
    map k | k in records :: records[k].(ref := RemapRef(temp, base, k, records[k].ref))
  }

  lemma TailReads(wal: seq<Frame>, base: nat, loc: ValueLoc, v: bytes)
    requires base <= |wal| && Size(wal[..base]) <= loc.offset && Reads(EncodeAll(wal), loc, v)
    ensures Reads(EncodeAll(wal[base..]), loc.(offset := loc.offset - Size(wal[..base])), v)
  {
    hide *;
    TailBytes(wal, base);
    ReadsShift(EncodeAll(wal), EncodeAll(wal[base..]), Size(wal[..base]), loc, v);
  }

  lemma ReadsShift(all: bytes, b: bytes, n: nat, loc: ValueLoc, v: bytes)
    requires |all| == n + |b| && all[n..] == b && n <= loc.offset && Reads(all, loc, v)
    ensures Reads(b, loc.(offset := loc.offset - n), v)
  {
    SliceSlice(all, n, |all|, loc.offset - n, loc.offset - n + loc.len);
  }

  lemma TailBytes(wal: seq<Frame>, base: nat)
    requires base <= |wal|
    ensures var n := Size(wal[..base]);
      |EncodeAll(wal)| == n + |EncodeAll(wal[base..])| && EncodeAll(wal)[n..] == EncodeAll(wal[base..])
  {
    hide EncodeAll;
    assert wal == wal[..base] + wal[base..];
    EncodeAllConcat(wal[..base], wal[base..]);
  }

  lemma TailSettled(wal: seq<Frame>, base: nat, offset: nat, k: bytes)
    requires base <= |wal| && Size(wal[..base]) <= offset && Settled(wal, offset, k)
    ensures Settled(wal[base..], offset - Size(wal[..base]), k)
  {
    hide EncodeAll, LogOps, Touched;
    forall c | 0 <= c <= |wal[base..]| && offset - Size(wal[..base]) < Size(wal[base..][..c])
      ensures !Touched(LogOps(wal[base..][c..]), k)
    {
      assert wal[..base + c] == wal[..base] + wal[base..][..c];
      EncodeAllConcat(wal[..base], wal[base..][..c]);
      assert wal[base..][c..] == wal[base + c..];
    }
  }

  lemma SnapshotLocReads(temp: seq<Frame>, k: bytes)
    requires Clean(temp) && DiskDoc([], temp, k).Some?
    ensures var l := SnapshotLoc(temp, k); l.Some? && l.value.file == SnapshotFile && Reads(EncodeAll(temp), l.value, DiskDoc([], temp, k).value.value)
  {
    hide LogOps, EncodeAll, FileChanges, Clean, Settled, Last;
    LastSettled(temp, k);
    NoDoc(k);
    DiskDocIs(temp, k);
  }

  lemma DiskDocIs(temp: seq<Frame>, k: bytes)
    ensures DiskDoc([], temp, k) == After(None, LogOps(temp), k)
  {
  }

  lemma UntouchedDoc(snap: seq<Frame>, wal: seq<Frame>, k: bytes)
    requires !Touched(LogOps(wal), k)
    ensures DiskDoc(snap, wal, k) == DiskDoc([], snap, k)
  {
    hide LogOps, Last;
    DiskDocIs(snap, k);
  }

  /** Remapping moves every record that can still be seen to where the new files hold its value. */
  lemma HeldRemap(f: Files, temp: seq<Frame>, base: nat, records: map<bytes, Record>, k: bytes, d: Option<Doc>, now: i64)
    requires FilesOk(f) && Clean(temp) && base <= |f.wal| && f.written == Size(f.wal)
    requires Held(f, records, k, d, now) && Agree(DiskDoc(temp, f.wal[base..], k), d, now)
    ensures var tail := f.wal[base..];
      Held(Files(temp, tail, Size(tail)), Remap(temp, Size(f.wal[..base]), records), k, d, now)
  {
    hide Clean, EncodeAll, LogOps, DiskDoc, Settled, Touched, SnapshotLoc, Cut;
    var tail, n := f.wal[base..], Size(f.wal[..base]);
    WholeCut(f.wal);
    WholeCut(tail);
    if Live(records, k, now) && records[k].ref.Disk? {
      var loc := records[k].ref.loc;
      if loc.file.WalFile? && loc.offset >= n {
        TailReads(f.wal, base, loc, d.value.value);
        TailSettled(f.wal, base, loc.offset, k);
      } else {
        NotBehind(f, base, loc, k);
        UntouchedDoc(temp, tail, k);
        SnapshotLocReads(temp, k);
      }
    }
  }

  lemma NotBehind(f: Files, base: nat, loc: ValueLoc, k: bytes)
    requires base <= |f.wal| && LastWord(f, loc, k) && (loc.file.WalFile? ==> loc.offset < Size(f.wal[..base]))
    ensures !Touched(LogOps(f.wal[base..]), k)
  {
    hide LogOps, EncodeAll, Last;
    if loc.file.SnapshotFile? {
      assert f.wal == f.wal[..base] + f.wal[base..];
      DiskDocConcat([], f.wal[..base], f.wal[base..], k);
    }
  }
}
