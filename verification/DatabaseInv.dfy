/** Every step of the database keeps its invariant; what that says of reads, crashes and acknowledged writes. */
module DatabaseInvariant {
  import opened Wrappers
  import opened Bytes
  import opened Frames
  import opened LogScan
  import opened TornLog
  import opened Changes
  import opened Records
  import opened Durability
  import opened Database

  // --- time ---------------------------------------------------------------------------------

  lemma PrefixesLater(snap: seq<Frame>, wal: seq<Frame>, ws: seq<Write>, floor: nat, now: i64, to: i64)
    requires |wal| <= |ws| && now <= to && PrefixesOk(snap, wal, ws, floor, now)
    ensures PrefixesOk(snap, wal, ws, floor, to)
  {
    hide DiskDoc, HistoryDoc;
    forall c, k | floor <= c <= |wal|
      ensures PrefixOk(snap, wal, ws, c, k, to)
    {
      assert PrefixOk(snap, wal, ws, c, k, now);
    }
  }

  lemma HeldsLater(f: Files, records: map<bytes, Record>, ws: seq<Write>, now: i64, to: i64)
    requires FilesOk(f) && now <= to && AllHeld(f, records, ws, now)
    ensures AllHeld(f, records, ws, to)
  {
    hide Held, HistoryDoc, Clean;
    forall k
      ensures Held(f, records, k, HistoryDoc(ws, k), to)
    {
      HeldLater(f, records, k, HistoryDoc(ws, k), now, to);
    }
  }

  lemma TempsLater(temp: seq<Frame>, tail: seq<Frame>, ws: seq<Write>, now: i64, to: i64)
    requires now <= to && TempsOk(temp, tail, ws, now)
    ensures TempsOk(temp, tail, ws, to)
  {
    hide DiskDoc, HistoryDoc, LogOps, Touched;
    forall k
      ensures TempOk(temp, tail, k, HistoryDoc(ws, k), to)
    {
      assert TempOk(temp, tail, k, HistoryDoc(ws, k), now);
    }
  }

  lemma TickKeepsInv(s: State, to: i64)
    requires Inv(s) && Enabled(s, Tick(to))
    ensures Inv(Do(s, Tick(to)))
  {
    hide HistoryOk, LogOf, PrefixesOk, AllHeld, TempsOk, EndsSet, Clean, EncodeAll;
    PrefixesLater(s.disk.snap, s.disk.wal, s.history, s.floor, s.now, to);
    HeldsLater(Through(s), s.store.records, s.history, s.now, to);
    match s.phase
    case Snapped(base, temp) => TempsLater(temp, s.disk.wal[base..], s.history, s.now, to);
    case Sealed(base, temp) => TempsLater(temp, s.disk.wal[base..], s.history, s.now, to);
    case SnapRenamed(base, temp) => TempsLater(temp, s.disk.wal[base..], s.history, s.now, to);
    case _ =>
  }

  lemma ExpireKeepsInv(s: State, x: bytes)
    requires Inv(s) && Enabled(s, Expire(x))
    ensures Inv(Do(s, Expire(x)))
  {
    hide HistoryOk, LogOf, PrefixesOk, TempsOk, EndsSet, Clean, EncodeAll, Held, HistoryDoc;
    forall k
      ensures Held(Through(s), s.store.Reap(x, s.now).records, k, HistoryDoc(s.history, k), s.now)
    {
      HeldReap(Through(s), s.store, k, HistoryDoc(s.history, k), s.now, x);
    }
  }

  // --- writing ------------------------------------------------------------------------------

  lemma LogOfAppend(wal: seq<Frame>, ws: seq<Write>, w: Write)
    requires LogOf(wal, ws) && HistoryOk(ws) && WriteOk(w) && Clean(wal)
    ensures LogOf(wal + [WriteFrame(w)], ws + [w]) && HistoryOk(ws + [w]) && Clean(wal + [WriteFrame(w)])
  {
    hide WriteFrame, WriteOk, Encodable, Normal;
    WriteRoundTrip(w);
  }

  lemma PrefixesAppend(snap: seq<Frame>, wal: seq<Frame>, ws: seq<Write>, floor: nat, now: i64, w: Write)
    requires floor <= |wal| <= |ws| && PrefixesOk(snap, wal, ws, floor, now) && WriteOk(w)
    ensures PrefixesOk(snap, wal + [WriteFrame(w)], ws + [w], floor, now)
  {
    hide DiskDoc, HistoryDoc, WriteFrame, WriteOk, WriteOps, FrameOps, After;
    var f := WriteFrame(w);
    var n := |wal|;
    forall c, k | floor <= c <= |wal + [f]|
      ensures PrefixOk(snap, wal + [f], ws + [w], c, k, now)
    {
      if c <= n {
        assert (wal + [f])[..c] == wal[..c] && (ws + [w])[..|ws| - n + c] == ws[..|ws| - n + c];
        assert PrefixOk(snap, wal, ws, c, k, now);
      } else {
        assert (wal + [f])[..c] == wal + [f] && (ws + [w])[..|ws| - n + c] == ws + [w];
        assert wal[..n] == wal && ws[..|ws|] == ws;
        assert PrefixOk(snap, wal, ws, n, k, now);
        WriteRoundTrip(w);
        DiskDocSnoc(snap, wal, f, k);
        HistorySnoc(ws, w, k);
        AfterAgrees(DiskDoc(snap, wal, k), HistoryDoc(ws, k), WriteOps(w), k, now);
      }
    }
  }

  lemma HeldsAppend(f: Files, s: Stored, ws: seq<Write>, now: i64, w: Write)
    requires FilesOk(f) && AllHeld(f, s.records, ws, now) && WriteOk(w)
    ensures f.written <= Size(f.wal + [WriteFrame(w)])
    ensures AllHeld(f.(wal := f.wal + [WriteFrame(w)]), ApplyAll(s, AppliedOps(WriteOps(w))).records, ws + [w], now)
  {
    hide Held, HistoryDoc, FilesOk, WriteFrame, WriteOk, WriteOps, FrameOps, After, ApplyAll, AppliedOps, Size;
    WriteRoundTrip(w);
    CutGrowsBy(f, WriteFrame(w));
    forall k
      ensures Held(f.(wal := f.wal + [WriteFrame(w)]), ApplyAll(s, AppliedOps(WriteOps(w))).records, k, HistoryDoc(ws + [w], k), now)
    {
      HeldAppend(f, s, k, HistoryDoc(ws, k), WriteFrame(w), now);
      HistorySnoc(ws, w, k);
    }
  }

  lemma CutGrowsBy(f: Files, frame: Frame)
    requires FilesOk(f)
    ensures f.written <= Size(f.wal + [frame])
  {
    hide EncodeAll, Cut;
    CutGrows(f.wal, frame, f.written);
  }

  lemma TempsAppend(temp: seq<Frame>, tail: seq<Frame>, ws: seq<Write>, now: i64, w: Write)
    requires TempsOk(temp, tail, ws, now) && WriteOk(w)
    ensures TempsOk(temp, tail + [WriteFrame(w)], ws + [w], now)
  {
    hide DiskDoc, HistoryDoc, WriteFrame, WriteOk, WriteOps, FrameOps, LogOps;
    WriteRoundTrip(w);
    forall k
      ensures TempOk(temp, tail + [WriteFrame(w)], k, HistoryDoc(ws + [w], k), now)
    {
      assert TempOk(temp, tail, k, HistoryDoc(ws, k), now);
      DiskDocSnoc([], tail, WriteFrame(w), k);
      HistorySnoc(ws, w, k);
    }
  }

  lemma SequencesEndSet(s: Stored, ops: seq<Op>, k: bytes)
    requires var q := Sequences(ApplyAll(s, AppliedOps(ops)), ops); k in q && q[k].Some?
    ensures EndsSet(ops, k)
  {
    hide ApplyAll, AppliedOps, CarriesOut;
    var cs := Tagged(ops);
    AppliedCarriesOut(cs, WalFile, 0);
    ReplayDecides(s, AppliedOps(ops), cs, WalFile, InMemory, k, 0);
    var op :| op in ops && op.key == k;
    var i :| 0 <= i < |ops| && ops[i] == op;
    assert Last(ops, k) >= i;
  }

  /** Operations as changes at no particular place. */
  function Tagged(ops: seq<Op>): (cs: seq<Change>)
    ensures Ops(cs) == ops
  {
    if ops == [] then [] else [Change(ops[0], 0)] + Tagged(ops[1..])
  }

  lemma PrefixSizes(wal: seq<Frame>, f: Frame, c: nat)
    requires c <= |wal|
    ensures (wal + [f])[..c] == wal[..c]
  {
  }

  lemma AppendKeepsInv(s: State, w: Write)
    requires Inv(s) && Enabled(s, Append(w))
    ensures Inv(Do(s, Append(w)))
  {
    hide WriteOk, WriteFrame, HistoryOk, LogOf, PrefixesOk, AllHeld, TempsOk, EndsSet, Clean, EncodeAll, Held, HistoryDoc, ApplyAll, AppliedOps, WriteOps, Sequences;
    var f := WriteFrame(w);
    var wal := s.disk.wal;
    LogOfAppend(wal, s.history, w);
    PrefixesAppend(s.disk.snap, wal, s.history, s.floor, s.now, w);
    HeldsAppend(s.disk, s.store, s.history, s.now, w);
    PrefixSizes(wal, f, s.floor);
    if s.acked > Start(s) {
      PrefixSizes(wal, f, s.acked - Start(s));
    }
    if s.phase.Fenced? || s.phase.Snapped? {
      assert (wal + [f])[s.phase.base..] == wal[s.phase.base..] + [f];
      if s.phase.Snapped? {
        TempsAppend(s.phase.temp, wal[s.phase.base..], s.history, s.now, w);
      }
    }
    var t := Do(s, Append(w));
    forall k | k in t.writer.value && t.writer.value[k].Some?
      ensures EndsSet(WriteOps(t.history[|t.history| - 1]), k)
    {
      SequencesEndSet(s.store, WriteOps(w), k);
    }
  }

  lemma FlushHelds(f: Files, records: map<bytes, Record>, ws: seq<Write>, now: i64, n: nat)
    requires FilesOk(f) && AllHeld(f, records, ws, now) && f.written + n <= Size(f.wal)
    ensures AllHeld(f.(written := f.written + n), records, ws, now)
  {
    hide Held, HistoryDoc, Clean;
    forall k
      ensures Held(f.(written := f.written + n), records, k, HistoryDoc(ws, k), now)
    {
      HeldFlush(f, records, k, HistoryDoc(ws, k), now, n);
    }
  }

  lemma FlushKeepsInv(s: State, n: nat)
    requires Inv(s) && Enabled(s, Flush(n))
    ensures Inv(Do(s, Flush(n)))
  {
    hide HistoryOk, LogOf, PrefixesOk, AllHeld, TempsOk, EndsSet, Clean, EncodeAll;
    FlushHelds(s.disk, s.store.records, s.history, s.now, n);
  }

  lemma LastSetIsLast(cs: seq<Change>, k: bytes)
    requires EndsSet(Ops(cs), k)
    ensures LastSet(cs, k) == Last(Ops(cs), k)
  {
    var i, j := LastSet(cs, k), Last(Ops(cs), k);
    assert Ops(cs)[j] == cs[j].op && cs[j].op.key == k && cs[j].op.Set?;
  }

  /** What is published is the value of the last write, at the place where the log holds it. */
  lemma LastWriteDoc(s: State, k: bytes)
    requires FilesOk(s.disk) && s.disk.wal != [] && LogOf(s.disk.wal, s.history) && HistoryOk(s.history)
    requires EndsSet(WriteOps(s.history[|s.history| - 1]), k)
    ensures var cs := LastChanges(s.disk.wal);
      var i := Last(Ops(cs), k);
      && i >= 0 && cs[i].op.Set? && LastSet(cs, k) == i
      && HistoryDoc(s.history, k) == DocOf(cs[i].op)
  {
    hide LastChanges, WriteOk, WriteFrame, WriteOps, FrameOps, LastSet, Last, Clean, EncodeAll;
    var n := |s.history| - 1;
    var w := s.history[n];
    assert s.history == s.history[..n] + [w];
    HistorySnoc(s.history[..n], w, k);
    assert WriteOk(w) && s.disk.wal[|s.disk.wal| - 1] == WriteFrame(w);
    WriteRoundTrip(w);
    LastChangesEnd(s.disk.wal, k);
    LastSetIsLast(LastChanges(s.disk.wal), k);
  }

  lemma PublishHelds(s: State, x: bytes)
    requires FilesOk(s.disk) && s.disk.wal != [] && LogOf(s.disk.wal, s.history) && HistoryOk(s.history)
    requires EndsSet(WriteOps(s.history[|s.history| - 1]), x) && s.disk.written == Size(s.disk.wal)
    requires AllHeld(s.disk, s.store.records, s.history, s.now)
    ensures LastSet(LastChanges(s.disk.wal), x) >= 0
    ensures var c := LastChanges(s.disk.wal)[LastSet(LastChanges(s.disk.wal), x)];
      AllHeld(s.disk, s.store.Put(x, RefTo(c, WalFile, OnDisk), c.op.expireAt, c.op.meta).records, s.history, s.now)
  {
    hide Held, HistoryDoc, LastChanges, WriteOps, LastSet, Last, Clean, EncodeAll, RefTo, LogOf, HistoryOk;
    LastWriteDoc(s, x);
    var c := LastChanges(s.disk.wal)[LastSet(LastChanges(s.disk.wal), x)];
    forall k
      ensures Held(s.disk, s.store.Put(x, RefTo(c, WalFile, OnDisk), c.op.expireAt, c.op.meta).records, k, HistoryDoc(s.history, k), s.now)
    {
      if k == x {
        HeldPublish(s.disk, s.store, k, s.now);
      } else {
        HeldOther(s.disk, s.store, k, HistoryDoc(s.history, k), s.now, x, RefTo(c, WalFile, OnDisk), c.op.expireAt, c.op.meta);
      }
    }
  }

  lemma PublishKeepsInv(s: State, x: bytes)
    requires Inv(s) && Enabled(s, Publish(x))
    ensures Inv(Do(s, Publish(x)))
  {
    hide HistoryOk, LogOf, PrefixesOk, AllHeld, TempsOk, EndsSet, Clean, EncodeAll, LastChanges, LastSet, RefTo, HistoryDoc, Held;
    PublishHelds(s, x);
  }

  lemma AcknowledgeKeepsInv(s: State)
    requires Inv(s) && Enabled(s, Acknowledge)
    ensures Inv(Do(s, Acknowledge))
  {
    hide HistoryOk, LogOf, PrefixesOk, AllHeld, TempsOk, EndsSet, Clean, EncodeAll;
    assert s.disk.wal[..|s.disk.wal|] == s.disk.wal;
  }

  // --- compaction ---------------------------------------------------------------------------

  lemma TouchedDecides(a: seq<Frame>, b: seq<Frame>, wal: seq<Frame>, k: bytes)
    requires Touched(LogOps(wal), k)
    ensures DiskDoc(a, wal, k) == DiskDoc(b, wal, k)
  {
    hide LogOps;
  }

  /**
    If the old snapshot and the log say d, and the new snapshot is right about every key the
    log behind the fence leaves alone, then so do the new snapshot with the whole log and the
    new snapshot with the log behind the fence.
   */
  lemma PairsAgree(snap: seq<Frame>, wal: seq<Frame>, base: nat, temp: seq<Frame>, k: bytes, d: Option<Doc>, now: i64)
    requires base <= |wal| && Agree(DiskDoc(snap, wal, k), d, now) && TempOk(temp, wal[base..], k, d, now)
    ensures Agree(DiskDoc(temp, wal, k), d, now) && Agree(DiskDoc(temp, wal[base..], k), d, now)
  {
    hide DiskDoc, LogOps, Touched;
    var head, tail := wal[..base], wal[base..];
    assert wal == head + tail;
    DiskDocConcat(snap, head, tail, k);
    DiskDocConcat(temp, head, tail, k);
    if Touched(LogOps(wal), k) {
      TouchedDecides(snap, temp, wal, k);
    } else {
      UntouchedDoc(temp, wal, k);
    }
    if Touched(LogOps(tail), k) {
      DecidesConcat(snap, temp, head, tail, k);
    } else {
      UntouchedDoc(temp, tail, k);
    }
  }

  lemma DecidesConcat(snap: seq<Frame>, temp: seq<Frame>, head: seq<Frame>, tail: seq<Frame>, k: bytes)
    requires Touched(LogOps(tail), k)
    ensures DiskDoc(snap, head + tail, k) == DiskDoc(temp, tail, k)
  {
    hide LogOps;
    DiskDocConcat(snap, head, tail, k);
  }

  /**
    The crash points of compaction.  A snapshot of the store is taken at any moment m after
    the fence, in any order; then writers go on.  Replaying the old files, the new snapshot
    with the whole log, or the new snapshot with the log from the fence on shows the same
    documents at every later time: a crash before, between or after the two renames loses and
    revives nothing.
   */
  lemma CrashPointsAgree(snap: seq<Frame>, wal: seq<Frame>, base: nat, m: nat, f: Files, records: map<bytes, Record>, order: seq<bytes>, now: i64, t: i64)
    requires base <= m <= |wal| && now <= t
    requires FilesOk(f) && AllLive(records, order, now)
    requires forall k :: Held(f, records, k, DiskDoc(snap, wal[..m], k), now)
    ensures var temp := Snapshot(f, records, order);
      forall k ::
        && Shown(DiskDoc(temp, wal, k), t) == Shown(DiskDoc(snap, wal, k), t)
        && Shown(DiskDoc(temp, wal[base..], k), t) == Shown(DiskDoc(snap, wal, k), t)
  {
    hide DiskDoc, LogOps, Touched, Held, Snapshot, Clean, EncodeAll;
    var temp := Snapshot(f, records, order);
    forall k
      ensures Shown(DiskDoc(temp, wal, k), t) == Shown(DiskDoc(snap, wal, k), t)
      ensures Shown(DiskDoc(temp, wal[base..], k), t) == Shown(DiskDoc(snap, wal, k), t)
    {
      assert wal == wal[..m] + wal[m..] && wal[base..] == wal[base..m] + wal[m..];
      SnapshotHeld(f, records, order, k, DiskDoc(snap, wal[..m], k), now);
      DiskDocConcat(snap, wal[..m], wal[m..], k);
      DiskDocConcat([], wal[base..m], wal[m..], k);
      if !Touched(LogOps(wal[m..]), k) {
        AfterUntouched(DiskDoc(snap, wal[..m], k), LogOps(wal[m..]), k);
      }
      PairsAgree(snap, wal, base, temp, k, DiskDoc(snap, wal, k), now);
    }
  }

  lemma AfterUntouched(d: Option<Doc>, ops: seq<Op>, k: bytes)
    requires !Touched(ops, k)
    ensures After(d, ops, k) == d
  {
  }

  predicate DocFits(k: bytes, d: Doc) {
    OpOk(Set(k, d.value, d.expireAt, d.meta))
  }

  lemma {:induction false} HistoryDocFits(ws: seq<Write>, k: bytes)
    requires HistoryOk(ws)
    ensures HistoryDoc(ws, k).Some? ==> DocFits(k, HistoryDoc(ws, k).value)
  {
    hide *;
    if ws == [] {
      NoHistory(k);
    } else {
      var n := |ws| - 1;
      HistoryOkFront(ws);
      HistoryDocFits(ws[..n], k);
      assert ws == ws[..n] + [ws[n]];
      HistorySnoc(ws[..n], ws[n], k);
      AfterFits(HistoryDoc(ws[..n], k), ws[n], k);
    }
  }

  lemma NoHistory(k: bytes)
    ensures HistoryDoc([], k) == None
  {
  }

  lemma HistoryOkFront(ws: seq<Write>)
    requires HistoryOk(ws) && ws != []
    ensures HistoryOk(ws[..|ws| - 1]) && WriteOk(ws[|ws| - 1])
  {
    hide WriteOk;
  }

  lemma AfterFits(before: Option<Doc>, w: Write, k: bytes)
    requires WriteOk(w) && (before.Some? ==> DocFits(k, before.value))
    ensures After(before, WriteOps(w), k).Some? ==> DocFits(k, After(before, WriteOps(w), k).value)
  {
    hide OpOk;
    var ops := WriteOps(w);
    var i := Last(ops, k);
    if i >= 0 {
      assert ops[i] in ops && OpOk(ops[i]);
    }
  }

  lemma EntryClean(k: bytes, d: Doc)
    requires DocFits(k, d)
    ensures Encodable(EntryFrame(k, d)) && Normal(EntryFrame(k, d)) == EntryFrame(k, d)
  {
  }

  lemma TakeEntriesHelds(f: Files, records: map<bytes, Record>, order: seq<bytes>, ws: seq<Write>, now: i64, tail: seq<Frame>)
    requires FilesOk(f) && AllHeld(f, records, ws, now) && AllLive(records, order, now) && HistoryOk(ws)
    ensures Clean(Snapshot(f, records, order)) && TempsOk(Snapshot(f, records, order), tail, ws, now)
  {
    hide HistoryDoc, HistoryOk, DiskDoc, EntryFrame, EntryDoc, DocFits, Encodable, Normal, Held, Touched, LogOps;
    var temp := Snapshot(f, records, order);
    forall k
      ensures TempOk(temp, tail, k, HistoryDoc(ws, k), now)
      ensures k in order ==> Some(EntryDoc(f, records[k])) == HistoryDoc(ws, k)
    {
      assert Held(f, records, k, HistoryDoc(ws, k), now);
      SnapshotHeld(f, records, order, k, HistoryDoc(ws, k), now);
    }
    forall i | 0 <= i < |temp|
      ensures Encodable(temp[i]) && Normal(temp[i]) == temp[i]
    {
      var k := order[i];
      assert k in order;
      HistoryDocFits(ws, k);
      EntryClean(k, EntryDoc(f, records[k]));
    }
  }

  lemma TakeEntriesKeepsInv(s: State, order: seq<bytes>)
    requires Inv(s) && Enabled(s, TakeEntries(order))
    ensures Inv(Do(s, TakeEntries(order)))
  {
    hide HistoryOk, LogOf, PrefixesOk, AllHeld, TempsOk, EndsSet, Clean, EncodeAll, Snapshot;
    TakeEntriesHelds(s.open, s.store.records, order, s.history, s.now, s.disk.wal[s.phase.base..]);
  }

  lemma QuietKeepsInv(s: State, step: Step)
    requires Inv(s) && (step.Fence? || step.Abandon? || step.Reopen?) && Enabled(s, step)
    ensures Inv(Do(s, step))
  {
    hide HistoryOk, LogOf, PrefixesOk, AllHeld, TempsOk, EndsSet, Clean, EncodeAll;
  }

  lemma PrefixFits(wal: seq<Frame>, c: nat)
    requires c <= |wal|
    ensures Size(wal[..c]) <= Size(wal)
  {
    hide EncodeAll;
    assert wal == wal[..c] + wal[c..];
    EncodeAllConcat(wal[..c], wal[c..]);
  }

  lemma SealKeepsInv(s: State)
    requires Inv(s) && Enabled(s, Seal)
    ensures Inv(Do(s, Seal))
  {
    hide HistoryOk, LogOf, PrefixesOk, AllHeld, TempsOk, EndsSet, Clean, EncodeAll;
    FlushHelds(s.disk, s.store.records, s.history, s.now, Size(s.disk.wal) - s.disk.written);
    PrefixFits(s.disk.wal, s.floor);
    if s.acked > Start(s) {
      PrefixFits(s.disk.wal, s.acked - Start(s));
    }
  }

  lemma RenameSnapshotKeepsInv(s: State)
    requires Inv(s) && Enabled(s, RenameSnapshot)
    ensures Inv(Do(s, RenameSnapshot))
  {
    hide HistoryOk, LogOf, PrefixesOk, AllHeld, TempsOk, EndsSet, Clean, EncodeAll;
    var temp, base, wal := s.phase.temp, s.phase.base, s.disk.wal;
    PrefixFits(wal, |wal|);
    WholePrefixes(s.disk.snap, wal, s.history, s.floor, s.now, base, temp);
  }

  lemma WholePrefixes(snap: seq<Frame>, wal: seq<Frame>, ws: seq<Write>, floor: nat, now: i64, base: nat, temp: seq<Frame>)
    requires base <= |wal| <= |ws| && floor <= |wal|
    requires PrefixesOk(snap, wal, ws, floor, now) && TempsOk(temp, wal[base..], ws, now)
    ensures PrefixesOk(temp, wal, ws, |wal|, now)
    ensures PrefixesOk(temp, wal[base..], ws, |wal[base..]|, now)
  {
    hide DiskDoc, HistoryDoc, TempOk;
    forall k
      ensures PrefixOk(temp, wal, ws, |wal|, k, now)
      ensures PrefixOk(temp, wal[base..], ws, |wal[base..]|, k, now)
    {
      assert PrefixOk(snap, wal, ws, |wal|, k, now);
      assert wal[..|wal|] == wal && ws[..|ws|] == ws && wal[base..][..|wal[base..]|] == wal[base..];
      PairsAgree(snap, wal, base, temp, k, HistoryDoc(ws, k), now);
    }
  }

  lemma TailLogOf(wal: seq<Frame>, ws: seq<Write>, base: nat)
    requires LogOf(wal, ws) && base <= |wal| && Clean(wal)
    ensures LogOf(wal[base..], ws) && Clean(wal[base..])
  {
  }

  lemma RenameWalKeepsInv(s: State)
    requires Inv(s) && Enabled(s, RenameWal)
    ensures Inv(Do(s, RenameWal))
  {
    hide HistoryOk, LogOf, PrefixesOk, AllHeld, TempsOk, EndsSet, Clean, EncodeAll;
    var temp, base, wal := s.phase.temp, s.phase.base, s.disk.wal;
    var tail := wal[base..];
    WholePrefixes(temp, wal, s.history, s.floor, s.now, base, temp);
    TailLogOf(wal, s.history, base);
    PrefixFits(tail, |tail|);
    if s.acked > |s.history| - |tail| {
      PrefixFits(tail, s.acked - (|s.history| - |tail|));
    }
  }

  lemma RemapHelds(s: State)
    requires Inv(s) && s.phase.WalRenamed?
    ensures var r := Remap(s.phase.temp, Size(s.open.wal[..s.phase.base]), s.store.records);
      AllHeld(s.disk, r, s.history, s.now)
  {
    hide HistoryOk, LogOf, Held, DiskDoc, HistoryDoc, TempsOk, EndsSet, Clean, EncodeAll, Remap;
    var temp, base, tail := s.phase.temp, s.phase.base, s.disk.wal;
    forall k
      ensures Held(s.disk, Remap(temp, Size(s.open.wal[..base]), s.store.records), k, HistoryDoc(s.history, k), s.now)
    {
      assert PrefixOk(temp, tail, s.history, |tail|, k, s.now);
      assert tail[..|tail|] == tail && s.history[..|s.history|] == s.history;
      HeldRemap(s.open, temp, base, s.store.records, k, HistoryDoc(s.history, k), s.now);
    }
  }

  lemma RemapKeepsInv(s: State)
    requires Inv(s) && Enabled(s, RemapStore)
    ensures Inv(Do(s, RemapStore))
  {
    hide HistoryOk, LogOf, PrefixesOk, AllHeld, TempsOk, EndsSet, Clean, EncodeAll, Remap, Held, HistoryDoc;
    RemapHelds(s);
  }

  // --- crashes ------------------------------------------------------------------------------

  lemma CompleteAtLeast(wal: seq<Frame>, c: nat, k: nat)
    requires c <= |wal| && Size(wal[..c]) <= k
    ensures c <= Complete(wal, k)
  {
    hide EncodeAll;
    CompleteAfter(wal, c, k);
  }

  /** A recovery scan of a log cut anywhere finds its whole frames; what it cuts off is the rest. */
  lemma RestartFinds(s: State, scan: Mode)
    requires FilesOk(s.disk) && (scan.Strict? || NothingNested(s.disk))
    ensures var found, whole := Scanned(s, scan), s.disk.wal[..Complete(s.disk.wal, s.disk.written)];
      && LogChanges(found.0.frames) == FileChanges(s.disk.snap)
      && LogChanges(found.1.frames) == FileChanges(whole)
      && |found.1.frames| == |whole|
      && TruncatedFile(FileBytes(s.disk, WalFile), found.1.corrupt) == EncodeAll(whole)
  {
    hide *;
    var snap, wal, k := s.disk.snap, s.disk.wal, s.disk.written;
    var c := Complete(wal, k);
    FilesFacts(s.disk);
    assert [] + EncodeAll(snap) == EncodeAll(snap) && [] + Cut(wal, k) == Cut(wal, k);
    WholeLogScan([], snap, scan);
    StrictScanExact([], wal, k);
    if scan.Resync? {
      NestedFacts(s.disk);
      ModesAgree(wal, k);
    }
    ScannedIs(s, scan);
    FileChangesAre(snap);
    FileChangesAre(wal[..c]);
    LocateLength(wal[..c]);
    CutAfter(wal, c, k) by { CompleteIsMaximal(wal, k); }
    CompleteIsMaximal(wal, k);
    CutIs(wal, k);
    TruncatedTail(Cut(wal, k), |EncodeAll(wal[..c])|, k);
  }

  lemma LocateLength(fs: seq<Frame>)
    ensures |LocateAll(fs, 0)| == |fs|
  {
  }

  lemma FilesFacts(f: Files)
    requires FilesOk(f)
    ensures f.written <= |EncodeAll(f.wal)| && f.written <= Size(f.wal) && AllEncodable(f.wal) && AllEncodable(f.snap)
  {
    hide EncodeAll;
  }

  lemma NestedFacts(f: Files)
    requires f.written <= Size(f.wal) && NothingNested(f)
    ensures forall x :: |EncodeAll(f.wal[..Complete(f.wal, f.written)])| < x < f.written ==> !ValidAt(Cut(f.wal, f.written), x)
  {
    hide EncodeAll, ValidAt;
  }

  lemma ScannedIs(s: State, scan: Mode)
    requires s.disk.written <= Size(s.disk.wal)
    ensures Scanned(s, scan) == (ScanFrom(EncodeAll(s.disk.snap), scan, 0), ScanFrom(Cut(s.disk.wal, s.disk.written), scan, 0))
    ensures FileBytes(s.disk, WalFile) == Cut(s.disk.wal, s.disk.written)
  {
    hide EncodeAll, ScanFrom, Cut;
  }

  lemma TruncatedTail(b: bytes, end: nat, k: nat)
    requires end <= k == |b|
    ensures TruncatedFile(b, if end < k then [(end, k)] else []) == b[..end]
  {
  }

  lemma HeldAgree(f: Files, records: map<bytes, Record>, k: bytes, d: Option<Doc>, e: Option<Doc>, now: i64)
    requires FilesOk(f) && Held(f, records, k, d, now) && Agree(d, e, now)
    ensures Held(f, records, k, e, now)
  {
    hide Clean, EncodeAll, LastWord, FileBytes;
  }

  lemma RestartHelds(snap: seq<Frame>, whole: seq<Frame>, ws: seq<Write>, mode: ValueMode, clocks: (seq<i64>, seq<i64>), to: i64)
    requires Clean(snap) && Clean(whole) && |whole| <= |ws| && PrefixesOk(snap, whole, ws, |whole|, to)
    requires |clocks.0| == |FileChanges(snap)| && |clocks.1| == |FileChanges(whole)| && AllBy(clocks.0, to) && AllBy(clocks.1, to)
    ensures AllHeld(Files(snap, whole, Size(whole)), Replayed(FileChanges(snap), FileChanges(whole), mode, clocks).records, ws, to)
  {
    hide Clean, EncodeAll, Held, DiskDoc, HistoryDoc, FileChanges, Replayed;
    var files := Files(snap, whole, Size(whole));
    forall k
      ensures Held(files, Replayed(FileChanges(snap), FileChanges(whole), mode, clocks).records, k, HistoryDoc(ws, k), to)
    {
      RecoverHeld(snap, whole, mode, clocks, k, to);
      assert PrefixOk(snap, whole, ws, |whole|, k, to);
      assert whole[..|whole|] == whole && ws[..|ws|] == ws;
      HeldAgree(files, Replayed(FileChanges(snap), FileChanges(whole), mode, clocks).records, k, DiskDoc(snap, whole, k), HistoryDoc(ws, k), to);
    }
  }

  lemma PrefixesCut(snap: seq<Frame>, wal: seq<Frame>, ws: seq<Write>, floor: nat, now: i64, c: nat)
    requires floor <= c <= |wal| <= |ws| && PrefixesOk(snap, wal, ws, floor, now)
    ensures PrefixesOk(snap, wal[..c], ws[..|ws| - |wal| + c], floor, now)
  {
    hide DiskDoc, HistoryDoc;
    var head, past := wal[..c], ws[..|ws| - |wal| + c];
    forall d, k | floor <= d <= c
      ensures PrefixOk(snap, head, past, d, k, now)
    {
      assert PrefixOk(snap, wal, ws, d, k, now);
      assert head[..d] == wal[..d] && past[..|ws| - |wal| + d] == ws[..|ws| - |wal| + d];
    }
  }

  lemma CutLogOf(wal: seq<Frame>, ws: seq<Write>, c: nat)
    requires LogOf(wal, ws) && HistoryOk(ws) && Clean(wal) && c <= |wal|
    ensures LogOf(wal[..c], ws[..|ws| - |wal| + c]) && HistoryOk(ws[..|ws| - |wal| + c]) && Clean(wal[..c])
  {
    hide WriteOk, WriteFrame;
  }

  lemma PrefixesFrom(snap: seq<Frame>, wal: seq<Frame>, ws: seq<Write>, floor: nat, now: i64, c: nat)
    requires |wal| <= |ws| && floor <= c && PrefixesOk(snap, wal, ws, floor, now)
    ensures PrefixesOk(snap, wal, ws, c, now)
  {
    hide PrefixOk;
  }

  /** What is left after a crash: the files, the history and the acknowledged part of it. */
  lemma RestartFiles(s: State, to: i64)
    requires FilesInv(s) && s.now <= to && PrefixesOk(s.disk.snap, s.disk.wal, s.history, s.floor, s.now)
    ensures var c := Complete(s.disk.wal, s.disk.written);
      var whole, n := s.disk.wal[..c], Start(s) + c;
      && s.floor <= c && s.acked <= n <= |s.history|
      && Clean(s.disk.snap) && Clean(whole) && LogOf(whole, s.history[..n]) && HistoryOk(s.history[..n])
      && PrefixesOk(s.disk.snap, whole, s.history[..n], s.floor, to)
      && PrefixesOk(s.disk.snap, whole, s.history[..n], c, to)
      && Size(whole[..s.floor]) <= Size(whole)
      && (s.acked > Start(s) ==> s.acked - Start(s) <= c && Size(whole[..s.acked - Start(s)]) <= Size(whole))
  {
    hide HistoryOk, LogOf, PrefixesOk, Clean, EncodeAll, Complete;
    var wal, c := s.disk.wal, Complete(s.disk.wal, s.disk.written);
    var whole := wal[..c];
    CompleteAtLeast(wal, s.floor, s.disk.written);
    CutLogOf(wal, s.history, c);
    PrefixesLater(s.disk.snap, wal, s.history, s.floor, s.now, to);
    PrefixesCut(s.disk.snap, wal, s.history, s.floor, to, c);
    PrefixesFrom(s.disk.snap, whole, s.history[..Start(s) + c], s.floor, to, c);
    PrefixFits(whole, s.floor);
    if s.acked > Start(s) {
      CompleteAtLeast(wal, s.acked - Start(s), s.disk.written);
      PrefixFits(whole, s.acked - Start(s));
    }
  }

  lemma RestartedStore(s: State, scan: Mode, clocks: (seq<i64>, seq<i64>), to: i64)
    requires FilesInv(s) && s.open.written <= Size(s.open.wal) && Enabled(s, Restart(scan, clocks, to))
    ensures var whole := s.disk.wal[..Complete(s.disk.wal, s.disk.written)];
      && |clocks.0| == |FileChanges(s.disk.snap)| && |clocks.1| == |FileChanges(whole)| && AllBy(clocks.0, to) && AllBy(clocks.1, to)
      && Restarted(s, scan, clocks, to).store == Replayed(FileChanges(s.disk.snap), FileChanges(whole), s.mode, clocks)
  {
    hide HistoryOk, LogOf, Clean, EncodeAll, Complete, Scanned, Replayed, FileChanges, NothingNested;
    RestartFinds(s, scan);
  }

  lemma RestartKeepsInv(s: State, scan: Mode, clocks: (seq<i64>, seq<i64>), to: i64)
    requires Inv(s) && Enabled(s, Restart(scan, clocks, to))
    ensures Inv(Do(s, Restart(scan, clocks, to)))
  {
    hide HistoryOk, LogOf, PrefixesOk, AllHeld, TempsOk, EndsSet, Clean, EncodeAll, Scanned, Replayed, FileChanges, NothingNested, Held, HistoryDoc, ValidAt, Complete, LogChanges;
    var c := Complete(s.disk.wal, s.disk.written);
    RestartFiles(s, to);
    RestartedStore(s, scan, clocks, to);
    RestartHelds(s.disk.snap, s.disk.wal[..c], s.history[..Start(s) + c], s.mode, clocks, to);
  }

  // --- every step, every run -----------------------------------------------------------------

  lemma StepKeepsInv(s: State, step: Step)
    requires Inv(s) && Enabled(s, step)
    ensures Inv(Do(s, step))
  {
    hide *;
    match step
    case Tick(to) => TickKeepsInv(s, to);
    case Expire(k) => ExpireKeepsInv(s, k);
    case Append(w) => AppendKeepsInv(s, w);
    case Flush(n) => FlushKeepsInv(s, n);
    case Publish(k) => PublishKeepsInv(s, k);
    case Acknowledge => AcknowledgeKeepsInv(s);
    case TakeEntries(order) => TakeEntriesKeepsInv(s, order);
    case Seal => SealKeepsInv(s);
    case RenameSnapshot => RenameSnapshotKeepsInv(s);
    case RenameWal => RenameWalKeepsInv(s);
    case RemapStore => RemapKeepsInv(s);
    case Restart(scan, clocks, to) => RestartKeepsInv(s, scan, clocks, to);
    case _ => QuietKeepsInv(s, step);
  }

  lemma InitHoldsInv(mode: ValueMode, now: i64)
    ensures Inv(Init(mode, now))
  {
    var s := Init(mode, now);
    assert s.disk.wal[..0] == [];
  }

  /** A run: each state but the first follows from the one before by an enabled step. */
  ghost predicate IsRun(states: seq<State>, steps: seq<Step>) {
    && |states| == |steps| + 1
    && forall i :: 0 <= i < |steps| ==> Moves(states[i], steps[i], states[i + 1])
  }

  ghost predicate Moves(s: State, step: Step, t: State) {
    s.disk.written <= Size(s.disk.wal) && s.open.written <= Size(s.open.wal) && Enabled(s, step) && t == Do(s, step)
  }

  lemma {:induction false} RunKeepsInv(mode: ValueMode, now: i64, states: seq<State>, steps: seq<Step>, i: nat)
    requires IsRun(states, steps) && states[0] == Init(mode, now) && i < |states|
    ensures Inv(states[i])
  {
    hide Enabled, Do, Inv;
    if i == 0 {
      InitHoldsInv(mode, now);
    } else {
      RunKeepsInv(mode, now, states, steps, i - 1);
      assert Moves(states[i - 1], steps[i - 1], states[i]);
      StepKeepsInv(states[i - 1], steps[i - 1]);
    }
  }

  /**
    In every state of every run, whatever crashes and compactions came before, `get` through
    the open handles answers what the accepted writes say.  Between remapping and reopening
    that is said of the new files; what the old handles answer there is in `ReopenWindow`.
   */
  lemma GetShowsHistory(mode: ValueMode, now: i64, states: seq<State>, steps: seq<Step>, i: nat, k: bytes)
    requires IsRun(states, steps) && states[0] == Init(mode, now) && i < |states|
    ensures var s := states[i];
      && s.open.written <= Size(s.open.wal) && s.disk.written <= Size(s.disk.wal)
      && (!s.phase.Remapped? ==> Get(s.open, s.store.records, k, s.now) == Some(Shown(HistoryDoc(s.history, k), s.now)))
      && (s.phase.Remapped? ==> Get(s.disk, s.store.records, k, s.now) == Some(Shown(HistoryDoc(s.history, k), s.now)))
  {
    hide Enabled, Do, Held, Clean, HistoryDoc, Get, IsRun, EncodeAll, PrefixesOk, PhaseInv, WriterInv, LogOf, HistoryOk;
    RunKeepsInv(mode, now, states, steps, i);
    var s := states[i];
    assert Held(Through(s), s.store.records, k, HistoryDoc(s.history, k), s.now);
    HeldReads(Through(s), s.store.records, k, HistoryDoc(s.history, k), s.now, s.now);
  }

  /** A crash in any state of any run loses no acknowledged write, and recovery shows what the kept writes say. */
  lemma AcknowledgedSurvive(mode: ValueMode, now: i64, states: seq<State>, steps: seq<Step>, i: nat, k: bytes)
    requires IsRun(states, steps) && states[0] == Init(mode, now) && i < |steps| && steps[i].Restart?
    ensures var s, t := states[i], states[i + 1];
      && s.acked <= |t.history| && t.history <= s.history
      && t.open.written <= Size(t.open.wal)
      && Get(t.open, t.store.records, k, t.now) == Some(Shown(HistoryDoc(t.history, k), t.now))
  {
    hide *;
    RestartKeepsAcked(mode, now, states, steps, i);
    GetShowsHistory(mode, now, states, steps, i + 1, k);
  }

  lemma RestartKeepsAcked(mode: ValueMode, now: i64, states: seq<State>, steps: seq<Step>, i: nat)
    requires IsRun(states, steps) && states[0] == Init(mode, now) && i < |steps| && steps[i].Restart?
    ensures i + 1 < |states| && states[i + 1].phase.Idle?
    ensures states[i].acked <= |states[i + 1].history| && states[i + 1].history <= states[i].history
  {
    hide HistoryOk, LogOf, PrefixesOk, AllHeld, TempsOk, EndsSet, Clean, EncodeAll, Scanned, Replayed, FileChanges, NothingNested, Held, HistoryDoc, ValidAt, Complete;
    RunKeepsInv(mode, now, states, steps, i);
    RunKeepsInv(mode, now, states, steps, i + 1);
    assert Moves(states[i], steps[i], states[i + 1]);
  }

  /** A step keeps what has been acknowledged, and only a restart takes anything from the history. */
  lemma StepKeepsHistory(s: State, step: Step)
    requires Inv(s) && Enabled(s, step)
    ensures var t := Do(s, step);
      && s.acked <= |s.history| && s.acked <= t.acked <= |t.history| && s.history[..s.acked] <= t.history
      && (!step.Restart? ==> s.history <= t.history)
      && (step.Append? ==> t.history == s.history + [step.write])
      && (step.Acknowledge? ==> t.acked == |t.history|)
  {
    hide HistoryOk, LogOf, PrefixesOk, AllHeld, TempsOk, EndsSet, Clean, EncodeAll, Scanned, Replayed, FileChanges, NothingNested, Held, HistoryDoc, ValidAt, Complete;
    InvParts(s);
    StepKeepsInv(s, step);
    InvParts(Do(s, step));
  }

  lemma InvParts(s: State)
    requires Inv(s)
    ensures s.acked <= |s.history|
  {
    hide HistoryOk, LogOf, PrefixesOk, AllHeld, TempsOk, EndsSet, Clean, EncodeAll;
  }

  lemma RunStep(mode: ValueMode, now: i64, states: seq<State>, steps: seq<Step>, i: nat)
    requires IsRun(states, steps) && states[0] == Init(mode, now) && i < |steps|
    ensures var s, t, step := states[i], states[i + 1], steps[i];
      && s.acked <= |s.history| && s.acked <= t.acked <= |t.history| && s.history[..s.acked] <= t.history
      && (!step.Restart? ==> s.history <= t.history)
      && (step.Append? ==> t.history == s.history + [step.write])
      && (step.Acknowledge? ==> t.acked == |t.history|)
  {
    hide Enabled, Do, Inv;
    RunKeepsInv(mode, now, states, steps, i);
    assert Moves(states[i], steps[i], states[i + 1]);
    StepKeepsHistory(states[i], steps[i]);
  }

  /** Nothing that was accepted up to an acknowledgement is ever lost from the history. */
  lemma {:induction false} AcknowledgedStay(mode: ValueMode, now: i64, states: seq<State>, steps: seq<Step>, m: nat, n: nat)
    requires IsRun(states, steps) && states[0] == Init(mode, now) && m < |steps| && steps[m].Acknowledge? && m < n < |states|
    ensures states[m].history <= states[n].history && |states[m].history| <= states[n].acked
  {
    hide Moves, Init;
    RunStep(mode, now, states, steps, m);
    if n > m + 1 {
      AcknowledgedStay(mode, now, states, steps, m, n - 1);
      RunStep(mode, now, states, steps, n - 1);
    }
  }

  /** A write that is appended and not lost to a crash before it is acknowledged is in the history ever after, at its place. */
  lemma {:induction false} WrittenStays(mode: ValueMode, now: i64, states: seq<State>, steps: seq<Step>, j: nat, m: nat, n: nat)
    requires IsRun(states, steps) && states[0] == Init(mode, now) && j < m < |steps| && m < n < |states|
    requires steps[j].Append? && steps[m].Acknowledge? && forall i :: j < i < m ==> !steps[i].Restart?
    ensures states[j].history + [steps[j].write] <= states[n].history
  {
    hide Moves, Init;
    AppendedLasts(mode, now, states, steps, j, m);
    AcknowledgedStay(mode, now, states, steps, m, n);
  }

  lemma {:induction false} AppendedLasts(mode: ValueMode, now: i64, states: seq<State>, steps: seq<Step>, j: nat, m: nat)
    requires IsRun(states, steps) && states[0] == Init(mode, now) && j < m < |states|
    requires steps[j].Append? && forall i :: j < i < m ==> !steps[i].Restart?
    ensures states[j].history + [steps[j].write] <= states[m].history
  {
    hide Moves, Init;
    RunStep(mode, now, states, steps, m - 1);
    if m > j + 1 {
      AppendedLasts(mode, now, states, steps, j, m - 1);
    }
  }

  /** A crash may come in every state, whatever the clocks then read. */
  lemma CrashAnywhere(s: State, clocks: (seq<i64>, seq<i64>), to: i64)
    requires Inv(s)
    requires s.disk.written <= Size(s.disk.wal) && s.now <= to && AllBy(clocks.0, to) && AllBy(clocks.1, to)
    requires |clocks.0| == |LogChanges(Scanned(s, Strict).0.frames)| && |clocks.1| == |LogChanges(Scanned(s, Strict).1.frames)|
    ensures s.open.written <= Size(s.open.wal) && Enabled(s, Restart(Strict, clocks, to))
  {
    hide Inv, Scanned, NothingNested, ScanFrom, Complete, Size, Publishable, AllLive, WriteOk, AllBy, LogChanges, FileBytes;
    FilesFit(s);
  }

  lemma FilesFit(s: State)
    requires Inv(s)
    ensures s.open.written <= Size(s.open.wal) && s.disk.written <= Size(s.disk.wal)
    ensures Complete(s.disk.wal, s.disk.written) <= |s.disk.wal| <= |s.history|
  {
    hide HistoryOk, LogOf, PrefixesOk, AllHeld, TempsOk, EndsSet, Clean, EncodeAll;
  }

  /**
    In every state of every run, a location held by an unexpired record reads the value last
    written to its key from the open files, or between remapping and reopening from the new ones.
   */
  lemma LocationsRead(mode: ValueMode, now: i64, states: seq<State>, steps: seq<Step>, i: nat, k: bytes)
    requires IsRun(states, steps) && states[0] == Init(mode, now) && i < |states|
    requires Live(states[i].store.records, k, states[i].now) && states[i].store.records[k].ref.Disk?
    ensures var s := states[i];
      var d, loc := HistoryDoc(s.history, k), s.store.records[k].ref.loc;
      && d.Some? && s.open.written <= Size(s.open.wal) && s.disk.written <= Size(s.disk.wal)
      && (!s.phase.Remapped? ==> Reads(FileBytes(s.open, loc.file), loc, d.value.value))
      && (s.phase.Remapped? ==> Reads(FileBytes(s.disk, loc.file), loc, d.value.value))
  {
    hide Enabled, Do, Clean, HistoryDoc, IsRun, EncodeAll, PrefixesOk, PhaseInv, WriterInv, LogOf, HistoryOk, LastWord, FileBytes;
    RunKeepsInv(mode, now, states, steps, i);
    var s := states[i];
    assert Held(Through(s), s.store.records, k, HistoryDoc(s.history, k), s.now);
  }

  /** Remapping changes no answer: the new location reads from the new files what the old one read from the old files. */
  lemma RemapPreservesReads(s: State, k: bytes)
    requires Inv(s) && Enabled(s, RemapStore)
    ensures var t := Do(s, RemapStore);
      t.disk.written <= Size(t.disk.wal) && Get(t.disk, t.store.records, k, s.now) == Get(s.open, s.store.records, k, s.now)
  {
    hide Held, Clean, HistoryDoc, Get, EncodeAll, PrefixesOk, WriterInv, LogOf, HistoryOk, TempsOk, Remap;
    RemapHelds(s);
    var d, t := HistoryDoc(s.history, k), Do(s, RemapStore);
    assert Held(s.open, s.store.records, k, d, s.now) && Held(s.disk, t.store.records, k, d, s.now);
    HeldReads(s.open, s.store.records, k, d, s.now, s.now);
    HeldReads(s.disk, t.store.records, k, d, s.now, s.now);
  }
}
