/** Recovery as `recovery.rs` carries it out on a store, and catching up with a growing log. */
module Recovery {
  import opened Wrappers
  import opened Bytes
  import opened Frames
  import opened LogScan
  import opened TornLog
  import opened BatchCodec
  import opened FileScan
  import opened Changes
  import opened Records
  import opened Stores
  import opened Durability

  /** A change as the scanner refers to it: kind and key, and where the value lies. */
  datatype OpRef = OpRef(kind: byte, key: bytes, valueOffset: nat, valueLen: nat, meta: Option<bytes>, expireAt: i64)

  /** The value of a set is read at once in memory mode, left in place in disk mode. */
  method SetRefToOp(r: OpRef, kind: ValueFile, file: bytes, mode: ValueMode, now: i64) returns (op: RecoveredOp)
    requires r.valueOffset + r.valueLen <= |file|
    ensures var value := file[r.valueOffset..r.valueOffset + r.valueLen];
      op == Recovered(Change(Set(r.key, value, r.expireAt, r.meta), r.valueOffset), kind, mode, now)
  {
    if Expired(r.expireAt, now) {
      return DropOp(r.key);
    }
    var ref := if mode.InMemory? then Memory(file[r.valueOffset..r.valueOffset + r.valueLen])
               else Disk(ValueLoc(kind, r.valueOffset, r.valueLen));
    op := PutOp(r.key, ref, r.expireAt, r.meta);
  }

  /** The operations of one frame of a file; each reads the clock anew. */
  method FrameToOps(ghost x: Located, ref: FrameRef, kind: ValueFile, file: bytes, mode: ValueMode, clock: seq<i64>) returns (ops: seq<RecoveredOp>)
    requires ReadFrameAt(file, x.offset) == Some((x.frame, x.len)) && ref == RefOf(x)
    requires |FrameChanges(x)| <= |clock|
    ensures var cs := FrameChanges(x); ops == RecoveredOps(cs, kind, mode, clock[..|cs|])
  {
    hide ReadFrame, ReadFrameAt, BatchRefs, ChangesOfRefs, Recovered;
    ValidHere(file, x);
    RefReadsValue(file, x.offset);
    var value := file[ref.valueOffset..ref.valueOffset + ref.valueLen];
    if ref.kind == TYPE_SET {
      var op := SetRefToOp(OpRef(ref.kind, ref.key, ref.valueOffset, ref.valueLen, ref.meta, ref.expireAt), kind, file, mode, clock[0]);
      OneRecovered(FrameChanges(x)[0], kind, mode, clock[..1]);
      return [op];
    } else if ref.kind == TYPE_DEL {
      DelRecovered(ref.key, ref.valueOffset, kind, mode, clock[0]);
      OneRecovered(FrameChanges(x)[0], kind, mode, clock[..1]);
      return [DropOp(ref.key)];
    } else if ref.kind == TYPE_BATCH {
      var refs := ScanBatchOpRefs(value, ref.valueOffset);
      if refs.Err? {
        return [];
      }
      ops := BatchToOps(value, refs.value, ref.valueOffset, kind, file, mode, clock);
    } else {
      ops := [];
    }
  }

  lemma ValidHere(file: bytes, x: Located)
    requires ReadFrameAt(file, x.offset) == Some((x.frame, x.len))
    ensures ValidAt(file, x.offset)
  {
  }

  lemma OneRecovered(c: Change, kind: ValueFile, mode: ValueMode, clock: seq<i64>)
    requires |clock| == 1
    ensures RecoveredOps([c], kind, mode, clock) == [Recovered(c, kind, mode, clock[0])]
  {
  }

  lemma {:induction false} ChangesOfRefsSnoc(body: bytes, base: nat, refs: seq<BatchOpRef>, r: BatchOpRef)
    ensures ChangesOfRefs(body, base, refs + [r]) == ChangesOfRefs(body, base, refs) + ChangeOf(body, base, r)
  {
    hide ChangeOf;
    if refs == [] {
      assert [] + [r] == [r] && [r][1..] == [];
      assert ChangeOf(body, base, r) + [] == ChangeOf(body, base, r);
    } else {
      assert (refs + [r])[1..] == refs[1..] + [r];
      ChangesOfRefsSnoc(body, base, refs[1..], r);
    }
  }

  lemma RefsPrefix(body: bytes, base: nat, refs: seq<BatchOpRef>, i: nat)
    requires i < |refs|
    ensures ChangesOfRefs(body, base, refs[..i + 1]) == ChangesOfRefs(body, base, refs[..i]) + ChangeOf(body, base, refs[i])
    ensures |ChangesOfRefs(body, base, refs[..i + 1])| <= |ChangesOfRefs(body, base, refs)|
  {
    hide ChangeOf;
    assert refs[..i + 1] == refs[..i] + [refs[i]];
    ChangesOfRefsSnoc(body, base, refs[..i], refs[i]);
    RefsGrow(body, base, refs, i + 1);
  }

  lemma {:induction false} RefsGrow(body: bytes, base: nat, refs: seq<BatchOpRef>, i: nat)
    requires i <= |refs|
    ensures |ChangesOfRefs(body, base, refs[..i])| <= |ChangesOfRefs(body, base, refs)|
    decreases |refs| - i
  {
    hide ChangeOf;
    if i == |refs| {
      assert refs[..i] == refs;
    } else {
      RefsGrow(body, base, refs, i + 1);
      assert refs[..i + 1] == refs[..i] + [refs[i]];
      ChangesOfRefsSnoc(body, base, refs[..i], refs[i]);
    }
  }

  lemma {:induction false} RecoveredConcat(a: seq<Change>, b: seq<Change>, kind: ValueFile, mode: ValueMode, c: seq<i64>, d: seq<i64>)
    requires |c| == |a| && |d| == |b|
    ensures RecoveredOps(a + b, kind, mode, c + d) == RecoveredOps(a, kind, mode, c) + RecoveredOps(b, kind, mode, d)
  {
    hide *;
    if a == [] {
      assert a + b == b && c + d == d;
      NoFrames(kind, mode);
      assert [] + RecoveredOps(b, kind, mode, d) == RecoveredOps(b, kind, mode, d);
    } else {
      assert (a + b)[1..] == a[1..] + b && (c + d)[1..] == c[1..] + d;
      RecoveredFirst(a, kind, mode, c);
      RecoveredFirst(a + b, kind, mode, c + d);
      RecoveredConcat(a[1..], b, kind, mode, c[1..], d);
      var x := [Recovered(a[0], kind, mode, c[0])];
      assert x + (RecoveredOps(a[1..], kind, mode, c[1..]) + RecoveredOps(b, kind, mode, d))
          == x + RecoveredOps(a[1..], kind, mode, c[1..]) + RecoveredOps(b, kind, mode, d);
    }
  }

  lemma RecoveredFirst(cs: seq<Change>, kind: ValueFile, mode: ValueMode, clock: seq<i64>)
    requires |clock| == |cs| > 0
    ensures RecoveredOps(cs, kind, mode, clock) == [Recovered(cs[0], kind, mode, clock[0])] + RecoveredOps(cs[1..], kind, mode, clock[1..])
  {
    hide Recovered;
  }

  /** Going on with the clock where it was left. */
  lemma RecoveredOn(a: seq<Change>, b: seq<Change>, kind: ValueFile, mode: ValueMode, clock: seq<i64>)
    requires |a| + |b| <= |clock|
    ensures RecoveredOps(a + b, kind, mode, clock[..|a + b|])
         == RecoveredOps(a, kind, mode, clock[..|a|]) + RecoveredOps(b, kind, mode, clock[|a|..|a| + |b|])
  {
    hide *;
    var n, m := |a|, |b|;
    assert clock[..n + m] == clock[..n] + clock[n..n + m];
    RecoveredConcat(a, b, kind, mode, clock[..n], clock[n..n + m]);
  }

  method RefToOps(body: bytes, refs: seq<BatchOpRef>, i: nat, base: nat, kind: ValueFile, file: bytes, mode: ValueMode, clock: seq<i64>) returns (ops: seq<RecoveredOp>)
    requires base + |body| <= |file| && file[base..base + |body|] == body && BatchRefs(body, base) == Ok(refs) && i < |refs|
    requires |ChangeOf(body, base, refs[i])| <= |clock|
    ensures var cs := ChangeOf(body, base, refs[i]); ops == RecoveredOps(cs, kind, mode, clock[..|cs|])
  {
    hide BatchRefs, Recovered, ChangeOf;
    var r := refs[i];
    RefInFile(body, refs, base, file, i);
    ChangeOfCases(body, base, r);
    if r.kind == TYPE_SET {
      var op := SetRefToOp(OpRef(r.kind, r.key, r.valueOffset, r.valueLen, r.meta, r.expireAt), kind, file, mode, clock[0]);
      OneRecovered(ChangeOf(body, base, r)[0], kind, mode, clock[..1]);
      return [op];
    }
    if r.kind == TYPE_DEL {
      DelRecovered(r.key, r.valueOffset, kind, mode, clock[0]);
      OneRecovered(ChangeOf(body, base, r)[0], kind, mode, clock[..1]);
      return [DropOp(r.key)];
    }
    ops := [];
  }

  /** The operations of a batch body that lies in the file at `base`. */
  method BatchToOps(body: bytes, refs: seq<BatchOpRef>, base: nat, kind: ValueFile, file: bytes, mode: ValueMode, clock: seq<i64>) returns (ops: seq<RecoveredOp>)
    requires base + |body| <= |file| && file[base..base + |body|] == body && BatchRefs(body, base) == Ok(refs)
    requires |ChangesOfRefs(body, base, refs)| <= |clock|
    ensures var cs := ChangesOfRefs(body, base, refs); ops == RecoveredOps(cs, kind, mode, clock[..|cs|])
  {
    hide *;
    ops := [];
    assert refs[..0] == [] && clock[..0] == [];
    NoRefs(body, base, kind, mode);
    for i := 0 to |refs|
      invariant var cs := ChangesOfRefs(body, base, refs[..i]);
        |ops| == |cs| <= |clock| && ops == RecoveredOps(cs, kind, mode, clock[..|cs|])
    {
      RefsPrefix(body, base, refs, i);
      ghost var cs, one := ChangesOfRefs(body, base, refs[..i]), ChangeOf(body, base, refs[i]);
      var more := RefToOps(body, refs, i, base, kind, file, mode, clock[|ops|..]);
      GoOn(ops, more, cs, one, kind, mode, clock);
      ops := ops + more;
    }
    WholeSlice(refs);
  }

  /** Operations made with the next readings of the clock go behind those made before. */
  lemma GoOn(ops: seq<RecoveredOp>, more: seq<RecoveredOp>, a: seq<Change>, b: seq<Change>, kind: ValueFile, mode: ValueMode, clock: seq<i64>)
    requires |a| + |b| <= |clock| && ops == RecoveredOps(a, kind, mode, clock[..|a|])
    requires more == RecoveredOps(b, kind, mode, clock[|a|..][..|b|])
    ensures ops + more == RecoveredOps(a + b, kind, mode, clock[..|a + b|]) && |ops + more| == |a + b|
  {
    hide *;
    RecoveredOn(a, b, kind, mode, clock);
    SliceSlice(clock, |a|, |clock|, 0, |b|);
    RecoveredLength(a + b, kind, mode, clock[..|a + b|]);
  }

  lemma WholeSlice<T>(s: seq<T>)
    ensures s[..|s|] == s
  {
  }

  lemma RecoveredLength(cs: seq<Change>, kind: ValueFile, mode: ValueMode, clock: seq<i64>)
    requires |clock| == |cs|
    ensures |RecoveredOps(cs, kind, mode, clock)| == |cs|
  {
  }

  lemma NoRefs(body: bytes, base: nat, kind: ValueFile, mode: ValueMode)
    ensures ChangesOfRefs(body, base, []) == [] && RecoveredOps([], kind, mode, []) == []
  {
  }

  lemma DelRecovered(k: bytes, at: nat, kind: ValueFile, mode: ValueMode, now: i64)
    ensures Recovered(Change(Del(k), at), kind, mode, now) == DropOp(k)
  {
  }

  lemma ChangeOfCases(body: bytes, base: nat, r: BatchOpRef)
    ensures r.kind != TYPE_SET && r.kind != TYPE_DEL ==> ChangeOf(body, base, r) == []
    ensures r.kind == TYPE_DEL ==> ChangeOf(body, base, r) == [Change(Del(r.key), r.valueOffset)]
    ensures r.kind == TYPE_SET ==> |ChangeOf(body, base, r)| == 1
  {
  }

  lemma RefInFile(body: bytes, refs: seq<BatchOpRef>, base: nat, file: bytes, i: nat)
    requires base + |body| <= |file| && file[base..base + |body|] == body && BatchRefs(body, base) == Ok(refs) && i < |refs|
    ensures var r := refs[i];
      && base <= r.valueOffset && r.valueOffset + r.valueLen <= |file|
      && var value := file[r.valueOffset..r.valueOffset + r.valueLen];
      r.kind == TYPE_SET ==> ChangeOf(body, base, r) == [Change(Set(r.key, value, r.expireAt, r.meta), r.valueOffset)]
  {
    hide BatchRefs, Decoded;
    RefsAgree(body, base);
    var r := refs[i];
    assert RefMatches(body, base, Decoded(body).value[i], r);
    SliceSlice(file, base, base + |body|, r.valueOffset - base, r.valueOffset - base + r.valueLen);
  }

  // --- a whole file -------------------------------------------------------------------------

  lemma {:induction false} LogChangesStep(xs: seq<Located>, i: nat)
    requires i < |xs|
    ensures LogChanges(xs[..i + 1]) == LogChanges(xs[..i]) + FrameChanges(xs[i])
    ensures |LogChanges(xs[..i + 1])| <= |LogChanges(xs)|
  {
    hide FrameChanges;
    assert xs[..i + 1] == xs[..i] + [xs[i]] && xs == xs[..i + 1] + xs[i + 1..];
    LogChangesConcat(xs[..i], [xs[i]]);
    LogChangesOne(xs[i]);
    LogChangesConcat(xs[..i + 1], xs[i + 1..]);
  }

  /** The operations of a file, frame by frame as the chunked scanner finds them. */
  method ScanFile(file: bytes, kind: ValueFile, scan: Mode, mode: ValueMode, clock: seq<i64>)
    returns (ops: seq<RecoveredOp>, frames: nat, corrupt: seq<(nat, nat)>, end: nat)
    requires |clock| == |LogChanges(ScanFrom(file, scan, 0).frames)|
    ensures var s := ScanFrom(file, scan, 0);
      ops == RecoveredOps(LogChanges(s.frames), kind, mode, clock) && frames == |s.frames| && corrupt == s.corrupt && end == s.eof
  {
    var refs;
    refs, corrupt, end := ScanFrameRefs(file, scan, 0);
    ops := OpsFrom(file, refs, 0, kind, scan, mode, clock);
    frames := |refs|;
  }

  method OpsFrom(file: bytes, refs: seq<FrameRef>, start: nat, kind: ValueFile, scan: Mode, mode: ValueMode, clock: seq<i64>)
    returns (ops: seq<RecoveredOp>)
    requires start <= |file| && RefsAre(refs, ScanFrom(file, scan, start).frames)
    requires |clock| == |LogChanges(ScanFrom(file, scan, start).frames)|
    ensures ops == RecoveredOps(LogChanges(ScanFrom(file, scan, start).frames), kind, mode, clock)
  {
    hide FrameChanges, ReadFrameAt, RecoveredOps, ScanFrom, LogChanges, RefOf;
    ghost var xs := ScanFrom(file, scan, start).frames;
    ScanSound(file, scan, start);
    ops := [];
    assert xs[..0] == [] && clock[..0] == [];
    NoFrames(kind, mode);
    for i := 0 to |refs|
      invariant var cs := LogChanges(xs[..i]);
        |ops| == |cs| <= |clock| && ops == RecoveredOps(cs, kind, mode, clock[..|cs|])
    {
      LogChangesStep(xs, i);
      ghost var cs, one := LogChanges(xs[..i]), FrameChanges(xs[i]);
      assert xs[i] in xs;
      var more := FrameToOps(xs[i], refs[i], kind, file, mode, clock[|ops|..]);
      GoOn(ops, more, cs, one, kind, mode, clock);
      ops := ops + more;
    }
    WholeSlice(xs);
    WholeSlice(clock);
  }

  lemma NoFrames(kind: ValueFile, mode: ValueMode)
    ensures LogChanges([]) == [] && RecoveredOps([], kind, mode, []) == []
  {
  }

  // --- applying -----------------------------------------------------------------------------

  /** Applied in order to a store. */
  method ApplyOperations(store: Store, ops: seq<RecoveredOp>)
    requires store.Valid()
    modifies store
    ensures store.Valid() && store.View() == ApplyAll(old(store.View()), ops)
  {
    hide ApplyAll, Sound;
    ApplyNone(store.View(), ops);
    for i := 0 to |ops|
      invariant store.Valid() && store.View() == ApplyAll(old(store.View()), ops[..i])
    {
      ApplyStep(old(store.View()), ops, i);
      match ops[i] {
        case PutOp(k, ref, e, m) => store.SetRef(k, ref, e, m);
        case DropOp(k) => var _ := store.Del(k);
      }
    }
    assert ops[..|ops|] == ops;
  }

  lemma ApplyNone(s: Stored, ops: seq<RecoveredOp>)
    ensures ApplyAll(s, ops[..0]) == s
  {
  }

  lemma ApplyStep(s: Stored, ops: seq<RecoveredOp>, i: nat)
    requires i < |ops|
    ensures ApplyAll(s, ops[..i + 1]) == ApplyOne(ApplyAll(s, ops[..i]), ops[i])
  {
    hide ApplyOne;
    assert ops[..i + 1][..i] == ops[..i];
  }

  datatype RecoveryInfo = RecoveryInfo(
    snapshotFrames: nat, walFrames: nat, truncatedWal: bool,
    corrupt: seq<(nat, nat)>, snapshotCorrupt: seq<(nat, nat)>, lostBytes: int, walScanEnd: nat)

  function FileOr(file: Option<bytes>): bytes {
    if file.Some? then file.value else []
  }

  /** The snapshot first, then the log; a torn end of the log is cut off if wanted; a missing file is an empty one. */
  method Recover(store: Store, snapshot: Option<bytes>, wal: Option<bytes>, scan: Mode, truncate: bool, mode: ValueMode, clocks: (seq<i64>, seq<i64>))
    returns (info: RecoveryInfo, walAfter: Option<bytes>)
    requires store.Valid()
    requires |clocks.0| == |LogChanges(ScanFrom(FileOr(snapshot), scan, 0).frames)|
    requires |clocks.1| == |LogChanges(ScanFrom(FileOr(wal), scan, 0).frames)|
    modifies store
    ensures store.Valid()
    ensures var a, b := ScanFrom(FileOr(snapshot), scan, 0), ScanFrom(FileOr(wal), scan, 0);
      && store.View() == ApplyAll(ApplyAll(old(store.View()), RecoveredOps(LogChanges(a.frames), SnapshotFile, mode, clocks.0)),
                                  RecoveredOps(LogChanges(b.frames), WalFile, mode, clocks.1))
      && walAfter == (if truncate && wal.Some? then Some(TruncatedFile(wal.value, b.corrupt)) else wal)
      && info == RecoveryInfo(|a.frames|, |b.frames|, truncate && wal.Some? && b.corrupt != [] && b.corrupt[|b.corrupt| - 1].1 == |wal.value|,
                              b.corrupt, a.corrupt, CorruptBytes(a.corrupt) + CorruptBytes(b.corrupt), if wal.Some? then b.eof else 0)
  {
    hide ApplyAll, RecoveredOps, LogChanges, Sound, ReadFrame, ScanFrom, CorruptBytes, TruncatedFile;
    var sops, sframes, scorrupt, _ := ScanFile(FileOr(snapshot), SnapshotFile, scan, mode, clocks.0);
    var wops, wframes, wcorrupt, wend := ScanFile(FileOr(wal), WalFile, scan, mode, clocks.1);
    if snapshot.Some? {
      ApplyOperations(store, sops);
    } else {
      EmptyScan(store.View(), SnapshotFile, scan, mode, clocks.0);
    }
    if wal.Some? {
      ApplyOperations(store, wops);
    } else {
      EmptyScan(store.View(), WalFile, scan, mode, clocks.1);
    }
    var truncated;
    truncated, walAfter := TruncateTorn(wal, scan, wcorrupt, truncate);
    var slost := SumRanges(scorrupt);
    var wlost := SumRanges(wcorrupt);
    info := RecoveryInfo(sframes, wframes, truncated, wcorrupt, scorrupt, slost + wlost, if wal.Some? then wend else 0);
  }

  method TruncateTorn(wal: Option<bytes>, ghost scan: Mode, corrupt: seq<(nat, nat)>, truncate: bool) returns (truncated: bool, after: Option<bytes>)
    requires corrupt == ScanFrom(FileOr(wal), scan, 0).corrupt
    ensures truncated == (truncate && wal.Some? && corrupt != [] && corrupt[|corrupt| - 1].1 == |wal.value|)
    ensures after == if truncate && wal.Some? then Some(TruncatedFile(wal.value, corrupt)) else wal
    ensures truncated ==> corrupt[|corrupt| - 1].0 <= |wal.value| && after == Some(wal.value[..corrupt[|corrupt| - 1].0])
    ensures !truncated ==> after == wal
  {
    hide ScanFrom;
    ScanSound(FileOr(wal), scan, 0);
    truncated := truncate && wal.Some? && corrupt != [] && corrupt[|corrupt| - 1].1 == |wal.value|;
    if truncated {
      assert corrupt[|corrupt| - 1] in corrupt;
    }
    after := if truncated then Some(wal.value[..corrupt[|corrupt| - 1].0]) else wal;
  }

  method SumRanges(ranges: seq<(nat, nat)>) returns (n: int)
    ensures n == CorruptBytes(ranges)
  {
    n := 0;
    var i := |ranges|;
    assert ranges[i..] == [];
    while i > 0
      invariant 0 <= i <= |ranges| && n == CorruptBytes(ranges[i..])
    {
      i := i - 1;
      assert ranges[i..][1..] == ranges[i + 1..];
      n := n + ranges[i].1 - ranges[i].0;
    }
    assert ranges[0..] == ranges;
  }

  lemma EmptyScan(s: Stored, kind: ValueFile, scan: Mode, mode: ValueMode, clock: seq<i64>)
    requires |clock| == |LogChanges(ScanFrom([], scan, 0).frames)|
    ensures ApplyAll(s, RecoveredOps(LogChanges(ScanFrom([], scan, 0).frames), kind, mode, clock)) == s
  {
  }

  // --- catching up --------------------------------------------------------------------------

  datatype CatchUpResult = CatchUpResult(offset: nat, frames: nat)

  /** Whether what lies at the offset begins like a frame. */
  predicate BeginsFrame(b: bytes, offset: nat)
    requires offset <= |b|
  {
    var n := if |b| - offset < 2 then |b| - offset else 2;
    b[offset..offset + n] == MAGIC[..n]
  }

  /**
    Applies what a growing log has gained behind the offset.  Gives up when the log is gone,
    another file has its name, it has shrunk, or what follows is not the beginning of a frame.
   */
  method CatchUp(store: Store, wal: Option<bytes>, sameFile: bool, offset: nat, mode: ValueMode, clock: seq<i64>)
    returns (r: Option<CatchUpResult>)
    requires store.Valid()
    requires wal.Some? && offset <= |wal.value| ==> |clock| == |LogChanges(ScanFrom(wal.value, Strict, offset).frames)|
    modifies store
    ensures store.Valid()
    ensures var givesUp := wal.None? || !sameFile || offset > |wal.value|
        || (ScanFrom(wal.value, Strict, offset).frames == [] && ScanFrom(wal.value, Strict, offset).eof < |wal.value|
            && (wal.value[offset] != 0x4d || (offset + 1 < |wal.value| && wal.value[offset + 1] != 0x44)));
      if givesUp then r == None && store.View() == old(store.View())
      else
        var s := ScanFrom(wal.value, Strict, offset);
        && r == Some(CatchUpResult(s.eof, |s.frames|))
        && store.View() == ApplyAll(old(store.View()), RecoveredOps(LogChanges(s.frames), WalFile, mode, clock))
  {
    hide ApplyAll, RecoveredOps, LogChanges, Sound, ReadFrame;
    if wal.None? || !sameFile || offset > |wal.value| {
      return None;
    }
    var file := wal.value;
    var refs, corrupt, end := ScanFrameRefs(file, Strict, offset);
    if refs == [] && end < |file| {
      NothingFound(store.View(), file, offset, mode, clock);
      BeginsWithMagic(file, offset);
      if !BeginsFrame(file, offset) {
        return None;
      }
      return Some(CatchUpResult(offset, 0));
    }
    var ops := OpsFrom(file, refs, offset, WalFile, Strict, mode, clock);
    ApplyOperations(store, ops);
    r := Some(CatchUpResult(end, |refs|));
  }

  lemma BeginsWithMagic(b: bytes, offset: nat)
    requires offset < |b|
    ensures BeginsFrame(b, offset) <==> b[offset] == 0x4d && (offset + 1 < |b| ==> b[offset + 1] == 0x44)
  {
    var n := if |b| - offset < 2 then |b| - offset else 2;
    var front := b[offset..offset + n];
    assert front[0] == b[offset] && (n == 2 ==> front[1] == b[offset + 1]);
    assert MAGIC[..n][0] == 0x4d && (n == 2 ==> MAGIC[..n][1] == 0x44);
    if b[offset] == 0x4d && (offset + 1 < |b| ==> b[offset + 1] == 0x44) {
      assert front == MAGIC[..n];
    }
  }

  lemma NothingFound(s: Stored, file: bytes, offset: nat, mode: ValueMode, clock: seq<i64>)
    requires offset <= |file| && ScanFrom(file, Strict, offset).frames == []
    requires |clock| == |LogChanges(ScanFrom(file, Strict, offset).frames)|
    ensures ScanFrom(file, Strict, offset).eof == offset
    ensures ApplyAll(s, RecoveredOps(LogChanges(ScanFrom(file, Strict, offset).frames), WalFile, mode, clock)) == s
  {
    hide ReadFrame;
  }

  /**
    Catching up is recovering once: from the end of a log cut at j, catching up with the log
    cut at k leaves the store that one recovery of the longer log builds with the same clock
    readings.
   */
  lemma CatchUpIsRecovery(s: Stored, fs: seq<Frame>, j: nat, k: nat, mode: ValueMode, first: seq<i64>, rest: seq<i64>)
    requires Clean(fs) && j <= k <= |EncodeAll(fs)|
    requires |first| == |LogChanges(ScanFrom(Cut(fs, j), Strict, 0).frames)|
    requires |rest| == |LogChanges(ScanFrom(Cut(fs, k), Strict, ScanFrom(Cut(fs, j), Strict, 0).eof).frames)|
    ensures var a, b, all := ScanFrom(Cut(fs, j), Strict, 0), ScanFrom(Cut(fs, k), Strict, ScanFrom(Cut(fs, j), Strict, 0).eof), ScanFrom(Cut(fs, k), Strict, 0);
      && b.eof == all.eof && |first + rest| == |LogChanges(all.frames)|
      && ApplyAll(ApplyAll(s, RecoveredOps(LogChanges(a.frames), WalFile, mode, first)), RecoveredOps(LogChanges(b.frames), WalFile, mode, rest))
         == ApplyAll(s, RecoveredOps(LogChanges(all.frames), WalFile, mode, first + rest))
  {
    hide *;
    CleanParts(fs, 0);
    ResumeScan(fs, j, k);
    var a := ScanFrom(Cut(fs, j), Strict, 0);
    var b := ScanFrom(Cut(fs, k), Strict, a.eof);
    LogChangesConcat(a.frames, b.frames);
    RecoveredConcat(LogChanges(a.frames), LogChanges(b.frames), WalFile, mode, first, rest);
    ApplyAllConcat(s, RecoveredOps(LogChanges(a.frames), WalFile, mode, first), RecoveredOps(LogChanges(b.frames), WalFile, mode, rest));
  }

  /** On a log of encoded frames cut anywhere, catching up from a frame boundary never gives up. */
  lemma CatchUpGoesOn(fs: seq<Frame>, c: nat, k: nat)
    requires Clean(fs) && c <= |fs| && Size(fs[..c]) <= k <= |EncodeAll(fs)|
    ensures Size(fs[..c]) <= |Cut(fs, k)| && BeginsFrame(Cut(fs, k), Size(fs[..c]))
  {
    hide EncodeAll, Cut, Encoded;
    var n := Size(fs[..c]);
    CleanParts(fs, c);
    CutAfter(fs, c, k);
    CutIs(fs, k);
    CutIs(fs[c..], k - n);
    var tail := Cut(fs[c..], k - n);
    assert Cut(fs, k)[n..] == tail;
    var m := if |tail| < 2 then |tail| else 2;
    assert Cut(fs, k)[n..n + m] == tail[..m];
    if tail != [] {
      LogBeginsFrame(fs[c..]);
      assert tail[..m] == EncodeAll(fs[c..])[..2][..m];
    }
  }

  lemma LogBeginsFrame(fs: seq<Frame>)
    requires EncodeAll(fs) != []
    ensures |EncodeAll(fs)| >= 2 && EncodeAll(fs)[..2] == MAGIC
  {
    hide Encoded;
    EncodedSlices(fs[0]);
    HeaderParts(fs[0]);
    EncodedLength(fs[0]);
    var e := Encoded(fs[0]);
    assert e[..2] == e[..HEADER_SIZE][..2];
    assert EncodeAll(fs)[..2] == e[..2];
  }
}
