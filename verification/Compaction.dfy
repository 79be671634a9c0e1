/** The file work of compaction: writing the snapshot, copying the log tail, remapping the store. */
module Compaction {
  import opened Wrappers
  import opened Bytes
  import opened Frames
  import opened LogScan
  import opened TornLog
  import opened Changes
  import opened Records
  import opened Stores
  import opened Durability

  // --- the snapshot file (snapshot.rs) ------------------------------------------------------------

  const FLUSH_BYTES: nat := 0x10_0000

  datatype SnapshotResult = SnapshotResult(count: nat, size: nat, locations: map<bytes, ValueLoc>)

  function FrameOf(e: Entry): Frame {
    EntryFrame(e.key, Doc(e.value, e.expireAt, e.meta))
  }

  function FramesOf(es: seq<Entry>): (fs: seq<Frame>)
    ensures |fs| == |es| && forall i :: 0 <= i < |es| ==> fs[i] == FrameOf(es[i])
  {
    if es == [] then [] else FramesOf(es[..|es| - 1]) + [FrameOf(es[|es| - 1])]
  }

  ghost predicate LocationsOf(locations: map<bytes, ValueLoc>, fs: seq<Frame>) {
    forall k :: Lookup(locations, k) == SnapshotLoc(fs, k)
  }

  lemma LocationsNone()
    ensures LocationsOf(map[], [])
  {
  }

  lemma LocationsStep(locations: map<bytes, ValueLoc>, fs: seq<Frame>, f: Frame)
    requires Clean(fs + [f]) && f.kind == TYPE_SET && LocationsOf(locations, fs)
    ensures LocationsOf(locations[f.key := ValueLoc(SnapshotFile, Size(fs) + HEADER_SIZE + |f.key|, |f.value|)], fs + [f])
  {
    hide SnapshotLoc, Clean, Size, EncodeAll;
    var loc := ValueLoc(SnapshotFile, Size(fs) + HEADER_SIZE + |f.key|, |f.value|);
    forall k
      ensures SnapshotLoc(fs + [f], k) == if k == f.key then Some(loc) else SnapshotLoc(fs, k)
    {
      SnapshotLocStep(fs, f, k);
    }
  }

  lemma SnapshotLocStep(fs: seq<Frame>, f: Frame, k: bytes)
    requires Clean(fs + [f]) && f.kind == TYPE_SET
    ensures SnapshotLoc(fs + [f], k)
         == if k == f.key then Some(ValueLoc(SnapshotFile, Size(fs) + HEADER_SIZE + |f.key|, |f.value|)) else SnapshotLoc(fs, k)
  {
    hide *;
    var all := fs + [f];
    assert all[..|fs|] == fs && all[|fs|..] == [f];
    CleanLast(all);
    LastChangesEnd(all, k);
    LastSettled(fs, k);
    LogOpsConcat(fs, [f]);
    LogOpsOne(f);
    LastConcat(LogOps(fs), LogOps([f]), k);
    OneSet(all, k);
    SplitChanges(all, |fs|);
    SplitLengths(FileChanges(fs), LogChanges(LocateAll([f], Size(fs))));
    SnapshotLocIs(fs, k);
    SnapshotLocIs(all, k);
  }

  lemma SnapshotLocIs(fs: seq<Frame>, k: bytes)
    requires Ops(FileChanges(fs)) == LogOps(fs) && |FileChanges(fs)| == |LogOps(fs)|
    ensures var i := Last(LogOps(fs), k);
      && -1 <= i < |LogOps(fs)|
      && (i < 0 ==> SnapshotLoc(fs, k) == None)
      && (i >= 0 && LogOps(fs)[i].Set? ==> SnapshotLoc(fs, k) == Some(ValueLoc(SnapshotFile, FileChanges(fs)[i].at, |LogOps(fs)[i].value|)))
      && (i >= 0 && !LogOps(fs)[i].Set? ==> SnapshotLoc(fs, k) == None)
  {
    hide LogOps, FileChanges, Last;
  }

  lemma OneSet(all: seq<Frame>, k: bytes)
    requires all != [] && all[|all| - 1].kind == TYPE_SET
    ensures var f := all[|all| - 1];
      && FrameOps(f) == [Set(f.key, f.value, f.expireAt, f.meta)]
      && LastChanges(all) == [Change(FrameOps(f)[0], Size(all[..|all| - 1]) + HEADER_SIZE + |f.key|)]
      && Last(FrameOps(f), k) == if f.key == k then 0 else -1
  {
    hide EncodeAll, Encoded;
  }

  ghost predicate EntriesFit(es: seq<Entry>) {
    forall e :: e in es ==> Fits(FrameOf(e)) && Normal(FrameOf(e)) == FrameOf(e)
  }

  /**
    `write_snapshot_entries`: the file is the concatenation of one set frame per entry,
    written out whenever a megabyte has gathered, and the locations are those of the values.
   */
  method WriteSnapshotEntries(entries: seq<Entry>) returns (r: Result<(bytes, SnapshotResult), CodecError>)
    requires EntriesFit(entries)
    ensures r.Err? ==> r.error == KeyTooLarge && exists e :: e in entries && |e.key| > MAX_KEY_LEN
    ensures r.Ok? ==>
      var fs := FramesOf(entries);
      && Clean(fs) && r.value.0 == EncodeAll(fs)
      && r.value.1.count == |entries| && r.value.1.size == Size(fs)
      && LocationsOf(r.value.1.locations, fs)
  {
    hide Encoded, EncodeAll, SnapshotLoc, FrameOf, Normal, Encodable, Fits, LocationsOf, Size;
    var file, batch: bytes, locations: map<bytes, ValueLoc> := [], [], map[];
    LocationsNone();
    EmptySize();
    assert entries[..0] == [];
    for i := 0 to |entries|
      invariant var fs := FramesOf(entries[..i]);
        Clean(fs) && file + batch == EncodeAll(fs) && LocationsOf(locations, fs)
    {
      var e := entries[i];
      ghost var fs := FramesOf(entries[..i]);
      assert entries[..i + 1][..i] == entries[..i] && e in entries;
      FrameFacts(e);
      var frame := EncodeFrame(FrameOf(e));
      if frame.Err? {
        return Err(frame.error);
      }
      SizeIs(fs);
      EncodeAllConcat(fs, [FrameOf(e)]);
      EncodeOne(FrameOf(e));
      LocationsStep(locations, fs, FrameOf(e));
      var offset := |file| + |batch| + HEADER_SIZE + |e.key|;
      locations := locations[e.key := ValueLoc(SnapshotFile, offset, |e.value|)];
      assert file + (batch + frame.value) == file + batch + frame.value;
      batch := batch + frame.value;
      if |batch| >= FLUSH_BYTES {
        assert file + batch + [] == file + batch;
        file := file + batch;
        batch := [];
      }
    }
    assert entries[..|entries|] == entries;
    SizeIs(FramesOf(entries));
    file := file + batch;
    r := Ok((file, SnapshotResult(|entries|, |file|, locations)));
  }

  lemma FrameFacts(e: Entry)
    requires Fits(FrameOf(e)) && Normal(FrameOf(e)) == FrameOf(e)
    ensures var f := FrameOf(e);
      && f.kind == TYPE_SET && f.key == e.key && f.value == e.value
      && (EncodeFrame(f).Err? ==> EncodeFrame(f).error == KeyTooLarge && |e.key| > MAX_KEY_LEN)
      && (EncodeFrame(f).Ok? ==> EncodeFrame(f).value == Encoded(f) && Encodable(f))
  {
    hide Encoded;
  }

  lemma EncodeOne(f: Frame)
    ensures EncodeAll([f]) == Encoded(f)
  {
    hide Encoded;
    assert [f][1..] == [];
    assert Encoded(f) + [] == Encoded(f);
  }

  // --- copying the log tail -----------------------------------------------------------------

  const COPY_CHUNK: nat := 0x10_0000
  const SMALL_DELTA: nat := 0x1_0000
  const MAX_PRECOPY_PASSES: nat := 5
  const CONVERGE_RATIO: real := 0.7
  const MAX_U64: nat := 0xFFFF_FFFF_FFFF_FFFF

  datatype CopyError = EndBeforeStart(start: nat, end: nat)

  /** The stretch of b that a range covers, as far as b goes. */
  function Stretch(b: bytes, start: nat, end: nat): bytes
    requires start <= end
  {
    if |b| <= start then [] else if end <= |b| then b[start..end] else b[start..]
  }

  /** Copies a range of the source, chunk by chunk, over or behind what the destination holds; a short source ends it. */
  method CopyFileRange(source: bytes, destination: Option<bytes>, start: nat, end: nat, append: bool) returns (r: Result<bytes, CopyError>)
    ensures end < start ==> r == Err(EndBeforeStart(start, end))
    ensures start <= end ==> r == Ok((if append then (if destination.Some? then destination.value else []) else []) + Stretch(source, start, end))
  {
    hide Stretch;
    if end < start {
      return Err(EndBeforeStart(start, end));
    }
    var kept: bytes := if append && destination.Some? then destination.value else [];
    var out := kept;
    var position := start;
    NothingCopied(source, kept, start);
    while position < end
      invariant start <= position <= end && (position <= |source| || position == start)
      invariant out == kept + Stretch(source, start, position)
    {
      var length := if end - position <= COPY_CHUNK then end - position else COPY_CHUNK;
      var available := if position <= |source| then |source| - position else 0;
      var count := if length <= available then length else available;
      if count == 0 {
        SourceEnds(source, start, position, end);
        break;
      }
      out := out + source[position..position + count];
      CopiedOn(source, kept, start, position, position + count);
      position := position + count;
    }
    r := Ok(out);
  }

  lemma CopiedOn(source: bytes, kept: bytes, i: nat, j: nat, k: nat)
    requires i <= j <= k <= |source|
    ensures kept + Stretch(source, i, j) + source[j..k] == kept + Stretch(source, i, k)
    ensures Stretch(source, i, j) == source[i..j] && Stretch(source, i, k) == source[i..k] == source[i..j] + source[j..k]
  {
  }

  lemma NothingCopied(source: bytes, kept: bytes, i: nat)
    ensures kept == kept + Stretch(source, i, i)
  {
  }

  lemma SourceEnds(source: bytes, start: nat, position: nat, end: nat)
    requires start <= position <= end && |source| <= position && (position <= |source| || position == start)
    ensures Stretch(source, start, position) == Stretch(source, start, end)
  {
  }

  /**
    The log that is being rotated.  Writers may add a piece between any two flushes until it
    is sealed; what was accepted before that is still written.
   */
  class Wal {
    var content: bytes
    var queued: bytes
    var coming: seq<bytes>
    var isSealed: bool

    constructor (content: bytes, coming: seq<bytes>)
      ensures this.content == content && this.coming == coming && queued == [] && !isSealed
    {
      this.content, this.coming, queued, isSealed := content, coming, [], false;
    }

    method Flush()
      modifies this
      ensures content == old(content) + old(queued) && isSealed == old(isSealed)
      ensures isSealed ==> queued == [] && coming == old(coming)
      ensures !isSealed ==> queued + Flatten(coming) == Flatten(old(coming))
      ensures Suffix(coming, old(coming))
    {
      content := content + queued;
      queued := [];
      if !isSealed && coming != [] {
        queued, coming := coming[0], coming[1..];
      }
    }

    method Seal()
      modifies this
      ensures isSealed && content == old(content) && queued == old(queued) && coming == old(coming)
    {
      isSealed := true;
    }
  }

  /** The last of some pieces. */
  ghost predicate Suffix(left: seq<bytes>, all: seq<bytes>) {
    |left| <= |all| && left == all[|all| - |left|..]
  }

  /** The gap no longer shrinks fast enough to go on copying while writers append. */
  predicate Stalls(pass: nat, gap: nat, previous: nat) {
    pass > 0 && gap as real > previous as real * CONVERGE_RATIO
  }

  /**
    Pre-copy passes while writers go on, then the sealed loop.  Whatever writers append, and
    whatever an earlier attempt left behind, the loop ends and the new file holds exactly the
    log's bytes from the fence to its sealed end, and no accepted byte is missing from the log.
   */
  method CopyTail(wal: Wal, base: nat, leftover: Option<bytes>) returns (temp: bytes)
    requires base <= |wal.content| && !wal.isSealed && wal.queued == []
    modifies wal
    ensures wal.isSealed && wal.queued == []
    ensures old(wal.content) <= wal.content && wal.content + Flatten(wal.coming) == old(wal.content) + Flatten(old(wal.coming))
    ensures Suffix(wal.coming, old(wal.coming))
    ensures temp == wal.content[base..]
  {
    hide Flatten;
    var file, copied, appended := CopyAhead(wal, base, leftover);
    wal.Seal();
    temp := CopyRest(wal, base, leftover, file, copied, appended);
  }

  /** How far the copy has come. */
  predicate Reached(content: bytes, base: nat, leftover: Option<bytes>, file: Option<bytes>, copied: nat, appended: bool) {
    && base <= copied <= |content|
    && if appended then file == Some(content[base..copied]) else file == leftover && copied == base
  }

  /** The passes while writers go on. */
  method CopyAhead(wal: Wal, base: nat, leftover: Option<bytes>) returns (file: Option<bytes>, copied: nat, appended: bool)
    requires base <= |wal.content| && !wal.isSealed && wal.queued == []
    modifies wal
    ensures !wal.isSealed && Reached(wal.content, base, leftover, file, copied, appended)
    ensures old(wal.content) <= wal.content && Suffix(wal.coming, old(wal.coming))
    ensures wal.content + (wal.queued + Flatten(wal.coming)) == old(wal.content) + Flatten(old(wal.coming))
  {
    hide Flatten;
    ghost var all := wal.content + Flatten(wal.coming);
    file, copied, appended := leftover, base, false;
    var previous: nat := MAX_U64;
    assert [] + Flatten(wal.coming) == Flatten(wal.coming);
    for pass := 0 to MAX_PRECOPY_PASSES
      invariant !wal.isSealed && old(wal.content) <= wal.content && Suffix(wal.coming, old(wal.coming))
      invariant wal.content + (wal.queued + Flatten(wal.coming)) == all
      invariant Reached(wal.content, base, leftover, file, copied, appended)
    {
      FlushKeeps(wal.content, wal.queued, wal.coming, base, copied);
      wal.Flush();
      var head := |wal.content|;
      var gap := head - copied;
      if gap <= SMALL_DELTA {
        break;
      }
      if Stalls(pass, gap, previous) {
        break;
      }
      file := CopyOn(wal.content, file, base, copied, head, appended);
      copied, appended, previous := head, true, gap;
    }
  }

  /** The loop once the log is sealed. */
  method CopyRest(wal: Wal, base: nat, ghost leftover: Option<bytes>, was: Option<bytes>, from: nat, begun: bool) returns (temp: bytes)
    requires wal.isSealed && Reached(wal.content, base, leftover, was, from, begun)
    modifies wal
    ensures wal.isSealed && wal.queued == [] && base <= |wal.content| && temp == wal.content[base..]
    ensures old(wal.content) <= wal.content && wal.content + Flatten(wal.coming) == old(wal.content) + (old(wal.queued) + Flatten(old(wal.coming)))
    ensures wal.coming == old(wal.coming)
  {
    hide Flatten;
    var file, copied, appended := was, from, begun;
    while true
      invariant wal.isSealed && old(wal.content) <= wal.content && wal.coming == old(wal.coming)
      invariant wal.content + wal.queued == old(wal.content) + old(wal.queued)
      invariant Reached(wal.content, base, leftover, file, copied, appended)
      decreases |wal.content| + |wal.queued| - copied, if appended then 0 else 1
    {
      FlushKeeps(wal.content, wal.queued, wal.coming, base, copied);
      wal.Flush();
      var end := |wal.content|;
      if end == copied && appended {
        break;
      }
      file := CopyOn(wal.content, file, base, copied, end, appended);
      copied, appended := end, true;
    }
    assert wal.content + [] == wal.content;
    Regrouped(old(wal.content), old(wal.queued), Flatten(wal.coming));
    temp := file.value;
  }

  lemma Regrouped(a: bytes, b: bytes, c: bytes)
    ensures a + b + c == a + (b + c)
  {
  }

  lemma FlushKeeps(content: bytes, queued: bytes, coming: seq<bytes>, base: nat, copied: nat)
    requires base <= copied <= |content|
    ensures (content + queued)[base..copied] == content[base..copied]
    ensures content + (queued + Flatten(coming)) == content + queued + Flatten(coming)
  {
  }

  method CopyOn(content: bytes, file: Option<bytes>, base: nat, copied: nat, end: nat, appended: bool) returns (after: Option<bytes>)
    requires base <= copied <= end <= |content|
    requires if appended then file == Some(content[base..copied]) else copied == base
    ensures after == Some(content[base..end])
  {
    CopiedOn(content, [], base, copied, end);
    var r := CopyFileRange(content, file, copied, end, appended);
    assert [] + content[base..end] == content[base..end];
    assert [] + content[base..copied] == content[base..copied];
    after := Some(r.value);
  }

  // --- remapping the store --------------------------------------------------------------------

  /** `remap_store` moves every record as the model of compaction says. */
  method RemapStore(store: Store, base: nat, ghost temp: seq<Frame>, locations: map<bytes, ValueLoc>)
    requires store.Valid() && LocationsOf(locations, temp)
    modifies store
    ensures store.Valid() && store.View() == Stored(Remap(temp, base, old(store.records)), old(store.sequence))
  {
    hide SnapshotLoc, Sound;
    var remap := (k: bytes, l: ValueLoc, r: Record) =>
      if l.file.WalFile? && l.offset >= base then Some(l.(offset := l.offset - base)) else Lookup(locations, k);
    ghost var was := store.records;
    store.RemapLocations(remap);
    forall k | k in was
      ensures store.records[k] == was[k].(ref := RemapRef(temp, base, k, was[k].ref))
    {
      assert Lookup(locations, k) == SnapshotLoc(temp, k);
    }
  }
}
