/**
  The file scanner of `codec.rs`: frames are located without loading their values, the
  checksum and the magic are looked for chunk by chunk.  File reads return what was asked for.
 */
module FileScan {
  import opened Wrappers
  import opened Bytes
  import opened Frames
  import opened LogScan

  const CRC_CHUNK_SIZE: nat := 0x10_0000
  const MAGIC_SCAN_CHUNK_SIZE: nat := 0x10_0000

  datatype FrameRef = FrameRef(kind: byte, key: bytes, meta: Option<bytes>, expireAt: i64,
                               frameOffset: nat, valueOffset: nat, valueLen: nat, frameLen: nat)

  /** The reference to a frame found in a file. */
  function RefOf(l: Located): FrameRef {
    FrameRef(l.frame.kind, l.frame.key, l.frame.meta, l.frame.expireAt,
             l.offset, l.offset + HEADER_SIZE + |l.frame.key|, |l.frame.value|, l.len)
  }

  function RefAt(file: bytes, position: nat): Option<FrameRef> {
    match ReadFrameAt(file, position)
    case None => None
    case Some((f, n)) => Some(RefOf(Located(position, f, n)))
  }

  /** A reference leads to the bytes of its frame's value. */
  lemma RefReadsValue(file: bytes, position: nat)
    requires ValidAt(file, position)
    ensures var (f, n) := ReadFrameAt(file, position).value;
      var r := RefOf(Located(position, f, n));
      r.valueOffset + r.valueLen <= |file| && file[r.valueOffset..r.valueOffset + r.valueLen] == f.value
  {
    hide ChecksumOk, ExpireField, FromLE;
    var b := file[position..];
    var k := HEADER_SIZE + KeyLen(b);
    SliceSlice(file, position, |file|, k, k + ValueLen(b));
  }

  /** The running checksum over a stretch of the file. */
  method HashRange(file: bytes, start: nat, length: nat) returns (hash: u32)
    requires start + length <= |file|
    ensures hash == HashAll(HASH_START, file[start..start + length])
  {
    hide HashByte, CRC_CHUNK_SIZE;
    hash := HASH_START;
    var position, remaining := start, length;
    assert file[start..start] == [];
    while remaining > 0
      invariant start <= position <= start + length == position + remaining
      invariant hash == HashAll(HASH_START, file[start..position])
    {
      var n := if remaining <= CRC_CHUNK_SIZE then remaining else CRC_CHUNK_SIZE;
      ChunkSizes();
      var chunk := file[position..position + n];
      HashConcat(HASH_START, file[start..position], chunk);
      assert file[start..position] + chunk == file[start..position + n];
      hash := HashAll(hash, chunk);
      position := position + n;
      remaining := remaining - n;
    }
  }

  lemma ChunkSizes()
    ensures CRC_CHUNK_SIZE >= 2 && MAGIC_SCAN_CHUNK_SIZE >= 2
  {
  }

  lemma WindowFacts(file: bytes, position: nat)
    requires position + HEADER_SIZE <= |file|
    ensures var b, h := file[position..], file[position..position + HEADER_SIZE];
      && b[..HEADER_SIZE] == h && |b| == |file| - position
      && b[..2] == h[..2] && b[2] == h[2] && ExpireField(b) == ExpireField(h)
      && KeyLen(b) == KeyLen(h) && ValueLen(b) == ValueLen(h) && MetaLen(b) == MetaLen(h) && FrameLen(b) == FrameLen(h)
  {
    hide FromLE, ExpireField, KeyLen, ValueLen, MetaLen, FrameLen;
    var b, h := file[position..], file[position..position + HEADER_SIZE];
    SliceSlice(file, position, |file|, 0, HEADER_SIZE);
    assert h[..HEADER_SIZE] == h;
    HeaderAgrees(b, h);
  }

  lemma FrameSlices(file: bytes, position: nat, n: nat)
    requires position + n <= |file| && HEADER_SIZE + CRC_SIZE <= n
    ensures var b := file[position..];
      && b[2..n - CRC_SIZE] == file[position + 2..position + n - CRC_SIZE]
      && b[n - CRC_SIZE..n] == file[position + n - CRC_SIZE..position + n]
  {
    SliceSlice(file, position, |file|, 2, n - CRC_SIZE);
    SliceSlice(file, position, |file|, n - CRC_SIZE, n);
  }

  lemma PayloadSlices(file: bytes, position: nat, n: nat, k: nat, v: nat, m: nat)
    requires position + n <= |file| && HEADER_SIZE + k + v + m + CRC_SIZE == n
    ensures var b, at := file[position..], position + HEADER_SIZE;
      && b[HEADER_SIZE..HEADER_SIZE + k] == file[at..at + k]
      && b[HEADER_SIZE + k + v..HEADER_SIZE + k + v + m] == file[at + k + v..at + k + v + m]
  {
    SliceSlice(file, position, |file|, HEADER_SIZE, HEADER_SIZE + k);
    SliceSlice(file, position, |file|, HEADER_SIZE + k + v, HEADER_SIZE + k + v + m);
  }

  /** The frame at a position, without its value. */
  method ReadFrameRefAt(file: bytes, position: nat) returns (r: Option<FrameRef>)
    ensures r == RefAt(file, position)
  {
    hide FromLE, ExpireField, HashAll, HASH_START, Finish;
    if position > |file| || |file| - position < HEADER_SIZE {
      return None;
    }
    var header := file[position..position + HEADER_SIZE];
    WindowFacts(file, position);
    if header[..2] != MAGIC {
      return None;
    }
    var keyLen, valueLen, metaLen, n := KeyLen(header), ValueLen(header), MetaLen(header), FrameLen(header);
    if |file| - position < n {
      return None;
    }
    FrameSlices(file, position, n);
    var hash := HashRange(file, position + 2, n - CRC_SIZE - 2);
    var stored := file[position + n - CRC_SIZE..position + n];
    if FromLE(stored) != Finish(hash) {
      return None;
    }
    PayloadSlices(file, position, n, keyLen, valueLen, metaLen);
    var at := position + HEADER_SIZE;
    var meta := if metaLen > 0 then Some(file[at + keyLen + valueLen..at + keyLen + valueLen + metaLen]) else None;
    r := Some(FrameRef(header[2], file[at..at + keyLen], meta, ExpireField(header), position, at + keyLen, valueLen, n));
  }

  /** The first magic from `start` on, searched in chunks that overlap by one byte. */
  method FindMagic(file: bytes, start: nat) returns (found: Option<nat>)
    ensures found.Some? ==> start <= found.value && MagicAt(file, found.value)
    ensures forall i :: start <= i && (found.Some? ==> i < found.value) ==> !MagicAt(file, i)
  {
    hide MAGIC_SCAN_CHUNK_SIZE;
    ChunkSizes();
    var position := start;
    while position < |file|
      invariant start <= position
      invariant forall i :: start <= i < position ==> !MagicAt(file, i)
      decreases |file| - position
    {
      var length := if |file| - position <= MAGIC_SCAN_CHUNK_SIZE then |file| - position else MAGIC_SCAN_CHUNK_SIZE;
      var buffer := file[position..position + length];
      var window := FindWindow(buffer, 0);
      ChunkMagic(file, position, length);
      if window.Some? {
        assert MagicAt(file, position + window.value);
        return Some(position + window.value);
      }
      if length < 2 {
        break;
      }
      position := position + length - 1;
    }
    found := None;
  }

  /** A magic inside a chunk is a magic of the file. */
  lemma ChunkMagic(file: bytes, position: nat, length: nat)
    requires position + length <= |file|
    ensures forall i {:trigger MagicAt(file, i)} :: position <= i && i + 2 <= position + length ==>
      (MagicAt(file[position..position + length], i - position) <==> MagicAt(file, i))
  {
    forall i {:trigger MagicAt(file, i)} | position <= i && i + 2 <= position + length
      ensures MagicAt(file[position..position + length], i - position) <==> MagicAt(file, i)
    {
      SliceSlice(file, position, position + length, i - position, i - position + 2);
    }
  }

  method FindResumeInFile(file: bytes, start: nat) returns (resume: Option<nat>)
    requires start <= |file|
    ensures resume == if NextValid(file, start) < |file| then Some(NextValid(file, start)) else None
  {
    hide ReadFrame;
    var scan := start;
    while scan + 1 < |file|
      invariant start <= scan <= |file|
      invariant forall i :: start <= i < scan ==> !ValidAt(file, i)
    {
      var candidate := FindMagic(file, scan);
      if candidate.None? {
        break;
      }
      NoMagicNoFrame(file, scan, candidate.value);
      var frame := ReadFrameRefAt(file, candidate.value);
      if frame.Some? {
        assert ValidAt(file, candidate.value);
        assert !(candidate.value < NextValid(file, start)) && !(NextValid(file, start) < candidate.value);
        return candidate;
      }
      scan := candidate.value + 1;
    }
    NoMagicNoFrame(file, scan, |file|);
    assert NextValid(file, start) == |file|;
    resume := None;
  }

  ghost predicate RefsAre(refs: seq<FrameRef>, located: seq<Located>) {
    |refs| == |located| && forall i :: 0 <= i < |refs| ==> refs[i] == RefOf(located[i])
  }

  /** `scan_frame_refs`: the same frames, corrupt ranges and end offset as the in-memory parser. */
  method ScanFrameRefs(file: bytes, mode: Mode, start: nat) returns (refs: seq<FrameRef>, corrupt: seq<(nat, nat)>, eof: nat)
    ensures var s := ScanFrom(file, mode, start); RefsAre(refs, s.frames) && corrupt == s.corrupt && eof == s.eof
  {
    hide ReadFrame;
    refs, corrupt := [], [];
    var position := start;
    ghost var done := Scan([], [], start);
    JoinStart(ScanFrom(file, mode, start), start);
    while position < |file|
      invariant RefsAre(refs, done.frames) && corrupt == done.corrupt
      invariant ScanFrom(file, mode, start) == Join(done, ScanFrom(file, mode, position))
      decreases |file| - position
    {
      var ref := ReadFrameRefAt(file, position);
      if ref.Some? {
        ScanValidStep(file, mode, position);
        ghost var (f, n) := ReadFrameAt(file, position).value;
        ghost var one := Scan([Located(position, f, n)], [], position);
        JoinAssoc(done, one, ScanFrom(file, mode, position + n));
        refs := refs + [ref.value];
        done := Join(done, one);
        position := position + ref.value.frameLen;
        continue;
      }
      assert !ValidAt(file, position);
      if mode.Strict? {
        return refs, corrupt + [(position, |file|)], position;
      }
      var resume := FindResumeInFile(file, position + 1);
      if resume.None? {
        return refs, corrupt + [(position, |file|)], position;
      }
      ScanCorruptStep(file, position);
      ghost var one := Scan([], [(position, resume.value)], position);
      JoinAssoc(done, one, ScanFrom(file, mode, resume.value));
      done := Join(done, one);
      corrupt := corrupt + [(position, resume.value)];
      position := resume.value;
    }
    eof := position;
  }

  /**
    Both scanners on the same bytes: the references and the parsed frames agree frame by
    frame, each reference leads to the parsed value, and ranges and end offsets are equal.
   */
  method ScanBothWays(file: bytes, mode: Mode)
    returns (frames: seq<Frame>, refs: seq<FrameRef>, corrupt: seq<(nat, nat)>, eof: nat)
    ensures |frames| == |refs|
    ensures forall i :: 0 <= i < |frames| ==>
      && refs[i].kind == frames[i].kind && refs[i].key == frames[i].key
      && refs[i].meta == frames[i].meta && refs[i].expireAt == frames[i].expireAt
      && refs[i].valueOffset + refs[i].valueLen <= |file|
      && file[refs[i].valueOffset..refs[i].valueOffset + refs[i].valueLen] == frames[i].value
    ensures corrupt == ScanFrom(file, mode, 0).corrupt && eof == ScanFrom(file, mode, 0).eof
  {
    hide ReadFrame, ScanFrom;
    frames, corrupt, eof := ParseBuffer(file, mode);
    var corrupt', eof';
    refs, corrupt', eof' := ScanFrameRefs(file, mode, 0);
    assert corrupt' == corrupt && eof' == eof;
    ghost var s := ScanFrom(file, mode, 0);
    ScanSound(file, mode, 0);
    forall i | 0 <= i < |frames|
      ensures refs[i].valueOffset + refs[i].valueLen <= |file|
        && file[refs[i].valueOffset..refs[i].valueOffset + refs[i].valueLen] == frames[i].value
    {
      assert s.frames[i] in s.frames;
      RefReadsValue(file, s.frames[i].offset);
    }
  }
}
