/** The incremental parser of `codec.rs`: bytes arrive in chunks of any size. */
module FrameParsers {
  import opened Wrappers
  import opened Bytes
  import opened Frames
  import opened LogScan
  import opened TornLog

  datatype Drained = Drained(frames: seq<Frame>, position: nat, offset: nat, error: Option<nat>)

  /** The first magic from p on. */
  function NextMagic(b: bytes, p: nat): (r: Option<nat>)
    ensures r.Some? ==> p <= r.value && MagicAt(b, r.value)
    ensures forall i :: p <= i && (r.Some? ==> i < r.value) ==> !MagicAt(b, i)
    decreases |b| - p
  {
    if p + 2 > |b| then None
    else if MagicAt(b, p) then Some(p)
    else NextMagic(b, p + 1)
  }

  /** Whether all bytes of the frame at `position` have arrived, judged by its header. */
  predicate Arrived(b: bytes, position: nat)
    requires position + HEADER_SIZE <= |b|
  {
    FrameLen(b[position..position + HEADER_SIZE]) <= |b| - position
  }

  /**
    What one call takes out of the pending bytes.  Garbage in front of a magic is skipped
    without moving the offset.  Frames move the offset as they are taken, so an error adds the
    frames of the same call twice, once in `offset` and once in `position`.
   */
  function Drain(b: bytes, position: nat, offset: nat): Drained
    requires position <= |b|
    decreases |b| - position
  {
    if |b| - position < HEADER_SIZE then Drained([], position, offset, None)
    else if !MagicAt(b, position) then
      var next := NextMagic(b, position + 1);
      if next.None? then Drained([], position, offset, Some(offset + position))
      else Drain(b, next.value, offset)
    else if !Arrived(b, position) then Drained([], position, offset, None)
    else match ReadFrameAt(b, position)
      case None => Drained([], position, offset, Some(offset + position))
      case Some((f, n)) =>
        var rest := Drain(b, position + n, offset + n);
        rest.(frames := [f] + rest.frames)
  }

  class FrameParser {
    var pending: bytes
    var offset: nat

    constructor ()
      ensures pending == [] && offset == 0
    {
      pending, offset := [], 0;
    }

    /** Takes every frame that is complete; on an error nothing is taken from the pending bytes. */
    method Feed(chunk: bytes) returns (r: Result<seq<Frame>, CodecError>)
      modifies this
      ensures var d := Drain(old(pending) + chunk, 0, old(offset));
        && offset == d.offset
        && (d.error.None? ==> d.position <= |old(pending) + chunk| && r == Ok(d.frames) && pending == (old(pending) + chunk)[d.position..])
        && (d.error.Some? ==> r == Err(CorruptFrame(d.error.value)) && pending == old(pending) + chunk)
    {
      hide ReadFrame, Arrived, MagicAt, Drain;
      pending := pending + chunk;
      ghost var b, start := pending, offset;
      var position := 0;
      var frames := [];
      while |pending| - position >= HEADER_SIZE
        invariant position <= |b| && pending == b
        invariant var d, t := Drain(b, 0, start), Drain(b, position, offset);
          d.frames == frames + t.frames && d.position == t.position && d.offset == t.offset && d.error == t.error
        decreases |b| - position
      {
        if !MagicAt(pending, position) {
          var next := NextMagic(pending, position + 1);
          DrainSkips(pending, position, offset);
          if next.None? {
            return Err(CorruptFrame(offset + position));
          }
          MagicInside(pending, next.value);
          position := next.value;
          continue;
        }
        if !Arrived(pending, position) {
          break;
        }
        var read := ReadFrameAt(pending, position);
        if read.None? {
          DrainFails(pending, position, offset);
          return Err(CorruptFrame(offset + position));
        }
        DrainTakes(pending, position, offset);
        assert frames + ([read.value.0] + Drain(b, position + read.value.1, offset + read.value.1).frames)
            == frames + [read.value.0] + Drain(b, position + read.value.1, offset + read.value.1).frames;
        frames := frames + [read.value.0];
        position := position + read.value.1;
        offset := offset + read.value.1;
      }
      DrainWaits(b, position, offset);
      assert frames + [] == frames;
      pending := pending[position..];
      r := Ok(frames);
    }

    /** The end offset if nothing is pending, else a torn tail at the offset. */
    method Finish() returns (r: Result<nat, CodecError>)
      modifies this
      ensures pending == [] && offset == old(offset)
      ensures r == if old(pending) == [] then Ok(offset) else Err(CorruptFrame(offset))
    {
      if pending == [] {
        return Ok(offset);
      }
      pending := [];
      r := Err(CorruptFrame(offset));
    }
  }

  lemma MagicInside(b: bytes, p: nat)
    requires MagicAt(b, p)
    ensures p + 2 <= |b|
  {
  }

  // --- which offsets are right -----------------------------------------------------------

  /** The bytes skipped in one call: those in front of a magic that were no frame. */
  function Skipped(b: bytes, position: nat): nat
    requires position <= |b|
    decreases |b| - position
  {
    if |b| - position < HEADER_SIZE then 0
    else if !MagicAt(b, position) then
      var next := NextMagic(b, position + 1);
      if next.None? then 0 else next.value - position + Skipped(b, next.value)
    else if !Arrived(b, position) || ReadFrameAt(b, position).None? then 0
    else Skipped(b, position + ReadFrameAt(b, position).value.1)
  }

  /** Wherever the loop stands with a header's worth of bytes, a magic stands too. */
  predicate Gapless(b: bytes, position: nat)
    requires position <= |b|
    decreases |b| - position
  {
    HEADER_SIZE <= |b| - position ==>
      && MagicAt(b, position)
      && (Arrived(b, position) && ReadFrameAt(b, position).Some? ==> Gapless(b, position + ReadFrameAt(b, position).value.1))
  }

  /** Every byte passed was in a frame or was skipped; only the frames move the offset. */
  lemma {:induction false} DrainBalance(b: bytes, position: nat, offset: nat)
    requires position <= |b|
    ensures var d := Drain(b, position, offset);
      && d.position <= |b| && offset <= d.offset
      && d.position - position == d.offset - offset + Skipped(b, position)
      && (d.error.Some? ==> d.error.value == d.offset + d.position)
      && (d.frames == [] <==> d.offset == offset)
    decreases |b| - position
  {
    hide ReadFrame, Arrived, MagicAt, NextMagic;
    if HEADER_SIZE <= |b| - position {
      if !MagicAt(b, position) {
        var next := NextMagic(b, position + 1);
        if next.Some? {
          MagicInside(b, next.value);
          DrainBalance(b, next.value, offset);
        }
      } else if Arrived(b, position) && ReadFrameAt(b, position).Some? {
        var n := ReadFrameAt(b, position).value.1;
        DrainBalance(b, position + n, offset + n);
      }
    }
  }

  lemma {:induction false} GaplessExact(b: bytes, position: nat, offset: nat)
    requires position <= |b| && Drain(b, position, offset).error.None?
    ensures Gapless(b, position) <==> Skipped(b, position) == 0
    decreases |b| - position
  {
    hide ReadFrame, Arrived, MagicAt, NextMagic;
    if HEADER_SIZE <= |b| - position && MagicAt(b, position) && Arrived(b, position) && ReadFrameAt(b, position).Some? {
      var n := ReadFrameAt(b, position).value.1;
      GaplessExact(b, position + n, offset + n);
    }
  }

  /** Without an error the offset moves with the bytes taken exactly when the loop never stood before garbage. */
  lemma OffsetExact(b: bytes, offset: nat)
    requires Drain(b, 0, offset).error.None?
    ensures var d := Drain(b, 0, offset);
      d.offset == offset + d.position <==> Gapless(b, 0)
  {
    hide *;
    DrainBalance(b, 0, offset);
    GaplessExact(b, 0, offset);
  }

  /**
    When earlier calls skipped `lag` bytes, the pending bytes start at `offset + lag` of the
    stream.  An error then names the place it stands at exactly when the frames taken in the
    same call are as many bytes as were skipped before it.
   */
  lemma ErrorOffsetExact(b: bytes, offset: nat, lag: nat)
    requires Drain(b, 0, offset).error.Some?
    ensures var d := Drain(b, 0, offset);
      && (d.error.value == offset + lag + d.position <==> d.offset - offset == lag)
      && (lag == 0 ==> (d.error.value == offset + d.position <==> d.frames == []))
  {
    hide *;
    DrainBalance(b, 0, offset);
  }

  datatype Progress = Progress(pending: bytes, offset: nat, skipped: nat)

  /** A parser's state after chunks that were all fed without an error. */
  function Fed(chunks: seq<bytes>): Option<Progress> {
    if chunks == [] then Some(Progress([], 0, 0))
    else
      var before := Fed(chunks[..|chunks| - 1]);
      if before.None? then None
      else
        var b := before.value.pending + chunks[|chunks| - 1];
        var d := Drain(b, 0, before.value.offset);
        if d.error.Some? || d.position > |b| then None
        else Some(Progress(b[d.position..], d.offset, before.value.skipped + Skipped(b, 0)))
  }

  /** Over any stream: the bytes fed are those of the frames, those skipped and those pending. */
  lemma {:induction false} StreamConserved(chunks: seq<bytes>)
    requires Fed(chunks).Some?
    ensures var r := Fed(chunks).value;
      |Flatten(chunks)| == r.offset + r.skipped + |r.pending|
  {
    hide Drain, Skipped;
    if chunks != [] {
      var n := |chunks| - 1;
      StreamConserved(chunks[..n]);
      FlattenNext(chunks, n);
      assert chunks[..n + 1] == chunks;
      var before := Fed(chunks[..n]).value;
      DrainBalance(before.pending + chunks[n], 0, before.offset);
    }
  }

  /** Where the next error of a stream is reported: right exactly when its frames make up for what was skipped before. */
  lemma StreamErrorExact(chunks: seq<bytes>, chunk: bytes)
    requires Fed(chunks).Some? && Drain(Fed(chunks).value.pending + chunk, 0, Fed(chunks).value.offset).error.Some?
    ensures var r := Fed(chunks).value;
      var d := Drain(r.pending + chunk, 0, r.offset);
      var place := |Flatten(chunks)| - |r.pending| + d.position;
      && d.error.value - place == (d.offset - r.offset) - r.skipped
      && (d.error.value == place <==> d.offset - r.offset == r.skipped)
  {
    hide *;
    var r := Fed(chunks).value;
    StreamConserved(chunks);
    DrainBalance(r.pending + chunk, 0, r.offset);
  }

  function Zeros(n: nat): (z: bytes)
    ensures |z| == n && forall i :: 0 <= i < n ==> z[i] == 0
  {
    seq(n, _ => 0)
  }

  lemma NoMagicInZeros(b: bytes, p: nat, q: nat)
    requires p < q <= |b| && forall i :: p <= i < q ==> b[i] == 0
    ensures !MagicAt(b, p)
  {
    if p + 2 <= |b| {
      assert b[p..p + 2][0] == b[p];
    }
  }

  lemma {:induction false} MagicAfterZeros(b: bytes, p: nat, q: nat)
    requires p <= q <= |b| && (forall i :: p <= i < q ==> b[i] == 0) && MagicAt(b, q)
    ensures NextMagic(b, p) == Some(q)
    decreases q - p
  {
    hide MagicAt;
    MagicInside(b, q);
    if p < q {
      NoMagicInZeros(b, p, q);
      MagicAfterZeros(b, p + 1, q);
    }
  }

  lemma NoneAfter(b: bytes, p: nat)
    requires forall i :: p <= i < |b| ==> b[i] == 0
    ensures NextMagic(b, p) == None
  {
    var r := NextMagic(b, p);
    if r.Some? {
      MagicInside(b, r.value);
      NoMagicInZeros(b, r.value, |b|);
    }
  }

  /** Concrete input: a frame and 22 zeros fed at once.  The error stands at n and is reported at 2 n. */
  lemma ErrorOffsetDoubles(f: Frame)
    requires Encodable(f)
    ensures var n := |Encoded(f)|;
      Drain(Encoded(f) + Zeros(HEADER_SIZE), 0, 0) == Drained([Normal(f)], n, n, Some(2 * n))
  {
    hide Drain, Encoded, Arrived, MagicAt, ReadFrame, Normal;
    var n, z := |Encoded(f)|, Zeros(HEADER_SIZE);
    var b := Encoded(f) + z;
    FrontFrame([], f, z);
    assert [] + Encoded(f) + z == b;
    DrainTakes(b, 0, 0);
    NoMagicInZeros(b, n, |b|);
    NoneAfter(b, n + 1);
    DrainSkips(b, n, n);
  }

  /** Concrete input: m zeros and a frame.  The frame is found, the end is at m + n and the offset at n. */
  lemma SkippedBytesLost(f: Frame, m: nat)
    requires Encodable(f) && m > 0
    ensures var n := |Encoded(f)|;
      Drain(Zeros(m) + Encoded(f), 0, 0) == Drained([Normal(f)], m + n, n, None)
  {
    hide Drain, Encoded, Arrived, MagicAt, ReadFrame, Normal;
    var n, z := |Encoded(f)|, Zeros(m);
    var b := z + Encoded(f);
    EncodedSize(f);
    FrontFrame(z, f, []);
    assert z + Encoded(f) + [] == b;
    NoMagicInZeros(b, 0, m);
    MagicAfterZeros(b, 1, m);
    DrainSkips(b, 0, 0);
    DrainTakes(b, m, 0);
    DrainWaits(b, m + n, n);
  }

  /** An encoded frame behind some bytes has a magic, has arrived and reads. */
  lemma FrontFrame(before: bytes, f: Frame, rest: bytes)
    requires Encodable(f)
    ensures var b, p := before + Encoded(f) + rest, |before|;
      p + HEADER_SIZE <= |b| && MagicAt(b, p) && Arrived(b, p) && ReadFrameAt(b, p) == Some((Normal(f), |Encoded(f)|))
  {
    hide Encoded, Header, Arrived, MagicAt, ReadFrame, Normal;
    var b := before + Encoded(f) + rest;
    EncodedSize(f);
    EncodedSlices(f);
    assert b[|before|..] == Encoded(f) + rest;
    assert b[..|before|] == before;
    assert b[|before|..|before| + HEADER_SIZE] == Encoded(f)[..HEADER_SIZE];
    HeaderInFront(before, f, b);
    ReadEncoded(f, rest);
  }

  // --- logs of encoded frames -------------------------------------------------------------

  function Normals(fs: seq<Frame>): (ns: seq<Frame>)
    ensures |ns| == |fs|
  {
    if fs == [] then [] else [Normal(fs[0])] + Normals(fs[1..])
  }

  lemma {:induction false} NormalsConcat(a: seq<Frame>, b: seq<Frame>)
    ensures Normals(a + b) == Normals(a) + Normals(b)
  {
    hide Normal;
    if a == [] {
      assert a + b == b;
    } else {
      assert (a + b)[1..] == a[1..] + b;
      NormalsConcat(a[1..], b);
    }
  }

  /** An encoded frame in front is recognised, and has arrived exactly when all its bytes have. */
  lemma HeaderInFront(before: bytes, f: Frame, b: bytes)
    requires Encodable(f) && |before| + HEADER_SIZE <= |b| && b[..|before|] == before
    requires b[|before|..|before| + HEADER_SIZE] == Header(f)
    ensures MagicAt(b, |before|)
    ensures Arrived(b, |before|) <==> |Encoded(f)| <= |b| - |before|
  {
    hide Header, Encoded, FromLE, ExpireField;
    var h := b[|before|..|before| + HEADER_SIZE];
    assert h[..HEADER_SIZE] == h;
    HeaderFields(f, h);
    SliceSlice(b, |before|, |before| + HEADER_SIZE, 0, 2);
  }

  lemma HeaderOfCut(f: Frame, rest: bytes, before: bytes, k: nat)
    requires HEADER_SIZE <= k <= |Encoded(f) + rest|
    ensures var b := before + (Encoded(f) + rest)[..k];
      |before| + HEADER_SIZE <= |b| && b[..|before|] == before && b[|before|..|before| + HEADER_SIZE] == Header(f)
  {
    hide Encoded, Header;
    EncodedSlices(f);
    var b := before + (Encoded(f) + rest)[..k];
    assert b[|before|..|before| + HEADER_SIZE] == (Encoded(f) + rest)[..k][..HEADER_SIZE] == Encoded(f)[..HEADER_SIZE];
  }

  lemma DrainTakes(b: bytes, position: nat, offset: nat)
    requires position + HEADER_SIZE <= |b| && MagicAt(b, position) && Arrived(b, position) && ReadFrameAt(b, position).Some?
    ensures var (f, n) := ReadFrameAt(b, position).value;
      var rest := Drain(b, position + n, offset + n);
      Drain(b, position, offset) == rest.(frames := [f] + rest.frames)
  {
    hide ReadFrame, Arrived, MagicAt;
  }

  lemma DrainSkips(b: bytes, position: nat, offset: nat)
    requires position + HEADER_SIZE <= |b| && !MagicAt(b, position)
    ensures var next := NextMagic(b, position + 1);
      Drain(b, position, offset)
      == if next.None? then Drained([], position, offset, Some(offset + position)) else Drain(b, next.value, offset)
  {
    hide ReadFrame, Arrived, MagicAt, NextMagic;
  }

  lemma DrainFails(b: bytes, position: nat, offset: nat)
    requires position + HEADER_SIZE <= |b| && MagicAt(b, position) && Arrived(b, position) && ReadFrameAt(b, position).None?
    ensures Drain(b, position, offset) == Drained([], position, offset, Some(offset + position))
  {
    hide ReadFrame, Arrived, MagicAt;
  }

  lemma DrainWaits(b: bytes, position: nat, offset: nat)
    requires position <= |b|
    requires position + HEADER_SIZE <= |b| ==> MagicAt(b, position) && !Arrived(b, position)
    ensures Drain(b, position, offset) == Drained([], position, offset, None)
  {
    hide ReadFrame, Arrived, MagicAt;
  }

  /** Draining a log cut at any byte takes exactly its whole frames. */
  lemma {:induction false} DrainLog(before: bytes, fs: seq<Frame>, k: nat, offset: nat)
    requires AllEncodable(fs) && k <= |EncodeAll(fs)|
    ensures var c := Complete(fs, k);
      var n := |EncodeAll(fs[..c])|;
      Drain(before + Cut(fs, k), |before|, offset) == Drained(Normals(fs[..c]), |before| + n, offset + n, None)
    decreases |fs|
  {
    hide *;
    NoNormals();
    if fs == [] || k < |Encoded(fs[0])| {
      NoneComplete(fs, k, 0);
      NothingDrains(before, fs, k, offset);
    } else {
      var f, n := fs[0], |Encoded(fs[0])|;
      CutFirst(fs, k);
      CompleteFirst(fs, k, 0);
      var tail := Cut(fs[1..], k - n);
      FirstDrains(before, fs, k, offset);
      assert before + Cut(fs, k) == before + Encoded(f) + tail;
      SplitEncodable(fs, 1);
      DrainLog(before + Encoded(f), fs[1..], k - n, offset + n);
      NormalsFirst(fs, Complete(fs[1..], k - n));
    }
  }

  /** Of a first frame that is not whole nothing is taken. */
  lemma NothingDrains(before: bytes, fs: seq<Frame>, k: nat, offset: nat)
    requires AllEncodable(fs) && k <= |EncodeAll(fs)| && (fs == [] || k < |Encoded(fs[0])|)
    ensures Drain(before + Cut(fs, k), |before|, offset) == Drained([], |before|, offset, None)
  {
    hide Drain, Encoded, Header, Arrived, MagicAt, Cut, ReadFrameAt;
    var b := before + Cut(fs, k);
    CutIs(fs, k);
    if HEADER_SIZE <= k {
      HeaderOfCut(fs[0], EncodeAll(fs[1..]), before, k);
      HeaderInFront(before, fs[0], b);
    }
    DrainWaits(b, |before|, offset);
  }

  /** A first frame that is whole is taken. */
  lemma FirstDrains(before: bytes, fs: seq<Frame>, k: nat, offset: nat)
    requires AllEncodable(fs) && fs != [] && |Encoded(fs[0])| <= k <= |EncodeAll(fs)|
    ensures var b, n := before + Cut(fs, k), |Encoded(fs[0])|;
      |before| + n <= |b| && Drain(b, |before|, offset)
        == Drain(b, |before| + n, offset + n).(frames := [Normal(fs[0])] + Drain(b, |before| + n, offset + n).frames)
  {
    hide *;
    var f, n := fs[0], |Encoded(fs[0])|;
    var b := before + Cut(fs, k);
    FirstEncodable(fs);
    EncodedSize(f);
    EncodeFirst(fs);
    CutIs(fs, k);
    CutFirst(fs, k);
    HeaderOfCut(f, EncodeAll(fs[1..]), before, k);
    HeaderInFront(before, f, b);
    ReadsFirst(before, f, Cut(fs[1..], k - n));
    DrainTakes(b, |before|, offset);
  }

  lemma NoNormals()
    ensures Normals([]) == []
  {
  }

  lemma NormalsFirst(fs: seq<Frame>, c: nat)
    requires c + 1 <= |fs|
    ensures Normals(fs[..c + 1]) == [Normal(fs[0])] + Normals(fs[1..][..c])
  {
    hide Normal;
    assert fs[..c + 1][1..] == fs[1..][..c];
  }

  lemma EncodeFirst(fs: seq<Frame>)
    requires fs != []
    ensures EncodeAll(fs) == Encoded(fs[0]) + EncodeAll(fs[1..])
  {
    hide Encoded;
  }

  lemma EncodedSize(f: Frame)
    ensures |Encoded(f)| >= HEADER_SIZE + CRC_SIZE
  {
  }

  /** The state of a parser that has been fed the first k bytes of a log. */
  ghost predicate InStep(pending: bytes, offset: nat, fs: seq<Frame>, k: nat)
    requires k <= |EncodeAll(fs)|
  {
    var n := |EncodeAll(fs[..Complete(fs, k)])|;
    n <= k && offset == n && pending == Cut(fs, k)[n..]
  }

  lemma SlicesMeet(s: bytes, m: nat, j: nat, k: nat)
    requires m <= j <= k <= |s|
    ensures s[..j][m..] + s[j..k] == s[..k][m..]
  {
  }

  lemma SlicesNest(s: bytes, m: nat, n: nat)
    requires m <= n <= |s|
    ensures s[m..][n - m..] == s[n..]
  {
  }

  lemma WholeGrows(fs: seq<Frame>, j: nat, k: nat)
    requires j <= k
    ensures var c, d := Complete(fs, j), Complete(fs, k);
      var m, n := |EncodeAll(fs[..c])|, |EncodeAll(fs[..d])|;
      c <= d && m <= j && m <= n <= k && d == c + Complete(fs[c..], k - m) && n == m + |EncodeAll(fs[c..d])|
  {
    hide *;
    var c, d := Complete(fs, j), Complete(fs, k);
    CompleteIsMaximal(fs, j);
    CompleteIsMaximal(fs, k);
    CompleteAfter(fs, c, k);
    assert fs[..d] == fs[..c] + fs[c..d];
    EncodeAllConcat(fs[..c], fs[c..d]);
  }

  /** Draining what a parser holds after the first j bytes, grown to the first k. */
  lemma DrainOn(fs: seq<Frame>, c: nat, k: nat)
    requires AllEncodable(fs) && c <= |fs| && |EncodeAll(fs[..c])| <= k <= |EncodeAll(fs)|
    ensures var m := |EncodeAll(fs[..c])|;
      var e := Complete(fs[c..], k - m);
      var n := |EncodeAll(fs[c..][..e])|;
      m <= |Cut(fs, k)| && Drain(Cut(fs, k)[m..], 0, m) == Drained(Normals(fs[c..][..e]), n, m + n, None)
  {
    hide *;
    var m := |EncodeAll(fs[..c])|;
    CutAfter(fs, c, k);
    SplitEncodable(fs, c);
    var rest := Cut(fs[c..], k - m);
    assert Cut(fs, k)[m..] == rest == [] + rest;
    DrainLog([], fs[c..], k - m, m);
  }

  /** One call keeps step and adds exactly the frames that became whole. */
  lemma FeedStep(fs: seq<Frame>, j: nat, k: nat, pending: bytes, offset: nat, chunk: bytes)
    requires AllEncodable(fs) && j <= k <= |EncodeAll(fs)| && chunk == EncodeAll(fs)[j..k]
    requires InStep(pending, offset, fs, j)
    ensures var d := Drain(pending + chunk, 0, offset);
      && d.error.None? && d.position <= |pending + chunk|
      && InStep((pending + chunk)[d.position..], d.offset, fs, k)
      && Normals(fs[..Complete(fs, j)]) + d.frames == Normals(fs[..Complete(fs, k)])
  {
    hide Drain, Complete, EncodeAll, Normals, Cut, Encoded;
    var c, d := Complete(fs, j), Complete(fs, k);
    var m, n := |EncodeAll(fs[..c])|, |EncodeAll(fs[..d])|;
    WholeGrows(fs, j, k);
    CutIs(fs, j);
    CutIs(fs, k);
    SlicesMeet(EncodeAll(fs), m, j, k);
    SlicesNest(Cut(fs, k), m, n);
    DrainOn(fs, c, k);
    assert fs[c..][..d - c] == fs[c..d] && fs[..d] == fs[..c] + fs[c..d];
    NormalsConcat(fs[..c], fs[c..d]);
  }

  /** For every chunking of the first k bytes of a log the parser gives the same frames: the whole ones. */
  method FeedAll(chunks: seq<bytes>, ghost fs: seq<Frame>, ghost k: nat) returns (frames: seq<Frame>, parser: FrameParser)
    requires AllEncodable(fs) && k <= |EncodeAll(fs)| && Flatten(chunks) == Cut(fs, k)
    ensures frames == Normals(fs[..Complete(fs, k)]) && InStep(parser.pending, parser.offset, fs, k)
  {
    hide *;
    parser := new FrameParser();
    frames := [];
    ghost var j: nat := 0;
    StartInStep(fs);
    for i := 0 to |chunks|
      invariant j <= k && j == |Flatten(chunks[..i])|
      invariant fresh(parser) && InStep(parser.pending, parser.offset, fs, j)
      invariant frames == Normals(fs[..Complete(fs, j)])
    {
      ghost var next: nat := j + |chunks[i]|;
      NextChunk(chunks, i, EncodeAll(fs), k) by { CutIs(fs, k); }
      FeedStep(fs, j, next, parser.pending, parser.offset, chunks[i]);
      var got := parser.Feed(chunks[i]);
      frames := frames + got.value;
      j := next;
    }
    assert chunks[..|chunks|] == chunks;
    CutIs(fs, k);
  }

  lemma NextChunk(chunks: seq<bytes>, i: nat, s: bytes, k: nat)
    requires i < |chunks| && k <= |s| && Flatten(chunks) == s[..k]
    ensures var j := |Flatten(chunks[..i])|;
      var next := j + |chunks[i]|;
      next == |Flatten(chunks[..i + 1])| <= k && chunks[i] == s[j..next]
  {
    FlattenNext(chunks, i);
    var j, t := |Flatten(chunks[..i])|, Flatten(chunks[..i + 1]);
    assert t == s[..|t|] && chunks[i] == t[j..];
  }

  lemma StartInStep(fs: seq<Frame>)
    ensures InStep([], 0, fs, 0) && Normals(fs[..Complete(fs, 0)]) == [] && Flatten([]) == []
  {
    hide Encoded;
    if fs != [] {
      EncodedSize(fs[0]);
    }
  }
}
