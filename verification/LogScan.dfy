/** Scanning a log: what `parse_buffer` and `scan_frame_refs` in `codec.rs` find in a byte sequence. */
module LogScan {
  import opened Wrappers
  import opened Bytes
  import opened Frames

  datatype Mode = Resync | Strict

  datatype Located = Located(offset: nat, frame: Frame, len: nat)

  datatype Scan = Scan(frames: seq<Located>, corrupt: seq<(nat, nat)>, eof: nat)

  predicate ValidAt(b: bytes, p: nat) {
    ReadFrameAt(b, p).Some?
  }

  /** The first position from p on where a frame reads, or the end of the bytes. */
  function NextValid(b: bytes, p: nat): (q: nat)
    requires p <= |b|
    ensures p <= q <= |b| && (q < |b| ==> ValidAt(b, q))
    ensures forall i :: p <= i < q ==> !ValidAt(b, i)
    decreases |b| - p
  {
    if p == |b| || ValidAt(b, p) then p else NextValid(b, p + 1)
  }

  /**
    Frames and corrupt ranges from position p on.  Strict mode gives up at the first bad
    position; resync mode goes on at the next position where a frame reads.
   */
  function ScanFrom(b: bytes, mode: Mode, p: nat): (s: Scan)
    decreases |b| - p
  {
    if p >= |b| then Scan([], [], p)
    else if ValidAt(b, p) then
      var (f, n) := ReadFrameAt(b, p).value;
      var rest := ScanFrom(b, mode, p + n);
      rest.(frames := [Located(p, f, n)] + rest.frames)
    else if mode.Strict? then Scan([], [(p, |b|)], p)
    else
      var q := NextValid(b, p + 1);
      if q == |b| then Scan([], [(p, |b|)], p)
      else
        var rest := ScanFrom(b, mode, q);
        rest.(corrupt := [(p, q)] + rest.corrupt)
  }

  function Join(a: Scan, s: Scan): Scan {
    Scan(a.frames + s.frames, a.corrupt + s.corrupt, s.eof)
  }

  /** A corrupt range up to the end of the file is cut off. */
  function TruncatedFile(b: bytes, corrupt: seq<(nat, nat)>): bytes {
    if corrupt != [] && corrupt[|corrupt| - 1].1 == |b| && corrupt[|corrupt| - 1].0 <= |b| then b[..corrupt[|corrupt| - 1].0] else b
  }

  // --- the frames and corrupt ranges tile the input ------------------------------------------

  /** Laid end to end in order, the frames and the corrupt ranges lead from lo to hi. */
  ghost predicate Tiles(frames: seq<Located>, corrupt: seq<(nat, nat)>, lo: nat, hi: nat)
    decreases |frames| + |corrupt|
  {
    || (frames == [] && corrupt == [] && lo == hi)
    || (frames != [] && frames[0].offset == lo && frames[0].len > 0 && lo + frames[0].len <= hi
        && Tiles(frames[1..], corrupt, lo + frames[0].len, hi))
    || (corrupt != [] && corrupt[0].0 == lo && lo < corrupt[0].1 <= hi
        && Tiles(frames, corrupt[1..], corrupt[0].1, hi))
  }

  function FrameBytes(frames: seq<Located>): nat {
    if frames == [] then 0 else frames[0].len + FrameBytes(frames[1..])
  }

  function CorruptBytes(corrupt: seq<(nat, nat)>): int {
    if corrupt == [] then 0 else corrupt[0].1 - corrupt[0].0 + CorruptBytes(corrupt[1..])
  }

  /** For every byte sequence the scan accounts for every byte, in order and once. */
  lemma {:induction false} ScanTiles(b: bytes, mode: Mode, p: nat)
    requires p <= |b|
    ensures var s := ScanFrom(b, mode, p); Tiles(s.frames, s.corrupt, p, |b|)
    decreases |b| - p
  {
    hide ReadFrame;
    if p < |b| {
      if ValidAt(b, p) {
        var n := ReadFrameAt(b, p).value.1;
        ScanTiles(b, mode, p + n);
        var s := ScanFrom(b, mode, p);
        assert s.frames[1..] == ScanFrom(b, mode, p + n).frames;
      } else if mode.Strict? || NextValid(b, p + 1) == |b| {
        assert [(p, |b|)][1..] == [];
      } else {
        var q := NextValid(b, p + 1);
        ScanTiles(b, mode, q);
        var s := ScanFrom(b, mode, p);
        assert s.corrupt[1..] == ScanFrom(b, mode, q).corrupt;
      }
    }
  }

  /** Tiles conserve length. */
  lemma {:induction false} TilesConserve(frames: seq<Located>, corrupt: seq<(nat, nat)>, lo: nat, hi: nat)
    requires Tiles(frames, corrupt, lo, hi)
    ensures FrameBytes(frames) + CorruptBytes(corrupt) == hi - lo
    decreases |frames| + |corrupt|
  {
    if frames != [] && frames[0].offset == lo && frames[0].len > 0 && Tiles(frames[1..], corrupt, lo + frames[0].len, hi) {
      TilesConserve(frames[1..], corrupt, lo + frames[0].len, hi);
    } else if corrupt != [] {
      TilesConserve(frames, corrupt[1..], corrupt[0].1, hi);
    }
  }

  /** Every frame found reads at its place, and every corrupt range starts where no frame reads. */
  lemma {:induction false} ScanSound(b: bytes, mode: Mode, p: nat)
    requires p <= |b|
    ensures var s := ScanFrom(b, mode, p);
      && (forall x :: x in s.frames ==> ReadFrameAt(b, x.offset) == Some((x.frame, x.len)))
      && (forall r :: r in s.corrupt ==> r.0 < r.1 <= |b| && !ValidAt(b, r.0))
      && (mode.Strict? ==> |s.corrupt| <= 1)
    decreases |b| - p
  {
    hide ReadFrame;
    if p < |b| {
      if ValidAt(b, p) {
        ScanSound(b, mode, p + ReadFrameAt(b, p).value.1);
      } else if !mode.Strict? && NextValid(b, p + 1) < |b| {
        ScanSound(b, mode, NextValid(b, p + 1));
      }
    }
  }

  /** In resync mode no position inside a corrupt range starts a frame. */
  lemma {:induction false} ResyncMissesNothing(b: bytes, p: nat)
    requires p <= |b|
    ensures var s := ScanFrom(b, Resync, p);
      forall r, x :: r in s.corrupt && r.0 <= x < r.1 ==> !ValidAt(b, x)
    decreases |b| - p
  {
    hide ReadFrame;
    if p < |b| {
      if ValidAt(b, p) {
        ResyncMissesNothing(b, p + ReadFrameAt(b, p).value.1);
      } else if NextValid(b, p + 1) < |b| {
        ResyncMissesNothing(b, NextValid(b, p + 1));
      }
    }
  }

  // --- the in-memory parser ---------------------------------------------------------------

  predicate MagicAt(b: bytes, i: nat) {
    i + 2 <= |b| && b[i..i + 2] == MAGIC
  }

  lemma ValidHasMagic(b: bytes, i: nat)
    requires ValidAt(b, i)
    ensures MagicAt(b, i)
  {
    assert b[i..][..2] == b[i..i + 2];
  }

  /** The first two-byte window from `start` that is the magic. */
  method FindWindow(b: bytes, start: nat) returns (found: Option<nat>)
    ensures found.Some? ==> start <= found.value && MagicAt(b, found.value)
    ensures forall i :: start <= i && (found.Some? ==> i < found.value) ==> !MagicAt(b, i)
  {
    var i := start;
    while i + 2 <= |b|
      invariant start <= i && forall j :: start <= j < i ==> !MagicAt(b, j)
    {
      if b[i..i + 2] == MAGIC {
        return Some(i);
      }
      i := i + 1;
    }
    return None;
  }

  /** Resynchronisation: try each magic from `start` on until one starts a whole frame. */
  method FindResume(b: bytes, start: nat) returns (resume: Option<nat>)
    requires start <= |b|
    ensures resume == if NextValid(b, start) < |b| then Some(NextValid(b, start)) else None
  {
    hide ReadFrame;
    var scan := start;
    while scan + 1 < |b|
      invariant start <= scan <= |b|
      invariant forall i :: start <= i < scan ==> !ValidAt(b, i)
    {
      var window := FindWindow(b, scan);
      if window.None? {
        break;
      }
      NoMagicNoFrame(b, scan, window.value);
      scan := window.value;
      if ReadFrameAt(b, scan).Some? {
        assert ValidAt(b, scan);
        assert !(scan < NextValid(b, start)) && !(NextValid(b, start) < scan);
        return Some(scan);
      }
      scan := scan + 1;
    }
    NoMagicNoFrame(b, scan, |b|);
    assert NextValid(b, start) == |b|;
    resume := None;
  }

  lemma NoMagicNoFrame(b: bytes, lo: nat, hi: nat)
    requires forall i :: lo <= i < hi && i + 1 < |b| ==> !MagicAt(b, i)
    ensures forall i :: lo <= i < hi ==> !ValidAt(b, i)
  {
    forall i | lo <= i < hi
      ensures !ValidAt(b, i)
    {
      if ValidAt(b, i) {
        ValidHasMagic(b, i);
      }
    }
  }

  lemma JoinAssoc(a: Scan, m: Scan, s: Scan)
    ensures Join(a, Join(m, s)) == Join(Join(a, m), s)
  {
  }

  lemma ScanValidStep(b: bytes, mode: Mode, p: nat)
    requires p < |b| && ValidAt(b, p)
    ensures var (f, n) := ReadFrameAt(b, p).value;
      ScanFrom(b, mode, p) == Join(Scan([Located(p, f, n)], [], p), ScanFrom(b, mode, p + n))
  {
    hide ReadFrame;
    assert forall c: seq<(nat, nat)> :: [] + c == c;
  }

  lemma ScanCorruptStep(b: bytes, p: nat)
    requires p < |b| && !ValidAt(b, p) && NextValid(b, p + 1) < |b|
    ensures var q := NextValid(b, p + 1);
      ScanFrom(b, Resync, p) == Join(Scan([], [(p, q)], p), ScanFrom(b, Resync, q))
  {
    hide ReadFrame;
    var q := NextValid(b, p + 1);
    assert [] + ScanFrom(b, Resync, q).frames == ScanFrom(b, Resync, q).frames;
  }

  lemma ScanGivesUp(b: bytes, mode: Mode, p: nat)
    requires p < |b| && !ValidAt(b, p) && (mode.Strict? || NextValid(b, p + 1) == |b|)
    ensures ScanFrom(b, mode, p) == Scan([], [(p, |b|)], p)
  {
    hide ReadFrame;
  }

  lemma JoinStart(s: Scan, p: nat)
    ensures Join(Scan([], [], p), s) == s
  {
  }

  lemma ScanEnds(b: bytes, mode: Mode, p: nat)
    requires p >= |b|
    ensures ScanFrom(b, mode, p) == Scan([], [], p)
  {
  }

  ghost predicate FramesAre(frames: seq<Frame>, located: seq<Located>) {
    |frames| == |located| && forall i :: 0 <= i < |frames| ==> frames[i] == located[i].frame
  }

  /** `parse_buffer`: frames in order, corrupt ranges, and where the scan stopped. */
  method ParseBuffer(b: bytes, mode: Mode) returns (frames: seq<Frame>, corrupt: seq<(nat, nat)>, eof: nat)
    ensures var s := ScanFrom(b, mode, 0); FramesAre(frames, s.frames) && corrupt == s.corrupt && eof == s.eof
  {
    hide ReadFrame, ScanFrom, NextValid;
    frames, corrupt := [], [];
    var position := 0;
    ghost var done := Scan([], [], 0);
    JoinStart(ScanFrom(b, mode, 0), 0);
    while position < |b|
      invariant FramesAre(frames, done.frames) && corrupt == done.corrupt
      invariant ScanFrom(b, mode, 0) == Join(done, ScanFrom(b, mode, position))
      decreases |b| - position
    {
      var read := ReadFrameAt(b, position);
      if read.Some? {
        ScanValidStep(b, mode, position);
        ghost var one := Scan([Located(position, read.value.0, read.value.1)], [], position);
        JoinAssoc(done, one, ScanFrom(b, mode, position + read.value.1));
        frames := frames + [read.value.0];
        done := Join(done, one);
        position := position + read.value.1;
        continue;
      }
      assert !ValidAt(b, position);
      if mode.Strict? {
        ScanGivesUp(b, mode, position);
        return frames, corrupt + [(position, |b|)], position;
      }
      var resume := FindResume(b, position + 1);
      if resume.None? {
        ScanGivesUp(b, mode, position);
        return frames, corrupt + [(position, |b|)], position;
      }
      ScanCorruptStep(b, position);
      ghost var one := Scan([], [(position, resume.value)], position);
      JoinAssoc(done, one, ScanFrom(b, mode, resume.value));
      done := Join(done, one);
      corrupt := corrupt + [(position, resume.value)];
      position := resume.value;
    }
    ScanEnds(b, mode, position);
    eof := position;
  }
}
