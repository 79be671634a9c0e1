/** Logs made of encoded frames: whole, cut anywhere, and resumed. */
module TornLog {
  import opened Wrappers
  import opened Bytes
  import opened Frames
  import opened LogScan

  ghost predicate AllEncodable(fs: seq<Frame>) {
    forall i :: 0 <= i < |fs| ==> Encodable(fs[i])
  }

  function EncodeAll(fs: seq<Frame>): bytes {
    if fs == [] then [] else Encoded(fs[0]) + EncodeAll(fs[1..])
  }

  /** Where the frames of a log lie when the first starts at `at`. */
  function LocateAll(fs: seq<Frame>, at: nat): (ls: seq<Located>)
    ensures |ls| == |fs|
  {
    if fs == [] then []
    else [Located(at, Normal(fs[0]), |Encoded(fs[0])|)] + LocateAll(fs[1..], at + |Encoded(fs[0])|)
  }

  /** How many frames of a log are whole within its first k bytes. */
  function Complete(fs: seq<Frame>, k: nat): (n: nat)
    ensures n <= |fs|
  {
    if fs == [] || k < |Encoded(fs[0])| then 0 else 1 + Complete(fs[1..], k - |Encoded(fs[0])|)
  }

  lemma {:induction false} EncodeAllConcat(a: seq<Frame>, b: seq<Frame>)
    ensures EncodeAll(a + b) == EncodeAll(a) + EncodeAll(b)
  {
    hide Encoded;
    if a == [] {
      assert a + b == b;
    } else {
      assert (a + b)[1..] == a[1..] + b;
      EncodeAllConcat(a[1..], b);
    }
  }

  lemma {:induction false} LocateAllConcat(a: seq<Frame>, b: seq<Frame>, at: nat)
    ensures LocateAll(a + b, at) == LocateAll(a, at) + LocateAll(b, at + |EncodeAll(a)|)
  {
    hide *;
    if a == [] {
      assert a + b == b;
      NothingLocated(at);
    } else {
      var n := |Encoded(a[0])|;
      assert (a + b)[1..] == a[1..] + b && (a + b)[0] == a[0];
      LocateFirst(a, at);
      LocateFirst(a + b, at);
      LocateAllConcat(a[1..], b, at + n);
      var x, p, q := [Located(at, Normal(a[0]), n)], LocateAll(a[1..], at + n), LocateAll(b, at + |EncodeAll(a)|);
      assert x + (p + q) == x + p + q;
    }
  }

  lemma LocateFirst(fs: seq<Frame>, at: nat)
    requires fs != []
    ensures LocateAll(fs, at) == [Located(at, Normal(fs[0]), |Encoded(fs[0])|)] + LocateAll(fs[1..], at + |Encoded(fs[0])|)
    ensures |EncodeAll(fs)| == |Encoded(fs[0])| + |EncodeAll(fs[1..])|
  {
    hide Encoded, Normal;
  }

  lemma NothingLocated(at: nat)
    ensures LocateAll([], at) == [] && EncodeAll([]) == []
  {
  }

  /** The whole frames of a cut log are exactly those whose bytes lie before the cut. */
  lemma {:induction false} CompleteIsMaximal(fs: seq<Frame>, k: nat)
    ensures |EncodeAll(fs[..Complete(fs, k)])| <= k
    ensures Complete(fs, k) < |fs| ==> k < |EncodeAll(fs[..Complete(fs, k) + 1])|
  {
    hide Encoded;
    if fs == [] {
      assert fs[..0] == [];
    } else if k < |Encoded(fs[0])| {
      assert fs[..0] == [];
      assert fs[..1] == [fs[0]] && [fs[0]][1..] == [];
    } else {
      var c := Complete(fs[1..], k - |Encoded(fs[0])|);
      CompleteIsMaximal(fs[1..], k - |Encoded(fs[0])|);
      assert fs[..c + 1][1..] == fs[1..][..c];
      if c + 1 < |fs| {
        assert fs[..c + 2][1..] == fs[1..][..c + 1];
      }
    }
  }

  /** The encoded frame at the front of a log reads as itself. */
  lemma ReadsFirst(before: bytes, f: Frame, rest: bytes)
    requires Encodable(f)
    ensures ReadFrameAt(before + (Encoded(f) + rest), |before|) == Some((Normal(f), |Encoded(f)|))
  {
    hide ReadFrame, Encoded;
    assert (before + (Encoded(f) + rest))[|before|..] == Encoded(f) + rest;
    ReadEncoded(f, rest);
  }

  lemma ReadsNothingTorn(before: bytes, f: Frame, k: nat)
    requires Encodable(f) && k < |Encoded(f)|
    ensures ReadFrameAt(before + Encoded(f)[..k], |before|) == None
  {
    hide ReadFrame, Encoded;
    assert (before + Encoded(f)[..k])[|before|..] == Encoded(f)[..k];
    TornFrame(f, k);
  }

  /** What is left of a log after its whole frames: nothing, or part of one frame. */
  function Cut(fs: seq<Frame>, k: nat): bytes
    requires k <= |EncodeAll(fs)|
  {
    EncodeAll(fs)[..k]
  }

  lemma CutFirst(fs: seq<Frame>, k: nat)
    requires fs != [] && |Encoded(fs[0])| <= k <= |EncodeAll(fs)|
    ensures k - |Encoded(fs[0])| <= |EncodeAll(fs[1..])|
    ensures Cut(fs, k) == Encoded(fs[0]) + Cut(fs[1..], k - |Encoded(fs[0])|)
  {
    hide Encoded;
  }

  lemma CutAfter(fs: seq<Frame>, c: nat, k: nat)
    requires c <= |fs| && |EncodeAll(fs[..c])| <= k <= |EncodeAll(fs)|
    ensures k - |EncodeAll(fs[..c])| <= |EncodeAll(fs[c..])|
    ensures Cut(fs, k) == EncodeAll(fs[..c]) + Cut(fs[c..], k - |EncodeAll(fs[..c])|)
  {
    hide *;
    EncodeAllConcat(fs[..c], fs[c..]);
    assert fs[..c] + fs[c..] == fs;
    assert Cut(fs, k) == EncodeAll(fs)[..k] by { CutIs(fs, k); }
    CutIs(fs[c..], k - |EncodeAll(fs[..c])|);
  }

  lemma CutIs(fs: seq<Frame>, k: nat)
    requires k <= |EncodeAll(fs)|
    ensures Cut(fs, k) == EncodeAll(fs)[..k]
  {
  }

  lemma JoinStep(one: Scan, rest: Scan, tail: Scan, all: Scan)
    requires one.frames + rest.frames == all.frames && one.corrupt == rest.corrupt == all.corrupt == []
    ensures Join(one, Join(rest, tail)) == Join(all, tail)
  {
    assert one.frames + (rest.frames + tail.frames) == one.frames + rest.frames + tail.frames;
  }

  lemma PassFirst(before: bytes, f: Frame, rest: bytes, mode: Mode)
    requires Encodable(f)
    ensures var b := before + (Encoded(f) + rest);
      ScanFrom(b, mode, |before|)
      == Join(Scan([Located(|before|, Normal(f), |Encoded(f)|)], [], |before|), ScanFrom(b, mode, |before| + |Encoded(f)|))
  {
    hide ReadFrame, ReadFrameAt, Normal, Encoded, ScanFrom, Join;
    ReadsFirst(before, f, rest);
    EncodedNonEmpty(f);
    ScanValidStep(before + (Encoded(f) + rest), mode, |before|);
  }

  lemma CompleteFirst(fs: seq<Frame>, k: nat, at: nat)
    requires fs != [] && |Encoded(fs[0])| <= k
    ensures var n, c := |Encoded(fs[0])|, Complete(fs[1..], k - |Encoded(fs[0])|);
      && Complete(fs, k) == c + 1
      && |EncodeAll(fs[..c + 1])| == n + |EncodeAll(fs[1..][..c])|
      && LocateAll(fs[..c + 1], at) == [Located(at, Normal(fs[0]), n)] + LocateAll(fs[1..][..c], at + n)
  {
    hide Encoded, Normal;
    var c := Complete(fs[1..], k - |Encoded(fs[0])|);
    assert fs[..c + 1][1..] == fs[1..][..c];
  }

  /**
    Scanning a log cut at any byte passes its whole frames, in either mode, and arrives at
    the cut frame with the rest of the scan still to do.
   */
  lemma {:induction false} ScanPassesWhole(before: bytes, fs: seq<Frame>, k: nat, mode: Mode)
    requires AllEncodable(fs) && k <= |EncodeAll(fs)|
    ensures var c := Complete(fs, k);
      var end := |before| + |EncodeAll(fs[..c])|;
      var b := before + Cut(fs, k);
      && end <= |b|
      && ScanFrom(b, mode, |before|) == Join(Scan(LocateAll(fs[..c], |before|), [], 0), ScanFrom(b, mode, end))
    decreases |fs|
  {
    hide *;
    var b := before + Cut(fs, k);
    if fs == [] || k < |Encoded(fs[0])| {
      NoneComplete(fs, k, |before|);
      JoinStart(ScanFrom(b, mode, |before|), 0);
    } else {
      var f, n := fs[0], |Encoded(fs[0])|;
      CutFirst(fs, k);
      CompleteFirst(fs, k, |before|);
      var tail := Cut(fs[1..], k - n);
      assert b == before + (Encoded(f) + tail) == before + Encoded(f) + tail;
      SplitEncodable(fs, 1);
      FirstEncodable(fs);
      PassFirst(before, f, tail, mode);
      ScanPassesWhole(before + Encoded(f), fs[1..], k - n, mode);
      var whole := LocateAll(fs[1..][..Complete(fs[1..], k - n)], |before| + n);
      JoinStep(Scan([Located(|before|, Normal(f), n)], [], |before|), Scan(whole, [], 0),
               ScanFrom(b, mode, |before| + |EncodeAll(fs[..Complete(fs, k)])|),
               Scan(LocateAll(fs[..Complete(fs, k)], |before|), [], 0));
    }
  }

  lemma NoneComplete(fs: seq<Frame>, k: nat, at: nat)
    requires fs == [] || k < |Encoded(fs[0])|
    ensures Complete(fs, k) == 0 && fs[..0] == [] && EncodeAll([]) == [] && LocateAll([], at) == []
  {
    hide Encoded;
  }

  lemma FirstEncodable(fs: seq<Frame>)
    requires AllEncodable(fs) && fs != []
    ensures Encodable(fs[0])
  {
  }

  lemma EncodedNonEmpty(f: Frame)
    ensures |Encoded(f)| > 0
  {
  }

  /** At the cut itself no frame reads. */
  lemma NothingAtCut(before: bytes, fs: seq<Frame>, k: nat)
    requires AllEncodable(fs) && k <= |EncodeAll(fs)|
    ensures var end := |before| + |EncodeAll(fs[..Complete(fs, k)])|;
      end <= |before| + k && ReadFrameAt(before + Cut(fs, k), end) == None
  {
    hide *;
    var c := Complete(fs, k);
    CompleteIsMaximal(fs, k);
    CutAfter(fs, c, k);
    CompleteAfter(fs, c, k);
    var whole := EncodeAll(fs[..c]);
    SplitEncodable(fs, c);
    NothingFirst(before + whole, fs[c..], k - |whole|);
    assert before + Cut(fs, k) == before + whole + Cut(fs[c..], k - |whole|);
  }

  lemma NothingFirst(before: bytes, fs: seq<Frame>, k: nat)
    requires AllEncodable(fs) && k <= |EncodeAll(fs)| && Complete(fs, k) == 0
    ensures ReadFrameAt(before + Cut(fs, k), |before|) == None
  {
    hide ReadFrame, Encoded;
    if fs == [] {
      assert (before + Cut(fs, k))[|before|..] == [];
      ReadsEmpty();
    } else {
      assert Cut(fs, k) == Encoded(fs[0])[..k];
      ReadsNothingTorn(before, fs[0], k);
    }
  }

  lemma ReadsEmpty()
    ensures ReadFrame([]) == None
  {
  }

  /**
    Strict mode on a log cut at any byte returns exactly the whole frames and their end
    offset, and reports the cut frame, if any, as one corrupt range up to the end.
   */
  lemma StrictScanExact(before: bytes, fs: seq<Frame>, k: nat)
    requires AllEncodable(fs) && k <= |EncodeAll(fs)|
    ensures var c := Complete(fs, k);
      var end := |before| + |EncodeAll(fs[..c])|;
      ScanFrom(before + Cut(fs, k), Strict, |before|)
        == Scan(LocateAll(fs[..c], |before|), if end < |before| + k then [(end, |before| + k)] else [], end)
  {
    hide ReadFrame, Encoded;
    ScanPassesWhole(before, fs, k, Strict);
    NothingAtCut(before, fs, k);
  }

  /** A whole log gives all its frames and no corrupt range, in both modes. */
  lemma WholeLogScan(before: bytes, fs: seq<Frame>, mode: Mode)
    requires AllEncodable(fs)
    ensures ScanFrom(before + EncodeAll(fs), mode, |before|)
         == Scan(LocateAll(fs, |before|), [], |before| + |EncodeAll(fs)|)
  {
    hide ReadFrame, Encoded;
    var k := |EncodeAll(fs)|;
    CompleteIsMaximal(fs, k);
    var c := Complete(fs, k);
    if c < |fs| {
      assert fs == fs[..c + 1] + fs[c + 1..];
      EncodeAllConcat(fs[..c + 1], fs[c + 1..]);
    }
    assert fs[..c] == fs && Cut(fs, k) == EncodeAll(fs);
    ScanPassesWhole(before, fs, k, mode);
  }

  lemma SplitEncodable(fs: seq<Frame>, c: nat)
    requires AllEncodable(fs) && c <= |fs|
    ensures AllEncodable(fs[..c]) && AllEncodable(fs[c..])
  {
  }

  /** A strict scan that starts at a frame boundary finds the whole frames behind it. */
  lemma StrictScanFrom(fs: seq<Frame>, c: nat, k: nat)
    requires AllEncodable(fs) && c <= |fs| && |EncodeAll(fs[..c])| <= k <= |EncodeAll(fs)|
    ensures var d := Complete(fs, k);
      var at, end := |EncodeAll(fs[..c])|, |EncodeAll(fs[..d])|;
      && c <= d
      && ScanFrom(Cut(fs, k), Strict, at) == Scan(LocateAll(fs[c..d], at), if end < k then [(end, k)] else [], end)
  {
    hide *;
    var before := EncodeAll(fs[..c]);
    CutAfter(fs, c, k);
    CompleteAfter(fs, c, k);
    SplitEncodable(fs, c);
    StrictScanExact(before, fs[c..], k - |before|);
    var d := Complete(fs, k);
    assert fs[c..][..d - c] == fs[c..d];
    assert fs[..d] == fs[..c] + fs[c..d];
    EncodeAllConcat(fs[..c], fs[c..d]);
  }

  /** Resuming a strict scan at the end offset of a shorter log finds the rest of a longer one. */
  lemma ResumeScan(fs: seq<Frame>, j: nat, k: nat)
    requires AllEncodable(fs) && j <= k <= |EncodeAll(fs)|
    ensures var first, all := ScanFrom(Cut(fs, j), Strict, 0), ScanFrom(Cut(fs, k), Strict, 0);
      var rest := ScanFrom(Cut(fs, k), Strict, first.eof);
      && first.frames + rest.frames == all.frames && rest.corrupt == all.corrupt && rest.eof == all.eof
  {
    hide *;
    var c, d := Complete(fs, j), Complete(fs, k);
    assert fs[..0] == [];
    EncodeNone();
    StrictScanFrom(fs, 0, j);
    StrictScanFrom(fs, 0, k);
    CompleteIsMaximal(fs, j);
    StrictScanFrom(fs, c, k);
    assert fs[0..d] == fs[0..c] + fs[c..d] && fs[0..c] == fs[..c];
    LocateAllConcat(fs[..c], fs[c..d], 0);
  }

  lemma EncodeNone()
    ensures EncodeAll([]) == []
  {
  }

  lemma {:induction false} CompleteAfter(fs: seq<Frame>, c: nat, k: nat)
    requires c <= |fs| && |EncodeAll(fs[..c])| <= k
    ensures Complete(fs, k) == c + Complete(fs[c..], k - |EncodeAll(fs[..c])|)
  {
    hide Encoded;
    if c == 0 {
      assert fs[..0] == [] && fs[0..] == fs;
    } else {
      assert fs[..c][1..] == fs[1..][..c - 1] && fs[1..][c - 1..] == fs[c..];
      CompleteAfter(fs[1..], c - 1, k - |Encoded(fs[0])|);
    }
  }

  // --- resync mode -------------------------------------------------------------------------

  /**
    Resync mode on a cut log returns exactly its whole frames if and only if no frame reads
    anywhere inside the cut one.
   */
  lemma ResyncExact(fs: seq<Frame>, k: nat)
    requires AllEncodable(fs) && k <= |EncodeAll(fs)|
    ensures var c := Complete(fs, k);
      var end := |EncodeAll(fs[..c])|;
      && end <= k
      && (ScanFrom(Cut(fs, k), Resync, 0).frames == LocateAll(fs[..c], 0)
          <==> forall x :: end < x < k ==> !ValidAt(Cut(fs, k), x))
  {
    hide ReadFrame, Encoded, EncodeAll, LocateAll, Cut, Complete;
    var c, b := Complete(fs, k), Cut(fs, k);
    var end := |EncodeAll(fs[..c])|;
    ScanPassesWhole([], fs, k, Resync);
    NothingAtCut([], fs, k);
    CutIs(fs, k);
    assert [] + b == b;
    assert !ValidAt(b, end);
    var whole, rest := LocateAll(fs[..c], 0), ScanFrom(b, Resync, end).frames;
    assert ScanFrom(b, Resync, 0).frames == whole + rest;
    assert whole + rest == whole <==> rest == [];
    if end < k && NextValid(b, end + 1) < k {
      ScanCorruptStep(b, end);
      ScanValidStep(b, Resync, NextValid(b, end + 1));
    }
  }

  /** Where no frame reads inside the cut one, the two modes find the same. */
  lemma ModesAgree(fs: seq<Frame>, k: nat)
    requires AllEncodable(fs) && k <= |EncodeAll(fs)|
    requires forall x :: |EncodeAll(fs[..Complete(fs, k)])| < x < k ==> !ValidAt(Cut(fs, k), x)
    ensures ScanFrom(Cut(fs, k), Resync, 0) == ScanFrom(Cut(fs, k), Strict, 0)
  {
    hide ReadFrame, Encoded, EncodeAll, LocateAll, Cut, Complete, Join;
    var b := Cut(fs, k);
    var end := |EncodeAll(fs[..Complete(fs, k)])|;
    assert [] + b == b;
    CutIs(fs, k);
    ScanPassesWhole([], fs, k, Resync);
    ScanPassesWhole([], fs, k, Strict);
    NothingAtCut([], fs, k);
    assert !ValidAt(b, end);
    assert end < k ==> NextValid(b, end + 1) == k;
    assert ScanFrom(b, Resync, end) == ScanFrom(b, Strict, end);
  }

  /**
    A value may itself hold an encoded frame.  Cut such a log one byte short and resync mode
    returns the inner frame although the log has no whole frame.
   */
  lemma ResyncFindsNested(inner: Frame, outer: Frame)
    requires Encodable(inner) && Encodable(outer) && outer.value == Encoded(inner)
    ensures var log := EncodeAll([outer]);
      var k := |log| - 1;
      && Complete([outer], k) == 0
      && ValidAt(Cut([outer], k), HEADER_SIZE + |outer.key|)
      && ScanFrom(Cut([outer], k), Resync, 0).frames != LocateAll([], 0)
  {
    hide ReadFrame, Encoded, Whole;
    assert [outer][1..] == [];
    var e, n := Encoded(outer), HEADER_SIZE + |outer.key|;
    assert EncodeAll([outer]) == e;
    var k := |e| - 1;
    assert [outer][..0] == [];
    EncodedPayload(outer);
    var b := Cut([outer], k);
    assert b == e[..k];
    assert e[n..n + |outer.value|] == outer.value;
    var tail := b[n + |outer.value|..];
    assert b[n..] == b[n..n + |outer.value|] + tail;
    assert b[n..n + |outer.value|] == e[n..n + |outer.value|];
    ReadEncoded(inner, tail);
    assert ValidAt(b, n);
    ResyncExact([outer], k);
  }
}
