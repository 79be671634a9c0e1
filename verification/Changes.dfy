/** What the frames of a log say: operations in order, and where each value lies in the file. */
module Changes {
  import opened Wrappers
  import opened Bytes
  import opened Frames
  import opened LogScan
  import opened TornLog
  import opened BatchCodec

  /** Datetime metadata is kept as the JSON bytes the log holds; they are never empty. */
  datatype Op =
    | Set(key: bytes, value: bytes, expireAt: i64, meta: Option<bytes>)
    | Del(key: bytes)

  /** The keys some operations write. */
  function Written(ops: seq<Op>): set<bytes> {
    set op | op in ops :: op.key
  }

  /** An operation and the file offset of its value. */
  datatype Change = Change(op: Op, at: nat)

  /** The last set of a key among changes, or -1. */
  function LastSet(cs: seq<Change>, k: bytes): (i: int)
    ensures -1 <= i < |cs| && (i >= 0 ==> cs[i].op.Set? && cs[i].op.key == k)
    ensures forall j :: i < j < |cs| ==> !(cs[j].op.Set? && cs[j].op.key == k)
  {
    if cs == [] then -1
    else
      var n := |cs| - 1;
      if cs[n].op.Set? && cs[n].op.key == k then n else LastSet(cs[..n], k)
  }

  function OpOf(b: BatchOp): seq<Op> {
    if b.kind == TYPE_SET then [Set(b.key, MetaBytes(b.value), b.expireAt, b.meta)]
    else if b.kind == TYPE_DEL then [Del(b.key)]
    else []
  }

  function OpsOfBatch(bs: seq<BatchOp>): seq<Op> {
    if bs == [] then [] else OpOf(bs[0]) + OpsOfBatch(bs[1..])
  }

  /** A batch that does not decode and a frame of unknown type say nothing. */
  function FrameOps(f: Frame): seq<Op> {
    if f.kind == TYPE_SET then [Set(f.key, f.value, f.expireAt, f.meta)]
    else if f.kind == TYPE_DEL then [Del(f.key)]
    else if f.kind == TYPE_BATCH then
      match Decoded(f.value)
      case Ok(bs) => OpsOfBatch(bs)
      case Err(_) => []
    else []
  }

  function ChangeOf(body: bytes, base: nat, r: BatchOpRef): seq<Change> {
    if r.kind == TYPE_SET then
      var lo, hi := r.valueOffset - base, r.valueOffset - base + r.valueLen;
      var value := if 0 <= lo <= hi <= |body| then body[lo..hi] else [];
      [Change(Set(r.key, value, r.expireAt, r.meta), r.valueOffset)]
    else if r.kind == TYPE_DEL then [Change(Del(r.key), r.valueOffset)]
    else []
  }

  function ChangesOfRefs(body: bytes, base: nat, refs: seq<BatchOpRef>): seq<Change> {
    if refs == [] then [] else ChangeOf(body, base, refs[0]) + ChangesOfRefs(body, base, refs[1..])
  }

  function ValueStart(x: Located): nat {
    x.offset + HEADER_SIZE + |x.frame.key|
  }

  /** The operations of a frame found in a file, each with the place of its value. */
  function FrameChanges(x: Located): seq<Change> {
    var f := x.frame;
    if f.kind == TYPE_SET then [Change(Set(f.key, f.value, f.expireAt, f.meta), ValueStart(x))]
    else if f.kind == TYPE_DEL then [Change(Del(f.key), ValueStart(x))]
    else if f.kind == TYPE_BATCH then
      match BatchRefs(f.value, ValueStart(x))
      case Ok(refs) => ChangesOfRefs(f.value, ValueStart(x), refs)
      case Err(_) => []
    else []
  }

  function Ops(cs: seq<Change>): (r: seq<Op>)
    ensures |r| == |cs| && forall i :: 0 <= i < |cs| ==> r[i] == cs[i].op
  {
    if cs == [] then [] else [cs[0].op] + Ops(cs[1..])
  }

  lemma OpsConcat(a: seq<Change>, b: seq<Change>)
    ensures Ops(a + b) == Ops(a) + Ops(b)
  {
  }

  lemma {:induction false} RefsSayOps(body: bytes, base: nat, bs: seq<BatchOp>, refs: seq<BatchOpRef>)
    requires RefsMatch(body, base, bs, refs)
    ensures Ops(ChangesOfRefs(body, base, refs)) == OpsOfBatch(bs)
  {
    if bs != [] {
      RefsSayOps(body, base, bs[1..], refs[1..]);
      assert RefMatches(body, base, bs[0], refs[0]);
      OpsConcat(ChangeOf(body, base, refs[0]), ChangesOfRefs(body, base, refs[1..]));
      assert Ops(ChangeOf(body, base, refs[0])) == OpOf(bs[0]);
    }
  }

  /** Reading a frame by reference and reading it whole say the same, wherever it lies. */
  lemma FrameChangesSayOps(x: Located)
    ensures Ops(FrameChanges(x)) == FrameOps(x.frame)
  {
    hide ChangesOfRefs, OpsOfBatch, BatchRefs, Decoded;
    var f := x.frame;
    if f.kind == TYPE_BATCH {
      RefsAgree(f.value, ValueStart(x));
      if Decoded(f.value).Ok? {
        RefsSayOps(f.value, ValueStart(x), Decoded(f.value).value, BatchRefs(f.value, ValueStart(x)).value);
      }
    }
  }

  // --- where the values lie -----------------------------------------------------------------

  /** The value of the change lies in b between lo and hi. */
  predicate ReadsIn(b: bytes, lo: nat, hi: nat, c: Change) {
    c.op.Set? ==> lo <= c.at && c.at + |c.op.value| <= hi <= |b| && b[c.at..c.at + |c.op.value|] == c.op.value
  }

  ghost predicate AllReadIn(b: bytes, lo: nat, hi: nat, cs: seq<Change>) {
    forall c :: c in cs ==> ReadsIn(b, lo, hi, c)
  }

  lemma {:induction false} RefsReadIn(b: bytes, lo: nat, body: bytes, bs: seq<BatchOp>, refs: seq<BatchOpRef>)
    requires RefsMatch(body, lo, bs, refs)
    requires lo + |body| <= |b| && b[lo..lo + |body|] == body
    ensures AllReadIn(b, lo, lo + |body|, ChangesOfRefs(body, lo, refs))
  {
    hide ChangeOf, ReadsIn, RefMatches;
    if bs != [] {
      RefsReadIn(b, lo, body, bs[1..], refs[1..]);
      assert RefMatches(body, lo, bs[0], refs[0]);
      RefReadsIn(b, lo, body, bs[0], refs[0]);
      ConcatReads(b, lo, lo + |body|, ChangeOf(body, lo, refs[0]), ChangesOfRefs(body, lo, refs[1..]));
    }
  }

  lemma RefReadsIn(b: bytes, lo: nat, body: bytes, op: BatchOp, r: BatchOpRef)
    requires RefMatches(body, lo, op, r)
    requires lo + |body| <= |b| && b[lo..lo + |body|] == body
    ensures AllReadIn(b, lo, lo + |body|, ChangeOf(body, lo, r))
  {
    SliceSlice(b, lo, lo + |body|, r.valueOffset - lo, r.valueOffset - lo + r.valueLen);
  }

  /** Every value of a frame lies within the frame's value. */
  lemma FrameReadsIn(b: bytes, x: Located)
    requires var lo := ValueStart(x);
      lo + |x.frame.value| <= |b| && b[lo..lo + |x.frame.value|] == x.frame.value
    ensures AllReadIn(b, ValueStart(x), ValueStart(x) + |x.frame.value|, FrameChanges(x))
  {
    hide ChangesOfRefs, BatchRefs, Decoded;
    var f, lo := x.frame, ValueStart(x);
    if f.kind == TYPE_BATCH {
      RefsAgree(f.value, lo);
      if Decoded(f.value).Ok? {
        RefsReadIn(b, lo, f.value, Decoded(f.value).value, BatchRefs(f.value, lo).value);
      }
    }
  }

  // --- whole logs -------------------------------------------------------------------------

  function LogChanges(xs: seq<Located>): seq<Change> {
    if xs == [] then [] else FrameChanges(xs[0]) + LogChanges(xs[1..])
  }

  function LogOps(fs: seq<Frame>): seq<Op> {
    if fs == [] then [] else FrameOps(fs[0]) + LogOps(fs[1..])
  }

  /** Frames that come back from the log as they were written. */
  ghost predicate Clean(fs: seq<Frame>) {
    forall i :: 0 <= i < |fs| ==> Encodable(fs[i]) && Normal(fs[i]) == fs[i]
  }

  lemma CleanParts(fs: seq<Frame>, c: nat)
    requires Clean(fs) && c <= |fs|
    ensures Clean(fs[..c]) && Clean(fs[c..]) && AllEncodable(fs)
  {
  }

  lemma {:induction false} LogChangesConcat(a: seq<Located>, b: seq<Located>)
    ensures LogChanges(a + b) == LogChanges(a) + LogChanges(b)
  {
    hide FrameChanges;
    if a == [] {
      assert a + b == b;
    } else {
      assert (a + b)[1..] == a[1..] + b;
      LogChangesConcat(a[1..], b);
    }
  }

  lemma {:induction false} LogOpsConcat(a: seq<Frame>, b: seq<Frame>)
    ensures LogOps(a + b) == LogOps(a) + LogOps(b)
  {
    hide FrameOps;
    if a == [] {
      assert a + b == b;
    } else {
      assert (a + b)[1..] == a[1..] + b;
      LogOpsConcat(a[1..], b);
    }
  }

  /** A log says the same wherever it starts in its file. */
  lemma {:induction false} LogChangesSayOps(fs: seq<Frame>, at: nat)
    requires Clean(fs)
    ensures Ops(LogChanges(LocateAll(fs, at))) == LogOps(fs)
  {
    hide FrameChanges, FrameOps, Encoded, Normal;
    if fs != [] {
      var x := Located(at, Normal(fs[0]), |Encoded(fs[0])|);
      var xs := LocateAll(fs, at);
      assert xs[1..] == LocateAll(fs[1..], at + x.len);
      FrameChangesSayOps(x);
      LogChangesSayOps(fs[1..], at + x.len);
      OpsConcat(FrameChanges(x), LogChanges(xs[1..]));
    }
  }

  lemma FrameInPlace(before: bytes, f: Frame, after: bytes)
    requires Normal(f) == f
    ensures AllReadIn(before + (Encoded(f) + after), |before| + HEADER_SIZE, |before| + |Encoded(f)| - CRC_SIZE,
                      FrameChanges(Located(|before|, Normal(f), |Encoded(f)|)))
  {
    hide Encoded, FrameChanges, Normal;
    var x := Located(|before|, f, |Encoded(f)|);
    ValueInPlace(f, before, after);
    assert before + (Encoded(f) + after) == before + Encoded(f) + after;
    EncodedLength(f);
    FrameReadsIn(before + (Encoded(f) + after), x);
  }

  lemma EncodedLength(f: Frame)
    ensures |Encoded(f)| >= HEADER_SIZE + |f.key| + |f.value| + CRC_SIZE
  {
  }

  lemma WidenReads(b: bytes, lo: nat, hi: nat, low: nat, high: nat, cs: seq<Change>)
    requires AllReadIn(b, lo, hi, cs) && low <= lo && hi <= high <= |b|
    ensures AllReadIn(b, low, high, cs)
  {
  }

  lemma ConcatReads(b: bytes, lo: nat, hi: nat, a: seq<Change>, c: seq<Change>)
    requires AllReadIn(b, lo, hi, a) && AllReadIn(b, lo, hi, c)
    ensures AllReadIn(b, lo, hi, a + c)
  {
  }

  /** Every value of a log lies where its change says, between the ends of the log. */
  lemma {:induction false} LogInPlace(before: bytes, fs: seq<Frame>, after: bytes)
    requires Clean(fs)
    ensures AllReadIn(before + EncodeAll(fs) + after, |before|, |before| + |EncodeAll(fs)|,
                      LogChanges(LocateAll(fs, |before|)))
    decreases |fs|
  {
    hide FrameChanges, Encoded, Normal, ReadsIn;
    if fs != [] {
      var f, rest := fs[0], EncodeAll(fs[1..]);
      var b, n := before + EncodeAll(fs) + after, |before| + |Encoded(f)|;
      var x, xs := Located(|before|, Normal(f), |Encoded(f)|), LocateAll(fs, |before|);
      assert xs[1..] == LocateAll(fs[1..], n);
      assert b == before + (Encoded(f) + (rest + after)) == before + Encoded(f) + rest + after;
      FrameInPlace(before, f, rest + after);
      CleanParts(fs, 1);
      LogInPlace(before + Encoded(f), fs[1..], after);
      EncodedLength(f);
      WidenReads(b, |before| + HEADER_SIZE, n - CRC_SIZE, |before|, |before| + |EncodeAll(fs)|, FrameChanges(x));
      WidenReads(b, n, n + |rest|, |before|, |before| + |EncodeAll(fs)|, LogChanges(xs[1..]));
      ConcatReads(b, |before|, |before| + |EncodeAll(fs)|, FrameChanges(x), LogChanges(xs[1..]));
    }
  }

  // --- what is written ------------------------------------------------------------------------

  datatype Write = One(op: Op) | Batch(ops: seq<Op>)

  function BatchOpOf(op: Op): BatchOp {
    match op
    case Set(k, v, e, m) => BatchOp(TYPE_SET, k, Some(v), m, e)
    case Del(k) => BatchOp(TYPE_DEL, k, None, None, 0)
  }

  function BatchOpsOf(ops: seq<Op>): (bs: seq<BatchOp>)
    ensures |bs| == |ops| && forall i :: 0 <= i < |ops| ==> bs[i] == BatchOpOf(ops[i])
  {
    if ops == [] then [] else [BatchOpOf(ops[0])] + BatchOpsOf(ops[1..])
  }

  function WriteOps(w: Write): seq<Op> {
    if w.One? then [w.op] else w.ops
  }

  /** The frame that `set`, `del` and `batch` append. */
  function WriteFrame(w: Write): Frame {
    match w
    case One(Set(k, v, e, m)) => Frame(TYPE_SET, k, v, m, e)
    case One(Del(k)) => Frame(TYPE_DEL, k, [], None, 0)
    case Batch(ops) => Frame(TYPE_BATCH, [], EncodedBatch(BatchOpsOf(ops)), None, 0)
  }

  predicate OpOk(op: Op) {
    && 0 < |op.key| <= MAX_KEY_LEN
    && (op.Set? ==> |op.value| < 0x1_0000_0000 && (op.meta.Some? ==> 0 < |op.meta.value| < 0x1_0000_0000))
  }

  /** Keys as `check_key` admits them; lengths within their fields; a batch within its count. */
  predicate WriteOk(w: Write) {
    match w
    case One(op) => OpOk(op)
    case Batch(ops) =>
      && 0 < |ops| <= MAX_BATCH && (forall op :: op in ops ==> OpOk(op))
      && |EncodedBatch(BatchOpsOf(ops))| < 0x1_0000_0000
  }

  /** The bytes a write appends: type 1 and the value for a set, type 2 for a removal, type 3 and a counted body for a batch. */
  lemma WriteSaid(w: Write)
    requires WriteOk(w)
    ensures var b := Encoded(WriteFrame(w));
      |b| >= 26 && match w
      case One(Set(k, v, e, m)) =>
        && b[2] == 1 && U64At(b, 14) == (if e < 0 then e + 0x1_0000_0000_0000_0000 else e)
        && b[22..|b| - 4] == k + v + (if m.Some? then m.value else [])
      case One(Del(k)) =>
        b[2] == 2 && U64At(b, 14) == 0 && b[22..|b| - 4] == k
      case Batch(ops) =>
        && b[2] == 3 && U16At(b, 4) == 0 && U64At(b, 14) == 0 && |b| >= 28 && U16At(b, 22) == |ops|
        && b[22..|b| - 4] == EncodedBatch(BatchOpsOf(ops))
  {
    hide U16At, U32At, U64At, Encoded, EncodedBatch, BatchOpsOf;
    var f := WriteFrame(w);
    var b := Encoded(f);
    OkFrameFits(w);
    FrameSaid(f);
    if w.Batch? {
      CountSaid(BatchOpsOf(w.ops));
      Joined(f.value);
      SameNumber(b, 22, f.value, 0);
    }
  }

  lemma OkFrameFits(w: Write)
    requires WriteOk(w)
    ensures Encodable(WriteFrame(w))
  {
    hide EncodedBatch, BatchOpsOf;
  }

  lemma FrameSaid(f: Frame)
    requires Encodable(f)
    ensures var b := Encoded(f);
      && |b| == 26 + |f.key| + |f.value| + |MetaBytes(f.meta)|
      && b[2] == f.kind && U16At(b, 4) == |f.key| && U64At(b, 14) == (if f.expireAt < 0 then f.expireAt + 0x1_0000_0000_0000_0000 else f.expireAt)
      && b[22..|b| - 4] == f.key + f.value + MetaBytes(f.meta)
  {
    hide U16At, U32At, U64At, Encoded, MetaBytes, Crc32;
    var b := Encoded(f);
    EncodedSaid(f);
    var k, v, m := 22 + |f.key|, 22 + |f.key| + |f.value|, |b| - 4;
    assert b[22..m] == b[22..k] + b[k..v] + b[v..m];
  }

  lemma CountSaid(ops: seq<BatchOp>)
    requires 0 < |ops| <= 0xFFFF
    ensures |EncodedBatch(ops)| >= 2 && U16At(EncodedBatch(ops), 0) == |ops|
  {
    BatchSaid(ops, 0);
  }

  lemma Joined(b: bytes)
    ensures [] + b + [] == b
  {
  }

  lemma SameNumber(b: bytes, i: nat, c: bytes, j: nat)
    requires i + |c| <= |b| && b[i..i + |c|] == c && j + 2 <= |c|
    ensures U16At(b, i + j) == U16At(c, j)
  {
    assert b[i + j] == c[j] && b[i + j + 1] == c[j + 1];
  }

  /** The operations in a batch: type 1 and the value for a set, type 2 and no value for a removal. */
  lemma BatchOpSaid(op: Op)
    requires OpOk(op)
    ensures var b := OpBytes(BatchOpOf(op));
      |b| >= 19 && match op
      case Set(k, v, e, m) =>
        && b[0] == 1 && U16At(b, 1) == |k| && U32At(b, 3) == |v| && U64At(b, 11) == (if e < 0 then e + 0x1_0000_0000_0000_0000 else e)
        && b[19..] == k + v + (if m.Some? then m.value else [])
      case Del(k) =>
        b[0] == 2 && U16At(b, 1) == |k| && U32At(b, 3) == 0 && U64At(b, 11) == 0 && b[19..] == k
  {
    hide U16At, U32At, U64At, OpBytes;
    var f := BatchOpOf(op);
    var b := OpBytes(f);
    OpSaid(f);
    var k, v := 19 + |f.key|, 19 + |f.key| + |MetaBytes(f.value)|;
    assert b[19..] == b[19..k] + b[k..v] + b[v..];
  }

  lemma OpRoundTrip(op: Op)
    requires OpOk(op)
    ensures OpOf(NormalOp(BatchOpOf(op))) == [op] && OpFits(BatchOpOf(op))
  {
  }

  lemma {:induction false} BatchSaysOps(ops: seq<Op>)
    requires forall op :: op in ops ==> OpOk(op)
    ensures OpsOfBatch(NormalOps(BatchOpsOf(ops))) == ops && AllFit(BatchOpsOf(ops))
  {
    hide OpOk, OpOf, NormalOp, BatchOpOf, OpFits;
    if ops != [] {
      OpRoundTrip(ops[0]);
      BatchSaysOps(ops[1..]);
      var bs, tail := BatchOpsOf(ops), BatchOpsOf(ops[1..]);
      assert bs[1..] == tail && NormalOps(bs)[1..] == NormalOps(tail);
      assert forall b :: b in bs ==> b == bs[0] || b in tail;
    }
  }

  /** What is written is what the log says afterwards. */
  lemma WriteRoundTrip(w: Write)
    requires WriteOk(w)
    ensures Encodable(WriteFrame(w)) && Normal(WriteFrame(w)) == WriteFrame(w)
    ensures FrameOps(WriteFrame(w)) == WriteOps(w)
  {
    hide EncodedBatch, Decoded, OpsOfBatch, NormalOps;
    if w.Batch? {
      var bs := BatchOpsOf(w.ops);
      BatchSaysOps(w.ops);
      BatchRoundTrip(bs, []);
      assert EncodedBatch(bs) + [] == EncodedBatch(bs);
    }
  }
}
