/** The body of a batch frame in `codec.rs`: a count and, for each operation, a header and its payload. */
module BatchCodec {
  import opened Wrappers
  import opened Bytes
  import opened Frames

  const SUB_HEADER_SIZE: nat := 19
  const MAX_BATCH: nat := 0xFFFF

  datatype BatchOp = BatchOp(kind: byte, key: bytes, value: Option<bytes>, meta: Option<bytes>, expireAt: i64)

  datatype BatchOpRef = BatchOpRef(kind: byte, key: bytes, meta: Option<bytes>, expireAt: i64, valueOffset: nat, valueLen: u32)

  /** What survives a trip: an absent value comes back empty, empty metadata comes back absent. */
  function NormalOp(op: BatchOp): BatchOp {
    op.(value := Some(MetaBytes(op.value)), meta := if MetaBytes(op.meta) == [] then None else op.meta)
  }

  function NormalOps(ops: seq<BatchOp>): (r: seq<BatchOp>)
    ensures |r| == |ops| && forall i :: 0 <= i < |ops| ==> r[i] == NormalOp(ops[i])
  {
    if ops == [] then [] else [NormalOp(ops[0])] + NormalOps(ops[1..])
  }

  function OpHeader(op: BatchOp): (h: bytes)
    ensures |h| == SUB_HEADER_SIZE
  {
    [op.kind] + LE(|op.key|, 2)
    + LE(|MetaBytes(op.value)| % 0x1_0000_0000, 4) + LE(|MetaBytes(op.meta)| % 0x1_0000_0000, 4)
    + LE(Unsigned(op.expireAt), 8)
  }

  function OpBytes(op: BatchOp): (b: bytes)
    ensures |b| == SUB_HEADER_SIZE + |op.key| + |MetaBytes(op.value)| + |MetaBytes(op.meta)|
  {
    OpHeader(op) + (op.key + MetaBytes(op.value) + MetaBytes(op.meta))
  }

  function AllOpBytes(ops: seq<BatchOp>): bytes {
    if ops == [] then [] else OpBytes(ops[0]) + AllOpBytes(ops[1..])
  }

  function EncodedBatch(ops: seq<BatchOp>): bytes {
    LE(|ops|, 2) + AllOpBytes(ops)
  }

  predicate KeysFit(ops: seq<BatchOp>) {
    forall op :: op in ops ==> |op.key| <= MAX_KEY_LEN
  }

  predicate OpFits(op: BatchOp) {
    |op.key| <= MAX_KEY_LEN && |MetaBytes(op.value)| < 0x1_0000_0000 && |MetaBytes(op.meta)| < 0x1_0000_0000
  }

  predicate AllFit(ops: seq<BatchOp>) {
    forall op :: op in ops ==> OpFits(op)
  }

  lemma {:induction false} AllOpBytesSnoc(ops: seq<BatchOp>, op: BatchOp)
    ensures AllOpBytes(ops + [op]) == AllOpBytes(ops) + OpBytes(op)
  {
    hide OpBytes;
    if ops == [] {
      assert ops + [op] == [op] && [op][1..] == [];
    } else {
      assert (ops + [op])[1..] == ops[1..] + [op];
      AllOpBytesSnoc(ops[1..], op);
    }
  }

  lemma EncodeNone(before: bytes)
    ensures before + AllOpBytes([]) == before
  {
  }

  lemma EncodeStep(before: bytes, ops: seq<BatchOp>, i: nat)
    requires i < |ops|
    ensures before + AllOpBytes(ops[..i]) + OpBytes(ops[i]) == before + AllOpBytes(ops[..i + 1])
  {
    hide *;
    assert ops[..i + 1] == ops[..i] + [ops[i]];
    AllOpBytesSnoc(ops[..i], ops[i]);
  }

  /** `encode_batch_ops`: too many operations is checked before too large a key. */
  method EncodeBatchOps(ops: seq<BatchOp>) returns (r: Result<bytes, CodecError>)
    ensures r == if |ops| > 65535 then Err(TooManyBatchOperations)
                 else if exists op :: op in ops && |op.key| > 65535 then Err(KeyTooLarge)
                 else Ok(EncodedBatch(ops))
  {
    hide OpBytes, AllOpBytes, LE;
    if |ops| > MAX_BATCH {
      return Err(TooManyBatchOperations);
    }
    for i := 0 to |ops|
      invariant forall op :: op in ops[..i] ==> |op.key| <= MAX_KEY_LEN
    {
      if |ops[i].key| > MAX_KEY_LEN {
        assert ops[i] in ops;
        return Err(KeyTooLarge);
      }
    }
    assert ops[..|ops|] == ops;
    var output := LE(|ops|, 2);
    EncodeNone(output);
    for i := 0 to |ops|
      invariant output == LE(|ops|, 2) + AllOpBytes(ops[..i])
    {
      EncodeStep(LE(|ops|, 2), ops, i);
      output := output + OpBytes(ops[i]);
    }
    r := Ok(output);
  }

  // --- decoding ---------------------------------------------------------------------------

  datatype Lengths = Lengths(kind: byte, key: nat, value: u32, meta: nat, expireAt: i64)

  function ReadHeader(h: bytes): (l: Lengths)
    requires |h| == SUB_HEADER_SIZE
  {
    FromLEBound(h[3..7]);
    FromLEBound(h[11..19]);
    Pow256Values();
    Lengths(h[0], FromLE(h[1..3]), FromLE(h[3..7]), FromLE(h[7..11]), Signed(FromLE(h[11..19])))
  }

  /** The operation at `offset` and where it ends. */
  function ReadOp(body: bytes, offset: nat): (r: Result<(BatchOp, nat), CodecError>)
    ensures r.Ok? ==> offset < r.value.1 <= |body|
  {
    if offset + SUB_HEADER_SIZE > |body| then Err(BatchHeaderTruncated)
    else
      var l := ReadHeader(body[offset..offset + SUB_HEADER_SIZE]);
      var k := offset + SUB_HEADER_SIZE;
      var v := k + l.key;
      var m := v + l.value;
      var end := m + l.meta;
      if end > |body| then Err(BatchPayloadTruncated)
      else Ok((BatchOp(l.kind, body[k..v], Some(body[v..m]), if l.meta > 0 then Some(body[m..end]) else None, l.expireAt), end))
  }

  function DecodeFrom(body: bytes, offset: nat, n: nat): (r: Result<seq<BatchOp>, CodecError>)
    ensures r.Ok? ==> |r.value| == n
    decreases n
  {
    if n == 0 then Ok([])
    else match ReadOp(body, offset)
      case Err(e) => Err(e)
      case Ok((op, end)) =>
        match DecodeFrom(body, end, n - 1)
        case Err(e) => Err(e)
        case Ok(rest) => Ok([op] + rest)
  }

  /** A body too short to hold a count is an empty batch. */
  function Decoded(body: bytes): Result<seq<BatchOp>, CodecError> {
    if |body| < 2 then Ok([]) else DecodeFrom(body, 2, FromLE(body[..2]))
  }

  function Prepend<T>(done: seq<T>, rest: Result<seq<T>, CodecError>): Result<seq<T>, CodecError> {
    if rest.Ok? then Ok(done + rest.value) else rest
  }

  /** `decode_batch_ops`. */
  method DecodeBatchOps(body: bytes) returns (r: Result<seq<BatchOp>, CodecError>)
    ensures r == Decoded(body)
  {
    hide ReadOp;
    if |body| < 2 {
      return Ok([]);
    }
    var count := FromLE(body[..2]);
    var offset := 2;
    var operations := [];
    PrependNothing(operations, DecodeFrom(body, offset, count));
    for i := 0 to count
      invariant Decoded(body) == Prepend(operations, DecodeFrom(body, offset, count - i))
    {
      var read := ReadOp(body, offset);
      if read.Err? {
        return Err(read.error);
      }
      PrependOne(operations, read.value.0, DecodeFrom(body, read.value.1, count - i - 1));
      operations := operations + [read.value.0];
      offset := read.value.1;
    }
    PrependNothing(operations, Ok([]));
    r := Ok(operations);
  }

  lemma PrependNothing<T>(done: seq<T>, rest: Result<seq<T>, CodecError>)
    ensures Prepend([], rest) == rest && done + [] == done
  {
    if rest.Ok? {
      assert [] + rest.value == rest.value;
    }
  }

  lemma PrependOne<T>(done: seq<T>, x: T, rest: Result<seq<T>, CodecError>)
    ensures Prepend(done + [x], rest) == Prepend(done, Prepend([x], rest))
  {
    if rest.Ok? {
      assert done + [x] + rest.value == done + ([x] + rest.value);
    }
  }

  // --- references into the log ----------------------------------------------------------------

  /** A reference names what the decoded operation holds and where its value lies. */
  ghost predicate RefMatches(body: bytes, base: nat, op: BatchOp, ref: BatchOpRef) {
    && ref.kind == op.kind && ref.key == op.key && ref.meta == op.meta && ref.expireAt == op.expireAt
    && base <= ref.valueOffset && ref.valueOffset - base + ref.valueLen <= |body|
    && op.value == Some(body[ref.valueOffset - base..ref.valueOffset - base + ref.valueLen])
  }

  ghost predicate RefsMatch(body: bytes, base: nat, ops: seq<BatchOp>, refs: seq<BatchOpRef>) {
    |ops| == |refs| && forall i :: 0 <= i < |refs| ==> RefMatches(body, base, ops[i], refs[i])
  }

  /** The reference to the operation at `offset` and where it ends. */
  function ReadRef(body: bytes, offset: nat, base: nat): (r: Result<(BatchOpRef, nat), CodecError>)
    ensures r.Ok? ==> offset < r.value.1 <= |body|
  {
    if offset + SUB_HEADER_SIZE > |body| then Err(BatchHeaderTruncated)
    else
      var l := ReadHeader(body[offset..offset + SUB_HEADER_SIZE]);
      var k := offset + SUB_HEADER_SIZE;
      var m := k + l.key + l.value;
      var end := m + l.meta;
      if end > |body| then Err(BatchPayloadTruncated)
      else
        var meta := if l.meta > 0 then Some(body[m..end]) else None;
        Ok((BatchOpRef(l.kind, body[k..k + l.key], meta, l.expireAt, base + k + l.key, l.value), end))
  }

  function RefsFrom(body: bytes, offset: nat, n: nat, base: nat): (r: Result<seq<BatchOpRef>, CodecError>)
    ensures r.Ok? ==> |r.value| == n
    decreases n
  {
    if n == 0 then Ok([])
    else match ReadRef(body, offset, base)
      case Err(e) => Err(e)
      case Ok((ref, end)) => Prepend([ref], RefsFrom(body, end, n - 1, base))
  }

  function BatchRefs(body: bytes, base: nat): Result<seq<BatchOpRef>, CodecError> {
    if |body| < 2 then Ok([]) else RefsFrom(body, 2, FromLE(body[..2]), base)
  }

  /** `scan_batch_op_refs`. */
  method ScanBatchOpRefs(body: bytes, base: nat) returns (r: Result<seq<BatchOpRef>, CodecError>)
    ensures r == BatchRefs(body, base)
  {
    hide ReadRef;
    if |body| < 2 {
      return Ok([]);
    }
    var count := FromLE(body[..2]);
    var offset := 2;
    var refs := [];
    PrependNothing(refs, RefsFrom(body, offset, count, base));
    for i := 0 to count
      invariant BatchRefs(body, base) == Prepend(refs, RefsFrom(body, offset, count - i, base))
    {
      var read := ReadRef(body, offset, base);
      if read.Err? {
        return Err(read.error);
      }
      PrependOne(refs, read.value.0, RefsFrom(body, read.value.1, count - i - 1, base));
      refs := refs + [read.value.0];
      offset := read.value.1;
    }
    PrependNothing(refs, Ok([]));
    r := Ok(refs);
  }

  lemma ReadRefAgrees(body: bytes, offset: nat, base: nat)
    ensures match ReadOp(body, offset)
      case Err(e) => ReadRef(body, offset, base) == Err(e)
      case Ok((op, end)) =>
        ReadRef(body, offset, base).Ok? && ReadRef(body, offset, base).value.1 == end
        && RefMatches(body, base, op, ReadRef(body, offset, base).value.0)
  {
    hide ReadHeader;
  }

  lemma {:induction false} RefsFromAgree(body: bytes, offset: nat, n: nat, base: nat)
    ensures match DecodeFrom(body, offset, n)
      case Err(e) => RefsFrom(body, offset, n, base) == Err(e)
      case Ok(ops) => RefsFrom(body, offset, n, base).Ok? && RefsMatch(body, base, ops, RefsFrom(body, offset, n, base).value)
    decreases n
  {
    hide ReadOp, ReadRef, RefMatches;
    if n > 0 {
      ReadRefAgrees(body, offset, base);
      if ReadOp(body, offset).Ok? {
        RefsFromAgree(body, ReadOp(body, offset).value.1, n - 1, base);
      }
    }
  }

  /** On every body, references succeed, fail and say what decoding does, with each value left in place. */
  lemma RefsAgree(body: bytes, base: nat)
    ensures match Decoded(body)
      case Err(e) => BatchRefs(body, base) == Err(e)
      case Ok(ops) => BatchRefs(body, base).Ok? && RefsMatch(body, base, ops, BatchRefs(body, base).value)
  {
    hide RefsFrom, DecodeFrom, RefMatches;
    if |body| >= 2 {
      RefsFromAgree(body, 2, FromLE(body[..2]), base);
    }
  }

  // --- round trip -------------------------------------------------------------------------

  lemma HeaderReads(op: BatchOp)
    requires OpFits(op)
    ensures ReadHeader(OpHeader(op)) == Lengths(op.kind, |op.key|, |MetaBytes(op.value)|, |MetaBytes(op.meta)|, op.expireAt)
  {
    Pow256Values();
    FromLEofLE(|op.key|, 2);
    FromLEofLE(|MetaBytes(op.value)|, 4);
    FromLEofLE(|MetaBytes(op.meta)|, 4);
    FromLEofLE(Unsigned(op.expireAt), 8);
    OpHeaderParts(op);
  }

  lemma OpHeaderParts(op: BatchOp)
    requires OpFits(op)
    ensures var h := OpHeader(op);
      && h[0] == op.kind && h[1..3] == LE(|op.key|, 2)
      && h[3..7] == LE(|MetaBytes(op.value)|, 4) && h[7..11] == LE(|MetaBytes(op.meta)|, 4)
      && h[11..19] == LE(Unsigned(op.expireAt), 8)
  {
    hide LE;
    var k, v, m, e := LE(|op.key|, 2), LE(|MetaBytes(op.value)|, 4), LE(|MetaBytes(op.meta)|, 4), LE(Unsigned(op.expireAt), 8);
    assert OpHeader(op) == [op.kind] + k + v + m + e;
  }

  lemma OpParts(op: BatchOp)
    ensures var e, k := OpBytes(op), SUB_HEADER_SIZE;
      var v := k + |op.key|;
      var m := v + |MetaBytes(op.value)|;
      && e[0..k] == OpHeader(op) && e[k..v] == op.key && e[v..m] == MetaBytes(op.value) && e[m..m + |MetaBytes(op.meta)|] == MetaBytes(op.meta)
  {
    hide OpHeader, MetaBytes;
    var h, v, m := OpHeader(op), MetaBytes(op.value), MetaBytes(op.meta);
    var payload := op.key + v + m;
    assert (h + payload)[|h|..] == payload;
    Parts(op.key, v, m);
    SliceSlice(h + payload, |h|, |h| + |payload|, 0, |op.key|);
    SliceSlice(h + payload, |h|, |h| + |payload|, |op.key|, |op.key| + |v|);
    SliceSlice(h + payload, |h|, |h| + |payload|, |op.key| + |v|, |payload|);
  }

  /** An operation of a batch byte by byte: type, the three lengths, the expiry and the payload. */
  lemma OpSaid(op: BatchOp)
    requires OpFits(op)
    ensures var b, value, meta := OpBytes(op), MetaBytes(op.value), MetaBytes(op.meta);
      var k := 19 + |op.key|;
      var v := k + |value|;
      && |b| == v + |meta|
      && b[0] == op.kind && U16At(b, 1) == |op.key| && U32At(b, 3) == |value| && U32At(b, 7) == |meta|
      && U64At(b, 11) == (if op.expireAt < 0 then op.expireAt + 0x1_0000_0000_0000_0000 else op.expireAt)
      && b[19..k] == op.key && b[k..v] == value && b[v..] == meta
  {
    hide LE, U16At, U32At, U64At, OpHeader, MetaBytes;
    var b := OpBytes(op);
    OpParts(op);
    OpHeaderParts(op);
    assert b[0] == b[..19][0];
    SliceSlice(b, 0, 19, 1, 3);
    SliceSlice(b, 0, 19, 3, 7);
    SliceSlice(b, 0, 19, 7, 11);
    SliceSlice(b, 0, 19, 11, 19);
    LittleEndian(b, 1, |op.key|);
    LittleEndian(b, 3, |MetaBytes(op.value)|);
    LittleEndian(b, 7, |MetaBytes(op.meta)|);
    LittleEndian(b, 11, Unsigned(op.expireAt));
  }

  /** A batch: how many operations, then one behind another. */
  lemma BatchSaid(ops: seq<BatchOp>, i: nat)
    requires |ops| <= 0xFFFF && i < |ops|
    ensures var b := EncodedBatch(ops);
      var at := |EncodedBatch(ops[..i])|;
      |b| >= 2 && U16At(b, 0) == |ops| && at <= at + |OpBytes(ops[i])| <= |b| && b[at..at + |OpBytes(ops[i])|] == OpBytes(ops[i])
  {
    hide LE, OpBytes, U16At;
    var head, before, after := LE(|ops|, 2), AllOpBytes(ops[..i]), AllOpBytes(ops[i + 1..]);
    assert ops == ops[..i] + ops[i..] && ops[i..][1..] == ops[i + 1..];
    AllOpBytesConcat(ops[..i], ops[i..]);
    var b := EncodedBatch(ops);
    assert b == (head + before) + OpBytes(ops[i]) + after;
    Parts(head + before, OpBytes(ops[i]), after);
    assert b[0..2] == head;
    LittleEndian(b, 0, |ops|);
  }

  lemma {:induction false} AllOpBytesConcat(a: seq<BatchOp>, b: seq<BatchOp>)
    ensures AllOpBytes(a + b) == AllOpBytes(a) + AllOpBytes(b)
  {
    hide OpBytes;
    if a == [] {
      assert a + b == b;
    } else {
      assert (a + b)[1..] == a[1..] + b;
      AllOpBytesConcat(a[1..], b);
    }
  }

  lemma OpSlices(before: bytes, op: BatchOp, after: bytes)
    ensures var b, k := before + OpBytes(op) + after, |before| + SUB_HEADER_SIZE;
      var v := k + |op.key|;
      var m := v + |MetaBytes(op.value)|;
      && b[|before|..k] == OpHeader(op) && b[k..v] == op.key && b[v..m] == MetaBytes(op.value)
      && b[m..m + |MetaBytes(op.meta)|] == MetaBytes(op.meta)
  {
    hide OpHeader, MetaBytes, OpBytes;
    var e, b, n := OpBytes(op), before + OpBytes(op) + after, |before|;
    var k := SUB_HEADER_SIZE;
    var v := k + |op.key|;
    var m := v + |MetaBytes(op.value)|;
    Parts(before, e, after);
    OpParts(op);
    SliceSlice(b, n, n + |e|, 0, k);
    SliceSlice(b, n, n + |e|, k, v);
    SliceSlice(b, n, n + |e|, v, m);
    SliceSlice(b, n, n + |e|, m, m + |MetaBytes(op.meta)|);
  }

  lemma ReadsOp(before: bytes, op: BatchOp, after: bytes)
    requires OpFits(op)
    ensures ReadOp(before + OpBytes(op) + after, |before|) == Ok((NormalOp(op), |before| + |OpBytes(op)|))
  {
    hide OpHeader, ReadHeader;
    OpSlices(before, op, after);
    HeaderReads(op);
  }

  lemma DecodeStep(body: bytes, offset: nat, n: nat)
    requires n > 0 && ReadOp(body, offset).Ok? && DecodeFrom(body, ReadOp(body, offset).value.1, n - 1).Ok?
    ensures DecodeFrom(body, offset, n) == Ok([ReadOp(body, offset).value.0] + DecodeFrom(body, ReadOp(body, offset).value.1, n - 1).value)
  {
    hide ReadOp;
  }

  lemma DecodeNone(body: bytes, offset: nat)
    ensures DecodeFrom(body, offset, 0) == Ok([]) && NormalOps([]) == []
  {
  }

  lemma OpsSplit(ops: seq<BatchOp>)
    requires ops != []
    ensures AllOpBytes(ops) == OpBytes(ops[0]) + AllOpBytes(ops[1..]) && NormalOps(ops) == [NormalOp(ops[0])] + NormalOps(ops[1..])
    ensures AllFit(ops) ==> OpFits(ops[0]) && AllFit(ops[1..])
  {
    hide OpBytes, NormalOp;
  }

  lemma {:induction false} DecodeOfEncoded(before: bytes, ops: seq<BatchOp>, after: bytes)
    requires AllFit(ops)
    ensures DecodeFrom(before + AllOpBytes(ops) + after, |before|, |ops|) == Ok(NormalOps(ops))
    decreases |ops|
  {
    hide *;
    if ops == [] {
      DecodeNone(before + AllOpBytes(ops) + after, |before|);
    } else {
      OpsSplit(ops);
      var front, rest := OpBytes(ops[0]), AllOpBytes(ops[1..]);
      var b := before + AllOpBytes(ops) + after;
      assert b == before + front + (rest + after) == before + front + rest + after;
      ReadsOp(before, ops[0], rest + after);
      DecodeOfEncoded(before + front, ops[1..], after);
      DecodeStep(b, |before|, |ops|);
    }
  }

  /** Decoding what was encoded gives the operations back, whatever follows them. */
  lemma BatchRoundTrip(ops: seq<BatchOp>, after: bytes)
    requires |ops| <= MAX_BATCH && AllFit(ops)
    ensures Decoded(EncodedBatch(ops) + after) == Ok(NormalOps(ops))
  {
    hide AllOpBytes, LE, FromLE, DecodeFrom;
    Pow256Values();
    FromLEofLE(|ops|, 2);
    var body := EncodedBatch(ops) + after;
    assert body[..2] == LE(|ops|, 2);
    DecodeOfEncoded(LE(|ops|, 2), ops, after);
  }
}
