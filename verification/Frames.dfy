/** The log frame format of `codec.rs`: magic, lengths, payload and checksum. */
module Frames {
  import opened Wrappers
  import opened Bytes

  const MAGIC: bytes := [0x4d, 0x44]
  const TYPE_SET: byte := 1
  const TYPE_DEL: byte := 2
  const TYPE_BATCH: byte := 3
  const HEADER_SIZE: nat := 22
  const CRC_SIZE: nat := 4
  const MAX_KEY_LEN: nat := 0xFFFF

  datatype Frame = Frame(kind: byte, key: bytes, value: bytes, meta: Option<bytes>, expireAt: i64)

  datatype CodecError =
    | KeyTooLarge
    | TooManyBatchOperations
    | BatchHeaderTruncated
    | BatchPayloadTruncated
    | CorruptFrame(offset: nat)

  function MetaBytes(meta: Option<bytes>): bytes {
    if meta.Some? then meta.value else []
  }

  /** What survives a trip through the log: empty metadata is read back as none. */
  function Normal(f: Frame): Frame {
    f.(meta := if MetaBytes(f.meta) == [] then None else f.meta)
  }

  /** Lengths are cast to their field widths, so longer ones lose their high bits. */
  function Header(f: Frame): (h: bytes)
    ensures |h| == HEADER_SIZE
  {
    MAGIC + [f.kind, 0]
    + LE(|f.key|, 2) + LE(|f.value| % 0x1_0000_0000, 4) + LE(|MetaBytes(f.meta)| % 0x1_0000_0000, 4)
    + LE(Unsigned(f.expireAt), 8)
  }

  function Payload(f: Frame): bytes {
    f.key + f.value + MetaBytes(f.meta)
  }

  function Encoded(f: Frame): (b: bytes)
    ensures |b| == HEADER_SIZE + |f.key| + |f.value| + |MetaBytes(f.meta)| + CRC_SIZE
  {
    Header(f) + Payload(f) + Trailer(f)
  }

  function Trailer(f: Frame): (t: bytes)
    ensures |t| == CRC_SIZE
  {
    LE(Crc32(Header(f)[2..] + Payload(f)), CRC_SIZE)
  }

  function EncodeFrame(f: Frame): Result<bytes, CodecError> {
    if |f.key| > MAX_KEY_LEN then Err(KeyTooLarge) else Ok(Encoded(f))
  }

  predicate Fits(f: Frame) {
    |f.value| < 0x1_0000_0000 && |MetaBytes(f.meta)| < 0x1_0000_0000
  }

  predicate Encodable(f: Frame) {
    |f.key| <= MAX_KEY_LEN && Fits(f)
  }

  // --- reading ---------------------------------------------------------------------------

  function KeyLen(b: bytes): nat
    requires |b| >= HEADER_SIZE
  {
    FromLE(b[4..6])
  }

  function ValueLen(b: bytes): nat
    requires |b| >= HEADER_SIZE
  {
    FromLE(b[6..10])
  }

  function MetaLen(b: bytes): nat
    requires |b| >= HEADER_SIZE
  {
    FromLE(b[10..14])
  }

  function FrameLen(b: bytes): (n: nat)
    requires |b| >= HEADER_SIZE
    ensures n >= HEADER_SIZE + CRC_SIZE
  {
    HEADER_SIZE + KeyLen(b) + ValueLen(b) + MetaLen(b) + CRC_SIZE
  }

  function ExpireField(b: bytes): i64
    requires |b| >= HEADER_SIZE
  {
    FromLEBound(b[14..22]);
    Pow256Values();
    Signed(FromLE(b[14..22]))
  }

  /** The checksum covers everything but the magic and itself. */
  predicate ChecksumOk(b: bytes)
    requires |b| >= HEADER_SIZE && |b| >= FrameLen(b)
  {
    var n := FrameLen(b);
    FromLE(b[n - CRC_SIZE..n]) == Crc32(b[2..n - CRC_SIZE])
  }

  function FrameOf(b: bytes): Frame
    requires |b| >= HEADER_SIZE && |b| >= FrameLen(b)
  {
    var k := HEADER_SIZE + KeyLen(b);
    var v := k + ValueLen(b);
    var m := v + MetaLen(b);
    Frame(b[2], b[HEADER_SIZE..k], b[k..v], if MetaLen(b) > 0 then Some(b[v..m]) else None, ExpireField(b))
  }

  predicate Whole(b: bytes) {
    |b| >= HEADER_SIZE && b[..2] == MAGIC && |b| >= FrameLen(b) && ChecksumOk(b)
  }

  /** The frame at the front of b, with its length. */
  function ReadFrame(b: bytes): (r: Option<(Frame, nat)>)
    ensures r.Some? ==> HEADER_SIZE + CRC_SIZE <= r.value.1 <= |b|
  {
    if Whole(b) then Some((FrameOf(b), FrameLen(b))) else None
  }

  function ReadFrameAt(b: bytes, position: nat): (r: Option<(Frame, nat)>)
    ensures r.Some? ==> HEADER_SIZE + CRC_SIZE <= r.value.1 && position + r.value.1 <= |b|
  {
    if position <= |b| then ReadFrame(b[position..]) else None
  }

  // --- what is read depends only on the frame's own bytes --------------------------------------

  lemma SliceOfPrefix(b: bytes, c: bytes, n: nat, i: nat, j: nat)
    requires n <= |b| && n <= |c| && b[..n] == c[..n] && i <= j <= n
    ensures b[i..j] == c[i..j]
  {
    assert b[i..j] == b[..n][i..j];
    assert c[i..j] == c[..n][i..j];
  }

  lemma HeaderAgrees(b: bytes, c: bytes)
    requires |b| >= HEADER_SIZE && |c| >= HEADER_SIZE && b[..HEADER_SIZE] == c[..HEADER_SIZE]
    ensures b[..2] == c[..2] && b[2] == c[2]
    ensures KeyLen(b) == KeyLen(c) && ValueLen(b) == ValueLen(c) && MetaLen(b) == MetaLen(c)
    ensures FrameLen(b) == FrameLen(c) && ExpireField(b) == ExpireField(c)
  {
    SliceOfPrefix(b, c, HEADER_SIZE, 0, 2);
    SliceOfPrefix(b, c, HEADER_SIZE, 4, 6);
    SliceOfPrefix(b, c, HEADER_SIZE, 6, 10);
    SliceOfPrefix(b, c, HEADER_SIZE, 10, 14);
    SliceOfPrefix(b, c, HEADER_SIZE, 14, 22);
    assert b[2] == b[..HEADER_SIZE][2];
    assert c[2] == c[..HEADER_SIZE][2];
  }

  lemma ChecksumAgrees(b: bytes, c: bytes, n: nat)
    requires |b| >= HEADER_SIZE && FrameLen(b) == n <= |b| && |c| >= HEADER_SIZE && FrameLen(c) == n <= |c|
    requires b[..n] == c[..n]
    ensures ChecksumOk(b) == ChecksumOk(c)
  {
    SliceOfPrefix(b, c, n, n - CRC_SIZE, n);
    SliceOfPrefix(b, c, n, 2, n - CRC_SIZE);
  }

  lemma PayloadAgrees(b: bytes, c: bytes, n: nat)
    requires |b| >= HEADER_SIZE && FrameLen(b) == n <= |b| && |c| >= HEADER_SIZE && FrameLen(c) == n <= |c|
    requires b[..n] == c[..n] && b[2] == c[2] && ExpireField(b) == ExpireField(c)
    requires KeyLen(b) == KeyLen(c) && ValueLen(b) == ValueLen(c) && MetaLen(b) == MetaLen(c)
    ensures FrameOf(b) == FrameOf(c)
  {
    var k := HEADER_SIZE + KeyLen(b);
    var v := k + ValueLen(b);
    SliceOfPrefix(b, c, n, HEADER_SIZE, k);
    SliceOfPrefix(b, c, n, k, v);
    SliceOfPrefix(b, c, n, v, v + MetaLen(b));
  }

  lemma FrameAgrees(b: bytes, c: bytes)
    requires Whole(b) && FrameLen(b) <= |c| && b[..FrameLen(b)] == c[..FrameLen(b)]
    ensures ReadFrame(c) == ReadFrame(b)
  {
    SliceOfPrefix(b, c, FrameLen(b), 0, HEADER_SIZE);
    HeaderAgrees(b, c);
    ChecksumAgrees(b, c, FrameLen(b));
    PayloadAgrees(b, c, FrameLen(b));
  }

  /** Bytes behind a whole frame never change how it is read. */
  lemma ReadFrameExtends(b: bytes, more: bytes)
    requires Whole(b)
    ensures ReadFrame(b + more) == ReadFrame(b)
  {
    assert (b + more)[..FrameLen(b)] == b[..FrameLen(b)];
    FrameAgrees(b, b + more);
  }

  // --- round trip -------------------------------------------------------------------------

  lemma HeaderParts(f: Frame)
    ensures var h := Header(f);
      && h[..2] == MAGIC && h[2] == f.kind
      && h[4..6] == LE(|f.key|, 2)
      && h[6..10] == LE(|f.value| % 0x1_0000_0000, 4)
      && h[10..14] == LE(|MetaBytes(f.meta)| % 0x1_0000_0000, 4)
      && h[14..22] == LE(Unsigned(f.expireAt), 8)
  {
  }

  lemma HeaderLengths(f: Frame)
    requires |f.key| <= MAX_KEY_LEN
    ensures var h := Header(f);
      KeyLen(h) == |f.key| && ValueLen(h) == |f.value| % 0x1_0000_0000 && MetaLen(h) == |MetaBytes(f.meta)| % 0x1_0000_0000
  {
    Pow256Values();
    HeaderParts(f);
    FromLEofLE(|f.key|, 2);
    FromLEofLE(|f.value| % 0x1_0000_0000, 4);
    FromLEofLE(|MetaBytes(f.meta)| % 0x1_0000_0000, 4);
  }

  lemma HeaderExpire(f: Frame)
    ensures Header(f)[..2] == MAGIC && Header(f)[2] == f.kind && ExpireField(Header(f)) == f.expireAt
  {
    Pow256Values();
    HeaderParts(f);
    FromLEofLE(Unsigned(f.expireAt), 8);
  }

  lemma HeaderFields(f: Frame, b: bytes)
    requires |b| >= HEADER_SIZE && b[..HEADER_SIZE] == Header(f) && |f.key| <= MAX_KEY_LEN
    ensures b[..2] == MAGIC && b[2] == f.kind && ExpireField(b) == f.expireAt
    ensures KeyLen(b) == |f.key| && ValueLen(b) == |f.value| % 0x1_0000_0000 && MetaLen(b) == |MetaBytes(f.meta)| % 0x1_0000_0000
    ensures Fits(f) ==> ValueLen(b) == |f.value| && MetaLen(b) == |MetaBytes(f.meta)| && FrameLen(b) == |Encoded(f)|
  {
    HeaderLengths(f);
    HeaderExpire(f);
    HeaderAgrees(b, Header(f));
  }

  lemma Parts<T>(a: seq<T>, b: seq<T>, c: seq<T>)
    ensures (a + b + c)[..|a|] == a
    ensures (a + b + c)[|a|..|a| + |b|] == b
    ensures (a + b + c)[|a| + |b|..] == c
  {
  }

  lemma SliceSlice<T>(s: seq<T>, i: nat, j: nat, k: nat, l: nat)
    requires i <= j <= |s| && k <= l <= j - i
    ensures s[i..j][k..l] == s[i + k..i + l]
  {
    var t, u := s[i..j][k..l], s[i + k..i + l];
    assert |t| == |u|;
    assert forall x :: 0 <= x < |t| ==> t[x] == s[i..j][k + x] == s[i + k + x];
  }

  /** A frame byte by byte: magic, type, a zero, the three lengths, the expiry, the payload and the checksum. */
  lemma EncodedSaid(f: Frame)
    requires Encodable(f)
    ensures var b, meta := Encoded(f), MetaBytes(f.meta);
      var k := 22 + |f.key|;
      var v := k + |f.value|;
      var m := v + |meta|;
      && |b| == m + 4
      && b[0] == 0x4d && b[1] == 0x44 && b[2] == f.kind && b[3] == 0
      && U16At(b, 4) == |f.key| && U32At(b, 6) == |f.value| && U32At(b, 10) == |meta|
      && U64At(b, 14) == (if f.expireAt < 0 then f.expireAt + 0x1_0000_0000_0000_0000 else f.expireAt)
      && b[22..k] == f.key && b[k..v] == f.value && b[v..m] == meta
      && U32At(b, m) == Crc32(b[2..m])
  {
    hide LE, Crc32, U16At, U32At, U64At, Header, MetaBytes;
    var b, h, p, meta := Encoded(f), Header(f), Payload(f), MetaBytes(f.meta);
    var k, v, m := 22 + |f.key|, 22 + |f.key| + |f.value|, 22 + |f.key| + |f.value| + |meta|;
    HeaderBytes(f, b);
    HeaderNumbers(f, b);
    Parts(h, p, Trailer(f));
    Parts(f.key, f.value, meta);
    assert b[22..m] == p;
    SliceSlice(b, 22, m, 0, |f.key|);
    SliceSlice(b, 22, m, |f.key|, |f.key| + |f.value|);
    SliceSlice(b, 22, m, |f.key| + |f.value|, |p|);
    assert b[2..m] == h[2..] + p;
    assert b[m..m + 4] == Trailer(f);
    LittleEndian(b, m, Crc32(h[2..] + p));
  }

  lemma HeaderBytes(f: Frame, b: bytes)
    requires b == Header(f) + Payload(f) + Trailer(f)
    ensures b[..22] == Header(f) && b[0] == 0x4d && b[1] == 0x44 && b[2] == f.kind && b[3] == 0
  {
    hide LE, Payload, Trailer, MetaBytes;
    assert b[..22] == Header(f);
    assert b[0] == b[..22][0] && b[1] == b[..22][1] && b[2] == b[..22][2] && b[3] == b[..22][3];
  }

  lemma HeaderNumbers(f: Frame, b: bytes)
    requires Encodable(f) && |b| >= 22 && b[..22] == Header(f)
    ensures U16At(b, 4) == |f.key| && U32At(b, 6) == |f.value| && U32At(b, 10) == |MetaBytes(f.meta)|
    ensures U64At(b, 14) == if f.expireAt < 0 then f.expireAt + 0x1_0000_0000_0000_0000 else f.expireAt
  {
    hide LE, U16At, U32At, U64At, Header, MetaBytes;
    HeaderParts(f);
    SliceSlice(b, 0, 22, 4, 6);
    SliceSlice(b, 0, 22, 6, 10);
    SliceSlice(b, 0, 22, 10, 14);
    SliceSlice(b, 0, 22, 14, 22);
    LittleEndian(b, 4, |f.key|);
    LittleEndian(b, 6, |f.value|);
    LittleEndian(b, 10, |MetaBytes(f.meta)|);
    LittleEndian(b, 14, Unsigned(f.expireAt));
  }

  lemma EncodedSlices(f: Frame)
    ensures var b, n := Encoded(f), |Encoded(f)|;
      && b[..HEADER_SIZE] == Header(f)
      && b[HEADER_SIZE..n - CRC_SIZE] == Payload(f)
      && b[n - CRC_SIZE..n] == Trailer(f)
      && b[2..n - CRC_SIZE] == Header(f)[2..] + Payload(f)
  {
    var h, p, t := Header(f), Payload(f), Trailer(f);
    Parts(h, p, t);
    var b, n := h + p + t, |h| + |p| + |t|;
    assert b[2..n - CRC_SIZE] == b[2..HEADER_SIZE] + b[HEADER_SIZE..n - CRC_SIZE];
    assert b[2..HEADER_SIZE] == b[..HEADER_SIZE][2..];
  }

  lemma EncodedPayload(f: Frame)
    ensures var b, k := Encoded(f), HEADER_SIZE + |f.key|;
      && b[HEADER_SIZE..k] == f.key
      && b[k..k + |f.value|] == f.value
      && b[k + |f.value|..k + |f.value| + |MetaBytes(f.meta)|] == MetaBytes(f.meta)
  {
    EncodedSlices(f);
    var b, n := Encoded(f), |Encoded(f)|;
    var m := MetaBytes(f.meta);
    Parts(f.key, f.value, m);
    SliceSlice(b, HEADER_SIZE, n - CRC_SIZE, 0, |f.key|);
    SliceSlice(b, HEADER_SIZE, n - CRC_SIZE, |f.key|, |f.key| + |f.value|);
    SliceSlice(b, HEADER_SIZE, n - CRC_SIZE, |f.key| + |f.value|, |f.key| + |f.value| + |m|);
  }

  lemma TrailerValue(f: Frame)
    ensures FromLE(Trailer(f)) == Crc32(Header(f)[2..] + Payload(f))
  {
    Pow256Values();
    FromLEofLE(Crc32(Header(f)[2..] + Payload(f)), CRC_SIZE);
  }

  lemma EncodedWhole(f: Frame)
    requires Encodable(f)
    ensures Whole(Encoded(f)) && FrameLen(Encoded(f)) == |Encoded(f)|
  {
    EncodedSlices(f);
    HeaderFields(f, Encoded(f));
    TrailerValue(f);
  }

  lemma FrameFrom(b: bytes, f: Frame)
    requires |b| >= HEADER_SIZE && |b| >= FrameLen(b)
    requires b[2] == f.kind && ExpireField(b) == f.expireAt
    requires KeyLen(b) == |f.key| && ValueLen(b) == |f.value| && MetaLen(b) == |MetaBytes(f.meta)|
    requires var k := HEADER_SIZE + |f.key|;
      && b[HEADER_SIZE..k] == f.key
      && b[k..k + |f.value|] == f.value
      && b[k + |f.value|..k + |f.value| + |MetaBytes(f.meta)|] == MetaBytes(f.meta)
    ensures FrameOf(b) == Normal(f)
  {
  }

  lemma EncodedFrame(f: Frame)
    requires Encodable(f)
    ensures ReadFrame(Encoded(f)) == Some((Normal(f), |Encoded(f)|))
  {
    EncodedWhole(f);
    EncodedSlices(f);
    HeaderFields(f, Encoded(f));
    EncodedPayload(f);
    FrameFrom(Encoded(f), f);
  }

  /** Reading an encoded frame, whatever follows it, gives the frame and its length back. */
  lemma ReadEncoded(f: Frame, rest: bytes)
    requires Encodable(f)
    ensures ReadFrame(Encoded(f) + rest) == Some((Normal(f), |Encoded(f)|))
  {
    EncodedFrame(f);
    EncodedWhole(f);
    ReadFrameExtends(Encoded(f), rest);
  }

  /** The round trip holds exactly for frames whose value and metadata lengths fit their fields. */
  lemma RoundTripExact(f: Frame)
    requires |f.key| <= MAX_KEY_LEN
    ensures ReadFrame(Encoded(f)) == Some((Normal(f), |Encoded(f)|)) <==> Fits(f)
  {
    var b := Encoded(f);
    if Fits(f) {
      EncodedFrame(f);
    } else {
      EncodedSlices(f);
      HeaderFields(f, b);
      if Whole(b) {
        assert |FrameOf(b).value| == ValueLen(b) && |MetaBytes(FrameOf(b).meta)| == MetaLen(b);
      }
    }
  }

  /** No strict prefix of an encoded frame reads as a frame. */
  lemma TornFrame(f: Frame, k: nat)
    requires Encodable(f) && k < |Encoded(f)|
    ensures ReadFrame(Encoded(f)[..k]) == None
  {
    if k >= HEADER_SIZE {
      EncodedSlices(f);
      SliceSlice(Encoded(f), 0, k, 0, HEADER_SIZE);
      HeaderFields(f, Encoded(f)[..k]);
      assert FrameLen(Encoded(f)[..k]) > k;
    }
  }

  /** The value of a frame in a file sits behind the header and the key. */
  lemma ValueInPlace(f: Frame, before: bytes, after: bytes)
    ensures var start := |before| + HEADER_SIZE + |f.key|;
      (before + Encoded(f) + after)[start..start + |f.value|] == f.value
  {
    var b, k := before + Encoded(f) + after, HEADER_SIZE + |f.key|;
    Parts(before, Encoded(f), after);
    EncodedPayload(f);
    SliceSlice(b, |before|, |before| + |Encoded(f)|, k, k + |f.value|);
  }
}
