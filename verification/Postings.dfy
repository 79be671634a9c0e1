/** The postings codec of `text_postings.rs`: unsigned LEB128 (section 7.6 of DWARF 5), lists, records and the file. */
module Postings {
  import opened Wrappers
  import opened Bytes
  import opened Frames

  const HEADER_LEN: nat := 10
  const CRC_LEN: nat := 4

  datatype PostingsError =
    | TruncatedVarint | VarintTooLong | TermTooLong | RecordTooShort | CrcMismatch
    | TermOutOfBounds | PayloadOutOfBounds | Closed | ReadFailed

  type Posting = (u32, u32)

  // --- variable-length integers -----------------------------------------------------------------

  function Varint(v: nat): (b: bytes)
    ensures |b| >= 1
  {
    if v >= 128 then [v % 128 + 128] + Varint(v / 128) else [v]
  }

  method EncodeVarint(value: u32) returns (output: bytes)
    ensures output == Varint(value)
  {
    output := [];
    var v: nat := value;
    while v >= 128
      invariant Varint(value) == output + Varint(v)
    {
      output := output + [v % 128 + 128];
      v := v / 128;
    }
    output := output + [v];
  }

  function PowerOf128(k: nat): nat {
    if k == 0 then 1 else 128 * PowerOf128(k - 1)
  }

  /** The low seven bits of each byte, the first counting least. */
  function SevenBits(b: bytes): nat {
    if b == [] then 0
    else
      var n := |b| - 1;
      SevenBits(b[..n]) + (b[n] as int) % 128 * PowerOf128(n)
  }

  lemma {:induction false} SevenBitsFirst(a: byte, b: bytes)
    ensures SevenBits([a] + b) == a % 128 + 128 * SevenBits(b)
  {
    var s := [a] + b;
    if b == [] {
      assert s[..0] == [];
    } else {
      var n := |b| - 1;
      assert s[..|s| - 1] == [a] + b[..n];
      SevenBitsFirst(a, b[..n]);
      assert PowerOf128(n + 1) == 128 * PowerOf128(n);
      TimesMoves(b[n], PowerOf128(n));
    }
  }

  lemma TimesMoves(x: byte, p: nat)
    ensures x % 128 * (128 * p) == 128 * (x % 128 * p)
  {
  }

  /** Seven bits of the number in each byte, the eighth set in all but the last, and no empty byte at the end. */
  lemma {:induction false} VarintSaid(v: nat)
    ensures var b := Varint(v);
      && SevenBits(b) == v
      && b[|b| - 1] < 128 && (forall i :: 0 <= i < |b| - 1 ==> b[i] >= 128)
      && (|b| > 1 ==> b[|b| - 1] > 0)
  {
    hide SevenBits;
    if v >= 128 {
      var rest := Varint(v / 128);
      VarintSaid(v / 128);
      SevenBitsFirst(v % 128 + 128, rest);
      Behind128(v, rest);
    } else {
      OneByte(v);
    }
  }

  lemma Behind128(v: nat, rest: bytes)
    requires v >= 128 && rest != [] && rest[|rest| - 1] < 128 && (forall i :: 0 <= i < |rest| - 1 ==> rest[i] >= 128)
    requires (|rest| > 1 ==> rest[|rest| - 1] > 0) && (|rest| == 1 ==> rest[0] == v / 128)
    ensures var b := [v % 128 + 128] + rest;
      b[|b| - 1] < 128 && (forall i :: 0 <= i < |b| - 1 ==> b[i] >= 128) && b[|b| - 1] > 0
    ensures (v % 128 + 128) % 128 + 128 * (v / 128) == v
  {
  }

  lemma OneByte(v: byte)
    requires v < 128
    ensures SevenBits([v]) == v
  {
    assert [v][..0] == [];
  }

  /** What a seven-bit group at position i (of six) adds; the bits beyond the thirty-second are lost. */
  function Group(b: byte, i: nat): nat {
    var low := b % 128;
    if i == 0 then low
    else if i == 1 then low * 128
    else if i == 2 then low * 0x4000
    else if i == 3 then low * 0x20_0000
    else if i == 4 then low * 0x1000_0000 % 0x1_0000_0000
    else 0
  }

  /** The sum of the groups before position i is below this. */
  function Limit(i: nat): nat {
    if i == 0 then 1 else if i == 1 then 128 else if i == 2 then 0x4000 else if i == 3 then 0x20_0000
    else if i == 4 then 0x1000_0000 else 0x1_0000_0000
  }

  lemma SumStays(sum: nat, b: byte, i: nat)
    requires sum < Limit(i)
    ensures sum + Group(b, i) < Limit(i + 1) <= 0x1_0000_0000
  {
  }

  /** Groups from position i on, the sum so far being `sum`; a seventh group is too many. */
  function ReadGroups(b: bytes, cursor: nat, i: nat, sum: nat): (r: Result<(u32, nat), PostingsError>)
    requires i <= 5 && sum < Limit(i)
    decreases 6 - i
    ensures r.Ok? ==> cursor <= r.value.1
  {
    if cursor >= |b| then Err(TruncatedVarint)
    else
      SumStays(sum, b[cursor], i);
      var now := sum + Group(b[cursor], i);
      if b[cursor] < 128 then Ok((now, cursor + 1))
      else if i == 5 then Err(VarintTooLong)
      else ReadGroups(b, cursor + 1, i + 1, now)
  }

  function ReadVarint(b: bytes, cursor: nat): (r: Result<(u32, nat), PostingsError>)
    ensures r.Ok? ==> cursor <= r.value.1
  {
    ReadGroups(b, cursor, 0, 0)
  }

  method DecodeVarint(b: bytes, start: nat) returns (r: Result<(u32, nat), PostingsError>)
    ensures r == ReadVarint(b, start)
  {
    hide Group, Limit;
    var result: nat, cursor: nat, i: nat := 0, start, 0;
    LimitStart();
    while true
      invariant i <= 5 && result < Limit(i) && ReadVarint(b, start) == ReadGroups(b, cursor, i, result)
      decreases 6 - i
    {
      if cursor >= |b| {
        return Err(TruncatedVarint);
      }
      var byte := b[cursor];
      SumStays(result, byte, i);
      cursor := cursor + 1;
      result := result + Group(byte, i);
      if byte < 128 {
        return Ok((result, cursor));
      }
      if i == 5 {
        return Err(VarintTooLong);
      }
      i := i + 1;
    }
  }

  lemma LimitStart()
    ensures 0 < Limit(0)
  {
  }

  /** The value of seven-bit groups from position i on. */
  function Weight(i: nat): nat {
    if i == 0 then 1 else if i == 1 then 128 else if i == 2 then 0x4000 else if i == 3 then 0x20_0000 else 0x1000_0000
  }

  /** How large what is left may be at position i. */
  function Room(i: nat): nat {
    if i == 0 then 0x1_0000_0000 else if i == 1 then 0x200_0000 else if i == 2 then 0x4_0000 else if i == 3 then 0x800 else 16
  }

  lemma RoomShrinks(v: nat, i: nat)
    requires i <= 4 && v < Room(i)
    ensures i < 4 ==> v / 128 < Room(i + 1)
    ensures v >= 128 ==> i < 4
    ensures v < 128 ==> Group(v, i) == v * Weight(i)
    ensures v >= 128 ==> Group(v % 128 + 128, i) + v / 128 * Weight(i + 1) == v * Weight(i)
  {
    if v >= 128 {
      var q, r := v / 128, v % 128;
      assert v == q * 128 + r;
      assert Weight(i + 1) == 128 * Weight(i);
      assert (r + 128) % 128 == r;
    }
  }

  lemma {:induction false} ReadsVarint(before: bytes, v: nat, after: bytes, i: nat, sum: nat)
    requires i <= 4 && v < Room(i) && sum < Limit(i)
    ensures ReadGroups(before + Varint(v) + after, |before|, i, sum).Ok?
    ensures ReadGroups(before + Varint(v) + after, |before|, i, sum).value == (sum + v * Weight(i), |before| + |Varint(v)|)
    decreases 6 - i
  {
    hide Group, Weight, Room, Limit;
    var b := before + Varint(v) + after;
    RoomShrinks(v, i);
    assert b[|before|] == Varint(v)[0];
    if v >= 128 {
      var byte: byte := v % 128 + 128;
      SumStays(sum, byte, i);
      var front := before + [byte];
      assert b == front + Varint(v / 128) + after;
      ReadsVarint(front, v / 128, after, i + 1, sum + Group(byte, i));
    }
  }

  /** Every 32-bit value decodes to itself, whatever follows. */
  lemma VarintRoundTrip(before: bytes, v: u32, after: bytes)
    ensures ReadVarint(before + Varint(v) + after, |before|) == Ok((v, |before| + |Varint(v)|))
  {
    ReadsVarint(before, v, after, 0, 0);
  }

  // --- posting lists ------------------------------------------------------------------------

  function WrapSub(a: u32, b: u32): u32 {
    (a - b) % 0x1_0000_0000
  }

  function WrapAdd(a: u32, b: nat): u32 {
    (a + b) % 0x1_0000_0000
  }

  /** Ids as wrapping differences to the one before. */
  function Deltas(entries: seq<Posting>, previous: u32): bytes {
    if entries == [] then []
    else Varint(WrapSub(entries[0].0, previous)) + Varint(entries[0].1) + Deltas(entries[1..], entries[0].0)
  }

  function PostingBytes(entries: seq<Posting>): bytes {
    Varint(|entries| % 0x1_0000_0000) + Deltas(entries, 0)
  }

  lemma {:induction false} DeltasSnoc(entries: seq<Posting>, previous: u32, e: Posting)
    ensures Deltas(entries + [e], previous)
         == Deltas(entries, previous) + (Varint(WrapSub(e.0, if entries == [] then previous else entries[|entries| - 1].0)) + Varint(e.1))
  {
    hide Varint, WrapSub;
    if entries == [] {
      assert ([] + [e])[1..] == [];
    } else {
      assert (entries + [e])[1..] == entries[1..] + [e];
      DeltasSnoc(entries[1..], entries[0].0, e);
    }
  }

  /** Two postings: how many, then each id as the difference to the one before, and its frequency; 297 takes two bytes. */
  lemma PostingExample()
    ensures PostingBytes([(3, 1), (300, 2)]) == [2, 3, 1, 0xA9, 2, 2]
  {
    var entries: seq<Posting> := [(3, 1), (300, 2)];
    assert entries[1..] == [(300, 2)] && entries[1..][1..] == [];
    assert Varint(2) == [2] && Varint(3) == [3] && Varint(1) == [1];
    assert Varint(297) == [0xA9] + Varint(2);
    assert Deltas(entries[1..], 3) == Varint(297) + Varint(2) + [];
  }

  method EncodePostingList(entries: seq<Posting>) returns (output: bytes)
    ensures output == PostingBytes(entries)
  {
    hide Varint, WrapSub;
    ghost var head := Varint(|entries| % 0x1_0000_0000);
    output := EncodeVarint(|entries| % 0x1_0000_0000);
    var previous: u32 := 0;
    DeltasNone(entries);
    assert head + [] == head;
    for i := 0 to |entries|
      invariant output == head + Deltas(entries[..i], 0)
      invariant previous == if i == 0 then 0 else entries[i - 1].0
    {
      var e := entries[i];
      assert entries[..i + 1] == entries[..i] + [e];
      DeltasSnoc(entries[..i], 0, e);
      var d := EncodeVarint(WrapSub(e.0, previous));
      var f := EncodeVarint(e.1);
      assert output + (d + f) == head + (Deltas(entries[..i], 0) + (d + f));
      output := output + (d + f);
      previous := e.0;
    }
    assert entries[..|entries|] == entries;
  }

  lemma DeltasNone(entries: seq<Posting>)
    ensures Deltas(entries[..0], 0) == []
  {
  }

  function ReadPostings(b: bytes, cursor: nat, n: nat, previous: u32): (r: Result<seq<Posting>, PostingsError>)
    ensures r.Ok? ==> |r.value| == n
    decreases n
  {
    if n == 0 then Ok([])
    else match ReadVarint(b, cursor)
      case Err(e) => Err(e)
      case Ok((d, c)) =>
        match ReadVarint(b, c)
        case Err(e) => Err(e)
        case Ok((f, c')) =>
          var id := WrapAdd(previous, d);
          match ReadPostings(b, c', n - 1, id)
          case Err(e) => Err(e)
          case Ok(rest) => Ok([(id, f)] + rest)
  }

  function DecodedPostings(b: bytes): Result<seq<Posting>, PostingsError> {
    match ReadVarint(b, 0)
    case Err(e) => Err(e)
    case Ok((n, c)) => ReadPostings(b, c, n, 0)
  }

  method DecodePostingList(b: bytes) returns (r: Result<seq<Posting>, PostingsError>)
    ensures r == DecodedPostings(b)
  {
    hide ReadVarint, WrapAdd;
    var count := DecodeVarint(b, 0);
    if count.Err? {
      return Err(count.error);
    }
    var cursor, previous: u32, output: seq<Posting> := count.value.1, 0, [];
    BehindNone(ReadPostings(b, cursor, count.value.0, previous));
    for i := 0 to count.value.0
      invariant DecodedPostings(b) == Behind(output, ReadPostings(b, cursor, count.value.0 - i, previous))
    {
      var d := DecodeVarint(b, cursor);
      if d.Err? {
        return Err(d.error);
      }
      var f := DecodeVarint(b, d.value.1);
      if f.Err? {
        return Err(f.error);
      }
      previous := WrapAdd(previous, d.value.0);
      BehindOne(output, (previous, f.value.0), ReadPostings(b, f.value.1, count.value.0 - i - 1, previous));
      output := output + [(previous, f.value.0)];
      cursor := f.value.1;
    }
    assert output + [] == output;
    r := Ok(output);
  }

  lemma BehindNone(rest: Result<seq<Posting>, PostingsError>)
    ensures Behind([], rest) == rest
  {
    if rest.Ok? {
      assert [] + rest.value == rest.value;
    }
  }

  function Behind(done: seq<Posting>, rest: Result<seq<Posting>, PostingsError>): Result<seq<Posting>, PostingsError> {
    if rest.Ok? then Ok(done + rest.value) else rest
  }

  lemma BehindOne(done: seq<Posting>, x: Posting, rest: Result<seq<Posting>, PostingsError>)
    ensures Behind(done + [x], rest) == Behind(done, Behind([x], rest))
  {
    if rest.Ok? {
      assert done + [x] + rest.value == done + ([x] + rest.value);
    }
  }

  lemma WrapsBack(id: u32, previous: u32)
    ensures WrapAdd(previous, WrapSub(id, previous)) == id
  {
  }

  lemma {:induction false} ReadsDeltas(before: bytes, entries: seq<Posting>, previous: u32)
    ensures ReadPostings(before + Deltas(entries, previous), |before|, |entries|, previous) == Ok(entries)
    decreases |entries|
  {
    hide Varint, ReadVarint, WrapAdd, WrapSub;
    if entries != [] {
      var e := entries[0];
      var d, f, rest := Varint(WrapSub(e.0, previous)), Varint(e.1), Deltas(entries[1..], e.0);
      var b := before + Deltas(entries, previous);
      assert b == before + d + (f + rest) == (before + d) + f + rest;
      VarintRoundTrip(before, WrapSub(e.0, previous), f + rest);
      VarintRoundTrip(before + d, e.1, rest);
      WrapsBack(e.0, previous);
      ReadsDeltas(before + d + f, entries[1..], e.0);
      assert entries == [e] + entries[1..];
    }
  }

  /** Lists of any 32-bit ids in any order decode to themselves exactly when their length fits 32 bits. */
  lemma PostingRoundTrip(entries: seq<Posting>)
    ensures DecodedPostings(PostingBytes(entries)) == Ok(entries) <==> |entries| < 0x1_0000_0000
  {
    hide Varint, ReadVarint, Deltas, ReadPostings;
    var n: u32 := |entries| % 0x1_0000_0000;
    var head, tail := Varint(n), Deltas(entries, 0);
    assert [] + head + tail == head + tail;
    VarintRoundTrip([], n, tail);
    if |entries| < 0x1_0000_0000 {
      ReadsDeltas(head, entries, 0);
    }
  }

  // --- records ------------------------------------------------------------------------------

  datatype DecodedRecord = DecodedRecord(term: bytes, documentFrequency: nat, payload: bytes)

  function RecordBody(term: bytes, df: u32, payload: bytes): bytes {
    LE(|term|, 2) + term + (LE(df, 4) + LE(|payload|, 4) + payload)
  }

  function RecordBytes(term: bytes, df: u32, payload: bytes): bytes {
    RecordBody(term, df, payload) + LE(Crc32(RecordBody(term, df, payload)), CRC_LEN)
  }

  function EncodeRecord(term: bytes, df: u32, payload: bytes): Result<bytes, PostingsError> {
    if |term| > 0xFFFF then Err(TermTooLong)
    else if |payload| > 0xFFFF_FFFF then Err(PayloadOutOfBounds)
    else Ok(RecordBytes(term, df, payload))
  }

  /** The checksum first, then lengths against the bounds of the body. */
  function DecodeRecord(b: bytes): Result<DecodedRecord, PostingsError> {
    if |b| < HEADER_LEN + CRC_LEN then Err(RecordTooShort)
    else
      var n := |b| - CRC_LEN;
      if FromLE(b[n..]) != Crc32(b[..n]) then Err(CrcMismatch)
      else
        var t := 2 + FromLE(b[..2]);
        if t + 8 > n then Err(TermOutOfBounds)
        else
          var p := FromLE(b[t + 4..t + 8]);
          if t + 8 + p > n then Err(PayloadOutOfBounds)
          else Ok(DecodedRecord(b[2..t], FromLE(b[t..t + 4]), b[t + 8..t + 8 + p]))
  }

  lemma RecordParts(term: bytes, df: u32, payload: bytes)
    ensures var b, n := RecordBytes(term, df, payload), |RecordBody(term, df, payload)|;
      var t := 2 + |term|;
      && n == t + 8 + |payload| && |b| == n + CRC_LEN
      && b[..n] == RecordBody(term, df, payload) && b[n..] == LE(Crc32(RecordBody(term, df, payload)), CRC_LEN)
      && b[..2] == LE(|term|, 2) && b[2..t] == term
      && b[t..t + 4] == LE(df, 4) && b[t + 4..t + 8] == LE(|payload|, 4) && b[t + 8..t + 8 + |payload|] == payload
  {
    hide LE, Crc32;
    var h, d, p := LE(|term|, 2), LE(df, 4), LE(|payload|, 4);
    var back := d + p + payload;
    var body := h + term + back;
    var c := LE(Crc32(body), CRC_LEN);
    var b, n, t := body + c, |body|, 2 + |term|;
    Parts(h, term, back);
    Parts(d, p, payload);
    assert b[..n] == body && b[n..] == c;
    SliceSlice(b, 0, n, 0, 2);
    SliceSlice(b, 0, n, 2, t);
    SliceSlice(b, 0, n, t, n);
    assert b[t..n] == back;
    SliceSlice(b, t, n, 0, 4);
    SliceSlice(b, t, n, 4, 8);
    SliceSlice(b, t, n, 8, n - t);
  }

  /** A record byte by byte: the term with its length, how many documents, the payload with its length, and the checksum. */
  lemma RecordSaid(term: bytes, df: u32, payload: bytes)
    requires |term| <= 0xFFFF && |payload| <= 0xFFFF_FFFF
    ensures var b := RecordBytes(term, df, payload);
      var t := 2 + |term|;
      var p := t + 8 + |payload|;
      && |b| == p + 4
      && U16At(b, 0) == |term| && b[2..t] == term
      && U32At(b, t) == df && U32At(b, t + 4) == |payload| && b[t + 8..p] == payload
      && U32At(b, p) == Crc32(b[..p])
  {
    hide LE, Crc32, U16At, U32At, RecordBytes, RecordBody;
    var b, t := RecordBytes(term, df, payload), 2 + |term|;
    var p := t + 8 + |payload|;
    RecordParts(term, df, payload);
    assert b[0..2] == b[..2] && b[p..p + 4] == b[p..];
    LittleEndian(b, 0, |term|);
    LittleEndian(b, t, df);
    LittleEndian(b, t + 4, |payload|);
    LittleEndian(b, p, Crc32(b[..p]));
  }

  /** A record decodes to what was encoded. */
  lemma RecordRoundTrip(term: bytes, df: u32, payload: bytes)
    requires |term| <= 0xFFFF && |payload| <= 0xFFFF_FFFF
    ensures DecodeRecord(RecordBytes(term, df, payload)) == Ok(DecodedRecord(term, df, payload))
  {
    hide RecordBytes, LE, FromLE, Crc32;
    Pow256Values();
    RecordParts(term, df, payload);
    FromLEofLE(|term|, 2);
    FromLEofLE(df, 4);
    FromLEofLE(|payload|, 4);
    FromLEofLE(Crc32(RecordBody(term, df, payload)), CRC_LEN);
  }

  // --- the file -----------------------------------------------------------------------------

  datatype PostingEntry = PostingEntry(offset: nat, len: nat, documentFrequency: u32)

  /** What reading an entry of an open file gives. */
  function ReadEntry(file: bytes, e: PostingEntry): Result<seq<Posting>, PostingsError> {
    if e.offset + e.len > |file| then Err(ReadFailed)
    else match DecodeRecord(file[e.offset..e.offset + e.len])
      case Err(x) => Err(x)
      case Ok(record) => DecodedPostings(record.payload)
  }

  method ReadFile(file: bytes, e: PostingEntry) returns (r: Result<seq<Posting>, PostingsError>)
    ensures r == ReadEntry(file, e)
  {
    hide DecodeRecord, DecodedPostings;
    if e.offset + e.len > |file| {
      return Err(ReadFailed);
    }
    var record := DecodeRecord(file[e.offset..e.offset + e.len]);
    if record.Err? {
      return Err(record.error);
    }
    r := DecodePostingList(record.value.payload);
  }

  class PostingsFile {
    var file: Option<bytes>

    constructor (content: bytes)
      ensures file == Some(content)
    {
      file := Some(content);
    }

    method Read(e: PostingEntry) returns (r: Result<seq<Posting>, PostingsError>)
      ensures r == if file.None? then Err(Closed) else ReadEntry(file.value, e)
    {
      if file.None? {
        return Err(Closed);
      }
      r := ReadFile(file.value, e);
    }

    method Close()
      modifies this
      ensures file == None
    {
      file := None;
    }
  }

  /** The list of a term: its last one that is not empty. */
  function ListOf(entries: seq<(bytes, seq<Posting>)>, term: bytes): seq<Posting> {
    if entries == [] then []
    else
      var e := entries[|entries| - 1];
      if e.0 == term && e.1 != [] then e.1 else ListOf(entries[..|entries| - 1], term)
  }

  /** The dictionary has the terms that have a list, and each entry reads its own term's list. */
  ghost predicate DictionaryReads(file: bytes, dictionary: map<bytes, PostingEntry>, entries: seq<(bytes, seq<Posting>)>) {
    forall term ::
      && (term in dictionary <==> ListOf(entries, term) != [])
      && (term in dictionary ==> ReadEntry(file, dictionary[term]) == Ok(ListOf(entries, term)))
  }

  lemma EntryStillReads(file: bytes, more: bytes, e: PostingEntry)
    requires ReadEntry(file, e).Ok?
    ensures ReadEntry(file + more, e) == ReadEntry(file, e)
  {
    hide DecodeRecord, DecodedPostings;
    assert (file + more)[e.offset..e.offset + e.len] == file[e.offset..e.offset + e.len];
  }

  lemma NewEntryReads(file: bytes, term: bytes, postings: seq<Posting>)
    requires |term| <= 0xFFFF && |postings| < 0x1_0000_0000 && |PostingBytes(postings)| <= 0xFFFF_FFFF
    ensures var r := RecordBytes(term, |postings|, PostingBytes(postings));
      ReadEntry(file + r, PostingEntry(|file|, |r|, |postings|)) == Ok(postings)
  {
    hide DecodeRecord, DecodedPostings, PostingBytes, RecordBytes;
    var r := RecordBytes(term, |postings|, PostingBytes(postings));
    assert (file + r)[|file|..|file| + |r|] == r;
    RecordRoundTrip(term, |postings|, PostingBytes(postings));
    PostingRoundTrip(postings);
  }

  lemma DictionaryStep(file: bytes, dictionary: map<bytes, PostingEntry>, entries: seq<(bytes, seq<Posting>)>, e: (bytes, seq<Posting>))
    requires DictionaryReads(file, dictionary, entries) && e.1 != []
    requires |e.0| <= 0xFFFF && |e.1| < 0x1_0000_0000 && |PostingBytes(e.1)| <= 0xFFFF_FFFF
    ensures var r := RecordBytes(e.0, |e.1|, PostingBytes(e.1));
      DictionaryReads(file + r, dictionary[e.0 := PostingEntry(|file|, |r|, |e.1|)], entries + [e])
  {
    hide ReadEntry, RecordBytes, PostingBytes;
    var r := RecordBytes(e.0, |e.1|, PostingBytes(e.1));
    var all := entries + [e];
    assert all[..|entries|] == entries;
    NewEntryReads(file, e.0, e.1);
    forall term | term in dictionary && term != e.0
      ensures ReadEntry(file + r, dictionary[term]) == Ok(ListOf(all, term))
    {
      EntryStillReads(file, r, dictionary[term]);
    }
  }

  /** Writes one record per non-empty list, one behind another. */
  method Rebuild(entries: seq<(bytes, seq<Posting>)>) returns (r: Result<(bytes, map<bytes, PostingEntry>), PostingsError>)
    requires forall e :: e in entries ==> |e.1| < 0x1_0000_0000
    ensures r.Ok? ==> DictionaryReads(r.value.0, r.value.1, entries)
    ensures r.Err? ==> exists e :: e in entries && e.1 != [] && (|e.0| > 0xFFFF || |PostingBytes(e.1)| > 0xFFFF_FFFF)
  {
    hide ReadEntry, RecordBytes, PostingBytes;
    var file: bytes, dictionary: map<bytes, PostingEntry> := [], map[];
    assert entries[..0] == [];
    for i := 0 to |entries|
      invariant DictionaryReads(file, dictionary, entries[..i])
    {
      var e := entries[i];
      assert entries[..i + 1] == entries[..i] + [e] && e in entries;
      if e.1 == [] {
        assert entries[..i + 1][..i] == entries[..i];
        continue;
      }
      var payload := EncodePostingList(e.1);
      var record := EncodeRecord(e.0, |e.1|, payload);
      if record.Err? {
        return Err(record.error);
      }
      DictionaryStep(file, dictionary, entries[..i], e);
      dictionary := dictionary[e.0 := PostingEntry(|file|, |record.value|, |e.1|)];
      file := file + record.value;
    }
    assert entries[..|entries|] == entries;
    r := Ok((file, dictionary));
  }
}
