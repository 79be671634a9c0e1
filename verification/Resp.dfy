/** The request parser of `server.rs`: the Redis serialization protocol's arrays, bulk strings and inline commands. */
module Resp {
  import opened Wrappers
  import opened Bytes
  import opened Frames

  const CRLF: bytes := [13, 10]
  const STAR: byte := 42
  const DOLLAR: byte := 36
  const PLUS: byte := 43
  const MAX_USIZE: nat := 0xFFFF_FFFF_FFFF_FFFF

  type Command = seq<bytes>

  datatype ServerError = RequestTooLarge(limit: nat) | InvalidRequest

  datatype Parsed = Nothing | Invalid | Complete(command: Command, consumed: nat)

  // --- pieces -------------------------------------------------------------------------------

  /** The first carriage return and line feed from `start` on. */
  function FindCrlf(b: bytes, start: nat): (r: Option<nat>)
    ensures r.Some? ==> start <= r.value && r.value + 2 <= |b| && b[r.value] == 13 && b[r.value + 1] == 10
    ensures forall i :: start <= i && i + 2 <= |b| && (r.Some? ==> i < r.value) ==> !(b[i] == 13 && b[i + 1] == 10)
    decreases |b| - start
  {
    if start + 2 > |b| then None
    else if b[start] == 13 && b[start + 1] == 10 then Some(start)
    else FindCrlf(b, start + 1)
  }

  predicate IsDigit(c: byte) {
    48 <= c <= 57
  }

  function ValueOf(b: bytes): nat
    requires forall c :: c in b ==> IsDigit(c)
  {
    if b == [] then 0
    else
      assert b[|b| - 1] in b && IsDigit(b[|b| - 1]);
      var c: int := b[|b| - 1];
      ValueOf(b[..|b| - 1]) * 10 + (c - 48)
  }

  /** A decimal number that fits; one plus sign in front is taken. */
  function ParseUsize(b: bytes): Option<nat> {
    var digits := if b != [] && b[0] == PLUS then b[1..] else b;
    if digits == [] || exists c :: c in digits && !IsDigit(c) then None
    else if ValueOf(digits) > MAX_USIZE then None
    else Some(ValueOf(digits))
  }

  function Digits(n: nat): (b: bytes)
    ensures b != [] && forall c :: c in b ==> IsDigit(c)
  {
    if n < 10 then [48 + n] else Digits(n / 10) + [48 + n % 10]
  }

  lemma {:induction false} ValueOfDigits(n: nat)
    ensures ValueOf(Digits(n)) == n
  {
    if n >= 10 {
      ValueOfDigits(n / 10);
      assert Digits(n)[..|Digits(n)| - 1] == Digits(n / 10);
    }
  }

  lemma ParsesDigits(n: nat)
    requires n <= MAX_USIZE
    ensures ParseUsize(Digits(n)) == Some(n)
  {
    ValueOfDigits(n);
    assert Digits(n)[0] in Digits(n);
  }

  // --- decimal numbers ------------------------------------------------------------------------

  function PowerOfTen(k: nat): nat {
    if k == 0 then 1 else 10 * PowerOfTen(k - 1)
  }

  /** Each digit times its power of ten, from the first one on. */
  function DigitSum(b: bytes): int {
    if b == [] then 0 else (b[0] - 48) * PowerOfTen(|b| - 1) + DigitSum(b[1..])
  }

  lemma {:induction false} DigitSumSnoc(b: bytes, c: byte)
    ensures DigitSum(b + [c]) == DigitSum(b) * 10 + (c - 48)
  {
    if b == [] {
      assert ([] + [c])[1..] == [];
    } else {
      assert (b + [c])[1..] == b[1..] + [c];
      DigitSumSnoc(b[1..], c);
      assert PowerOfTen(|b|) == 10 * PowerOfTen(|b| - 1);
    }
  }

  lemma {:induction false} ValueIsDecimal(b: bytes)
    requires forall c :: c in b ==> IsDigit(c)
    ensures ValueOf(b) == DigitSum(b)
  {
    if b != [] {
      var n := |b| - 1;
      assert b == b[..n] + [b[n]];
      ValueIsDecimal(b[..n]);
      DigitSumSnoc(b[..n], b[n]);
    }
  }

  /** A number parses if it is decimal digits, one plus sign in front allowed, and fits 64 bits. */
  lemma ParsesDecimal(b: bytes)
    ensures var digits := if b != [] && b[0] == 43 then b[1..] else b;
      ParseUsize(b) ==
        if digits != [] && (forall c :: c in digits ==> 48 <= c <= 57) && DigitSum(digits) < 0x1_0000_0000_0000_0000
        then Some(DigitSum(digits)) else None
  {
    hide ValueOf;
    var digits := if b != [] && b[0] == 43 then b[1..] else b;
    if forall c :: c in digits ==> IsDigit(c) {
      ValueIsDecimal(digits);
    }
  }

  /** A number is printed in decimal digits, without a zero in front. */
  lemma {:induction false} PrintsDecimal(n: nat)
    ensures DigitSum(Digits(n)) == n && (n > 0 ==> Digits(n)[0] != 48) && (n == 0 ==> Digits(n) == [48])
  {
    ValueOfDigits(n);
    ValueIsDecimal(Digits(n));
    if n >= 10 {
      PrintsDecimal(n / 10);
    }
  }

  // --- parsing ------------------------------------------------------------------------------

  datatype BulkRead = NoBulk | BadBulk | Got(value: bytes, end: nat)

  /** The bulk string at a position. */
  function ReadBulk(b: bytes, position: nat): (r: BulkRead)
    ensures r.Got? ==> position < r.end <= |b|
  {
    if position >= |b| || b[position] != DOLLAR then NoBulk
    else match FindCrlf(b, position + 1)
      case None => NoBulk
      case Some(end) =>
        match ParseUsize(b[position + 1..end])
        case None => BadBulk
        case Some(length) => ReadPayload(b, end + 2, length)
  }

  function ReadPayload(b: bytes, start: nat, length: nat): (r: BulkRead)
    ensures r.Got? ==> start < r.end <= |b|
  {
    if start + length > MAX_USIZE then BadBulk
    else if start + length + 2 > |b| then NoBulk
    else if b[start + length..start + length + 2] != CRLF then BadBulk
    else Got(b[start..start + length], start + length + 2)
  }

  datatype Args = NoArgs | BadArgs | Args(args: seq<bytes>, end: nat)

  /** What the bulk strings from `position` on come to. */
  function ParseArgs(b: bytes, position: nat, n: nat): (r: Args)
    ensures r.Args? ==> position <= r.end && |r.args| == n
    decreases n
  {
    if n == 0 then Args([], position)
    else match ReadBulk(b, position)
      case NoBulk => NoArgs
      case BadBulk => BadArgs
      case Got(x, end) => WithFront([x], ParseArgs(b, end, n - 1))
  }

  predicate IsSpace(c: byte) {
    c == 32 || c == 9 || c == 10 || c == 12 || c == 13
  }

  /** The words between white space. */
  function Words(b: bytes): seq<bytes> {
    if b == [] then []
    else
      var n := |b| - 1;
      if IsSpace(b[n]) then Words(b[..n])
      else if n == 0 || IsSpace(b[n - 1]) then Words(b[..n]) + [[b[n]]]
      else
        var w := Words(b[..n]);
        if w == [] then [[b[n]]] else w[|w| - 1 := w[|w| - 1] + [b[n]]]
  }

  /** A line that does not start with a star is an inline command. */
  function Parse(b: bytes): Parsed {
    if b == [] then Nothing
    else if b[0] != STAR then
      match FindCrlf(b, 0)
      case None => Nothing
      case Some(end) => Complete(Words(b[..end]), end + 2)
    else match FindCrlf(b, 1)
      case None => Nothing
      case Some(end) =>
        match ParseUsize(b[1..end])
        case None => Invalid
        case Some(count) =>
          match ParseArgs(b, end + 2, count)
          case NoArgs => Nothing
          case BadArgs => Invalid
          case Args(args, e) => Complete(args, e)
  }

  function WithFront(front: seq<bytes>, r: Args): Args {
    if r.Args? then Args(front + r.args, r.end) else r
  }

  lemma FrontFront(front: seq<bytes>, x: bytes, r: Args)
    ensures WithFront(front + [x], r) == WithFront(front, WithFront([x], r))
  {
    if r.Args? {
      assert front + [x] + r.args == front + ([x] + r.args);
    }
  }

  /** `parse_one`. */
  method ParseOne(b: bytes) returns (r: Parsed)
    ensures r == Parse(b)
  {
    hide FindCrlf, ParseUsize, Words, ReadBulk;
    if b == [] {
      return Nothing;
    }
    if b[0] != STAR {
      var end := FindCrlf(b, 0);
      if end.None? {
        return Nothing;
      }
      return Complete(Words(b[..end.value]), end.value + 2);
    }
    var end := FindCrlf(b, 1);
    if end.None? {
      return Nothing;
    }
    var count := ParseUsize(b[1..end.value]);
    if count.None? {
      return Invalid;
    }
    r := ParseBulks(b, end.value + 2, count.value);
  }

  /** The loop over the announced number of bulk strings. */
  method ParseBulks(b: bytes, start: nat, count: nat) returns (r: Parsed)
    ensures r == match ParseArgs(b, start, count)
      case NoArgs => Nothing
      case BadArgs => Invalid
      case Args(args, e) => Complete(args, e)
  {
    hide ReadBulk;
    var position: nat, command: seq<bytes> := start, [];
    FrontNone(ParseArgs(b, start, count));
    for i := 0 to count
      invariant ParseArgs(b, start, count) == WithFront(command, ParseArgs(b, position, count - i))
    {
      var next := ReadBulk(b, position);
      if next.NoBulk? {
        return Nothing;
      }
      if next.BadBulk? {
        return Invalid;
      }
      FrontFront(command, next.value, ParseArgs(b, next.end, count - i - 1));
      command := command + [next.value];
      position := next.end;
    }
    assert command + [] == command;
    r := Complete(command, position);
  }

  lemma FrontNone(r: Args)
    ensures WithFront([], r) == r
  {
    if r.Args? {
      assert [] + r.args == r.args;
    }
  }

  // --- trailing bytes -----------------------------------------------------------------------

  lemma {:induction false} FindStable(b: bytes, more: bytes, start: nat)
    requires FindCrlf(b, start).Some?
    ensures FindCrlf(b + more, start) == FindCrlf(b, start)
    decreases |b| - start
  {
    if !(b[start] == 13 && b[start + 1] == 10) {
      FindStable(b, more, start + 1);
    }
  }

  lemma FrontSlice(b: bytes, more: bytes, i: nat, j: nat)
    requires i <= j <= |b|
    ensures (b + more)[i..j] == b[i..j]
  {
  }

  lemma PayloadStable(b: bytes, more: bytes, start: nat, length: nat)
    requires !ReadPayload(b, start, length).NoBulk?
    ensures ReadPayload(b + more, start, length) == ReadPayload(b, start, length)
  {
    if start + length <= MAX_USIZE {
      FrontSlice(b, more, start + length, start + length + 2);
      FrontSlice(b, more, start, start + length);
    }
  }

  lemma BulkStable(b: bytes, more: bytes, position: nat)
    requires !ReadBulk(b, position).NoBulk?
    ensures ReadBulk(b + more, position) == ReadBulk(b, position)
  {
    hide FindCrlf, ParseUsize, ReadPayload;
    FindStable(b, more, position + 1);
    var end := FindCrlf(b, position + 1).value;
    FrontSlice(b, more, position + 1, end);
    var length := ParseUsize(b[position + 1..end]);
    if length.Some? {
      PayloadStable(b, more, end + 2, length.value);
    }
  }

  lemma {:induction false} ArgsStable(b: bytes, more: bytes, position: nat, n: nat)
    requires !ParseArgs(b, position, n).NoArgs?
    ensures ParseArgs(b + more, position, n) == ParseArgs(b, position, n)
    decreases n
  {
    hide ReadBulk;
    if n > 0 {
      BulkStable(b, more, position);
      if ReadBulk(b, position).Got? {
        ArgsStable(b, more, ReadBulk(b, position).end, n - 1);
      }
    }
  }

  /** Once a parse has come to something, further bytes never change it. */
  lemma TrailingBytes(b: bytes, more: bytes)
    requires Parse(b) != Nothing
    ensures Parse(b + more) == Parse(b)
  {
    hide FindCrlf, ParseUsize, Words, ParseArgs;
    if b[0] != STAR {
      FindStable(b, more, 0);
      FrontSlice(b, more, 0, FindCrlf(b, 0).value);
    } else {
      FindStable(b, more, 1);
      var end := FindCrlf(b, 1).value;
      FrontSlice(b, more, 1, end);
      var count := ParseUsize(b[1..end]);
      if count.Some? {
        ArgsStable(b, more, end + 2, count.value);
      }
    }
  }

  // --- printing -----------------------------------------------------------------------------

  function Bulk(value: Option<bytes>): bytes {
    if value.None? then [DOLLAR, 45, 49] + CRLF
    else [DOLLAR] + Digits(|value.value|) + CRLF + value.value + CRLF
  }

  function Bulks(values: seq<Option<bytes>>): bytes {
    if values == [] then [] else Bulks(values[..|values| - 1]) + Bulk(values[|values| - 1])
  }

  /** An array of bulk strings. */
  method Array(values: seq<Option<bytes>>) returns (output: bytes)
    ensures output == [STAR] + Digits(|values|) + CRLF + Bulks(values)
  {
    hide Digits, Bulk;
    ghost var head := [STAR] + Digits(|values|) + CRLF;
    output := [STAR] + Digits(|values|) + CRLF;
    assert values[..0] == [] && head + [] == head;
    for i := 0 to |values|
      invariant output == head + Bulks(values[..i])
    {
      assert values[..i + 1][..i] == values[..i];
      assert output + Bulk(values[i]) == head + (Bulks(values[..i]) + Bulk(values[i]));
      output := output + Bulk(values[i]);
    }
    assert values[..|values|] == values;
  }

  function Present(args: seq<bytes>): (r: seq<Option<bytes>>)
    ensures |r| == |args| && forall i :: 0 <= i < |args| ==> r[i] == Some(args[i])
  {
    if args == [] then [] else [Some(args[0])] + Present(args[1..])
  }

  /** The bulk strings of arguments, first one first. */
  function ArgBytes(args: seq<bytes>): bytes {
    if args == [] then [] else Bulk(Some(args[0])) + ArgBytes(args[1..])
  }

  lemma {:induction false} ArgBytesSnoc(args: seq<bytes>, x: bytes)
    ensures ArgBytes(args + [x]) == ArgBytes(args) + Bulk(Some(x))
  {
    hide Bulk;
    if args == [] {
      assert ([] + [x])[1..] == [];
      assert Bulk(Some(x)) + [] == Bulk(Some(x));
    } else {
      assert (args + [x])[1..] == args[1..] + [x];
      ArgBytesSnoc(args[1..], x);
    }
  }

  lemma {:induction false} BulksAreArgBytes(args: seq<bytes>)
    ensures Bulks(Present(args)) == ArgBytes(args)
    decreases |args|
  {
    hide Bulk;
    if args != [] {
      var n := |args| - 1;
      assert args == args[..n] + [args[n]];
      assert Present(args)[..n] == Present(args[..n]);
      BulksAreArgBytes(args[..n]);
      ArgBytesSnoc(args[..n], args[n]);
    }
  }

  /** A command as an array of bulk strings. */
  function Printed(c: Command): bytes {
    [STAR] + Digits(|c|) + CRLF + ArgBytes(c)
  }

  lemma PrintedIsArray(c: Command)
    ensures Printed(c) == [STAR] + Digits(|Present(c)|) + CRLF + Bulks(Present(c))
  {
    BulksAreArgBytes(c);
  }

  // --- round trip ---------------------------------------------------------------------------

  /** A line without a carriage return ends at its own line end. */
  lemma {:induction false} FindAfterLine(before: bytes, line: bytes, rest: bytes)
    requires 13 !in line
    ensures FindCrlf(before + line + CRLF + rest, |before|) == Some(|before| + |line|)
    decreases |line|
  {
    var b := before + line + CRLF + rest;
    if line != [] {
      assert b[|before|] == line[0] && line[0] in line;
      assert b == (before + [line[0]]) + line[1..] + CRLF + rest;
      FindAfterLine(before + [line[0]], line[1..], rest);
    } else {
      assert b[|before|] == 13 && b[|before| + 1] == 10;
    }
  }

  lemma FindAfterDigits(before: bytes, digits: bytes, rest: bytes)
    requires forall c :: c in digits ==> IsDigit(c)
    ensures FindCrlf(before + digits + CRLF + rest, |before|) == Some(|before| + |digits|)
  {
    hide FindCrlf;
    FindAfterLine(before, digits, rest);
  }

  lemma {:induction false} FindInTorn(before: bytes, digits: bytes, k: nat)
    requires (forall c :: c in digits ==> IsDigit(c)) && k < |digits| + 2
    ensures FindCrlf(before + (digits + CRLF)[..k], |before|) == None
    decreases |digits|
  {
    var b := before + (digits + CRLF)[..k];
    if digits != [] && k >= 2 {
      assert b[|before|] == digits[0] && digits[0] in digits;
      assert b == (before + [digits[0]]) + (digits[1..] + CRLF)[..k - 1];
      FindInTorn(before + [digits[0]], digits[1..], k - 1);
    }
  }

  lemma Middle(a: bytes, m: bytes, c: bytes)
    ensures (a + m + c)[|a|..|a| + |m|] == m && (a + m + c)[|a| + |m|..] == c
  {
  }

  /** A line of digits between a front and a rest. */
  lemma ReadsNumber(front: bytes, n: nat, rest: bytes)
    requires n <= MAX_USIZE
    ensures var b := front + Digits(n) + CRLF + rest;
      var line := |front| + |Digits(n)|;
      FindCrlf(b, |front|) == Some(line) && |front| <= line <= |b| && b[|front|..line] == Digits(n) && ParseUsize(b[|front|..line]) == Some(n)
  {
    hide *;
    DigitsAre(n);
    FindAfterDigits(front, Digits(n), rest);
    ParsesDigits(n);
    MiddleOf(front, Digits(n), CRLF, rest);
  }

  lemma MiddleOf(a: bytes, m: bytes, c: bytes, d: bytes)
    ensures |a| + |m| <= |a + m + c + d| && (a + m + c + d)[|a|..|a| + |m|] == m
    ensures a != [] ==> (a + m + c + d)[|a| - 1] == a[|a| - 1]
  {
  }

  /** A length line behind a dollar sign. */
  lemma ReadsLength(before: bytes, n: nat, rest: bytes)
    requires n <= MAX_USIZE
    ensures var b := before + [DOLLAR] + Digits(n) + CRLF + rest;
      var line := |before| + 1 + |Digits(n)|;
      && |before| < |b| && line <= |b|
      && b[|before|] == DOLLAR && FindCrlf(b, |before| + 1) == Some(line) && ParseUsize(b[|before| + 1..line]) == Some(n)
  {
    hide *;
    var front := before + [DOLLAR];
    assert |front| == |before| + 1 && front[|before|] == DOLLAR;
    ReadsNumber(front, n, rest);
    MiddleOf(front, Digits(n), CRLF, rest);
  }

  lemma DigitsAre(n: nat)
    ensures forall c :: c in Digits(n) ==> IsDigit(c)
  {
  }

  lemma Regroup(a: bytes, b: bytes, c: bytes, d: bytes)
    ensures a + b + c + d == a + b + (c + d) == a + (b + (c + d))
  {
  }

  /** One bulk string, and where the next begins. */
  lemma ReadsBulk(before: bytes, x: bytes, rest: bytes)
    requires |before + Bulk(Some(x)) + rest| <= MAX_USIZE
    ensures ReadBulk(before + Bulk(Some(x)) + rest, |before|) == Got(x, |before| + |Bulk(Some(x))|)
  {
    hide *;
    var d, tail := Digits(|x|), x + CRLF + rest;
    var b, head := before + [DOLLAR] + d + CRLF + tail, before + [DOLLAR] + d + CRLF;
    BulkIs(before, x, rest);
    CrlfLength();
    ReadsLength(before, |x|, tail);
    assert b == head + tail;
    Regroup(head, x, CRLF, rest);
    assert x + CRLF + rest == x + (CRLF + rest);
    Middle(head, x, CRLF + rest);
    Middle(head + x, CRLF, rest);
    ReadsPayload(b, |head|, x);
    assert |head| == |before| + 1 + |d| + 2;
    ReadBulkIs(b, |before|, |before| + 1 + |d|, |x|);
  }

  lemma CrlfLength()
    ensures |CRLF| == 2
  {
  }

  lemma BulkIs(before: bytes, x: bytes, rest: bytes)
    ensures before + Bulk(Some(x)) + rest == before + [DOLLAR] + Digits(|x|) + CRLF + (x + CRLF + rest)
    ensures |Bulk(Some(x))| == 1 + |Digits(|x|)| + 2 + |x| + 2
  {
    hide Digits;
  }

  lemma ReadBulkIs(b: bytes, position: nat, line: nat, length: nat)
    requires position < |b| && b[position] == DOLLAR && FindCrlf(b, position + 1) == Some(line) && position + 1 <= line <= |b|
    requires ParseUsize(b[position + 1..line]) == Some(length)
    ensures ReadBulk(b, position) == ReadPayload(b, line + 2, length)
  {
    hide FindCrlf, ParseUsize, ReadPayload;
  }

  lemma ReadsPayload(b: bytes, start: nat, x: bytes)
    requires |b| <= MAX_USIZE && start + |x| + 2 <= |b|
    requires b[start..start + |x|] == x && b[start + |x|..start + |x| + 2] == CRLF
    ensures ReadPayload(b, start, |x|) == Got(x, start + |x| + 2)
  {
  }

  lemma {:induction false} ReadsArgs(before: bytes, args: seq<bytes>, rest: bytes)
    requires |before + ArgBytes(args) + rest| <= MAX_USIZE
    ensures ParseArgs(before + ArgBytes(args) + rest, |before|, |args|) == Args(args, |before| + |ArgBytes(args)|)
    decreases |args|
  {
    hide Bulk, ReadBulk;
    if args != [] {
      var x, tail := args[0], ArgBytes(args[1..]);
      var b, front := before + ArgBytes(args) + rest, before + Bulk(Some(x));
      assert b == before + Bulk(Some(x)) + (tail + rest) == front + tail + rest;
      ReadsBulk(before, x, tail + rest);
      ReadsArgs(front, args[1..], rest);
      assert args == [x] + args[1..];
    }
  }

  /** A printed command parses to itself, whatever follows. */
  lemma CommandRoundTrip(c: Command, rest: bytes)
    requires |Printed(c) + rest| <= MAX_USIZE
    ensures Parse(Printed(c) + rest) == Complete(c, |Printed(c)|)
  {
    hide Bulk, FindCrlf, ParseUsize, Digits, ParseArgs, ArgBytes;
    var d, b := Digits(|c|), Printed(c) + rest;
    var head := [STAR] + d + CRLF;
    CountFits(c, rest);
    assert b == [STAR] + d + CRLF + (ArgBytes(c) + rest);
    FindAfterDigits([STAR], d, ArgBytes(c) + rest);
    assert b[1..1 + |d|] == d;
    ParsesDigits(|c|);
    assert b == head + ArgBytes(c) + rest;
    ReadsArgs(head, c, rest);
  }

  lemma {:induction false} CountBelowBytes(args: seq<bytes>)
    ensures |args| <= |ArgBytes(args)|
  {
    if args != [] {
      CountBelowBytes(args[1..]);
    }
  }

  lemma CountFits(c: Command, rest: bytes)
    requires |Printed(c) + rest| <= MAX_USIZE
    ensures |c| <= MAX_USIZE
  {
    CountBelowBytes(c);
  }

  lemma TornBulk(before: bytes, x: bytes, k: nat)
    requires k < |Bulk(Some(x))| && |before| + |Bulk(Some(x))| <= MAX_USIZE
    ensures ReadBulk(before + Bulk(Some(x))[..k], |before|) == NoBulk
  {
    hide *;
    CrlfLength();
    BulkLine(x);
    var line := [DOLLAR] + Digits(|x|) + CRLF;
    if k < |line| {
      TornLine(before, x, k);
    } else {
      TornBehindLine(before, x, k);
    }
  }

  lemma BulkLine(x: bytes)
    ensures Bulk(Some(x)) == [DOLLAR] + Digits(|x|) + CRLF + (x + CRLF)
  {
    hide Digits;
  }

  lemma TornLine(before: bytes, x: bytes, k: nat)
    requires k < |[DOLLAR] + Digits(|x|) + CRLF|
    ensures k <= |Bulk(Some(x))| && ReadBulk(before + Bulk(Some(x))[..k], |before|) == NoBulk
  {
    hide *;
    CrlfLength();
    BulkLine(x);
    var d, line := Digits(|x|), [DOLLAR] + Digits(|x|) + CRLF;
    assert Bulk(Some(x))[..k] == line[..k];
    var b := before + line[..k];
    if k == 0 {
      assert b == before;
      NoBulkAtEnd(b);
    } else {
      var front := before + [DOLLAR];
      assert line == [DOLLAR] + (d + CRLF);
      assert line[..k] == [DOLLAR] + (d + CRLF)[..k - 1];
      assert b == front + (d + CRLF)[..k - 1];
      DigitsAre(|x|);
      FindInTorn(front, d, k - 1);
      NoBulkInLine(b, |before|);
    }
  }

  lemma TornBehindLine(before: bytes, x: bytes, k: nat)
    requires |[DOLLAR] + Digits(|x|) + CRLF| <= k < |Bulk(Some(x))| && |before| + |Bulk(Some(x))| <= MAX_USIZE
    ensures ReadBulk(before + Bulk(Some(x))[..k], |before|) == NoBulk
  {
    hide *;
    CrlfLength();
    BulkLine(x);
    var d, line := Digits(|x|), [DOLLAR] + Digits(|x|) + CRLF;
    var rest := (x + CRLF)[..k - |line|];
    assert Bulk(Some(x))[..k] == line + rest;
    var b := before + [DOLLAR] + d + CRLF + rest;
    assert before + (line + rest) == b;
    ReadsLength(before, |x|, rest);
    ReadBulkIs(b, |before|, |before| + 1 + |d|, |x|);
    TornPayload(b, |before| + |line|, |x|);
  }

  lemma NoBulkAtEnd(b: bytes)
    ensures ReadBulk(b, |b|) == NoBulk
  {
  }

  lemma NoBulkInLine(b: bytes, position: nat)
    requires FindCrlf(b, position + 1) == None
    ensures ReadBulk(b, position) == NoBulk
  {
    hide FindCrlf;
  }

  lemma TornPayload(b: bytes, start: nat, length: nat)
    requires |b| < start + length + 2 && start + length <= MAX_USIZE
    ensures ReadPayload(b, start, length) == NoBulk
  {
  }

  lemma {:induction false} TornArgs(before: bytes, args: seq<bytes>, k: nat)
    requires k < |ArgBytes(args)| && |before| + |ArgBytes(args)| <= MAX_USIZE
    ensures ParseArgs(before + ArgBytes(args)[..k], |before|, |args|) == NoArgs
    decreases |args|
  {
    hide Bulk, ReadBulk;
    var x, tail := args[0], ArgBytes(args[1..]);
    var n := |Bulk(Some(x))|;
    var b := before + ArgBytes(args)[..k];
    if k < n {
      assert b == before + Bulk(Some(x))[..k];
      TornBulk(before, x, k);
    } else {
      var front, rest := before + Bulk(Some(x)), tail[..k - n];
      assert b == before + Bulk(Some(x)) + rest == front + rest;
      ReadsBulk(before, x, rest);
      TornArgs(front, args[1..], k - n);
    }
  }

  /** No strict prefix of a printed command parses to anything. */
  lemma TornCommand(c: Command, k: nat)
    requires k < |Printed(c)| <= MAX_USIZE
    ensures Parse(Printed(c)[..k]) == Nothing
  {
    hide Bulk, FindCrlf, ParseUsize, Digits, ParseArgs, ArgBytes;
    var d, b := Digits(|c|), Printed(c)[..k];
    var head := [STAR] + d + CRLF;
    if 0 < k < |head| {
      assert b == [STAR] + (d + CRLF)[..k - 1];
      FindInTorn([STAR], d, k - 1);
    } else if k >= |head| {
      var rest := ArgBytes(c)[..k - |head|];
      assert b == [STAR] + d + CRLF + rest == head + rest;
      FindAfterDigits([STAR], d, rest);
      assert b[1..1 + |d|] == d;
      assert Printed(c) + [] == Printed(c);
      CountFits(c, []);
      ParsesDigits(|c|);
      TornArgs(head, c, k - |head|);
    }
  }

  // --- inline commands ------------------------------------------------------------------------

  predicate IsWord(w: bytes) {
    w != [] && forall c :: c in w ==> !IsSpace(c)
  }

  ghost predicate AllWords(ws: seq<bytes>) {
    forall i :: 0 <= i < |ws| ==> IsWord(ws[i])
  }

  /** A character that is no space begins a word or lengthens the last one. */
  lemma WordsThenCharacter(b: bytes, c: byte)
    requires !IsSpace(c)
    ensures b == [] || IsSpace(b[|b| - 1]) ==> Words(b + [c]) == Words(b) + [[c]]
    ensures b != [] && !IsSpace(b[|b| - 1]) && Words(b) != [] ==>
      Words(b + [c]) == Words(b)[..|Words(b)| - 1] + [Words(b)[|Words(b)| - 1] + [c]]
  {
    hide IsSpace;
    assert (b + [c])[..|b|] == b;
  }

  lemma {:induction false} WordsThenWord(front: bytes, w: bytes)
    requires IsWord(w) && (front == [] || IsSpace(front[|front| - 1]))
    ensures Words(front + w) == Words(front) + [w]
    decreases |w|
  {
    hide Words, IsSpace;
    var n := |w| - 1;
    assert w[n] in w;
    if n == 0 {
      WordsThenCharacter(front, w[0]);
      assert w == [w[0]];
    } else {
      var before := front + w[..n];
      assert w[n - 1] in w && before[|before| - 1] == w[n - 1];
      assert forall c :: c in w[..n] ==> c in w;
      WordsThenWord(front, w[..n]);
      WordsThenCharacter(before, w[n]);
      assert w == w[..n] + [w[n]] && front + w == before + [w[n]];
    }
  }

  lemma WordsThenSpace(front: bytes, s: byte)
    requires IsSpace(s)
    ensures Words(front + [s]) == Words(front)
  {
    assert (front + [s])[..|front|] == front;
  }

  /** Words with one space between them. */
  function Line(ws: seq<bytes>): bytes {
    if ws == [] then []
    else if |ws| == 1 then ws[0]
    else Line(ws[..|ws| - 1]) + [32] + ws[|ws| - 1]
  }

  lemma {:induction false} WordsOfLine(ws: seq<bytes>)
    requires AllWords(ws)
    ensures Words(Line(ws)) == ws && 13 !in Line(ws)
  {
    hide Words;
    if ws == [] {
      NoWords();
    } else if |ws| == 1 {
      assert [] + ws[0] == ws[0];
      NoWords();
      WordsThenWord([], ws[0]);
    } else {
      var n := |ws| - 1;
      WordsOfLine(ws[..n]);
      WordsThenSpace(Line(ws[..n]), 32);
      WordsThenWord(Line(ws[..n]) + [32], ws[n]);
    }
  }

  lemma NoWords()
    ensures Words([]) == []
  {
  }

  /** An inline command, its words one space apart, parses to its words, whatever follows. */
  lemma InlineRoundTrip(ws: seq<bytes>, rest: bytes)
    requires AllWords(ws) && (ws != [] ==> ws[0][0] != STAR)
    ensures Parse(Line(ws) + CRLF + rest) == Complete(ws, |Line(ws)| + 2)
  {
    hide Words, FindCrlf, ParseUsize, ParseArgs, Line;
    var b := Line(ws) + CRLF + rest;
    WordsOfLine(ws);
    LineStart(ws);
    assert [] + Line(ws) + CRLF + rest == b;
    FindAfterLine([], Line(ws), rest);
    assert b[..|Line(ws)|] == Line(ws);
  }

  lemma {:induction false} LineStart(ws: seq<bytes>)
    requires AllWords(ws)
    ensures ws == [] ==> Line(ws) == []
    ensures ws != [] ==> Line(ws) != [] && Line(ws)[0] == ws[0][0]
  {
    if |ws| > 1 {
      LineStart(ws[..|ws| - 1]);
    }
  }

  // --- what a request looks like ------------------------------------------------------------------

  /** Arguments, each behind a line with its length. */
  function Lined(lengths: seq<bytes>, args: seq<bytes>): bytes
    requires |lengths| == |args|
  {
    if args == [] then [] else [36] + lengths[0] + [13, 10] + args[0] + [13, 10] + Lined(lengths[1..], args[1..])
  }

  ghost predicate Lengths(lengths: seq<bytes>, args: seq<bytes>) {
    |lengths| == |args| && forall i :: 0 <= i < |args| ==> ParseUsize(lengths[i]) == Some(|args[i]|)
  }

  /** A bulk string that is read lies there as a dollar sign, its length, the line end, as many bytes and a line end. */
  lemma BulkLies(b: bytes, position: nat) returns (length: bytes)
    requires ReadBulk(b, position).Got?
    ensures var (x, end) := (ReadBulk(b, position).value, ReadBulk(b, position).end);
      position <= end <= |b| && b[position..end] == [36] + length + [13, 10] + x + [13, 10] && ParseUsize(length) == Some(|x|)
  {
    hide FindCrlf, ParseUsize, ReadPayload;
    LineEnds(b, position + 1);
    var line := FindCrlf(b, position + 1).value;
    length := b[position + 1..line];
    PayloadLies(b, line + 2, ParseUsize(length).value);
    var end := ReadBulk(b, position).end;
    SplitAt(b, position, line + 2, end);
    LineSplits(b, position, line);
  }

  lemma PayloadLies(b: bytes, start: nat, length: nat)
    requires ReadPayload(b, start, length).Got?
    ensures var (x, end) := (ReadPayload(b, start, length).value, ReadPayload(b, start, length).end);
      |x| == length && start <= end <= |b| && b[start..end] == x + [13, 10]
  {
    SplitAt(b, start, start + length, start + length + 2);
  }

  lemma SplitAt(b: bytes, i: nat, j: nat, k: nat)
    requires i <= j <= k <= |b|
    ensures b[i..k] == b[i..j] + b[j..k]
  {
  }

  lemma LineSplits(b: bytes, position: nat, line: nat)
    requires position < line && line + 2 <= |b| && b[line..line + 2] == [13, 10]
    ensures b[position..line + 2] == [b[position]] + b[position + 1..line] + [13, 10]
  {
    SplitAt(b, position, line, line + 2);
  }

  lemma LineEnds(b: bytes, start: nat)
    requires FindCrlf(b, start).Some?
    ensures var at := FindCrlf(b, start).value; start <= at && at + 2 <= |b| && b[at..at + 2] == [13, 10]
  {
  }

  lemma {:induction false} ArgsLie(b: bytes, position: nat, n: nat) returns (lengths: seq<bytes>)
    requires ParseArgs(b, position, n).Args? && position <= |b|
    ensures var (args, end) := (ParseArgs(b, position, n).args, ParseArgs(b, position, n).end);
      Lengths(lengths, args) && position <= end <= |b| && b[position..end] == Lined(lengths, args)
    decreases n
  {
    hide ReadBulk, ParseUsize;
    lengths := [];
    if n > 0 {
      var length := BulkLies(b, position);
      var (x, end) := (ReadBulk(b, position).value, ReadBulk(b, position).end);
      var rest := ArgsLie(b, end, n - 1);
      var args, last := ParseArgs(b, position, n).args, ParseArgs(b, position, n).end;
      lengths := [length] + rest;
      assert args == [x] + args[1..] && lengths[1..] == rest;
      assert b[position..last] == b[position..end] + b[end..last];
    }
  }

  /** Whatever request behind a star is taken, it lies there in full: how many arguments, and each behind its length. */
  lemma CompleteLies(b: bytes) returns (count: bytes, lengths: seq<bytes>)
    requires Parse(b).Complete? && b[0] == 42
    ensures var (c, n) := (Parse(b).command, Parse(b).consumed);
      && n <= |b| && ParseUsize(count) == Some(|c|) && Lengths(lengths, c)
      && b[..n] == [42] + count + [13, 10] + Lined(lengths, c)
  {
    hide FindCrlf, ParseUsize, ParseArgs, Lined;
    LineEnds(b, 1);
    var end := FindCrlf(b, 1).value;
    count := b[1..end];
    lengths := ArgsLie(b, end + 2, ParseUsize(count).value);
    var n := Parse(b).consumed;
    assert b[..n] == [b[0]] + b[1..end] + b[end..end + 2] + b[end + 2..n];
  }

  // --- requests that are refused or waited for ------------------------------------------------

  /** A count that is no number is refused. */
  lemma CountRefused(count: bytes, rest: bytes)
    requires 13 !in count && ParseUsize(count) == None
    ensures Parse([42] + count + [13, 10] + rest) == Invalid
  {
    hide FindCrlf, ParseUsize, ParseArgs;
    var b := [42] + count + CRLF + rest;
    FindAfterLine([42], count, rest);
    MiddleOf([42], count, CRLF, rest);
  }

  lemma {:induction false} ArgsThen(before: bytes, args: seq<bytes>, rest: bytes, n: nat)
    requires |before + ArgBytes(args) + rest| <= MAX_USIZE && n >= |args|
    ensures var b := before + ArgBytes(args) + rest;
      ParseArgs(b, |before|, n) == WithFront(args, ParseArgs(b, |before| + |ArgBytes(args)|, n - |args|))
    decreases |args|
  {
    hide Bulk, ReadBulk;
    var b := before + ArgBytes(args) + rest;
    FrontNone(ParseArgs(b, |before|, n));
    if args != [] {
      var x, tail := args[0], ArgBytes(args[1..]);
      var front := before + Bulk(Some(x));
      assert b == before + Bulk(Some(x)) + (tail + rest) == front + tail + rest;
      ReadsBulk(before, x, tail + rest);
      ArgsThen(front, args[1..], rest, n - 1);
      assert args == [x] + args[1..];
      FrontOfFront(x, args[1..], ParseArgs(b, |before| + |ArgBytes(args)|, n - |args|));
    }
  }

  lemma FrontOfFront(x: bytes, args: seq<bytes>, r: Args)
    ensures WithFront([x], WithFront(args, r)) == WithFront([x] + args, r)
  {
    if r.Args? {
      assert [x] + (args + r.args) == [x] + args + r.args;
    }
  }

  /** After some arguments, what comes next decides: it is refused, or waited for. */
  lemma NextDecides(args: seq<bytes>, n: nat, rest: bytes)
    requires |args| < n <= MAX_USIZE && |[42] + Digits(n) + [13, 10] + ArgBytes(args) + rest| <= MAX_USIZE
    ensures var b := [42] + Digits(n) + [13, 10] + ArgBytes(args) + rest;
      var at := |b| - |rest|;
      && (ReadBulk(b, at).BadBulk? ==> Parse(b) == Invalid)
      && (ReadBulk(b, at).NoBulk? ==> Parse(b) == Nothing)
  {
    hide FindCrlf, ParseUsize, Digits, ReadBulk, ArgBytes;
    var head := [42] + Digits(n) + CRLF;
    var b := head + ArgBytes(args) + rest;
    assert b == [42] + Digits(n) + CRLF + (ArgBytes(args) + rest);
    ReadsNumber([42], n, ArgBytes(args) + rest);
    ArgsThen(head, args, rest, n);
  }

  /** The parser waits for a dollar sign even when another byte is in its place. */
  lemma OtherByteWaits(args: seq<bytes>, n: nat, rest: bytes)
    requires |args| < n <= MAX_USIZE && |[42] + Digits(n) + [13, 10] + ArgBytes(args) + rest| <= MAX_USIZE
    requires rest != [] && rest[0] != 36
    ensures Parse([42] + Digits(n) + [13, 10] + ArgBytes(args) + rest) == Nothing
  {
    hide Digits, ArgBytes, Parse, FindCrlf;
    NextDecides(args, n, rest);
  }

  /** A length that is no number, a negative one say, is refused. */
  lemma LengthRefused(args: seq<bytes>, n: nat, length: bytes, rest: bytes)
    requires |args| < n <= MAX_USIZE && |[42] + Digits(n) + [13, 10] + ArgBytes(args) + ([36] + length + [13, 10] + rest)| <= MAX_USIZE
    requires 13 !in length && ParseUsize(length) == None
    ensures Parse([42] + Digits(n) + [13, 10] + ArgBytes(args) + ([36] + length + [13, 10] + rest)) == Invalid
  {
    hide Digits, ArgBytes, Parse, FindCrlf, ParseUsize;
    var before := [42] + Digits(n) + CRLF + ArgBytes(args);
    var b, front := before + ([36] + length + CRLF + rest), before + [36];
    assert b == front + length + CRLF + rest;
    FindAfterLine(front, length, rest);
    MiddleOf(front, length, CRLF, rest);
    assert front[|front| - 1] == 36;
    NextDecides(args, n, [36] + length + CRLF + rest);
  }

  /** An argument that does not end where its length says is refused. */
  lemma EndRefused(args: seq<bytes>, n: nat, m: nat, rest: bytes)
    requires |args| < n <= MAX_USIZE && |[42] + Digits(n) + [13, 10] + ArgBytes(args) + ([36] + Digits(m) + [13, 10] + rest)| <= MAX_USIZE
    requires m + 2 <= |rest| && rest[m..m + 2] != [13, 10]
    ensures Parse([42] + Digits(n) + [13, 10] + ArgBytes(args) + ([36] + Digits(m) + [13, 10] + rest)) == Invalid
  {
    hide Digits, ArgBytes, Parse, FindCrlf, ParseUsize, ReadPayload, ReadBulk;
    var before := [42] + Digits(n) + CRLF + ArgBytes(args);
    var b := before + ([36] + Digits(m) + CRLF + rest);
    assert b == before + [36] + Digits(m) + CRLF + rest;
    ReadsLength(before, m, rest);
    var line := |before| + 1 + |Digits(m)|;
    ReadBulkIs(b, |before|, line, m);
    assert b[line + 2..] == rest;
    PayloadRefused(b, line + 2, m);
    NextDecides(args, n, [36] + Digits(m) + CRLF + rest);
  }

  lemma PayloadRefused(b: bytes, start: nat, length: nat)
    requires start <= |b| && length + 2 <= |b[start..]| && b[start..][length..length + 2] != [13, 10]
    ensures ReadPayload(b, start, length) == BadBulk
  {
    assert b[start..][length..length + 2] == b[start + length..start + length + 2];
  }

  // --- what the words of a line are -------------------------------------------------------------

  lemma LastWord(b: bytes)
    requires b != [] && !IsSpace(b[|b| - 1])
    ensures Words(b) != []
  {
  }

  /** A space, a tab, a line feed, a form feed or a carriage return parts words. */
  lemma {:induction false} WordsPart(a: bytes, s: byte, b: bytes)
    requires s == 32 || s == 9 || s == 10 || s == 12 || s == 13
    ensures Words(a + [s] + b) == Words(a) + Words(b)
    decreases |b|
  {
    hide Words;
    if b == [] {
      WordsThenSpace(a, s);
      NoWords();
      assert a + [s] + b == a + [s];
      assert Words(a) + [] == Words(a);
    } else {
      var n := |b| - 1;
      var head := a + [s] + b[..n];
      assert a + [s] + b == head + [b[n]] && b == b[..n] + [b[n]];
      assert head[|head| - 1] == if n > 0 then b[..n][n - 1] else s;
      WordsPart(a, s, b[..n]);
      WordsGrowAlike(head, b[..n], Words(a), b[n]);
    }
  }

  /** A further character does the same to two lines that end alike. */
  lemma WordsGrowAlike(head: bytes, b: bytes, before: seq<bytes>, c: byte)
    requires head != [] && Words(head) == before + Words(b)
    requires if b == [] then IsSpace(head[|head| - 1]) else head[|head| - 1] == b[|b| - 1]
    ensures Words(head + [c]) == before + Words(b + [c])
  {
    hide Words, IsSpace;
    if IsSpace(c) {
      WordsThenSpace(head, c);
      WordsThenSpace(b, c);
    } else {
      WordsThenCharacter(head, c);
      WordsThenCharacter(b, c);
      if b != [] && !IsSpace(b[|b| - 1]) {
        LastWord(b);
      }
    }
  }

  /** Anything without one of these is one word. */
  lemma WordWhole(w: bytes)
    requires w != [] && forall c :: c in w ==> c != 32 && c != 9 && c != 10 && c != 12 && c != 13
    ensures Words(w) == [w]
  {
    hide Words;
    assert [] + w == w;
    NoWords();
    WordsThenWord([], w);
  }

  // --- two requests -----------------------------------------------------------------------------

  lemma TenDigits()
    ensures Digits(1) == [49] && Digits(10) == [49, 48]
  {
  }

  lemma OneArgument(x: bytes)
    ensures Printed([x]) == [42] + Digits(1) + [13, 10] + ([36] + Digits(|x|) + [13, 10] + x + [13, 10])
  {
    hide Digits;
    var none: seq<bytes> := [];
    assert [x][1..] == none;
    assert ArgBytes([x]) == Bulk(Some(x)) + ArgBytes(none) == Bulk(Some(x));
  }

  /** One argument of ten bytes. */
  lemma TenBytes()
    ensures Printed([[48, 49, 50, 51, 52, 53, 54, 55, 56, 57]]) == [42, 49, 13, 10, 36, 49, 48, 13, 10, 48, 49, 50, 51, 52, 53, 54, 55, 56, 57, 13, 10]
    ensures Parse([42, 49, 13, 10, 36, 49, 48, 13, 10, 48, 49, 50, 51, 52, 53, 54, 55, 56, 57, 13, 10])
         == Complete([[48, 49, 50, 51, 52, 53, 54, 55, 56, 57]], 21)
  {
    hide *;
    var ten: bytes := [48, 49, 50, 51, 52, 53, 54, 55, 56, 57];
    TenDigits();
    OneArgument(ten);
    assert Printed([ten]) == [42] + [49] + [13, 10] + ([36] + [49, 48] + [13, 10] + ten + [13, 10]);
    MaxIs();
    CommandRoundTrip([ten], []);
    assert Printed([ten]) + [] == Printed([ten]);
  }

  lemma MaxIs()
    ensures MAX_USIZE == 0xFFFF_FFFF_FFFF_FFFF
  {
  }

  /** Two words with a tab between them. */
  lemma TabParts()
    ensures Parse([71, 69, 84, 9, 107, 13, 10]) == Complete([[71, 69, 84], [107]], 7)
  {
    hide Words, FindCrlf;
    var b: bytes := [71, 69, 84, 9, 107, 13, 10];
    assert b[..5] == [71, 69, 84] + [9] + [107];
    WordsPart([71, 69, 84], 9, [107]);
    WordWhole([71, 69, 84]);
    WordWhole([107]);
    assert b == [] + b[..5] + CRLF + [];
    FindAfterLine([], b[..5], []);
  }

  // --- streams ------------------------------------------------------------------------------

  datatype Drained = Drained(commands: seq<Command>, rest: bytes, invalid: bool)

  /** All commands at the front, and what is left. */
  function ParseAll(b: bytes): Drained
    decreases |b|
  {
    match Parse(b)
    case Nothing => Drained([], b, false)
    case Invalid => Drained([], b, true)
    case Complete(c, n) =>
      if 0 < n <= |b| then
        var d := ParseAll(b[n..]);
        d.(commands := [c] + d.commands)
      else Drained([], b, true)
  }

  lemma {:induction false} ArgsWithin(b: bytes, position: nat, n: nat)
    requires position <= |b|
    ensures ParseArgs(b, position, n).Args? ==> ParseArgs(b, position, n).end <= |b|
    decreases n
  {
    hide ReadBulk;
    if n > 0 && ReadBulk(b, position).Got? {
      ArgsWithin(b, ReadBulk(b, position).end, n - 1);
    }
  }

  /** A complete parse consumes something, and no more than there is. */
  lemma ParseWithin(b: bytes)
    ensures Parse(b).Complete? ==> 0 < Parse(b).consumed <= |b|
  {
    hide ParseUsize, Words;
    if b != [] && b[0] == STAR && FindCrlf(b, 1).Some? {
      var end := FindCrlf(b, 1).value;
      var count := ParseUsize(b[1..end]);
      if count.Some? {
        ArgsWithin(b, end + 2, count.value);
      }
    }
  }

  class RespParser {
    var buffer: bytes
    const maxBuffer: nat

    constructor (maxBuffer: nat)
      ensures buffer == [] && this.maxBuffer == maxBuffer
    {
      buffer, this.maxBuffer := [], maxBuffer;
    }

    /** Too much is an error that forgets everything; an invalid request forgets the commands in front of it. */
    method Feed(chunk: bytes) returns (r: Result<seq<Command>, ServerError>)
      modifies this
      ensures var b := old(buffer) + chunk;
        if |b| > maxBuffer then r == Err(RequestTooLarge(maxBuffer)) && buffer == []
        else
          var d := ParseAll(b);
          buffer == d.rest && r == if d.invalid then Err(InvalidRequest) else Ok(d.commands)
    {
      hide Parse;
      buffer := buffer + chunk;
      if |buffer| > maxBuffer {
        buffer := [];
        return Err(RequestTooLarge(maxBuffer));
      }
      ghost var all := ParseAll(buffer);
      var commands: seq<Command> := [];
      while true
        invariant all == ParseAll(buffer).(commands := commands + ParseAll(buffer).commands)
        decreases |buffer|
      {
        var next := ParseOne(buffer);
        ParseWithin(buffer);
        if next.Invalid? {
          return Err(InvalidRequest);
        }
        if next.Nothing? {
          break;
        }
        assert commands + ([next.command] + ParseAll(buffer[next.consumed..]).commands)
            == commands + [next.command] + ParseAll(buffer[next.consumed..]).commands;
        buffer := buffer[next.consumed..];
        commands := commands + [next.command];
      }
      assert commands + [] == commands;
      r := Ok(commands);
    }
  }

  function Stream(cs: seq<Command>): bytes {
    if cs == [] then [] else Printed(cs[0]) + Stream(cs[1..])
  }

  /** The beginning of a stream drains to the commands that are whole; what is left is the beginning of the rest. */
  lemma {:induction false} DrainPrefix(todo: seq<Command>, b: bytes, more: bytes)
    requires b + more == Stream(todo) && |Stream(todo)| <= MAX_USIZE
    ensures var d := ParseAll(b);
      var n := |d.commands|;
      && !d.invalid && n <= |todo| && d.commands == todo[..n]
      && d.rest + more == Stream(todo[n..])
      && Parse(d.rest) == Nothing
    decreases |todo|
  {
    hide Parse, Printed, ParseAll, Stream;
    StreamNone();
    if todo == [] {
      assert b == [];
      ParseNothing();
      DrainsNothing(b);
    } else {
      var p := Printed(todo[0]);
      StreamFirst(todo);
      if |b| < |p| {
        assert b == (b + more)[..|b|] == p[..|b|];
        TornCommand(todo[0], |b|);
        DrainsNothing(b);
        assert todo[..0] == [] && todo[0..] == todo;
      } else {
        var rest := b[|p|..];
        assert b[..|p|] == (b + more)[..|p|] == p;
        assert b == p + rest;
        assert rest + more == (b + more)[|p|..] == Stream(todo[1..]);
        CommandRoundTrip(todo[0], rest);
        DrainsOne(b);
        DrainPrefix(todo[1..], rest, more);
        var n := |ParseAll(rest).commands|;
        assert todo[..n + 1] == [todo[0]] + todo[1..][..n];
        assert todo[1..][n..] == todo[n + 1..];
      }
    }
  }

  lemma StreamFirst(cs: seq<Command>)
    requires cs != []
    ensures Stream(cs) == Printed(cs[0]) + Stream(cs[1..])
  {
    hide Printed;
  }

  lemma DrainsNothing(b: bytes)
    requires Parse(b) == Nothing
    ensures ParseAll(b) == Drained([], b, false)
  {
    hide Parse;
  }

  lemma DrainsOne(b: bytes)
    requires Parse(b).Complete?
    ensures var (c, n) := (Parse(b).command, Parse(b).consumed);
      0 < n <= |b| && ParseAll(b) == ParseAll(b[n..]).(commands := [c] + ParseAll(b[n..]).commands)
  {
    hide Parse;
    ParseWithin(b);
  }

  lemma ParseNothing()
    ensures Parse([]) == Nothing
  {
  }

  /** A whole stream in the buffer means that nothing is left of it. */
  lemma NothingLeft(todo: seq<Command>)
    requires Parse(Stream(todo)) == Nothing && |Stream(todo)| <= MAX_USIZE
    ensures todo == []
  {
    hide Parse, Printed;
    if todo != [] {
      CommandRoundTrip(todo[0], Stream(todo[1..]));
    }
  }

  /** What waits in the buffer is shorter than the command it begins. */
  lemma WaitingIsShort(todo: seq<Command>, b: bytes, more: bytes)
    requires b + more == Stream(todo) && |Stream(todo)| <= MAX_USIZE && Parse(b) == Nothing
    ensures b == [] || (todo != [] && |b| < |Printed(todo[0])|)
  {
    hide Parse, Printed;
    if todo != [] && |b| >= |Printed(todo[0])| {
      var p := Printed(todo[0]);
      assert b[..|p|] == (b + more)[..|p|] == p;
      assert b == p + b[|p|..];
      CommandRoundTrip(todo[0], b[|p|..]);
    }
  }

  /** A chunk always fits behind all but the last byte of a command. */
  ghost predicate Roomy(chunks: seq<bytes>, cs: seq<Command>, maxBuffer: nat) {
    && (forall i, c :: 0 <= i < |chunks| && c in cs ==> |chunks[i]| + |Printed(c)| <= maxBuffer + 1)
    && forall i :: 0 <= i < |chunks| ==> |chunks[i]| <= maxBuffer
  }

  /**
    However the bytes of printed commands are cut into chunks, the parser gives exactly these
    commands in order and keeps nothing back, unless its buffer overflows; and it does not as
    long as a chunk and all but the last byte of a command fit together.
   */
  method FeedAll(chunks: seq<bytes>, ghost cs: seq<Command>, maxBuffer: nat) returns (r: Result<seq<Command>, ServerError>, parser: RespParser)
    requires Flatten(chunks) == Stream(cs) && |Stream(cs)| <= MAX_USIZE
    ensures r.Ok? ==> r.value == cs && parser.buffer == []
    ensures r.Err? ==> r.error == RequestTooLarge(maxBuffer)
    ensures Roomy(chunks, cs, maxBuffer) ==> r.Ok?
  {
    hide Parse, ParseAll, Printed, Stream, Flatten;
    parser := new RespParser(maxBuffer);
    var commands: seq<Command> := [];
    ghost var todo := cs;
    assert chunks[0..] == chunks && [] + Flatten(chunks) == Flatten(chunks);
    ParseNothing();
    for i := 0 to |chunks|
      invariant fresh(parser) && parser.maxBuffer == maxBuffer && Parse(parser.buffer) == Nothing
      invariant commands + todo == cs && |Stream(todo)| <= MAX_USIZE
      invariant parser.buffer + Flatten(chunks[i..]) == Stream(todo)
    {
      ghost var b, more := parser.buffer + chunks[i], Flatten(chunks[i + 1..]);
      FlattenFirst(chunks[i..]);
      assert chunks[i..][1..] == chunks[i + 1..] && chunks[i..][0] == chunks[i];
      assert parser.buffer + (chunks[i] + more) == b + more;
      WaitingIsShort(todo, parser.buffer, Flatten(chunks[i..]));
      if |b| <= maxBuffer {
        DrainPrefix(todo, b, more);
      }
      assert todo != [] ==> todo[0] in cs by { assert todo != [] ==> cs[|commands|] == todo[0]; }
      var got := parser.Feed(chunks[i]);
      if got.Err? {
        return Err(got.error), parser;
      }
      ghost var n := |got.value|;
      assert commands + todo == commands + todo[..n] + todo[n..];
      StreamTail(todo, n);
      commands := commands + got.value;
      todo := todo[n..];
    }
    LastFlatten(chunks);
    assert parser.buffer + [] == parser.buffer;
    NothingLeft(todo);
    StreamNone();
    r := Ok(commands);
  }

  lemma FlattenFirst(chunks: seq<bytes>)
    requires chunks != []
    ensures Flatten(chunks) == chunks[0] + Flatten(chunks[1..])
  {
  }

  lemma LastFlatten(chunks: seq<bytes>)
    ensures Flatten(chunks[|chunks|..]) == []
  {
  }

  lemma StreamNone()
    ensures Stream([]) == []
  {
  }

  lemma {:induction false} StreamTail(cs: seq<Command>, n: nat)
    requires n <= |cs|
    ensures |Stream(cs[n..])| <= |Stream(cs)|
  {
    hide Printed;
    if n > 0 {
      StreamTail(cs[1..], n - 1);
      assert cs[1..][n - 1..] == cs[n..];
    } else {
      assert cs[0..] == cs;
    }
  }
}
