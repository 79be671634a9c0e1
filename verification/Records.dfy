/** Documents, records, and what a sequence of operations leaves of them. */
module Records {
  import opened Wrappers
  import opened Bytes
  import opened Changes

  // --- documents ------------------------------------------------------------------------------

  datatype Doc = Doc(value: bytes, expireAt: i64, meta: Option<bytes>)

  predicate Expired(expireAt: i64, now: i64) {
    expireAt != 0 && expireAt <= now
  }

  predicate Dead(d: Option<Doc>, now: i64) {
    d.None? || Expired(d.value.expireAt, now)
  }

  /** What a reader sees at time t. */
  function Shown(d: Option<Doc>, t: i64): Option<Doc> {
    if Dead(d, t) then None else d
  }

  /** Equal, or neither to be seen any more. */
  predicate Agree(a: Option<Doc>, b: Option<Doc>, now: i64) {
    a == b || (Dead(a, now) && Dead(b, now))
  }

  /** To agree now is to show the same from now on, whenever one looks. */
  lemma AgreeExact(a: Option<Doc>, b: Option<Doc>, now: i64)
    ensures Agree(a, b, now) <==> forall t: i64 :: now <= t ==> Shown(a, t) == Shown(b, t)
  {
    if forall t: i64 :: now <= t ==> Shown(a, t) == Shown(b, t) {
      assert Shown(a, now) == Shown(b, now);
    }
  }

  function DocOf(op: Op): Option<Doc> {
    match op
    case Set(_, v, e, m) => Some(Doc(v, e, m))
    case Del(_) => None
  }

  /** The last operation on k, or -1. */
  function Last(ops: seq<Op>, k: bytes): (i: int)
    ensures -1 <= i < |ops|
    ensures i >= 0 ==> ops[i].key == k
    ensures forall j :: i < j < |ops| ==> ops[j].key != k
  {
    if ops == [] then -1
    else if ops[|ops| - 1].key == k then |ops| - 1
    else Last(ops[..|ops| - 1], k)
  }

  predicate Touched(ops: seq<Op>, k: bytes) {
    Last(ops, k) >= 0
  }

  /** The last operation on a key decides. */
  function After(before: Option<Doc>, ops: seq<Op>, k: bytes): Option<Doc> {
    var i := Last(ops, k);
    if i < 0 then before else DocOf(ops[i])
  }

  lemma {:induction false} LastConcat(a: seq<Op>, b: seq<Op>, k: bytes)
    ensures Last(a + b, k) == if Last(b, k) >= 0 then |a| + Last(b, k) else Last(a, k)
  {
    if b == [] {
      assert a + b == a;
    } else {
      assert (a + b)[..|a + b| - 1] == a + b[..|b| - 1];
      LastConcat(a, b[..|b| - 1], k);
    }
  }

  lemma AfterConcat(before: Option<Doc>, a: seq<Op>, b: seq<Op>, k: bytes)
    ensures After(before, a + b, k) == After(After(before, a, k), b, k)
    ensures Touched(a + b, k) <==> Touched(a, k) || Touched(b, k)
  {
    LastConcat(a, b, k);
  }

  lemma AfterAgrees(x: Option<Doc>, y: Option<Doc>, ops: seq<Op>, k: bytes, now: i64)
    requires Agree(x, y, now) || Touched(ops, k)
    ensures Agree(After(x, ops, k), After(y, ops, k), now)
  {
  }

  /** The meaning of operations one by one, as the store applies them. */
  function Table(t: map<bytes, Doc>, ops: seq<Op>): map<bytes, Doc> {
    if ops == [] then t
    else
      var before := Table(t, ops[..|ops| - 1]);
      match ops[|ops| - 1]
      case Set(k, v, e, m) => before[k := Doc(v, e, m)]
      case Del(k) => before - {k}
  }

  /** Applying operations one by one leaves for each key what its last operation said. */
  lemma {:induction false} TableIsAfter(t: map<bytes, Doc>, ops: seq<Op>, k: bytes)
    ensures Lookup(Table(t, ops), k) == After(Lookup(t, k), ops, k)
  {
    if ops != [] {
      TableIsAfter(t, ops[..|ops| - 1], k);
    }
  }

  // --- records --------------------------------------------------------------------------------

  datatype ValueFile = SnapshotFile | WalFile
  datatype ValueLoc = ValueLoc(file: ValueFile, offset: nat, len: nat)
  datatype ValueRef = Memory(value: bytes) | Disk(loc: ValueLoc)
  datatype ValueMode = InMemory | OnDisk

  datatype Record = Record(ref: ValueRef, expireAt: i64, sequence: nat, meta: Option<bytes>)

  /** The records of a store and its sequence counter. */
  datatype Stored = Stored(records: map<bytes, Record>, sequence: nat) {

    function Put(key: bytes, ref: ValueRef, expireAt: i64, meta: Option<bytes>): Stored {
      Stored(records[key := Record(ref, expireAt, sequence + 1, meta)], sequence + 1)
    }

    function Drop(key: bytes): Stored {
      Stored(records - {key}, sequence)
    }

    /** A record that has run out goes when its key is looked at. */
    function Reap(key: bytes, now: i64): Stored {
      if key in records && Expired(records[key].expireAt, now) then Drop(key) else this
    }
  }

  datatype RecoveredOp =
    | PutOp(key: bytes, ref: ValueRef, expireAt: i64, meta: Option<bytes>)
    | DropOp(key: bytes)

  function RefTo(c: Change, file: ValueFile, mode: ValueMode): ValueRef
    requires c.op.Set?
  {
    if mode.InMemory? then Memory(c.op.value) else Disk(ValueLoc(file, c.at, |c.op.value|))
  }

  /** What recovery makes of a change when the clock reads `now`: what has run out is a removal. */
  function Recovered(c: Change, file: ValueFile, mode: ValueMode, now: i64): RecoveredOp {
    match c.op
    case Del(k) => DropOp(k)
    case Set(k, _, e, m) => if Expired(e, now) then DropOp(k) else PutOp(k, RefTo(c, file, mode), e, m)
  }

  /** The clock is read anew for each operation. */
  function RecoveredOps(cs: seq<Change>, file: ValueFile, mode: ValueMode, clock: seq<i64>): (r: seq<RecoveredOp>)
    requires |clock| == |cs|
    ensures |r| == |cs| && forall i :: 0 <= i < |cs| ==> r[i] == Recovered(cs[i], file, mode, clock[i])
  {
    if cs == [] then [] else [Recovered(cs[0], file, mode, clock[0])] + RecoveredOps(cs[1..], file, mode, clock[1..])
  }

  function ApplyOne(s: Stored, op: RecoveredOp): Stored {
    match op
    case PutOp(k, ref, e, m) => s.Put(k, ref, e, m)
    case DropOp(k) => s.Drop(k)
  }

  function ApplyAll(s: Stored, ops: seq<RecoveredOp>): Stored {
    if ops == [] then s else ApplyOne(ApplyAll(s, ops[..|ops| - 1]), ops[|ops| - 1])
  }

  lemma {:induction false} ApplyAllConcat(s: Stored, a: seq<RecoveredOp>, b: seq<RecoveredOp>)
    ensures ApplyAll(s, a + b) == ApplyAll(ApplyAll(s, a), b)
  {
    if b == [] {
      assert a + b == a;
    } else {
      assert (a + b)[..|a + b| - 1] == a + b[..|b| - 1];
      ApplyAllConcat(s, a, b[..|b| - 1]);
    }
  }

  /** What a record must be if it comes from change c: its reference, expiry and metadata. */
  predicate ComesFrom(r: Record, c: Change, file: ValueFile, mode: ValueMode) {
    c.op.Set? && r.ref == RefTo(c, file, mode) && r.expireAt == c.op.expireAt && r.meta == c.op.meta
  }

  /** What the store does at once for an operation of `set`, `del` or `batch`: values start in memory. */
  function Applied(op: Op): RecoveredOp {
    match op
    case Set(k, v, e, m) => PutOp(k, Memory(v), e, m)
    case Del(k) => DropOp(k)
  }

  function AppliedOps(ops: seq<Op>): (r: seq<RecoveredOp>)
    ensures |r| == |ops| && forall i :: 0 <= i < |ops| ==> r[i] == Applied(ops[i])
  {
    if ops == [] then [] else [Applied(ops[0])] + AppliedOps(ops[1..])
  }

  /** Looking at a key first, which may drop a record that has run out, changes nothing of what follows. */
  lemma ReapIsSilent(s: Stored, op: Op, now: i64)
    ensures ApplyOne(s.Reap(op.key, now), Applied(op)) == ApplyOne(s, Applied(op))
  {
    if op.Set? {
      var r := s.Reap(op.key, now).records;
      assert r[op.key := Record(Memory(op.value), op.expireAt, s.sequence + 1, op.meta)]
          == s.records[op.key := Record(Memory(op.value), op.expireAt, s.sequence + 1, op.meta)];
    }
  }

  /** One applied operation carries out a change, or removes what has run out by `now`. */
  predicate CarriesOut(made: RecoveredOp, c: Change, file: ValueFile, mode: ValueMode, now: i64) {
    && made.key == c.op.key
    && (made.DropOp? ==> Dead(DocOf(c.op), now))
    && (made.PutOp? ==> c.op.Set? && made.ref == RefTo(c, file, mode) && made.expireAt == c.op.expireAt && made.meta == c.op.meta)
  }

  ghost predicate AllCarryOut(made: seq<RecoveredOp>, cs: seq<Change>, file: ValueFile, mode: ValueMode, now: i64) {
    |made| == |cs| && forall i :: 0 <= i < |cs| ==> CarriesOut(made[i], cs[i], file, mode, now)
  }

  ghost predicate AllBy(clock: seq<i64>, now: i64) {
    forall i :: 0 <= i < |clock| ==> clock[i] <= now
  }

  lemma RecoveredCarriesOut(cs: seq<Change>, file: ValueFile, mode: ValueMode, clock: seq<i64>, now: i64)
    requires |clock| == |cs| && AllBy(clock, now)
    ensures AllCarryOut(RecoveredOps(cs, file, mode, clock), cs, file, mode, now)
  {
  }

  lemma AppliedCarriesOut(cs: seq<Change>, file: ValueFile, now: i64)
    ensures AllCarryOut(AppliedOps(Ops(cs)), cs, file, InMemory, now)
  {
  }

  lemma LastSnoc(cs: seq<Change>, k: bytes)
    requires cs != []
    ensures var n := |cs| - 1; Last(Ops(cs), k) == if cs[n].op.key == k then n else Last(Ops(cs[..n]), k)
  {
    assert Ops(cs)[..|cs| - 1] == Ops(cs[..|cs| - 1]);
  }

  /** After a replay a key's record comes from its last change, or is gone with it, or is as before. */
  ghost predicate Decided(s: Stored, r: Stored, cs: seq<Change>, file: ValueFile, mode: ValueMode, k: bytes, now: i64) {
    var i := Last(Ops(cs), k);
    && (i < 0 ==> Lookup(r.records, k) == Lookup(s.records, k))
    && (i >= 0 && k in r.records ==> ComesFrom(r.records[k], cs[i], file, mode))
    && (i >= 0 && k !in r.records ==> Dead(DocOf(cs[i].op), now))
  }

  lemma {:induction false} ReplayDecides(s: Stored, made: seq<RecoveredOp>, cs: seq<Change>, file: ValueFile, mode: ValueMode, k: bytes, now: i64)
    requires AllCarryOut(made, cs, file, mode, now)
    ensures Decided(s, ApplyAll(s, made), cs, file, mode, k, now)
    decreases |cs|
  {
    hide *;
    if cs == [] {
      NothingDecided(s, made, cs, file, mode, k, now);
    } else {
      var n := |cs| - 1;
      CarriesOutFront(made, cs, file, mode, now);
      ReplayDecides(s, made[..n], cs[..n], file, mode, k, now);
      ApplyOneDecides(ApplyAll(s, made[..n]), made[n], cs[n], file, mode, k, now);
      DecidedSnoc(s, made, cs, file, mode, k, now);
    }
  }

  lemma NothingDecided(s: Stored, made: seq<RecoveredOp>, cs: seq<Change>, file: ValueFile, mode: ValueMode, k: bytes, now: i64)
    requires cs == [] && AllCarryOut(made, cs, file, mode, now)
    ensures Decided(s, ApplyAll(s, made), cs, file, mode, k, now)
  {
  }

  lemma CarriesOutFront(made: seq<RecoveredOp>, cs: seq<Change>, file: ValueFile, mode: ValueMode, now: i64)
    requires cs != [] && AllCarryOut(made, cs, file, mode, now)
    ensures |made| == |cs| && AllCarryOut(made[..|cs| - 1], cs[..|cs| - 1], file, mode, now)
    ensures CarriesOut(made[|cs| - 1], cs[|cs| - 1], file, mode, now)
  {
    hide CarriesOut;
  }

  lemma DecidedSnoc(s: Stored, made: seq<RecoveredOp>, cs: seq<Change>, file: ValueFile, mode: ValueMode, k: bytes, now: i64)
    requires |made| == |cs| > 0
    requires var n := |cs| - 1;
      && Decided(s, ApplyAll(s, made[..n]), cs[..n], file, mode, k, now)
      && OneDecided(ApplyAll(s, made[..n]), made[n], cs[n], file, mode, k, now)
    ensures Decided(s, ApplyAll(s, made), cs, file, mode, k, now)
  {
    hide Last, Ops, ApplyOne, ComesFrom;
    LastSnoc(cs, k);
  }

  /** What one applied operation leaves of a key. */
  ghost predicate OneDecided(s: Stored, made: RecoveredOp, c: Change, file: ValueFile, mode: ValueMode, k: bytes, now: i64) {
    var r := ApplyOne(s, made).records;
    && (c.op.key != k ==> Lookup(r, k) == Lookup(s.records, k))
    && (c.op.key == k && k in r ==> ComesFrom(r[k], c, file, mode))
    && (c.op.key == k && k !in r ==> Dead(DocOf(c.op), now))
  }

  lemma ApplyOneDecides(s: Stored, made: RecoveredOp, c: Change, file: ValueFile, mode: ValueMode, k: bytes, now: i64)
    requires CarriesOut(made, c, file, mode, now)
    ensures OneDecided(s, made, c, file, mode, k, now)
  {
  }
}
