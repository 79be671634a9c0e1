/** A reader that follows the log: `apply_recovered` of `minidb.rs` on the store and its indexes. */
module Follower {
  import opened Wrappers
  import opened Bytes
  import opened Json
  import opened SortedPairs
  import opened Indexes
  import CompoundIndexes
  import DateTimes
  import TextIndexes
  import opened Records
  import opened Stores
  import opened DerivedState
  import opened Answers
  import opened IndexManagers
  import opened Rollback

  // --- the store ----------------------------------------------------------------------------

  /** One operation: its key is looked at before, and a set key once more after. */
  function FollowOne(s: Stored, op: RecoveredOp, clock: (i64, i64)): Stored {
    var t := ApplyOne(s.Reap(op.key, clock.0), op);
    if op.PutOp? then t.Reap(op.key, clock.1) else t
  }

  function Followed(s: Stored, ops: seq<RecoveredOp>, clocks: seq<(i64, i64)>): Stored
    requires |clocks| == |ops|
  {
    if ops == [] then s
    else
      var n := |ops| - 1;
      FollowOne(Followed(s, ops[..n], clocks[..n]), ops[n], clocks[n])
  }

  /** From time t on the two stores show the same. */
  ghost predicate ShowAlike(a: Stored, b: Stored, t: i64) {
    a.sequence == b.sequence && forall k :: LiveContent(a.records, k, t) == LiveContent(b.records, k, t)
  }

  lemma FollowOneShows(a: Stored, b: Stored, op: RecoveredOp, clock: (i64, i64), t: i64)
    requires ShowAlike(a, b, t) && clock.0 <= t && clock.1 <= t
    ensures ShowAlike(FollowOne(a, op, clock), ApplyOne(b, op), t)
  {
    forall k
      ensures LiveContent(FollowOne(a, op, clock).records, k, t) == LiveContent(ApplyOne(b, op).records, k, t)
    {
      assert LiveContent(a.records, k, t) == LiveContent(b.records, k, t);
    }
  }

  /** Looking at the keys changes nothing that can be seen: following shows what plain application does. */
  lemma {:induction false} FollowedShows(s: Stored, ops: seq<RecoveredOp>, clocks: seq<(i64, i64)>, t: i64)
    requires |clocks| == |ops| && forall c :: c in clocks ==> c.0 <= t && c.1 <= t
    ensures ShowAlike(Followed(s, ops, clocks), ApplyAll(s, ops), t)
    decreases |ops|
  {
    if ops != [] {
      hide FollowOne, ApplyOne, ShowAlike;
      var n := |ops| - 1;
      FollowedShows(s, ops[..n], clocks[..n], t);
      FollowOneShows(Followed(s, ops[..n], clocks[..n]), ApplyAll(s, ops[..n]), ops[n], clocks[n], t);
    }
  }

  // --- with the indexes -----------------------------------------------------------------------

  /** The key waits to leave the indexes once it has been looked at. */
  ghost predicate Waits(m: map<bytes, Record>, waiting: set<bytes>, k: bytes, now: i64) {
    k in waiting || (k in m && Expired(m[k].expireAt, now))
  }

  /** A key is set and lives although it still waits: its earlier document is not taken out first. */
  ghost predicate Misses(m: map<bytes, Record>, waiting: set<bytes>, op: RecoveredOp, clock: (i64, i64)) {
    op.PutOp? && Waits(m, waiting, op.key, clock.0) && !Expired(op.expireAt, clock.1)
  }

  function NewDocument(rd: Readers, op: RecoveredOp): Option<Json> {
    if op.PutOp? then rd.document(ValueOf(rd, op.ref)) else None
  }

  /** The share that the new record should have. */
  function NewShare(rd: Readers, op: RecoveredOp): KeyView {
    if op.PutOp? then ShareOf(NewDocument(rd, op), StampsOf(rd, op.meta), rd.tokens) else NOTHING
  }

  /** What a miss leaves of the shares: the new ones, but the old document in the plain indexes if there is no new one. */
  ghost predicate Missed(rd: Readers, v: View, w: View, op: RecoveredOp) {
    OnlyAt(v, w, op.key, NewShare(rd, op).(plain := if NewDocument(rd, op).Some? then NewDocument(rd, op) else DerivedState.At(v, op.key).plain))
  }

  /** The equality and range indexes have been written over. */
  ghost predicate WrittenOver(rd: Readers, v: View, op: RecoveredOp) {
    NewDocument(rd, op).Some? && op.key in v.plain
  }

  /** One recovered operation, whatever waits to leave the indexes. */
  method ApplyRecovered(db: Db, op: RecoveredOp, clock: (i64, i64))
    requires db.Valid()
    modifies db.store, db.derived.parts
    ensures db.Sound() && db.store.View() == FollowOne(old(db.store.View()), op, clock)
    ensures !Misses(old(db.store.records), old(Gone(db.store.expired)), op, clock) ==> db.Valid()
    ensures Misses(old(db.store.records), old(Gone(db.store.expired)), op, clock) ==>
      && Missed(db.rd, old(db.derived.Shares()), db.derived.Shares(), op)
      && Gone(db.store.expired) == old(Gone(db.store.expired)) + {op.key}
      && (if WrittenOver(db.rd, old(db.derived.Shares()), op)
          then db.derived.indexes.kept == AllOverlaid(old(db.derived.indexes.indexes), db.derived.indexes.scalarKey, old(db.derived.Shares()).plain, op.key, NewDocument(db.rd, op).value)
          else db.derived.Valid())
  {
    hide Stores.Sound, Consistent, DerivedState.At, ShareOf, OnlyAt, Gone, Derived.Valid, Derived.Sound, Waits, Lives, Stored.Reap, Stored.Put, Stored.Drop, FollowOne, AllOverlaid, Misses, Missed;
    FollowOneIs(db.store.View(), op, clock);
    match op {
      case DropOp(k) =>
        NeverMisses(db.store.records, Gone(db.store.expired), op, clock);
        DropRecovered(db, k, clock.0);
      case PutOp(k, ref, e, meta) =>
        ghost var s, v, before := db.store.View(), db.derived.Shares(), db.store.expired;
        var had := LooksUp(db.store, db.rd, k, clock.0);
        var got := PutInStore(db.store, db.rd, k, ref, e, meta, clock.1);
        PutFollows(db.rd, s, v, before, op, clock, had);
        PlainAt(v, k);
        if got.Some? {
          db.derived.ApplySet(k, had, db.rd.document(got.value), StampsOf(db.rd, meta));
        }
        PutLeaves(db.rd, s, v, before, op, clock, had, db.store.expired, db.derived.Shares());
    }
  }

  lemma NeverMisses(m: map<bytes, Record>, waiting: set<bytes>, op: RecoveredOp, clock: (i64, i64))
    requires op.DropOp?
    ensures !Misses(m, waiting, op, clock)
  {
  }

  lemma FollowOneIs(s: Stored, op: RecoveredOp, clock: (i64, i64))
    ensures FollowOne(s, op, clock) == match op
      case DropOp(k) => s.Drop(k)
      case PutOp(k, ref, e, meta) => s.Reap(k, clock.0).Put(k, ref, e, meta).Reap(k, clock.1)
  {
    if op.DropOp? {
      assert s.Reap(op.key, clock.0).Drop(op.key).records == s.Drop(op.key).records;
    }
  }

  ghost function ExpiredWith(expired: seq<(bytes, Record)>, m: map<bytes, Record>, k: bytes, now: i64): seq<(bytes, Record)> {
    if k in m && Expired(m[k].expireAt, now) then expired + [(k, m[k])] else expired
  }

  /** Whether the key has a document now; a record that has run out goes. */
  method LooksUp(store: Store, rd: Readers, k: bytes, now: i64) returns (had: bool)
    requires store.Valid()
    modifies store
    ensures store.Valid() && store.View() == old(store.View()).Reap(k, now)
    ensures store.expired == ExpiredWith(old(store.expired), old(store.records), k, now)
    ensures had <==> Had(rd, old(store.records), k, now)
  {
    hide Stores.Sound;
    var got := store.Get(k, now, (l: ValueLoc) => Ok(rd.read(l)));
    had := got.value.Some? && rd.document(got.value.value).Some?;
  }

  predicate Had(rd: Readers, m: map<bytes, Record>, k: bytes, now: i64) {
    Lives(m, k, now) && rd.document(ValueOf(rd, m[k].ref)).Some?
  }

  method PutInStore(store: Store, rd: Readers, k: bytes, ref: ValueRef, e: i64, meta: Option<bytes>, now: i64) returns (got: Option<bytes>)
    requires store.Valid()
    modifies store
    ensures store.Valid() && store.View() == old(store.View()).Put(k, ref, e, meta).Reap(k, now)
    ensures got == if Expired(e, now) then None else Some(ValueOf(rd, ref))
    ensures store.expired == ExpiredWith(old(store.expired), old(store.View()).Put(k, ref, e, meta).records, k, now)
  {
    hide Stores.Sound;
    store.SetRef(k, ref, e, meta);
    var r := store.Get(k, now, (l: ValueLoc) => Ok(rd.read(l)));
    got := r.value;
  }

  method DropRecovered(db: Db, k: bytes, now: i64)
    requires db.Valid()
    modifies db.store, db.derived.parts
    ensures db.Valid() && db.store.View() == old(db.store.View()).Drop(k)
  {
    hide Stores.Sound, Consistent, DerivedState.At, ShareOf, OnlyAt, Gone, Derived.Valid, Derived.Sound, Stored.Reap, Lives, AllPruned;
    ghost var s, v := db.store.View(), db.derived.Shares();
    ghost var before := db.store.expired;
    var existed := DropFromStore(db.store, k, now);
    if existed {
      db.derived.ApplyDelete(k);
    }
    DropKeeps(db.rd, s.records, v, k, now, before, db.store.expired, db.derived.Shares());
  }

  method DropFromStore(store: Store, k: bytes, now: i64) returns (existed: bool)
    requires store.Valid()
    modifies store
    ensures store.Valid() && store.View() == old(store.View()).Drop(k) && existed == Lives(old(store.records), k, now)
    ensures store.expired == ExpiredWith(old(store.expired), old(store.records), k, now)
  {
    hide Stores.Sound;
    var _ := store.ExpireIfNeeded(k, now);
    existed := store.Del(k);
  }

  lemma GoneMore(expired: seq<(bytes, Record)>, k: bytes, r: Record)
    ensures Gone(expired + [(k, r)]) == Gone(expired) + {k}
  {
    assert forall e :: e in expired + [(k, r)] <==> e in expired || e == (k, r);
  }

  lemma GoneWith(expired: seq<(bytes, Record)>, m: map<bytes, Record>, k: bytes, now: i64)
    ensures Gone(ExpiredWith(expired, m, k, now)) == Gone(expired) + if k in m && Expired(m[k].expireAt, now) then {k} else {}
  {
    hide Gone;
    if k in m && Expired(m[k].expireAt, now) {
      GoneMore(expired, k, m[k]);
    }
  }

  lemma DropKeeps(rd: Readers, m: map<bytes, Record>, v: View, k: bytes, now: i64, before: seq<(bytes, Record)>, after: seq<(bytes, Record)>, w: View)
    requires Consistent(rd, m, Gone(before), v) && after == ExpiredWith(before, m, k, now)
    requires if Lives(m, k, now) then OnlyAt(v, w, k, NOTHING) else w == v
    ensures Consistent(rd, m - {k}, Gone(after), w)
  {
    hide DerivedState.At, ShareOfRecord, Gone;
    GoneWith(before, m, k, now);
  }

  /** Unless the key waits, the look sees the document that the indexes have; if it waits, none. */
  lemma PutFollows(rd: Readers, s: Stored, v: View, before: seq<(bytes, Record)>, op: RecoveredOp, clock: (i64, i64), had: bool)
    requires op.PutOp? && Consistent(rd, s.records, Gone(before), v) && (had <==> Had(rd, s.records, op.key, clock.0))
    ensures Waits(s.records, Gone(before), op.key, clock.0) ==> !had
    ensures !Waits(s.records, Gone(before), op.key, clock.0) ==> (had <==> DerivedState.At(v, op.key).plain.Some?)
    ensures Misses(s.records, Gone(before), op, clock) <==> Waits(s.records, Gone(before), op.key, clock.0) && !Expired(op.expireAt, clock.1)
  {
    hide Gone;
  }

  lemma PutLeaves(rd: Readers, s: Stored, v: View, before: seq<(bytes, Record)>, op: RecoveredOp, clock: (i64, i64), had: bool,
                  after: seq<(bytes, Record)>, w: View)
    requires op.PutOp? && Consistent(rd, s.records, Gone(before), v) && (had <==> Had(rd, s.records, op.key, clock.0))
    requires var k, t := op.key, s.Reap(op.key, clock.0).Put(op.key, op.ref, op.expireAt, op.meta);
      && after == ExpiredWith(ExpiredWith(before, s.records, k, clock.0), t.records, k, clock.1)
      && if Expired(op.expireAt, clock.1) then w == v
         else OnlyAt(v, w, k, NewShare(rd, op).(plain := if had || NewDocument(rd, op).Some? then NewDocument(rd, op) else DerivedState.At(v, k).plain))
    ensures !Misses(s.records, Gone(before), op, clock) ==>
      Consistent(rd, s.Reap(op.key, clock.0).Put(op.key, op.ref, op.expireAt, op.meta).Reap(op.key, clock.1).records, Gone(after), w)
    ensures Misses(s.records, Gone(before), op, clock) ==> Missed(rd, v, w, op) && Gone(after) == Gone(before) + {op.key}
  {
    hide Gone, ShareOf, DerivedState.At, OnlyAt, Consistent;
    var k, t := op.key, s.Reap(op.key, clock.0).Put(op.key, op.ref, op.expireAt, op.meta);
    GoneWith(before, s.records, k, clock.0);
    GoneWith(ExpiredWith(before, s.records, k, clock.0), t.records, k, clock.1);
    PutFollows(rd, s, v, before, op, clock, had);
    NewShareIs(rd, op);
    if !Misses(s.records, Gone(before), op, clock) {
      PutAgrees(rd, s, v, before, op, clock, had, after, w);
    }
  }

  lemma PlainAt(v: View, k: bytes)
    ensures DerivedState.At(v, k).plain == Lookup(v.plain, k)
  {
  }

  lemma NewShareIs(rd: Readers, op: RecoveredOp)
    ensures op.PutOp? ==> NewShare(rd, op).plain == NewDocument(rd, op)
    ensures op.PutOp? ==> NewShare(rd, op) == ShareOf(rd.document(ValueOf(rd, op.ref)), StampsOf(rd, op.meta), rd.tokens)
  {
  }

  lemma PutAgrees(rd: Readers, s: Stored, v: View, before: seq<(bytes, Record)>, op: RecoveredOp, clock: (i64, i64), had: bool,
                  after: seq<(bytes, Record)>, w: View)
    requires op.PutOp? && Consistent(rd, s.records, Gone(before), v) && !Misses(s.records, Gone(before), op, clock)
    requires var k := op.key;
      && Gone(after) == Gone(before) + (if k in s.records && Expired(s.records[k].expireAt, clock.0) then {k} else {})
                                     + (if Expired(op.expireAt, clock.1) then {k} else {})
      && if Expired(op.expireAt, clock.1) then w == v else OnlyAt(v, w, k, NewShare(rd, op))
    ensures Consistent(rd, s.Reap(op.key, clock.0).Put(op.key, op.ref, op.expireAt, op.meta).Reap(op.key, clock.1).records, Gone(after), w)
  {
    hide Gone, ShareOf, DerivedState.At;
  }

  // --- after the drain ------------------------------------------------------------------------

  /** The indexes answer from exactly what the records have in them; nothing waits. */
  ghost predicate Agree(rd: Readers, m: map<bytes, Record>, t: Tables, sk: Json -> string, canon: Json -> string, words: map<bytes, seq<bytes>>) {
    exists v :: Consistent(rd, m, {}, v) && TablesOf(t, sk, canon, v) && v.words == words
  }

  /** An equality index lists a key under a value. */
  predicate Listed(forward: map<string, seq<bytes>>, value: string, key: bytes) {
    value in forward && key in forward[value]
  }

  /**
    What one index lists after the drain: the other documents as they are, and of the key that
    was missed, when there was and is a document that the index takes in, the old values that
    are not new ones, or, in a range index, all the old numbers.
   */
  ghost predicate LeftListed(x: Index, sk: Json -> string, rest: map<bytes, Json>, k: bytes, was: Option<Json>, doc: Option<Json>) {
    var over := was.Some? && doc.Some? && TakesIn(x, sk, doc.value);
    match x
    case Equality(info, forward, _) =>
      forall v, q :: Listed(forward, v, q) <==>
        || (q in rest && v in KeysOrNone(info, sk, rest[q]))
        || (q == k && over && v in KeysOrNone(info, sk, was.value) && v !in KeysOrNone(info, sk, doc.value))
    case Range(info, list, _) =>
      forall n, q :: (n, q) in list <==>
        || (q in rest && n in NumbersOf(info, rest[q]))
        || (q == k && over && n in NumbersOf(info, was.value))
  }

  ghost predicate AllLeftListed(f: Family, sk: Json -> string, plain: map<bytes, Json>, waiting: set<bytes>, k: bytes, doc: Option<Json>) {
    forall name :: name in f ==> LeftListed(f[name], sk, plain - (waiting + {k}), k, Lookup(plain, k), doc)
  }

  /**
    One recovered operation and the next drain.  Store and indexes agree afterwards if and only
    if the operation does not set a key that still waits to leave the indexes to a record with
    a share in them.  Otherwise the datetime, compound and text indexes have lost the key, and
    the equality and range indexes list it under old values.
   */
  method FollowAndDrain(db: Db, op: RecoveredOp, clock: (i64, i64))
    requires db.Valid()
    modifies db.store, db.derived.parts
    ensures db.Sound() && db.store.View() == FollowOne(old(db.store.View()), op, clock) && db.store.expired == []
    ensures Agree(db.rd, db.store.records, TablesIn(db.derived), db.derived.indexes.scalarKey, db.derived.compound.canon, db.derived.text.docs)
      <==> !(Misses(old(db.store.records), old(Gone(db.store.expired)), op, clock) && NewShare(db.rd, op) != NOTHING)
    ensures !Misses(old(db.store.records), old(Gone(db.store.expired)), op, clock) ==> db.Valid()
    ensures Misses(old(db.store.records), old(Gone(db.store.expired)), op, clock) ==>
      && op.key !in db.derived.datetimes.byKey && op.key !in db.derived.compound.docs && op.key !in db.derived.text.docs
      && AllLeftListed(db.derived.indexes.indexes, db.derived.indexes.scalarKey, old(db.derived.Shares()).plain, old(Gone(db.store.expired)), op.key, NewDocument(db.rd, op))
  {
    hide *;
    ValidParts(db);
    ViewIs(db.store);
    ghost var d, sk, canon := db.derived, db.derived.indexes.scalarKey, db.derived.compound.canon;
    ghost var s, m, waiting, v, family := db.store.View(), db.store.records, Gone(db.store.expired), d.Shares(), d.indexes.indexes;
    ghost var misses := Misses(m, waiting, op, clock);
    ApplyRecovered(db, op, clock);
    SoundDb(db);
    ghost var between, middle, kept := d.Shares(), d.indexes.indexes, d.indexes.kept;
    SoundParts(d);
    if misses && !WrittenOver(db.rd, v, op) {
      KeptClean(d);
    }
    db.Drain();
    SoundDb(db);
    SoundParts(d);
    ViewIs(db.store);
    if misses {
      MissedShares(db.rd, v, between, d.Shares(), op, waiting);
      AllLeft(db.rd, family, middle, d.indexes.indexes, d.plainShape, sk, kept, waiting, waiting + {op.key}, v, between, op);
      MissedRecord(s, waiting, op, clock, db.store.View(), db.rd);
      if NewShare(db.rd, op) == NOTHING {
        NoShareNotOver(db.rd, v, op);
        TablesFrom(d);
        StillConsistent(db.rd, m, waiting, v, d.Shares(), op, db.store.records);
        AgreeBy(db.rd, db.store.records, TablesIn(d), sk, canon, d.text.docs, d.Shares());
      } else {
        Disagree(db.rd, db.store.records, TablesIn(d), sk, canon, d.Shares(), op.key, NewShare(db.rd, op));
      }
    } else {
      ValidParts(db);
      TablesFrom(d);
      NothingWaits(db);
      AgreeBy(db.rd, db.store.records, TablesIn(d), sk, canon, d.text.docs, d.Shares());
    }
  }

  lemma ViewIs(store: Store)
    ensures store.View() == Stored(store.records, store.sequence)
  {
  }

  lemma SoundDb(db: Db)
    requires db.Sound()
    ensures db.derived.Sound()
  {
  }

  lemma ValidParts(db: Db)
    requires db.Valid()
    ensures db.derived.Valid() && db.derived.Sound() && db.store.Valid()
    ensures SameShape(db.derived.indexes.indexes, db.derived.plainShape)
    ensures Consistent(db.rd, db.store.records, Gone(db.store.expired), db.derived.Shares())
  {
    hide Consistent, Gone;
  }

  lemma SoundParts(d: Derived)
    requires d.Sound()
    ensures AllKeep(d.indexes.indexes, d.indexes.scalarKey, d.indexes.kept) && SameShape(d.indexes.indexes, d.plainShape)
    ensures DateTimes.IndexOk(d.datetimes.columns, d.Shares().stamps) && TablesIn(d).columns == d.datetimes.columns
    ensures d.Shares().stamps == d.datetimes.byKey && d.Shares().placed == d.compound.docs && d.Shares().words == d.text.docs
  {
    hide AllKeep, SameShape, DateTimes.IndexOk;
  }

  lemma KeptClean(d: Derived)
    requires d.Valid()
    ensures d.indexes.kept == AllClean(d.indexes.indexes, d.Shares().plain)
  {
    hide AllClean;
  }

  lemma NothingWaits(db: Db)
    requires db.Valid() && db.store.expired == []
    ensures Consistent(db.rd, db.store.records, {}, db.derived.Shares()) && db.derived.Shares().words == db.derived.text.docs
  {
    hide Consistent;
    assert Gone([]) == {};
  }

  lemma AgreeBy(rd: Readers, m: map<bytes, Record>, t: Tables, sk: Json -> string, canon: Json -> string, words: map<bytes, seq<bytes>>, v: View)
    requires Consistent(rd, m, {}, v) && TablesOf(t, sk, canon, v) && v.words == words
    ensures Agree(rd, m, t, sk, canon, words)
  {
    hide Consistent, TablesOf;
  }

  lemma MissedShares(rd: Readers, v: View, between: View, w: View, op: RecoveredOp, waiting: set<bytes>)
    requires Missed(rd, v, between, op) && LessThose(between, w, waiting + {op.key})
    ensures DerivedState.At(w, op.key) == NOTHING
    ensures op.key !in w.stamps && op.key !in w.placed && op.key !in w.words
    ensures forall x :: x != op.key ==> DerivedState.At(w, x) == if x in waiting then NOTHING else DerivedState.At(v, x)
    ensures between.plain - (waiting + {op.key}) == v.plain - (waiting + {op.key})
  {
    hide NewShare, NewDocument;
    assert DerivedState.At(w, op.key) == NOTHING;
    forall x | x != op.key
      ensures DerivedState.At(between, x) == DerivedState.At(v, x) && (x in between.plain <==> x in v.plain) && (x in v.plain ==> between.plain[x] == v.plain[x])
    {
      PlainAt(v, x);
      PlainAt(between, x);
    }
  }

  lemma MissedRecord(s: Stored, waiting: set<bytes>, op: RecoveredOp, clock: (i64, i64), t: Stored, rd: Readers)
    requires Misses(s.records, waiting, op, clock) && t == FollowOne(s, op, clock)
    ensures op.PutOp? && op.key in t.records && ShareOfRecord(rd, t.records[op.key]) == NewShare(rd, op)
    ensures forall x :: x != op.key ==> Lookup(t.records, x) == Lookup(s.records, x)
  {
  }

  lemma NoShareNotOver(rd: Readers, v: View, op: RecoveredOp)
    requires NewShare(rd, op) == NOTHING
    ensures !WrittenOver(rd, v, op)
  {
  }

  lemma StillConsistent(rd: Readers, m: map<bytes, Record>, waiting: set<bytes>, v: View, w: View, op: RecoveredOp, after: map<bytes, Record>)
    requires Consistent(rd, m, waiting, v) && NewShare(rd, op) == NOTHING && DerivedState.At(w, op.key) == NOTHING
    requires forall x :: x != op.key ==> DerivedState.At(w, x) == if x in waiting then NOTHING else DerivedState.At(v, x)
    requires op.key in after && ShareOfRecord(rd, after[op.key]) == NewShare(rd, op)
    requires forall x :: x != op.key ==> Lookup(after, x) == Lookup(m, x)
    ensures Consistent(rd, after, {}, w)
  {
    hide DerivedState.At, ShareOfRecord, NewShare;
    forall x
      ensures DerivedState.At(w, x) == ShareOfKey(rd, after, x)
    {
      if x != op.key {
        assert Lookup(after, x) == Lookup(m, x);
      }
    }
  }

  /** A live record has a share, and the datetime or the text index lacks it: no view of the records fits the indexes. */
  lemma Disagree(rd: Readers, m: map<bytes, Record>, t: Tables, sk: Json -> string, canon: Json -> string, w: View, k: bytes, share: KeyView)
    requires k in m && ShareOfRecord(rd, m[k]) == share != NOTHING && DerivedState.At(w, k) == NOTHING && DateTimes.IndexOk(t.columns, w.stamps)
    ensures !Agree(rd, m, t, sk, canon, w.words)
  {
    hide TablesOf;
    forall v | Consistent(rd, m, {}, v)
      ensures !(TablesOf(t, sk, canon, v) && v.words == w.words)
    {
      assert DerivedState.At(v, k) == ShareOfKey(rd, m, k);
      if share.words.Some? {
        assert k in v.words && k !in w.words;
      } else {
        assert share.stamps.Some? && k in v.stamps && v.stamps[k] != map[];
        StampLost(t, sk, canon, v, w, k);
      }
    }
  }

  lemma StampLost(t: Tables, sk: Json -> string, canon: Json -> string, v: View, w: View, k: bytes)
    requires k in v.stamps && v.stamps[k] != map[] && k !in w.stamps && DateTimes.IndexOk(t.columns, w.stamps)
    ensures !TablesOf(t, sk, canon, v)
  {
    hide DateTimes.ColumnsOk, AllReflect, CompoundIndexes.AllReflect;
    var n :| n in v.stamps[k];
    assert DateTimes.TimeAt(t.columns, n, k) == DateTimes.StampAt(w.stamps, n, k) == None;
    assert DateTimes.StampAt(v.stamps, n, k).Some?;
  }

  // --- what the equality and range indexes list -----------------------------------------------------

  lemma AllLeft(rd: Readers, f: Family, middle: Family, g: Family, shape: Family, sk: Json -> string, kept: map<string, Kept>, waiting: set<bytes>, gone: set<bytes>,
                v: View, between: View, op: RecoveredOp)
    requires SameShape(f, shape) && SameShape(middle, shape) && SameShape(g, shape) && AllKeep(g, sk, AllPruned(shape, sk, kept, gone))
    requires gone == waiting + {op.key} && between.plain - gone == v.plain - gone
    requires if WrittenOver(rd, v, op) then kept == AllOverlaid(f, sk, v.plain, op.key, NewDocument(rd, op).value) else kept == AllClean(middle, between.plain)
    ensures AllLeftListed(g, sk, v.plain, waiting, op.key, NewDocument(rd, op))
  {
    hide Keeps, LeftListed, Pruned, Overlaid, Clean, NewDocument;
    forall name | name in g
      ensures LeftListed(g[name], sk, v.plain - gone, op.key, Lookup(v.plain, op.key), NewDocument(rd, op))
    {
      var x := g[name];
      assert name in shape && name in kept && Keeps(x, sk, Pruned(x.info, sk, kept[name], gone));
      if WrittenOver(rd, v, op) {
        LeftOver(x, f[name], sk, v.plain, gone, op.key, NewDocument(rd, op).value);
      } else {
        LeftClean(x, sk, between.plain, gone, op.key, Lookup(v.plain, op.key), NewDocument(rd, op));
      }
    }
  }

  lemma LeftClean(x: Index, sk: Json -> string, docs: map<bytes, Json>, gone: set<bytes>, k: bytes, was: Option<Json>, doc: Option<Json>)
    requires Keeps(x, sk, Pruned(x.info, sk, Clean(docs), gone)) && !(was.Some? && doc.Some?)
    ensures LeftListed(x, sk, docs - gone, k, was, doc)
  {
    hide Inverse, Counts, KeysOf, NumbersOf, KeyMap, NumberMap, Pairs, Unlinked;
    assert {} - Unlinked(x.info, sk, docs, gone) == {};
    ListsKept(x, sk, Pruned(x.info, sk, Clean(docs), gone));
  }

  lemma LeftOver(x: Index, y: Index, sk: Json -> string, docs: map<bytes, Json>, gone: set<bytes>, k: bytes, doc: Json)
    requires x.info == y.info && x.Equality? == y.Equality? && k in docs && k in gone
    requires Keeps(x, sk, Pruned(x.info, sk, Overlaid(y, sk, docs, k, doc), gone))
    ensures LeftListed(x, sk, docs - gone, k, Some(docs[k]), Some(doc))
  {
    hide Inverse, Counts, KeysOf, NumbersOf, KeyMap, NumberMap, Pairs, Unlinked, Links, Keeps;
    var c := Pruned(x.info, sk, Overlaid(y, sk, docs, k, doc), gone);
    ListsKept(x, sk, c);
    assert docs[k := doc] - gone == docs - gone;
    forall v, q
      ensures (v, q) in Unlinked(x.info, sk, docs[k := doc], gone) <==> q in gone && q in docs[k := doc] && v in KeysOrNone(x.info, sk, docs[k := doc][q])
      ensures (v, q) in Links(KeysOrNone(x.info, sk, docs[k]), k) <==> q == k && v in KeysOrNone(x.info, sk, docs[k])
      ensures (v, q) in Unlinked(x.info, sk, docs, gone) <==> q in gone && q in docs && v in KeysOrNone(x.info, sk, docs[q])
    {
      UnlinkedHas(x.info, sk, docs[k := doc], gone, (v, q));
      UnlinkedHas(x.info, sk, docs, gone, (v, q));
      LinksAre(KeysOrNone(x.info, sk, docs[k]), k, v, q);
    }
    forall n, q
      ensures (n, q) in Links(NumbersOf(x.info, docs[k]), k) <==> q == k && n in NumbersOf(x.info, docs[k])
    {
      LinksAre(NumbersOf(x.info, docs[k]), k, n, q);
    }
  }

  /** What an index lists is what its documents have, and what it has forgotten or doubled. */
  lemma ListsKept(x: Index, sk: Json -> string, c: Kept)
    requires Keeps(x, sk, c)
    ensures x.Equality? ==> forall v, q :: Listed(x.forward, v, q) <==> (q in c.docs && v in KeysOrNone(x.info, sk, c.docs[q])) || (v, q) in c.stale
    ensures x.Range? ==> forall n, q :: (n, q) in x.list <==> (q in c.docs && n in NumbersOf(x.info, c.docs[q])) || c.doubled[(n, q)] > 0
  {
    hide KeysOf, NumbersOf, Sorted, NoDup;
    if x.Range? {
      forall n, q
        ensures (n, q) in x.list <==> (q in c.docs && n in NumbersOf(x.info, c.docs[q])) || c.doubled[(n, q)] > 0
      {
        assert (n, q) in x.list <==> multiset(x.list)[(n, q)] > 0;
      }
    }
  }

  // --- a run ----------------------------------------------------------------------------------

  function OneOrTwo(value: bytes): Option<Json> {
    Some(Number(if value == [1] then 1.0 else 2.0))
  }

  function NumberKey(v: Json): string {
    if v == Number(1.0) then "one" else "two"
  }

  /**
    A run from an empty database with an equality and a range index of whole documents.  The
    document 1.0 runs out at 10; at 20 its key is set to 2.0 for good.  After the next drain
    the record of 2.0 lives, no index lists it under its own value, and both list it under 1.0.
   */
  method StaleRun(key: bytes) returns (db: Db)
    ensures Lives(db.store.records, key, 20) && db.rd.document(ValueOf(db.rd, db.store.records[key].ref)) == Some(Number(2.0))
    ensures "equal" in db.derived.indexes.indexes && "range" in db.derived.indexes.indexes
    ensures var equal, range := db.derived.indexes.indexes["equal"], db.derived.indexes.indexes["range"];
      && equal.Equality? && Listed(equal.forward, "one", key) && !Listed(equal.forward, "two", key)
      && range.Range? && (1.0, key) in range.list && (2.0, key) !in range.list
  {
    hide *;
    var info := IndexInfo([], false, false);
    var family: Family := map["equal" := Equality(info, map[], map[]), "range" := Range(info, [], map[])];
    db := Fresh(family, Readers(OneOrTwo, _ => map[], _ => [], _ => []));
    var first, again := PutOp(key, Memory([1]), 10, None), PutOp(key, Memory([2]), 0, None);
    NothingMissed(db.store, first);
    FollowAndDrain(db, first, (5, 5));
    FirstSet(db, key, first, again);
    ValidParts(db);
    ghost var before, plain := db.store.View(), db.derived.Shares().plain;
    FollowAndDrain(db, again, (20, 20));
    SecondSet(before, db, again);
    StaleLists(db, plain, family, info, key);
  }

  /** An empty database with the given equality and range indexes. */
  method Fresh(family: Family, rd: Readers) returns (db: Db)
    ensures db.Valid() && db.rd == rd && db.store.View() == Stored(map[], 0) && db.store.expired == []
    ensures SameShape(db.derived.plainShape, family) && db.derived.indexes.scalarKey == NumberKey
    ensures fresh(db) && fresh(db.store) && fresh(db.derived) && fresh(db.derived.parts)
  {
    hide SameShape, AllReflect, DateTimes.IndexOk, Stores.Sound, TextIndexes.TextIndex.Valid, CompoundIndexes.AllReflect;
    var store := new Store();
    var indexes := new IndexManager(family, NumberKey);
    var datetimes := new DateTimes.DateTimeIndex();
    var compound := new CompoundIndexes.CompoundIndexManager(map[], NumberKey);
    var text := new TextIndexes.TextIndex(rd.tokens, false, 0);
    var derived := new Derived(indexes, datetimes, compound, text);
    NothingYet(rd);
    db := new Db(store, derived, rd);
  }

  lemma NothingYet(rd: Readers)
    ensures Consistent(rd, map[], Gone([]), View(map[], map[], map[], map[]))
  {
  }

  lemma NothingMissed(store: Store, op: RecoveredOp)
    requires store.View() == Stored(map[], 0) && store.expired == []
    ensures !Misses(store.records, Gone(store.expired), op, (5, 5))
  {
  }

  lemma FirstSet(db: Db, key: bytes, op: RecoveredOp, again: RecoveredOp)
    requires db.Valid() && db.store.expired == [] && db.rd.document == OneOrTwo
    requires op == PutOp(key, Memory([1]), 10, None) && again == PutOp(key, Memory([2]), 0, None)
    requires db.store.View() == FollowOne(Stored(map[], 0), op, (5, 5))
    ensures Lookup(db.derived.Shares().plain, key) == Some(Number(1.0)) && NewDocument(db.rd, again) == Some(Number(2.0))
    ensures Misses(db.store.records, Gone(db.store.expired), again, (20, 20)) && Gone(db.store.expired) == {}
  {
    hide Stores.Sound, Derived.Valid, Derived.Sound;
    assert db.store.View().records == map[key := Record(Memory([1]), 10, 1, None)];
    assert Gone([]) == {};
    PlainAt(db.derived.Shares(), key);
    assert DerivedState.At(db.derived.Shares(), key) == ShareOfKey(db.rd, db.store.records, key);
  }

  lemma SecondSet(s: Stored, db: Db, again: RecoveredOp)
    requires again.PutOp? && again.ref == Memory([2]) && again.expireAt == 0 && db.rd.document == OneOrTwo
    requires db.store.View() == FollowOne(s, again, (20, 20))
    ensures Lives(db.store.records, again.key, 20) && db.rd.document(ValueOf(db.rd, db.store.records[again.key].ref)) == Some(Number(2.0))
  {
  }

  lemma StaleLists(db: Db, plain: map<bytes, Json>, family: Family, info: IndexInfo, key: bytes)
    requires info == IndexInfo([], false, false) && db.Sound() && SameShape(db.derived.plainShape, family)
    requires family == map["equal" := Equality(info, map[], map[]), "range" := Range(info, [], map[])]
    requires Lookup(plain, key) == Some(Number(1.0))
    requires AllLeftListed(db.derived.indexes.indexes, NumberKey, plain, {}, key, Some(Number(2.0)))
    ensures "equal" in db.derived.indexes.indexes && "range" in db.derived.indexes.indexes
    ensures var equal, range := db.derived.indexes.indexes["equal"], db.derived.indexes.indexes["range"];
      && equal.Equality? && Listed(equal.forward, "one", key) && !Listed(equal.forward, "two", key)
      && range.Range? && (1.0, key) in range.list && (2.0, key) !in range.list
  {
    hide AllKeep, DateTimes.IndexOk, Stores.Sound, TextIndexes.TextIndex.Valid, CompoundIndexes.AllReflect, LeftListed;
    var g := db.derived.indexes.indexes;
    assert "equal" in family && "range" in family;
    StaleList(g["equal"], info, plain - ({} + {key}), key);
    StaleList(g["range"], info, plain - ({} + {key}), key);
  }

  lemma StaleList(x: Index, info: IndexInfo, rest: map<bytes, Json>, key: bytes)
    requires x.info == info == IndexInfo([], false, false) && key !in rest
    requires LeftListed(x, NumberKey, rest, key, Some(Number(1.0)), Some(Number(2.0)))
    ensures x.Equality? ==> Listed(x.forward, "one", key) && !Listed(x.forward, "two", key)
    ensures x.Range? ==> (1.0, key) in x.list && (2.0, key) !in x.list
  {
    hide Listed;
    OneTaken(info, 1.0);
    OneTaken(info, 2.0);
  }

  lemma OneTaken(info: IndexInfo, n: real)
    requires info == IndexInfo([], false, false)
    ensures KeysOf(info, NumberKey, Number(n)) == Some([NumberKey(Number(n))]) && NumbersOf(info, Number(n)) == [n]
  {
    assert [Number(n)][1..] == [] && [Number(n)][..0] == [];
    assert ScalarKeys(NumberKey, [Number(n)]) == [NumberKey(Number(n))];
    assert DistinctNumbers([]) == [];
  }
}
