/** Applying a batch to the store and the indexes, and rolling it back when logging fails (`minidb.rs`). */
module Rollback {
  import opened Wrappers
  import opened Bytes
  import opened Json
  import opened Changes
  import opened Records
  import opened Stores
  import opened DerivedState
  import opened Answers
  import opened IndexManagers
  import DateTimes

  /** How values and metadata are read: the document in a value, the datetimes in metadata, the value behind a reference. */
  datatype Readers = Readers(document: bytes -> Option<Json>, stamps: bytes -> DateTimes.Stamps, read: ValueLoc -> bytes, tokens: Json -> seq<bytes>)

  function ValueOf(rd: Readers, ref: ValueRef): bytes {
    if ref.Memory? then ref.value else rd.read(ref.loc)
  }

  function StampsOf(rd: Readers, meta: Option<bytes>): Option<DateTimes.Stamps> {
    if meta.Some? then Some(rd.stamps(meta.value)) else None
  }

  /** The share that a record has in the indexes. */
  function ShareOfRecord(rd: Readers, r: Record): KeyView {
    ShareOf(rd.document(ValueOf(rd, r.ref)), StampsOf(rd, r.meta), rd.tokens)
  }

  function ShareOfKey(rd: Readers, m: map<bytes, Record>, k: bytes): KeyView {
    if k in m then ShareOfRecord(rd, m[k]) else NOTHING
  }

  ghost function Gone(expired: seq<(bytes, Record)>): set<bytes> {
    set e | e in expired :: e.0
  }

  /** Every record has its share, and no other key has one, except what has run out and still waits. */
  ghost predicate Consistent(rd: Readers, m: map<bytes, Record>, waiting: set<bytes>, v: View) {
    && (forall k :: k !in waiting ==> At(v, k) == ShareOfKey(rd, m, k))
    && forall k :: k in waiting ==> k !in m
  }

  /** A record but for its sequence. */
  datatype Content = Content(ref: ValueRef, expireAt: i64, meta: Option<bytes>)

  function ContentOf(m: map<bytes, Record>, k: bytes): Option<Content> {
    if k in m then Some(Content(m[k].ref, m[k].expireAt, m[k].meta)) else None
  }

  function LiveContent(m: map<bytes, Record>, k: bytes, now: i64): Option<Content> {
    if Lives(m, k, now) then ContentOf(m, k) else None
  }

  function SequenceOf(m: map<bytes, Record>, k: bytes): Option<nat> {
    if k in m then Some(m[k].sequence) else None
  }

  class Db {
    const store: Store
    const derived: Derived
    const rd: Readers

    ghost predicate Sound()
      reads this, store, derived, derived.parts
    {
      store !in derived.parts && derived.text.tokens == rd.tokens && store.Valid() && derived.Sound()
    }

    ghost predicate Valid()
      reads this, store, derived, derived.parts
      ensures Valid() ==> Sound()
    {
      Sound() && derived.Valid() && Consistent(rd, store.records, Gone(store.expired), derived.Shares())
    }

    constructor (store: Store, derived: Derived, rd: Readers)
      requires store !in derived.parts && derived.text.tokens == rd.tokens && store.Valid() && derived.Valid()
      requires Consistent(rd, store.records, Gone(store.expired), derived.Shares())
      ensures Valid() && this.store == store && this.derived == derived && this.rd == rd
    {
      this.store, this.derived, this.rd := store, derived, rd;
    }

    /** `drain_expired`: what has run out leaves the indexes, as far as they still know what they have under it. */
    method Drain()
      requires Sound()
      modifies store, derived.parts
      ensures Sound() && store.expired == [] && store.View() == old(store.View())
      ensures LessThose(old(derived.Shares()), derived.Shares(), Gone(old(store.expired)))
      ensures derived.indexes.kept == AllPruned(derived.plainShape, derived.indexes.scalarKey, old(derived.indexes.kept), Gone(old(store.expired)))
      ensures old(derived.Valid()) ==> derived.Valid()
      ensures old(Valid()) ==> Valid()
    {
      hide Stores.Sound, DerivedState.At, ShareOfKey, Gone, OnlyAt, LessThose, Consistent, AllPruned;
      ghost var kept, before, shape, sk := derived.indexes.kept, derived.Shares(), derived.plainShape, derived.indexes.scalarKey;
      ghost var m, was, consistent := store.records, store.expired, Consistent(rd, store.records, Gone(store.expired), derived.Shares());
      var taken := store.TakeExpired();
      GoneNone(before);
      KeptAtFirst(derived);
      for i := 0 to |taken|
        invariant Sound() && store.expired == [] && store.View() == old(store.View())
        invariant LessThose(before, derived.Shares(), Gone(taken[..i]))
        invariant derived.indexes.kept == AllPruned(shape, sk, kept, Gone(taken[..i]))
        invariant old(derived.Valid()) ==> derived.Valid()
      {
        GoneStep(taken, i);
        ghost var between, family := derived.Shares(), derived.indexes.indexes;
        ghost var left := derived.indexes.kept;
        ShapeOf(derived);
        PrunedShape(family, shape, sk, left, {taken[i].0});
        AllPrunedOneMore(shape, sk, kept, Gone(taken[..i]), taken[i].0);
        derived.ApplyDelete(taken[i].0);
        LessOne(before, between, derived.Shares(), Gone(taken[..i]), taken[i].0);
      }
      assert taken[..|taken|] == taken;
      if consistent {
        AllDrained(rd, store.records, taken, before, derived.Shares());
      }
    }

    /** A record that has run out goes, from the indexes too. */
    method ForgetExpired(key: bytes, now: i64)
      requires Valid()
      modifies store, derived.parts
      ensures Valid() && store.expired == [] && store.View() == old(store.View()).Reap(key, now)
    {
      hide Stores.Sound, Consistent, DerivedState.At, Stored.Reap;
      Drain();
      ghost var before := store.View();
      var _ := store.ExpireIfNeeded(key, now);
      ReapConsistent(rd, before, derived.Shares(), key, now, store.expired);
      Drain();
    }

    /** `apply_operation`: what it returns is what a rollback needs. */
    method ApplyOperation(op: Op, now: i64) returns (previous: Option<Record>, sequence: Option<nat>)
      requires Valid()
      modifies store, derived.parts
      ensures Valid() && store.expired == []
      ensures store.View() == ApplyOne(old(store.View()), Applied(op))
      ensures previous == if Lives(old(store.records), op.key, now) then Some(old(store.records)[op.key]) else None
      ensures sequence == SequenceOf(store.records, op.key)
    {
      hide Stores.Sound, Consistent, DerivedState.At, ShareOf, ShareOfRecord, OnlyAt;
      ghost var before := store.View();
      ForgetExpired(op.key, now);
      ReapIsSilent(before, op, now);
      ReapLeaves(before, op.key, now);
      previous := if op.key in store.records then Some(store.records[op.key]) else None;
      if op.Set? {
        SetNow(op.key, op.value, op.expireAt, op.meta);
      } else {
        DelNow(op.key);
      }
      sequence := SequenceOf(store.records, op.key);
    }

    method SetNow(key: bytes, value: bytes, expireAt: i64, meta: Option<bytes>)
      requires Valid() && store.expired == []
      modifies store, derived.parts
      ensures Valid() && store.expired == [] && store.View() == old(store.View()).Put(key, ValueRef.Memory(value), expireAt, meta)
    {
      hide Stores.Sound, Consistent, DerivedState.At, ShareOf, OnlyAt, AllOverlaid, Derived.Valid, Derived.Sound;
      ghost var m, v := store.records, derived.Shares();
      var had := key in store.records && rd.document(ValueOf(rd, store.records[key].ref)).Some?;
      HadDocument(rd, m, v, key);
      store.SetRef(key, ValueRef.Memory(value), expireAt, meta);
      WholeShare(rd.document(value), StampsOf(rd, meta), rd.tokens);
      derived.ApplySet(key, had, rd.document(value), StampsOf(rd, meta));
      PutConsistent(rd, m, v, key, store.records[key], derived.Shares());
    }

    method DelNow(key: bytes)
      requires Valid() && store.expired == []
      modifies store, derived.parts
      ensures Valid() && store.expired == [] && store.View() == old(store.View()).Drop(key)
    {
      hide Stores.Sound, Consistent, DerivedState.At, ShareOf, OnlyAt;
      ghost var m, v := store.records, derived.Shares();
      var existed := store.Del(key);
      if existed {
        derived.ApplyDelete(key);
      }
      DropConsistent(rd, m, v, key, derived.Shares());
    }

    /** `restore_key`: puts back what was there, unless somebody has written the key since. */
    method RestoreKey(key: bytes, previous: Option<Record>, applied: Option<nat>, now: i64)
      requires Valid() && store.expired == []
      requires previous.Some? ==> !Expired(previous.value.expireAt, now)
      modifies store, derived.parts
      ensures Valid() && store.expired == []
      ensures SequenceOf(old(store.records), key) != applied ==> store.View() == old(store.View())
      ensures SequenceOf(old(store.records), key) == applied ==>
        store.View() == if previous.Some? then old(store.View()).Put(key, previous.value.ref, previous.value.expireAt, previous.value.meta) else old(store.View()).Drop(key)
    {
      hide Stores.Sound, Consistent, DerivedState.At, OnlyAt, AllPruned, Derived.Valid, Derived.Sound;
      if SequenceOf(store.records, key) != applied {
        return;
      }
      if previous.Some? {
        PutBack(key, previous.value, now);
      } else {
        ghost var m, v := store.records, derived.Shares();
        derived.ApplyDelete(key);
        DropConsistent(rd, m, v, key, derived.Shares());
        var _ := store.Del(key);
      }
    }

    method PutBack(key: bytes, p: Record, now: i64)
      requires Valid() && store.expired == [] && !Expired(p.expireAt, now)
      modifies store, derived.parts
      ensures Valid() && store.expired == []
      ensures store.View() == old(store.View()).Put(key, p.ref, p.expireAt, p.meta)
    {
      hide Stores.Sound, Consistent, DerivedState.At, ShareOf, OnlyAt;
      ghost var m, v := store.records, derived.Shares();
      derived.ApplyDelete(key);
      ghost var w := derived.Shares();
      NoDocument(v, w, key);
      var doc := StoreBack(key, p, now);
      WholeShare(doc, StampsOf(rd, p.meta), rd.tokens);
      derived.ApplySet(key, false, doc, StampsOf(rd, p.meta));
      BackConsistent(rd, m, v, w, derived.Shares(), key, store.records[key]);
    }

    method StoreBack(key: bytes, p: Record, now: i64) returns (doc: Option<Json>)
      requires store.Valid() && !Expired(p.expireAt, now)
      modifies store
      ensures store.Valid() && store.expired == old(store.expired)
      ensures store.View() == old(store.View()).Put(key, p.ref, p.expireAt, p.meta)
      ensures doc == rd.document(ValueOf(rd, p.ref))
    {
      hide Sound;
      store.SetRef(key, p.ref, p.expireAt, p.meta);
      doc := ReadBack(key, now);
    }

    /**
      `batch` from its first effect on.  If the log takes the batch, every operation has been
      applied.  If logging fails, every key has the value, expiry and datetimes it had, though
      the batch may have written it several times, and every share of the indexes is as before,
      those of keys the batch introduced are gone again; only shares of what had run out before
      may be missing.  If nothing had, every index answers as before.
     */
    method Batch(ops: seq<Op>, now: i64, logged: bool)
      requires Valid()
      modifies store, derived.parts
      ensures Valid()
      ensures logged ==> store.View() == ApplyAll(old(store.View()), AppliedOps(ops))
      ensures !logged ==> forall k ::
        && LiveContent(store.records, k, now) == LiveContent(old(store.records), k, now)
        && (k !in Written(ops) ==> Lookup(store.records, k) == Lookup(old(store.records), k))
      ensures !logged ==> SharesBack(old(store.records), old(Gone(store.expired)), old(derived.Shares()), derived.Shares(), ops, now)
      ensures !logged && NoneRunOut(old(store.records), old(Gone(store.expired)), ops, now) ==>
        AnswerAlike(old(TablesIn(derived)), TablesIn(derived)) && derived.text.docs == old(derived.text.docs)
    {
      hide Stores.Sound, Consistent, DerivedState.At, ApplyOne, ApplyAll, AppliedOps, LiveContent, SharesBack, NoneRunOut, AnswerAlike, TablesOf, SameDefinitions, Remembers, Restored;
      ghost var start, shares, waiting, tables := store.View(), derived.Shares(), Gone(store.expired), TablesIn(derived);
      TablesFrom(derived);
      if ops == [] {
        NothingWritten(start, waiting, shares, now);
        DefinitionsStay(tables, tables, Defined(derived));
        SharesDecide(tables, tables, derived.indexes.scalarKey, derived.compound.canon, shares);
        return;
      }
      var previous, sequences := ApplyBatch(ops, now);
      if logged {
        return;
      }
      RemembersStart(previous, ops, start.records, store.records, now);
      RollBack(ops, previous, sequences, now, start.records);
      RestoredAll(rd, ops, previous, start.records, waiting, shares, store.records, derived.Shares(), now);
      TablesFrom(derived);
      if NoneRunOut(start.records, waiting, ops, now) {
        NothingLost(start.records, waiting, shares, derived.Shares(), ops, now);
        DefinitionsStay(tables, TablesIn(derived), Defined(derived));
        SharesDecide(tables, TablesIn(derived), derived.indexes.scalarKey, derived.compound.canon, shares);
      }
    }

    /** Applies the operations, keeping for each key the record it had first and the sequence it has last. */
    method ApplyBatch(ops: seq<Op>, now: i64) returns (previous: map<bytes, Option<Record>>, sequences: map<bytes, Option<nat>>)
      requires Valid()
      modifies store, derived.parts
      ensures Valid() && (ops != [] ==> store.expired == [])
      ensures store.View() == ApplyAll(old(store.View()), AppliedOps(ops))
      ensures Remembers(previous, ops, old(store.records), store.records, now)
      ensures sequences.Keys == Written(ops) && forall k :: k in sequences ==> sequences[k] == SequenceOf(store.records, k)
    {
      hide Stores.Sound, Consistent, DerivedState.At, ApplyOne, Remembers, AppliedOps, ApplyAll;
      previous := map[];
      ghost var start := store.View();
      NothingApplied(ops, start, now);
      for i := 0 to |ops|
        invariant Valid() && (i > 0 ==> store.expired == [])
        invariant store.View() == ApplyAll(start, AppliedOps(ops[..i]))
        invariant Remembers(previous, ops[..i], start.records, store.records, now)
      {
        ghost var before := store.View();
        OneMoreApplied(ops, i, start);
        var record, _ := ApplyOperation(ops[i], now);
        RemembersMore(previous, ops, i, start.records, before, record, now);
        if ops[i].key !in previous {
          previous := previous[ops[i].key := record];
        }
      }
      assert ops[..|ops|] == ops;
      RemembersKeys(previous, ops, start.records, store.records, now);
      sequences := map k | k in previous :: SequenceOf(store.records, k);
    }

    method RollBack(ghost ops: seq<Op>, previous: map<bytes, Option<Record>>, sequences: map<bytes, Option<nat>>, now: i64, ghost start: map<bytes, Record>)
      requires Valid() && (ops != [] ==> store.expired == [])
      requires Remembers(previous, ops, start, store.records, now)
      requires sequences.Keys == Written(ops) && forall k :: k in sequences ==> sequences[k] == SequenceOf(store.records, k)
      modifies store, derived.parts
      ensures Valid() && Restored(previous, ops, start, store.records, {}) && (ops != [] ==> store.expired == [])
    {
      hide Stores.Sound, Consistent, DerivedState.At, Remembers, Restored, Expired;
      RemembersKeys(previous, ops, start, store.records, now);
      NothingRestored(previous, ops, start, store.records, now);
      var todo := previous.Keys;
      ghost var applied := store.records;
      while todo != {}
        invariant todo <= previous.Keys && Valid() && (ops != [] ==> store.expired == [])
        invariant Restored(previous, ops, start, store.records, todo)
        invariant forall k :: k in todo ==> Lookup(store.records, k) == Lookup(applied, k)
        decreases |todo|
      {
        var k :| k in todo;
        RemembersOne(previous, ops, start, applied, now, k);
        ghost var before := store.View();
        RestoreKey(k, previous[k], sequences[k], now);
        RestoredOne(previous, ops, start, before, todo, k);
        todo := todo - {k};
      }
    }

    /** The document of a live record. */
    method ReadBack(key: bytes, now: i64) returns (doc: Option<Json>)
      requires store.Valid() && Lives(store.records, key, now)
      modifies store
      ensures store.Valid() && store.View() == old(store.View()) && store.expired == old(store.expired)
      ensures doc == rd.document(ValueOf(rd, store.records[key].ref))
    {
      hide Sound;
      var got := store.Get(key, now, (l: ValueLoc) => Ok(rd.read(l)));
      doc := rd.document(got.value.value);
    }
  }

  /** For each key written so far: the record it had at the start, if that could still be seen; other keys are untouched. */
  ghost predicate Remembers(previous: map<bytes, Option<Record>>, ops: seq<Op>, start: map<bytes, Record>, m: map<bytes, Record>, now: i64) {
    && previous.Keys == Written(ops)
    && (forall k :: k in previous ==> previous[k] == if Lives(start, k, now) then Some(start[k]) else None)
    && forall k :: k !in previous ==> Lookup(m, k) == Lookup(start, k)
  }

  lemma NothingApplied(ops: seq<Op>, s: Stored, now: i64)
    ensures ApplyAll(s, AppliedOps(ops[..0])) == s && Remembers(map[], ops[..0], s.records, s.records, now)
  {
  }

  lemma OneMoreApplied(ops: seq<Op>, i: nat, s: Stored)
    requires i < |ops|
    ensures ApplyAll(s, AppliedOps(ops[..i + 1])) == ApplyOne(ApplyAll(s, AppliedOps(ops[..i])), Applied(ops[i]))
  {
    hide ApplyOne, Applied;
    var all := AppliedOps(ops[..i + 1]);
    assert all[..i] == AppliedOps(ops[..i]);
  }

  lemma RemembersMore(previous: map<bytes, Option<Record>>, ops: seq<Op>, i: nat, start: map<bytes, Record>, before: Stored, record: Option<Record>, now: i64)
    requires i < |ops| && Remembers(previous, ops[..i], start, before.records, now)
    requires record == if Lives(before.records, ops[i].key, now) then Some(before.records[ops[i].key]) else None
    ensures var k := ops[i].key;
      Remembers(if k in previous then previous else previous[k := record], ops[..i + 1], start, ApplyOne(before, Applied(ops[i])).records, now)
  {
    hide ApplyOne, Applied, Lives;
    var k := ops[i].key;
    assert Written(ops[..i + 1]) == Written(ops[..i]) + {k} by { assert ops[..i + 1] == ops[..i] + [ops[i]]; }
    forall x | x != k
      ensures Lookup(ApplyOne(before, Applied(ops[i])).records, x) == Lookup(before.records, x)
    {
      AppliedElsewhere(before, ops[i], x);
    }
    if k !in previous {
      SameLife(before.records, start, k, now);
    }
  }

  lemma AppliedElsewhere(s: Stored, op: Op, x: bytes)
    requires x != op.key
    ensures Lookup(ApplyOne(s, Applied(op)).records, x) == Lookup(s.records, x)
  {
  }

  lemma SameLife(m: map<bytes, Record>, n: map<bytes, Record>, k: bytes, now: i64)
    requires Lookup(m, k) == Lookup(n, k)
    ensures Lives(m, k, now) == Lives(n, k, now)
    ensures Lives(m, k, now) ==> k in m && k in n && m[k] == n[k]
  {
  }

  lemma RemembersKeys(previous: map<bytes, Option<Record>>, ops: seq<Op>, start: map<bytes, Record>, m: map<bytes, Record>, now: i64)
    requires Remembers(previous, ops, start, m, now)
    ensures previous.Keys == Written(ops) && (previous.Keys != {} ==> ops != [])
  {
  }

  lemma RemembersStart(previous: map<bytes, Option<Record>>, ops: seq<Op>, start: map<bytes, Record>, m: map<bytes, Record>, now: i64)
    requires Remembers(previous, ops, start, m, now)
    ensures forall k :: k in previous ==> previous[k] == if Lives(start, k, now) then Some(start[k]) else None
  {
  }

  lemma RemembersOne(previous: map<bytes, Option<Record>>, ops: seq<Op>, start: map<bytes, Record>, m: map<bytes, Record>, now: i64, k: bytes)
    requires Remembers(previous, ops, start, m, now) && k in previous
    ensures k in Written(ops) && ops != []
    ensures previous[k].Some? ==> !Expired(previous[k].value.expireAt, now)
  {
  }

  /** Keys that are done have what they had; untouched keys have their records. */
  ghost predicate Restored(previous: map<bytes, Option<Record>>, ops: seq<Op>, start: map<bytes, Record>, m: map<bytes, Record>, todo: set<bytes>) {
    && previous.Keys == Written(ops)
    && (forall k :: k in previous && k !in todo ==> ContentOf(m, k) == (if previous[k].Some? then Some(Content(previous[k].value.ref, previous[k].value.expireAt, previous[k].value.meta)) else None))
    && forall k :: k !in previous ==> Lookup(m, k) == Lookup(start, k)
  }

  lemma NothingRestored(previous: map<bytes, Option<Record>>, ops: seq<Op>, start: map<bytes, Record>, m: map<bytes, Record>, now: i64)
    requires Remembers(previous, ops, start, m, now)
    ensures Restored(previous, ops, start, m, previous.Keys)
  {
  }

  lemma RestoredOne(previous: map<bytes, Option<Record>>, ops: seq<Op>, start: map<bytes, Record>, before: Stored, todo: set<bytes>, k: bytes)
    requires Restored(previous, ops, start, before.records, todo) && k in previous
    ensures var p := previous[k];
      Restored(previous, ops, start, (if p.Some? then before.Put(k, p.value.ref, p.value.expireAt, p.value.meta) else before.Drop(k)).records, todo - {k})
  {
  }

  /** The shares after a rollback: as before, but for those of keys that had run out. */
  ghost predicate SharesBack(start: map<bytes, Record>, waiting: set<bytes>, v: View, w: View, ops: seq<Op>, now: i64) {
    forall k :: DerivedState.At(w, k) ==
      if ops != [] && (k in waiting || (k in Written(ops) && k in start && Expired(start[k].expireAt, now))) then NOTHING
      else DerivedState.At(v, k)
  }

  /** Nothing waits to leave the indexes, and no key written had run out. */
  ghost predicate NoneRunOut(start: map<bytes, Record>, waiting: set<bytes>, ops: seq<Op>, now: i64) {
    waiting == {} && forall k :: k in Written(ops) && k in start ==> !Expired(start[k].expireAt, now)
  }

  lemma NothingWritten(s: Stored, waiting: set<bytes>, v: View, now: i64)
    ensures SharesBack(s.records, waiting, v, v, [], now) && ApplyAll(s, AppliedOps([])) == s
  {
  }

  lemma NothingLost(start: map<bytes, Record>, waiting: set<bytes>, v: View, w: View, ops: seq<Op>, now: i64)
    requires SharesBack(start, waiting, v, w, ops, now) && NoneRunOut(start, waiting, ops, now)
    ensures v == w
  {
    hide DerivedState.At;
    SameAtEveryKey(v, w);
  }

  /** Everything restored: documents, shares of live keys, and none left of keys that were not there. */
  lemma RestoredAll(rd: Readers, ops: seq<Op>, previous: map<bytes, Option<Record>>, start: map<bytes, Record>, waiting: set<bytes>, v: View,
                    m: map<bytes, Record>, w: View, now: i64)
    requires ops != [] && Consistent(rd, start, waiting, v) && Consistent(rd, m, Gone([]), w)
    requires Restored(previous, ops, start, m, {})
    requires forall x :: x in previous ==> previous[x] == if Lives(start, x, now) then Some(start[x]) else None
    ensures forall k ::
      && LiveContent(m, k, now) == LiveContent(start, k, now)
      && (k !in Written(ops) ==> Lookup(m, k) == Lookup(start, k))
    ensures SharesBack(start, waiting, v, w, ops, now)
  {
    hide DerivedState.At, ShareOf, Written, LiveContent, Restored, Consistent, ShareOfRecord;
    forall k
      ensures LiveContent(m, k, now) == LiveContent(start, k, now)
      ensures k !in Written(ops) ==> Lookup(m, k) == Lookup(start, k)
      ensures DerivedState.At(w, k) ==
        if k in waiting || (k in Written(ops) && k in start && Expired(start[k].expireAt, now)) then NOTHING else DerivedState.At(v, k)
    {
      RestoredLive(ops, previous, start, m, now, k);
      RestoredContent(ops, previous, start, m, now, k);
      RestoredShare(rd, start, waiting, v, m, w, ops, k, now);
    }
  }

  lemma RestoredContent(ops: seq<Op>, previous: map<bytes, Option<Record>>, start: map<bytes, Record>, m: map<bytes, Record>, now: i64, k: bytes)
    requires Restored(previous, ops, start, m, {})
    requires forall x :: x in previous ==> previous[x] == if Lives(start, x, now) then Some(start[x]) else None
    ensures k !in Written(ops) ==> Lookup(m, k) == Lookup(start, k)
    ensures k in Written(ops) ==> ContentOf(m, k) == LiveContent(start, k, now)
  {
  }

  lemma RestoredShare(rd: Readers, start: map<bytes, Record>, waiting: set<bytes>, v: View, m: map<bytes, Record>, w: View, ops: seq<Op>, k: bytes, now: i64)
    requires Consistent(rd, start, waiting, v) && Consistent(rd, m, Gone([]), w)
    requires k !in Written(ops) ==> Lookup(m, k) == Lookup(start, k)
    requires k in Written(ops) ==> ContentOf(m, k) == LiveContent(start, k, now)
    ensures DerivedState.At(w, k) ==
      if k in waiting || (k in Written(ops) && k in start && Expired(start[k].expireAt, now)) then NOTHING else DerivedState.At(v, k)
  {
    hide DerivedState.At, ShareOf, Written;
    assert k !in Gone([]);
  }

  lemma RestoredLive(ops: seq<Op>, previous: map<bytes, Option<Record>>, start: map<bytes, Record>, m: map<bytes, Record>, now: i64, k: bytes)
    requires Restored(previous, ops, start, m, {})
    requires forall x :: x in previous ==> previous[x] == if Lives(start, x, now) then Some(start[x]) else None
    ensures LiveContent(m, k, now) == LiveContent(start, k, now)
  {
    if k !in previous {
      assert Lookup(m, k) == Lookup(start, k);
    }
  }

  lemma ReapConsistent(rd: Readers, s: Stored, v: View, k: bytes, now: i64, expired: seq<(bytes, Record)>)
    requires Consistent(rd, s.records, Gone([]), v)
    requires expired == if k in s.records && Expired(s.records[k].expireAt, now) then [(k, s.records[k])] else []
    ensures Consistent(rd, s.Reap(k, now).records, Gone(expired), v)
  {
    hide ShareOfRecord, DerivedState.At;
  }

  lemma ReapLeaves(s: Stored, k: bytes, now: i64)
    ensures k in s.Reap(k, now).records <==> Lives(s.records, k, now)
    ensures Lives(s.records, k, now) ==> s.Reap(k, now).records[k] == s.records[k]
  {
  }

  lemma HadDocument(rd: Readers, m: map<bytes, Record>, v: View, k: bytes)
    requires Consistent(rd, m, Gone([]), v)
    ensures DerivedState.At(v, k).plain.Some? <==> k in m && rd.document(ValueOf(rd, m[k].ref)).Some?
  {
    assert k !in Gone([]);
  }

  lemma NoDocument(v: View, w: View, k: bytes)
    requires OnlyAt(v, w, k, NOTHING)
    ensures DerivedState.At(w, k).plain.None?
  {
  }

  lemma BackConsistent(rd: Readers, m: map<bytes, Record>, v: View, w: View, x: View, k: bytes, r: Record)
    requires Consistent(rd, m, Gone([]), v) && OnlyAt(v, w, k, NOTHING) && OnlyAt(w, x, k, ShareOfRecord(rd, r))
    ensures Consistent(rd, m[k := r], Gone([]), x)
  {
    hide Consistent, OnlyAt, ShareOfRecord;
    DropConsistent(rd, m, v, k, w);
    PutConsistent(rd, m - {k}, w, k, r, x);
    assert (m - {k})[k := r] == m[k := r];
  }

  lemma PutConsistent(rd: Readers, m: map<bytes, Record>, v: View, k: bytes, r: Record, w: View)
    requires Consistent(rd, m, Gone([]), v) && OnlyAt(v, w, k, ShareOfRecord(rd, r))
    ensures Consistent(rd, m[k := r], Gone([]), w)
  {
    hide ShareOfRecord, DerivedState.At;
  }

  /** The key's share is gone, or it never had one. */
  lemma DropConsistent(rd: Readers, m: map<bytes, Record>, v: View, k: bytes, w: View)
    requires Consistent(rd, m, Gone([]), v) && (OnlyAt(v, w, k, NOTHING) || (v == w && k !in m))
    ensures Consistent(rd, m - {k}, Gone([]), w)
  {
    hide ShareOfRecord, DerivedState.At;
  }

  lemma GoneStep(taken: seq<(bytes, Record)>, i: nat)
    requires i < |taken|
    ensures Gone(taken[..i + 1]) == Gone(taken[..i]) + {taken[i].0} && Gone(taken[..0]) == {}
  {
    assert forall e :: e in taken[..i + 1] <==> e in taken[..i] || e == taken[i];
  }

  /** The shares of these keys are gone, all others are as before. */
  ghost predicate LessThose(v: View, w: View, gone: set<bytes>) {
    forall k :: DerivedState.At(w, k) == if k in gone then NOTHING else DerivedState.At(v, k)
  }

  lemma ShapeOf(d: Derived)
    requires d.Sound()
    ensures SameShape(d.plainShape, d.indexes.indexes)
  {
  }

  lemma KeptAtFirst(d: Derived)
    requires d.Sound()
    ensures AllPruned(d.plainShape, d.indexes.scalarKey, d.indexes.kept, {}) == d.indexes.kept
  {
    hide AllKeep;
    AllPrunedNone(d.plainShape, d.indexes.scalarKey, d.indexes.kept);
  }

  lemma GoneNone(v: View)
    ensures LessThose(v, v, Gone([])) && Gone([]) == {}
  {
  }

  lemma LessOne(v: View, w: View, x: View, gone: set<bytes>, k: bytes)
    requires LessThose(v, w, gone) && OnlyAt(w, x, k, NOTHING)
    ensures LessThose(v, x, gone + {k})
  {
    hide DerivedState.At;
  }

  lemma AllDrained(rd: Readers, m: map<bytes, Record>, taken: seq<(bytes, Record)>, before: View, after: View)
    requires Consistent(rd, m, Gone(taken), before) && LessThose(before, after, Gone(taken))
    ensures Consistent(rd, m, Gone([]), after)
    ensures forall k :: k !in Gone(taken) ==> DerivedState.At(after, k) == DerivedState.At(before, k)
  {
    hide DerivedState.At;
  }
}
