/** The memory limit of `minidb.rs`: what a write will take, and which keys go to make room. */
module Memory {
  import opened Wrappers
  import opened Bytes
  import opened Changes
  import opened Records
  import opened Accounts
  import opened Stores

  datatype Policy = Reject | EvictLru

  datatype MemoryError = MaxMemory(projected: nat, maximum: nat)

  // --- the order of use ---------------------------------------------------------------------

  function LastUse(uses: seq<bytes>, k: bytes): (i: int)
    ensures -1 <= i < |uses|
    ensures k in uses <==> i >= 0
    ensures (i >= 0 ==> uses[i] == k) && forall j :: i < j < |uses| ==> uses[j] != k
  {
    if uses == [] then -1
    else if uses[|uses| - 1] == k then |uses| - 1
    else LastUse(uses[..|uses| - 1], k)
  }

  /** The access list runs from the key used longest ago to the one used last, each once. */
  ghost predicate ByUse(access: seq<bytes>, uses: seq<bytes>) {
    forall i, j :: 0 <= i < j < |access| ==> LastUse(uses, access[i]) < LastUse(uses, access[j])
  }

  lemma {:induction false} WithoutByUse(access: seq<bytes>, uses: seq<bytes>, k: bytes)
    requires ByUse(access, uses)
    ensures ByUse(Without(access, k), uses)
  {
    if access != [] {
      var rest := Without(access[1..], k);
      WithoutByUse(access[1..], uses, k);
      forall j | 0 <= j < |rest|
        ensures LastUse(uses, access[0]) < LastUse(uses, rest[j])
      {
        assert rest[j] in access[1..];
        var i :| 0 <= i < |access[1..]| && access[1..][i] == rest[j];
        assert access[i + 1] == rest[j];
      }
    }
  }

  lemma TouchByUse(access: seq<bytes>, uses: seq<bytes>, k: bytes)
    requires ByUse(access, uses)
    ensures ByUse(Without(access, k) + [k], uses + [k])
  {
    var r, after := Without(access, k), uses + [k];
    WithoutByUse(access, uses, k);
    assert after[..|uses|] == uses;
    forall i | 0 <= i < |r|
      ensures LastUse(after, r[i]) == LastUse(uses, r[i])
    {
      assert r[i] in r;
    }
  }

  // --- what a write will take -----------------------------------------------------------------

  function RecordBytes(m: map<bytes, Record>, k: bytes): nat {
    if k in m then RecordSize(k, m[k]) else 0
  }

  /** An operation as it ends up: values in memory, or on disk once they are published. */
  function AtRest(op: Op, mode: ValueMode): RecoveredOp {
    match op
    case Del(k) => DropOp(k)
    case Set(k, v, e, m) => PutOp(k, if mode.InMemory? then Memory(v) else Disk(ValueLoc(WalFile, 0, |v|)), e, m)
  }

  function AllAtRest(ops: seq<Op>, mode: ValueMode): (r: seq<RecoveredOp>)
    ensures |r| == |ops| && forall i :: 0 <= i < |ops| ==> r[i] == AtRest(ops[i], mode)
  {
    if ops == [] then [] else AllAtRest(ops[..|ops| - 1], mode) + [AtRest(ops[|ops| - 1], mode)]
  }

  /** The bytes of the store once all operations have been applied. */
  ghost function BytesAfter(s: Stored, ops: seq<Op>, mode: ValueMode): nat {
    Total(ApplyAll(s, AllAtRest(ops, mode)).records)
  }

  lemma BytesAfterWithin(s: Stored, ops: seq<Op>, mode: ValueMode, maximum: nat)
    ensures Within(ApplyAll(s, AllAtRest(ops, mode)).records, maximum) <==> BytesAfter(s, ops, mode) <= maximum
  {
    WithinTotal(ApplyAll(s, AllAtRest(ops, mode)).records, maximum);
  }

  function EstimateSetBytes(key: bytes, value: bytes, meta: Option<bytes>, countValue: bool): nat {
    |key| + (if countValue then |value| else DISK_REF_BYTES) + MetadataBytes(meta)
  }

  function NextBytes(op: Op, mode: ValueMode): nat {
    if op.Set? then EstimateSetBytes(op.key, op.value, op.meta, mode.InMemory?) else 0
  }

  lemma StepBytes(s: Stored, op: Op, mode: ValueMode, x: bytes)
    ensures var t := ApplyOne(s, AtRest(op, mode));
      && Total(t.records) + RecordBytes(s.records, op.key) == Total(s.records) + NextBytes(op, mode)
      && RecordBytes(t.records, x) == (if x == op.key then NextBytes(op, mode) else RecordBytes(s.records, x))
      && RecordBytes(s.records, op.key) <= Total(s.records)
  {
    if op.key in s.records {
      TotalWithout(s.records, op.key);
    } else {
      assert s.records - {op.key} == s.records;
    }
    if op.Set? {
      TotalWith(s.records, op.key, ApplyOne(s, AtRest(op, mode)).records[op.key]);
    }
  }

  /** What each key written so far takes now; other keys take what they took. */
  ghost predicate Accounted(considered: map<bytes, nat>, before: map<bytes, Record>, now: map<bytes, Record>) {
    forall k :: RecordBytes(now, k) == if k in considered then considered[k] else RecordBytes(before, k)
  }

  lemma ProjectStep(before: map<bytes, Record>, s: Stored, op: Op, mode: ValueMode, considered: map<bytes, nat>)
    requires Accounted(considered, before, s.records)
    ensures var t := ApplyOne(s, AtRest(op, mode)).records;
      var current := if op.key in considered then considered[op.key] else RecordBytes(before, op.key);
      && SatSub(Total(s.records), current) + NextBytes(op, mode) == Total(t)
      && Accounted(considered[op.key := NextBytes(op, mode)], before, t)
  {
    hide RecordBytes, NextBytes, Total, ApplyOne, AtRest;
    var t := ApplyOne(s, AtRest(op, mode)).records;
    StepBytes(s, op, mode, op.key);
    forall k
      ensures RecordBytes(t, k) == if k == op.key then NextBytes(op, mode) else RecordBytes(s.records, k)
    {
      StepBytes(s, op, mode, k);
    }
  }

  /** The projection is exact: no subtraction saturates, and it is the bytes after the whole batch. */
  method Project(store: Store, ops: seq<Op>, mode: ValueMode) returns (projected: nat)
    requires store.Valid()
    ensures projected == BytesAfter(store.View(), ops, mode)
  {
    hide RecordBytes, NextBytes, Total, ApplyOne, ApplyAll, AllAtRest, AtRest, Accounted, HeapOk, SatSub;
    ghost var s := store.View();
    projected := store.size;
    var considered: map<bytes, nat> := map[];
    StartAccounts(s, ops, mode);
    for i := 0 to |ops|
      invariant projected == BytesAfter(s, ops[..i], mode)
      invariant Accounted(considered, s.records, ApplyAll(s, AllAtRest(ops[..i], mode)).records)
    {
      var op := ops[i];
      AtRestStep(s, ops, i, mode);
      ProjectStep(s.records, ApplyAll(s, AllAtRest(ops[..i], mode)), op, mode, considered);
      var current := if op.key in considered then considered[op.key] else RecordBytes(store.records, op.key);
      var next := NextBytes(op, mode);
      projected := SatSub(projected, current) + next;
      considered := considered[op.key := next];
    }
    assert ops[..|ops|] == ops;
  }

  lemma StartAccounts(s: Stored, ops: seq<Op>, mode: ValueMode)
    ensures ApplyAll(s, AllAtRest(ops[..0], mode)) == s && Accounted(map[], s.records, s.records)
  {
    assert ops[..0] == [];
  }

  lemma AtRestStep(s: Stored, ops: seq<Op>, i: nat, mode: ValueMode)
    requires i < |ops|
    ensures ApplyAll(s, AllAtRest(ops[..i + 1], mode)) == ApplyOne(ApplyAll(s, AllAtRest(ops[..i], mode)), AtRest(ops[i], mode))
  {
    hide ApplyOne, AtRest;
    var all := AllAtRest(ops[..i + 1], mode);
    assert ops[..i + 1][..i] == ops[..i];
    assert all[..i] == AllAtRest(ops[..i], mode);
  }

  // --- the database's share -------------------------------------------------------------------

  class Keeper {
    const store: Store
    var access: seq<bytes>
    ghost var uses: seq<bytes>

    constructor (store: Store, keys: seq<bytes>)
      requires store.Valid() && store.expired == []
      requires (forall i, j :: 0 <= i < j < |keys| ==> keys[i] != keys[j]) && forall k :: k in store.records ==> k in keys
      ensures Valid() && this.store == store && access == keys && uses == keys
    {
      this.store, access, uses := store, keys, keys;
      forall i | 0 <= i < |keys|
        ensures LastUse(keys, keys[i]) == i
      {
        OnlyUse(keys, i);
      }
    }

    ghost predicate Valid()
      reads this, store
    {
      && store.Valid() && ByUse(access, uses)
      && (forall k :: k in store.records ==> k in access)
      && forall e :: e in store.expired ==> e.0 !in store.records
    }

    method Touch(key: bytes)
      requires Valid()
      modifies this
      ensures Valid() && uses == old(uses) + [key] && access == Without(old(access), key) + [key]
    {
      hide Sound, ByUse, LastUse;
      TouchByUse(access, uses, key);
      access := Without(access, key) + [key];
      uses := uses + [key];
    }

    /** Keys whose records have run out leave the access list. */
    method DrainExpired()
      requires Valid()
      modifies this, store
      ensures Valid() && uses == old(uses) && store.View() == old(store.View()) && store.expired == []
      ensures store.expirations == old(store.expirations)
    {
      hide Sound, ByUse, LastUse;
      var taken := store.TakeExpired();
      for i := 0 to |taken|
        invariant store.Valid() && store.View() == old(store.View()) && store.expired == [] && uses == old(uses)
        invariant store.expirations == old(store.expirations)
        invariant ByUse(access, uses) && forall k :: k in store.records ==> k in access
      {
        assert taken[i] in taken;
        WithoutByUse(access, uses, taken[i].0);
        access := Without(access, taken[i].0);
      }
    }

    /** `apply_operation`: a set touches its key, a removal forgets it. */
    method ApplyOperation(op: Op, now: i64)
      requires Valid()
      modifies this, store
      ensures Valid() && store.View() == ApplyOne(old(store.View()), Applied(op))
      ensures uses == old(uses) + if op.Set? then [op.key] else []
    {
      hide Sound, ByUse, LastUse, Stored.Reap;
      ghost var before := store.View();
      ForgetExpired(op.key, now);
      ReapIsSilent(before, op, now);
      match op {
        case Set(k, v, e, m) => SetNow(k, v, e, m);
        case Del(k) => DelNow(k);
      }
    }

    method SetNow(k: bytes, v: bytes, e: i64, m: Option<bytes>)
      requires Valid() && store.expired == []
      modifies this, store
      ensures Valid() && store.View() == old(store.View()).Put(k, ValueRef.Memory(v), e, m)
      ensures uses == old(uses) + [k]
    {
      hide Sound, ByUse, LastUse;
      store.SetRef(k, ValueRef.Memory(v), e, m);
      TouchByUse(access, uses, k);
      access := Without(access, k) + [k];
      uses := uses + [k];
    }

    method DelNow(k: bytes)
      requires Valid() && store.expired == []
      modifies this, store
      ensures Valid() && store.View() == old(store.View()).Drop(k)
      ensures uses == old(uses)
    {
      hide Sound, ByUse, LastUse;
      var existed := store.Del(k);
      if existed {
        WithoutByUse(access, uses, k);
        access := Without(access, k);
      }
    }

    /** Drops the key's record if it has run out, and clears the list of those that have. */
    method ForgetExpired(key: bytes, now: i64)
      requires Valid()
      modifies this, store
      ensures Valid() && store.View() == old(store.View()).Reap(key, now) && store.expired == [] && uses == old(uses)
    {
      hide Sound, ByUse, LastUse;
      DrainExpired();
      var _ := store.ExpireIfNeeded(key, now);
      DrainExpired();
    }

    /** The first key in order of use that is not being written and is in the store. */
    method Victim(skipped: set<bytes>) returns (victim: Option<bytes>)
      requires Valid()
      ensures victim.None? ==> store.records.Keys <= skipped
      ensures victim.Some? ==>
        && victim.value !in skipped && victim.value in store.records
        && forall k :: k in store.records && k !in skipped && k != victim.value ==> LastUse(uses, victim.value) < LastUse(uses, k)
    {
      hide Sound, LastUse;
      for i := 0 to |access|
        invariant forall j :: 0 <= j < i ==> access[j] in skipped || access[j] !in store.records
      {
        if access[i] !in skipped && access[i] in store.records {
          forall k | k in store.records && k !in skipped && k != access[i]
            ensures LastUse(uses, access[i]) < LastUse(uses, k)
          {
            var j :| 0 <= j < |access| && access[j] == k;
            assert i < j;
          }
          return Some(access[i]);
        }
      }
      return None;
    }

    /**
      Makes room for a batch.  On success the bytes after the batch are within the limit.  The
      loop ends; keys being written only ever go because they have run out; each key evicted
      was used longer ago than every other key that stays; failure means that evicting is not
      allowed, or that nothing is left to evict.
     */
    method EnsureMemoryFor(ops: seq<Op>, maximum: Option<nat>, policy: Policy, mode: ValueMode, now: i64)
      returns (r: Result<(), MemoryError>, ghost evicted: seq<bytes>)
      requires Valid()
      modifies this, store
      ensures Valid() && uses == old(uses)
      ensures r.Ok? && maximum.Some? ==> BytesAfter(store.View(), ops, mode) <= maximum.value
      ensures r.Ok? && maximum.Some? ==> Within(ApplyAll(store.View(), AllAtRest(ops, mode)).records, maximum.value)
      ensures r.Err? ==>
        && maximum.Some? && r.error == MaxMemory(BytesAfter(store.View(), ops, mode), maximum.value) && r.error.projected > maximum.value
        && !Within(ApplyAll(store.View(), AllAtRest(ops, mode)).records, maximum.value)
        && (policy.Reject? || forall k :: k in store.records ==> exists op :: op in ops && op.key == k)
      ensures Shrunk(old(store.records), store.records, evicted, now)
      ensures forall e, op :: e in evicted && op in ops ==> op.key != e
      ensures OldestFirst(evicted, store.records.Keys - Written(ops), uses)
    {
      hide Sound, ByUse, LastUse, BytesAfter, Noted, Shrunk, Within;
      evicted := [];
      ghost var was := store.records;
      ShrunkNot(was, now);
      if maximum.None? {
        return Ok(()), evicted;
      }
      while true
        invariant Valid() && uses == old(uses)
        invariant Shrunk(was, store.records, evicted, now)
        invariant forall e :: e in evicted ==> e !in Written(ops)
        invariant OldestFirst(evicted, store.records.Keys - Written(ops), uses)
        decreases |store.records|
      {
        Reap(now, was, evicted);
        var projected := Project(store, ops, mode);
        var victim := Victim(Written(ops));
        BytesAfterWithin(store.View(), ops, mode, maximum.value);
        if projected <= maximum.value {
          return Ok(()), evicted;
        }
        if policy.Reject? || victim.None? {
          return Err(MaxMemory(projected, maximum.value)), evicted;
        }
        EvictionShrinks(was, store.records, evicted, victim.value, now);
        ApplyOperation(Del(victim.value), now);
        evicted := evicted + [victim.value];
      }
    }

    /** A batch in memory mode: room is made, then every operation is applied; the store stays within its limit. */
    method WriteInMemory(ops: seq<Op>, maximum: Option<nat>, policy: Policy, now: i64) returns (r: Result<(), MemoryError>)
      requires Valid()
      modifies this, store
      ensures Valid()
      ensures r.Ok? && maximum.Some? ==> store.size <= maximum.value && Within(store.records, maximum.value)
      ensures r.Err? ==> exists evicted :: Shrunk(old(store.records), store.records, evicted, now)
      ensures r.Ok? ==> exists left: Stored, evicted :: WrittenOver(old(store.View()), left, store.View(), ops, evicted, now)
    {
      hide Sound, ByUse, LastUse, ApplyAll, ApplyOne, Shrunk, OldestFirst, Stored.Reap, Within;
      ghost var evicted;
      ghost var was := store.View();
      r, evicted := EnsureMemoryFor(ops, maximum, policy, InMemory, now);
      if r.Err? {
        return;
      }
      ghost var left := store.View();
      AppliedAtRest(left, ops);
      ApplyEach(ops, now);
      SizeIsTotal();
      if maximum.Some? {
        WithinTotal(store.records, maximum.value);
      }
      assert WrittenOver(was, left, store.View(), ops, evicted, now);
    }

    /** Others look at keys; records that have run out by then go. */
    method LookAt(keys: seq<bytes>, later: i64)
      requires Valid()
      modifies this, store
      ensures Valid() && uses == old(uses) && RanOut(old(store.records), store.records, later)
    {
      hide Sound, ByUse, LastUse, RanOut, Stored.Reap;
      ghost var was := store.records;
      RanOutNot(was, later);
      for i := 0 to |keys|
        invariant Valid() && uses == old(uses) && RanOut(was, store.records, later)
      {
        ReapRanOut(was, store.View(), keys[i], later);
        ForgetExpired(keys[i], later);
      }
    }

    /**
      Publishes where the values of the last sets lie, for every record that is still the one
      the write made; the keys come in whatever order the map yields them.
     */
    method PublishAll(last: map<bytes, Change>, sequences: map<bytes, Option<nat>>)
      requires Valid() && last.Keys <= sequences.Keys && forall k :: k in last ==> last[k].op.Set?
      modifies this, store
      ensures Valid() && uses == old(uses) && access == old(access)
      ensures AllPublished(old(store.records), store.records, last, sequences, last.Keys)
    {
      hide Sound, ByUse, LastUse, RefTo, AllPublished, Stored.Put;
      ghost var was := store.records;
      NonePublished(was, last, sequences);
      assert last.Keys - last.Keys == {};
      var todo := last.Keys;
      while todo != {}
        invariant Valid() && uses == old(uses) && access == old(access)
        invariant todo <= last.Keys
        invariant AllPublished(was, store.records, last, sequences, last.Keys - todo)
        decreases |todo|
      {
        var k :| k in todo;
        var op := last[k].op;
        PublishStep(was, store.View(), last, sequences, todo, k);
        if sequences[k].Some? && k in store.records && store.records[k].sequence == sequences[k].value {
          store.SetRef(k, RefTo(last[k], WalFile, OnDisk), op.expireAt, op.meta);
        }
        todo := todo - {k};
      }
      assert last.Keys - {} == last.Keys;
    }

    /**
      A batch in disk mode: room is made for the batch as it will be at rest, every operation
      is applied with its value in memory, others look at keys while the log is flushed, and
      the last set of each key is published.  The store ends within its limit.
     */
    method WriteOnDisk(changes: seq<Change>, maximum: Option<nat>, policy: Policy, now: i64, looked: seq<bytes>, later: i64)
      returns (r: Result<(), MemoryError>)
      requires Valid()
      modifies this, store
      ensures Valid()
      ensures r.Ok? && maximum.Some? ==> store.size <= maximum.value && Within(store.records, maximum.value)
      ensures r.Err? ==> exists evicted :: Shrunk(old(store.records), store.records, evicted, now)
      ensures r.Ok? ==> exists left: Stored, evicted ::
        && Shrunk(old(store.records), left.records, evicted, now) && (forall e :: e in evicted ==> e !in Written(Ops(changes)))
        && WrittenToDisk(left.records, store.records, changes, later)
    {
      hide Sound, ByUse, LastUse, ApplyAll, ApplyOne, Shrunk, OldestFirst, Stored.Reap, AllPublished, RanOut, WrittenToDisk, Total, LastSets, BytesAfter, Within;
      var ops := Ops(changes);
      ghost var evicted;
      r, evicted := EnsureMemoryFor(ops, maximum, policy, OnDisk, now);
      if r.Err? {
        return;
      }
      ghost var left := store.View();
      ApplyEach(ops, now);
      ghost var applied := store.View();
      var sequences := map k | k in Written(ops) :: if k in store.records then Some(store.records[k].sequence) else None;
      LookAt(looked, later);
      ghost var seen := store.records;
      var last := CollectLast(changes);
      PublishAll(last, sequences);
      AllDecided(left, changes, applied, seen, store.records, last, sequences, later);
      AtRestBounds(left, changes, store.records, later);
      SizeIsTotal();
      if maximum.Some? {
        WithinTotal(store.records, maximum.value);
      }
      assert Shrunk(old(store.records), left.records, evicted, now) && WrittenToDisk(left.records, store.records, changes, later);
    }

    method ApplyEach(ops: seq<Op>, now: i64)
      requires Valid()
      modifies this, store
      ensures Valid() && store.View() == ApplyAll(old(store.View()), AppliedOps(ops))
    {
      hide Sound, ByUse, LastUse, ApplyAll, ApplyOne, Stored.Reap;
      ghost var left := store.View();
      AppliedAtRest(left, ops);
      for i := 0 to |ops|
        invariant Valid() && store.View() == ApplyAll(left, AppliedOps(ops)[..i])
      {
        ApplySnoc(left, AppliedOps(ops), i);
        ApplyOperation(ops[i], now);
      }
      assert AppliedOps(ops)[..|ops|] == AppliedOps(ops);
    }

    lemma SizeIsTotal()
      requires Valid()
      ensures store.size == Total(store.records)
    {
    }

    /** Removes what has run out, as far as the heap knows of it. */
    method Reap(now: i64, ghost was: map<bytes, Record>, ghost evicted: seq<bytes>)
      requires Valid() && Shrunk(was, store.records, evicted, now)
      modifies this, store
      ensures Valid() && uses == old(uses) && access == old(access)
      ensures Shrunk(was, store.records, evicted, now) && store.records.Keys <= old(store.records).Keys
      ensures |store.records| <= |old(store.records)|
    {
      hide Sound, ByUse, LastUse, Noted, Due, Expired;
      ghost var before, noted := store.records, store.expired;
      var _, gone := store.ReapExpired(None, now);
      DueIs(before, old(store.expirations), now);
      ReapShrinks(was, before, gone, evicted, now);
      NotedKeys(noted, store.expired, gone, before);
    }
  }

  /** Keys went only by running out or by eviction, no written key by eviction; then the operations were applied. */
  ghost predicate WrittenOver(was: Stored, left: Stored, after: Stored, ops: seq<Op>, evicted: seq<bytes>, now: i64) {
    && Shrunk(was.records, left.records, evicted, now)
    && (forall e :: e in evicted ==> e !in Written(ops))
    && after == ApplyAll(left, AppliedOps(ops))
  }

  // --- publishing ---------------------------------------------------------------------------

  /** Some records are gone, all of them run out. */
  ghost predicate RanOut(was: map<bytes, Record>, left: map<bytes, Record>, later: i64) {
    forall k :: Lookup(left, k) == Lookup(was, k) || (k !in left && k in was && Expired(was[k].expireAt, later))
  }

  lemma RanOutNot(was: map<bytes, Record>, later: i64)
    ensures RanOut(was, was, later)
  {
  }

  lemma ReapRanOut(was: map<bytes, Record>, s: Stored, k: bytes, later: i64)
    requires RanOut(was, s.records, later)
    ensures RanOut(was, s.Reap(k, later).records, later)
  {
    hide Expired;
  }

  /** A record is published if it is still the one the write made; otherwise it stays. */
  ghost predicate Published(was: map<bytes, Record>, left: map<bytes, Record>, last: map<bytes, Change>, sequences: map<bytes, Option<nat>>, k: bytes)
    requires k in last ==> k in sequences && last[k].op.Set?
  {
    if k in last && k in was && sequences[k] == Some(was[k].sequence) then
      && k in left && left[k].ref == RefTo(last[k], WalFile, OnDisk)
      && left[k].expireAt == last[k].op.expireAt && left[k].meta == last[k].op.meta
    else Lookup(left, k) == Lookup(was, k)
  }

  ghost predicate AllPublished(was: map<bytes, Record>, left: map<bytes, Record>, last: map<bytes, Change>, sequences: map<bytes, Option<nat>>, done: set<bytes>)
    requires last.Keys <= sequences.Keys && forall k :: k in last ==> last[k].op.Set?
  {
    forall k :: if k in last && k !in done then Lookup(left, k) == Lookup(was, k) else Published(was, left, last, sequences, k)
  }

  lemma NonePublished(was: map<bytes, Record>, last: map<bytes, Change>, sequences: map<bytes, Option<nat>>)
    requires last.Keys <= sequences.Keys && forall k :: k in last ==> last[k].op.Set?
    ensures AllPublished(was, was, last, sequences, {})
  {
  }

  /** Publishing one more key, or leaving it because its record is another by now. */
  lemma PublishStep(was: map<bytes, Record>, s: Stored, last: map<bytes, Change>, sequences: map<bytes, Option<nat>>, todo: set<bytes>, k: bytes)
    requires last.Keys <= sequences.Keys && forall x :: x in last ==> last[x].op.Set?
    requires todo <= last.Keys && k in todo && AllPublished(was, s.records, last, sequences, last.Keys - todo)
    ensures var matches := sequences[k].Some? && k in s.records && s.records[k].sequence == sequences[k].value;
      var op := last[k].op;
      var after := if matches then s.Put(k, RefTo(last[k], WalFile, OnDisk), op.expireAt, op.meta) else s;
      AllPublished(was, after.records, last, sequences, last.Keys - (todo - {k})) && after.records.Keys == s.records.Keys
  {
    hide RefTo;
    assert Lookup(s.records, k) == Lookup(was, k);
  }

  ghost predicate LastSets(last: map<bytes, Change>, cs: seq<Change>) {
    forall k :: Lookup(last, k) == if LastSet(cs, k) >= 0 then Some(cs[LastSet(cs, k)]) else None
  }

  method CollectLast(cs: seq<Change>) returns (last: map<bytes, Change>)
    ensures LastSets(last, cs)
    ensures last.Keys <= Written(Ops(cs)) && forall k :: k in last ==> last[k].op.Set?
  {
    last := map[];
    for i := 0 to |cs|
      invariant LastSets(last, cs[..i])
    {
      assert cs[..i + 1][..i] == cs[..i];
      if cs[i].op.Set? {
        last := last[cs[i].op.key := cs[i]];
      }
    }
    assert cs[..|cs|] == cs;
    forall k | k in last
      ensures k in Written(Ops(cs)) && last[k].op.Set?
    {
      assert Lookup(last, k) == Some(cs[LastSet(cs, k)]);
      assert Ops(cs)[LastSet(cs, k)] in Ops(cs);
    }
  }

  /** A key not written has its record of before, and a written one the place of its last value, unless they ran out or went. */
  ghost predicate OnDiskNow(left: map<bytes, Record>, after: map<bytes, Record>, cs: seq<Change>, k: bytes, later: i64) {
    var i := Last(Ops(cs), k);
    if i < 0 then Lookup(after, k) == Lookup(left, k) || (k !in after && k in left && Expired(left[k].expireAt, later))
    else if cs[i].op.Del? then k !in after
    else if k in after then
      after[k].ref == RefTo(cs[i], WalFile, OnDisk) && after[k].expireAt == cs[i].op.expireAt && after[k].meta == cs[i].op.meta
    else Expired(cs[i].op.expireAt, later)
  }

  ghost predicate WrittenToDisk(left: map<bytes, Record>, after: map<bytes, Record>, cs: seq<Change>, later: i64) {
    forall k :: OnDiskNow(left, after, cs, k, later)
  }

  /** What applying operations leaves of a key, with the values still in memory. */
  ghost predicate InMemoryNow(left: map<bytes, Record>, applied: map<bytes, Record>, cs: seq<Change>, k: bytes) {
    var i := Last(Ops(cs), k);
    if i < 0 then Lookup(applied, k) == Lookup(left, k)
    else if cs[i].op.Del? then k !in applied
    else k in applied && applied[k].expireAt == cs[i].op.expireAt
  }

  lemma {:induction false} AppliedSays(s: Stored, cs: seq<Change>, k: bytes)
    ensures InMemoryNow(s.records, ApplyAll(s, AppliedOps(Ops(cs))).records, cs, k)
    decreases |cs|
  {
    hide *;
    if cs == [] {
      NothingSaid(s, k);
    } else {
      var n := |cs| - 1;
      AppliedSays(s, cs[..n], k);
      LastSnoc(cs, k);
      AppliedFront(s, cs);
      SaidOneMore(s.records, ApplyAll(s, AppliedOps(Ops(cs[..n]))), cs, k);
    }
  }

  lemma NothingSaid(s: Stored, k: bytes)
    ensures InMemoryNow(s.records, ApplyAll(s, AppliedOps(Ops([]))).records, [], k)
    ensures ApplyAll(s, AllAtRest(Ops([]), OnDisk)) == s && Last(Ops([]), k) < 0
  {
  }

  lemma AppliedFront(s: Stored, cs: seq<Change>)
    requires cs != []
    ensures var n := |cs| - 1;
      && ApplyAll(s, AppliedOps(Ops(cs))) == ApplyOne(ApplyAll(s, AppliedOps(Ops(cs[..n]))), Applied(cs[n].op))
      && ApplyAll(s, AllAtRest(Ops(cs), OnDisk)) == ApplyOne(ApplyAll(s, AllAtRest(Ops(cs[..n]), OnDisk)), AtRest(cs[n].op, OnDisk))
  {
    hide *;
    var n := |cs| - 1;
    OpsFront(cs);
    AtRestStep(s, Ops(cs), n, OnDisk);
    var made := AppliedOps(Ops(cs));
    assert made[..n + 1] == made;
    ApplySnoc(s, made, n);
  }

  lemma OpsFront(cs: seq<Change>)
    requires cs != []
    ensures var n := |cs| - 1;
      && |Ops(cs)| == |AppliedOps(Ops(cs))| == n + 1
      && Ops(cs)[..n] == Ops(cs[..n]) && Ops(cs)[..n + 1] == Ops(cs) && Ops(cs)[n] == cs[n].op
      && AppliedOps(Ops(cs))[..n] == AppliedOps(Ops(cs[..n])) && AppliedOps(Ops(cs))[n] == Applied(cs[n].op)
  {
    hide Applied;
  }

  lemma SaidOneMore(left: map<bytes, Record>, s: Stored, cs: seq<Change>, k: bytes)
    requires cs != [] && InMemoryNow(left, s.records, cs[..|cs| - 1], k)
    requires Last(Ops(cs), k) == if cs[|cs| - 1].op.key == k then |cs| - 1 else Last(Ops(cs[..|cs| - 1]), k)
    ensures InMemoryNow(left, ApplyOne(s, Applied(cs[|cs| - 1].op)).records, cs, k)
  {
    hide Last;
  }

  lemma LastSetDecides(cs: seq<Change>, k: bytes)
    ensures var i := Last(Ops(cs), k);
      && (i >= 0 && cs[i].op.Set? ==> LastSet(cs, k) == i)
      && (i < 0 ==> LastSet(cs, k) < 0)
      && (k in Written(Ops(cs)) <==> i >= 0)
  {
    var i, j := Last(Ops(cs), k), LastSet(cs, k);
    if i >= 0 {
      assert Ops(cs)[i] in Ops(cs) && Ops(cs)[i] == cs[i].op;
    }
    if j >= 0 {
      assert Ops(cs)[j] == cs[j].op;
    }
  }

  /** Applied, looked at and published: every key is as the last operation on it says. */
  lemma AllDecided(left: Stored, cs: seq<Change>, applied: Stored, seen: map<bytes, Record>, after: map<bytes, Record>,
                   last: map<bytes, Change>, sequences: map<bytes, Option<nat>>, later: i64)
    requires applied == ApplyAll(left, AppliedOps(Ops(cs))) && RanOut(applied.records, seen, later)
    requires LastSets(last, cs) && last.Keys <= sequences.Keys && forall k :: k in last ==> last[k].op.Set?
    requires sequences.Keys == Written(Ops(cs))
    requires forall k :: k in sequences ==> sequences[k] == if k in applied.records then Some(applied.records[k].sequence) else None
    requires AllPublished(seen, after, last, sequences, last.Keys)
    ensures WrittenToDisk(left.records, after, cs, later)
  {
    hide ApplyAll, AppliedOps, Last, LastSet, RefTo, Written, Expired;
    forall k
      ensures OnDiskNow(left.records, after, cs, k, later)
    {
      AppliedSays(left, cs, k);
      LastSetDecides(cs, k);
      assert Lookup(last, k) == if LastSet(cs, k) >= 0 then Some(cs[LastSet(cs, k)]) else None;
      assert Lookup(seen, k) == Lookup(applied.records, k) || (k !in seen && k in applied.records && Expired(applied.records[k].expireAt, later));
      assert Published(seen, after, last, sequences, k);
    }
  }

  /** The store at rest takes no more than was projected. */
  lemma AtRestBounds(left: Stored, cs: seq<Change>, after: map<bytes, Record>, later: i64)
    requires WrittenToDisk(left.records, after, cs, later)
    ensures Total(after) <= BytesAfter(left, Ops(cs), OnDisk)
  {
    hide ApplyAll, AllAtRest, Last, Written, Expired, Total;
    var rest := ApplyAll(left, AllAtRest(Ops(cs), OnDisk)).records;
    forall k | k in after
      ensures k in rest && RecordSize(k, after[k]) == RecordSize(k, rest[k])
    {
      assert OnDiskNow(left.records, after, cs, k, later);
      RestSays(left, cs, k);
    }
    TotalBelow(after, rest);
  }

  /** The projection of a key: as before, gone, or with its value on disk. */
  ghost predicate AtRestNow(left: map<bytes, Record>, rest: map<bytes, Record>, cs: seq<Change>, k: bytes) {
    var i := Last(Ops(cs), k);
    && (i < 0 ==> Lookup(rest, k) == Lookup(left, k))
    && (i >= 0 && cs[i].op.Set? ==> k in rest && rest[k].ref.Disk? && rest[k].meta == cs[i].op.meta)
  }

  lemma {:induction false} RestSays(s: Stored, cs: seq<Change>, k: bytes)
    ensures AtRestNow(s.records, ApplyAll(s, AllAtRest(Ops(cs), OnDisk)).records, cs, k)
    decreases |cs|
  {
    hide *;
    if cs == [] {
      NothingSaid(s, k);
      AtRestNothing(s.records, k);
    } else {
      var n := |cs| - 1;
      RestSays(s, cs[..n], k);
      LastSnoc(cs, k);
      AppliedFront(s, cs);
      RestOneMore(s.records, ApplyAll(s, AllAtRest(Ops(cs[..n]), OnDisk)), cs, k);
    }
  }

  lemma AtRestNothing(m: map<bytes, Record>, k: bytes)
    ensures AtRestNow(m, m, [], k)
  {
  }

  lemma RestOneMore(left: map<bytes, Record>, s: Stored, cs: seq<Change>, k: bytes)
    requires cs != [] && AtRestNow(left, s.records, cs[..|cs| - 1], k)
    requires Last(Ops(cs), k) == if cs[|cs| - 1].op.key == k then |cs| - 1 else Last(Ops(cs[..|cs| - 1]), k)
    ensures AtRestNow(left, ApplyOne(s, AtRest(cs[|cs| - 1].op, OnDisk)).records, cs, k)
  {
    hide Last;
  }

  lemma {:induction false} TotalBelow(m: map<bytes, Record>, n: map<bytes, Record>)
    requires forall k :: k in m ==> k in n && RecordSize(k, m[k]) == RecordSize(k, n[k])
    ensures Total(m) <= Total(n)
    decreases |m|
  {
    if m != map[] {
      var k :| k in m;
      TotalWithout(m, k);
      TotalWithout(n, k);
      TotalBelow(m - {k}, n - {k});
    }
  }

  lemma AppliedAtRest(s: Stored, ops: seq<Op>)
    ensures AllAtRest(ops, InMemory) == AppliedOps(ops)
    ensures BytesAfter(s, ops, InMemory) == Total(ApplyAll(s, AppliedOps(ops)).records)
    ensures ApplyAll(s, AppliedOps(ops)[..0]) == s
  {
    assert AllAtRest(ops, InMemory) == AppliedOps(ops);
  }

  lemma ApplySnoc(s: Stored, made: seq<RecoveredOp>, i: nat)
    requires i < |made|
    ensures ApplyAll(s, made[..i + 1]) == ApplyOne(ApplyAll(s, made[..i]), made[i])
  {
    hide ApplyOne;
    assert made[..i + 1][..i] == made[..i];
  }

  /** Nothing has gone but what has run out and what was evicted; what stays is as it was. */
  ghost predicate Shrunk(was: map<bytes, Record>, left: map<bytes, Record>, evicted: seq<bytes>, now: i64) {
    && (forall k :: k in left ==> k in was && left[k] == was[k])
    && forall k :: k in was && k !in left ==> Expired(was[k].expireAt, now) || k in evicted
  }

  /** Every evicted key was used before every key that stays. */
  ghost predicate OldestFirst(evicted: seq<bytes>, stay: set<bytes>, uses: seq<bytes>) {
    forall e, k :: e in evicted && k in stay ==> LastUse(uses, e) < LastUse(uses, k)
  }

  lemma ShrunkNot(was: map<bytes, Record>, now: i64)
    ensures Shrunk(was, was, [], now)
  {
  }

  lemma {:induction false} OnlyUse(keys: seq<bytes>, i: nat)
    requires i < |keys| && forall j :: i < j < |keys| ==> keys[j] != keys[i]
    ensures LastUse(keys, keys[i]) == i
    decreases |keys|
  {
    if i < |keys| - 1 {
      OnlyUse(keys[..|keys| - 1], i);
    }
  }

  lemma DueIs(m: map<bytes, Record>, h: seq<HeapItem>, now: i64)
    ensures forall k :: k in Due(m, h, now) ==> k in m && Expired(m[k].expireAt, now)
  {
  }

  lemma ReapShrinks(was: map<bytes, Record>, before: map<bytes, Record>, gone: set<bytes>, evicted: seq<bytes>, now: i64)
    requires Shrunk(was, before, evicted, now) && forall k :: k in gone ==> k in before && Expired(before[k].expireAt, now)
    ensures Shrunk(was, before - gone, evicted, now) && |before - gone| <= |before|
  {
    assert (before - gone).Keys <= before.Keys;
    SubsetSize((before - gone).Keys, before.Keys);
  }

  lemma NotedKeys(before: seq<(bytes, Record)>, after: seq<(bytes, Record)>, gone: set<bytes>, was: map<bytes, Record>)
    requires Noted(after, before, gone, was) && forall e :: e in before ==> e.0 !in was
    ensures forall e :: e in after ==> e.0 !in was - gone
  {
    forall e | e in after
      ensures e.0 !in was - gone
    {
      var i :| 0 <= i < |after| && after[i] == e;
      assert i < |before| ==> e == before[i];
    }
  }

  lemma EvictionShrinks(was: map<bytes, Record>, before: map<bytes, Record>, evicted: seq<bytes>, victim: bytes, now: i64)
    requires Shrunk(was, before, evicted, now) && victim in before
    ensures Shrunk(was, before - {victim}, evicted + [victim], now) && |before - {victim}| < |before|
  {
    assert (before - {victim}).Keys == before.Keys - {victim};
  }
}
