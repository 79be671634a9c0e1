/** The record store of `store.rs`. */
module Stores {
  import opened Wrappers
  import opened Bytes
  import opened SortedPairs
  import opened ByteOrder
  import opened RangeSpec
  import opened Records
  import opened Accounts

  datatype StoreError = MissingValueReader | ReadFailed

  datatype Entry = Entry(key: bytes, value: bytes, expireAt: i64, meta: Option<bytes>)

  /** What reads a value on disk; a store without a reader has one that always fails. */
  type ValueReader = ValueLoc -> Result<bytes, StoreError>

  function Materialized(ref: ValueRef, read: ValueReader): Result<bytes, StoreError> {
    if ref.Memory? then Ok(ref.value) else read(ref.loc)
  }

  predicate Lives(m: map<bytes, Record>, k: bytes, now: i64) {
    k in m && !Expired(m[k].expireAt, now)
  }

  /** The byte counter and the expiring count are exact, the order lists the keys, the heap is sound. */
  ghost predicate Sound(records: map<bytes, Record>, order: seq<(bytes, bytes)>, expirations: seq<HeapItem>, sequence: nat, size: nat, expiring: nat) {
    && size == Total(records)
    && expiring == |Expiring(records)|
    && OrderOk(order, records.Keys)
    && HeapOk(records, expirations, sequence)
  }

  class Store {
    var records: map<bytes, Record>
    var order: seq<(bytes, bytes)>
    var expirations: seq<HeapItem>
    var expired: seq<(bytes, Record)>
    var sequence: nat
    var size: nat
    var expiring: nat

    ghost predicate Valid()
      reads this
    {
      Sound(records, order, expirations, sequence, size, expiring)
    }

    ghost function View(): Stored
      reads this
    {
      Stored(records, sequence)
    }

    constructor ()
      ensures Valid() && View() == Stored(map[], 0) && expired == [] && expirations == []
    {
      records, order, expirations, expired := map[], [], [], [];
      sequence, size, expiring := 0, 0, 0;
    }

    /**
      A new record is covered by the heap unless its own push makes the heap too long: the heap
      is then rebuilt from the records before this one is among them.
     */
    method SetRef(key: bytes, ref: ValueRef, expireAt: i64, meta: Option<bytes>)
      requires Valid()
      modifies this
      ensures Valid() && expired == old(expired)
      ensures View() == old(View()).Put(key, ref, expireAt, meta)
      ensures Uncovered(records, expirations) ==
        if expireAt != 0 && |old(expirations)| + 1 > 2 * |old(records).Keys - {key}| + 64 then {key}
        else old(Uncovered(records, expirations)) - {key}
      ensures expireAt != 0 && |old(expirations)| + 1 <= 2 * |old(records).Keys - {key}| + 64 ==> |expirations| == |old(expirations)| + 1
    {
      hide Sound, Uncovered;
      var record := Record(ref, expireAt, sequence + 1, meta);
      var place, heap, total, count := Replace(records, order, expirations, sequence, size, expiring, key, record);
      records, order, expirations, size, expiring := records[key := record], place, heap, total, count;
      sequence := sequence + 1;
    }

    method Remove(key: bytes, isExpired: bool) returns (removed: Option<Record>)
      requires Valid()
      modifies this
      ensures Valid() && expirations == old(expirations)
      ensures View() == old(View()).Drop(key)
      ensures removed == Lookup(old(records), key)
      ensures expired == if removed.Some? && isExpired then old(expired) + [(key, removed.value)] else old(expired)
    {
      hide Total, OrderOk, Expiring, RecordSize;
      if key !in records {
        assert records - {key} == records;
        return None;
      }
      var record := records[key];
      TotalWithout(records, key);
      ExpiringWithout(records, key);
      OrderRemove(order, records.Keys, key);
      records := records - {key};
      size := SatSub(size, RecordSize(key, record));
      if record.expireAt != 0 {
        expiring := SatSub(expiring, 1);
      }
      order := SortedPairs.Remove(order, (key, key));
      if isExpired {
        expired := expired + [(key, record)];
      }
      assert old(records).Keys - {key} == records.Keys;
      removed := Some(record);
    }

    /** A record that has run out is removed when its key is looked at. */
    method ExpireIfNeeded(key: bytes, now: i64) returns (gone: bool)
      requires Valid()
      modifies this
      ensures Valid() && expirations == old(expirations)
      ensures gone <==> key in old(records) && Expired(old(records)[key].expireAt, now)
      ensures View() == old(View()).Reap(key, now)
      ensures expired == if gone then old(expired) + [(key, old(records)[key])] else old(expired)
    {
      gone := key in records && Expired(records[key].expireAt, now);
      if gone {
        var _ := Remove(key, true);
      }
    }

    method Get(key: bytes, now: i64, read: ValueReader) returns (r: Result<Option<bytes>, StoreError>)
      requires Valid()
      modifies this
      ensures Valid() && View() == old(View()).Reap(key, now)
      ensures expired == if key in old(records) && Expired(old(records)[key].expireAt, now) then old(expired) + [(key, old(records)[key])] else old(expired)
      ensures !Lives(old(records), key, now) ==> r == Ok(None)
      ensures Lives(old(records), key, now) <==> key in old(records) && (old(records)[key].expireAt == 0 || now < old(records)[key].expireAt)
      ensures Lives(old(records), key, now) ==>
        match old(records)[key].ref
        case Memory(v) => r == Ok(Some(v))
        case Disk(loc) => if read(loc).Ok? then r == Ok(Some(read(loc).value)) else r == Err(read(loc).error)
    {
      var gone := ExpireIfNeeded(key, now);
      if gone || key !in records {
        return Ok(None);
      }
      match Materialized(records[key].ref, read)
      case Ok(v) => r := Ok(Some(v));
      case Err(e) => r := Err(e);
    }

    method Del(key: bytes) returns (existed: bool)
      requires Valid()
      modifies this
      ensures Valid() && View() == old(View()).Drop(key) && expired == old(expired)
      ensures existed <==> key in old(records)
    {
      var removed := Remove(key, false);
      existed := removed.Some?;
    }

    method Has(key: bytes, now: i64) returns (present: bool)
      requires Valid()
      modifies this
      ensures Valid() && View() == old(View()).Reap(key, now)
      ensures present <==> key in old(records) && (old(records)[key].expireAt == 0 || now < old(records)[key].expireAt)
    {
      var gone := ExpireIfNeeded(key, now);
      present := !gone && key in records;
    }

    /** How many records can be seen. */
    method Len(now: i64) returns (n: nat)
      requires Valid()
      ensures n == |set k | k in records && Lives(records, k, now)|
      ensures forall k :: Lives(records, k, now) <==> k in records && (records[k].expireAt == 0 || now < records[k].expireAt)
    {
      hide HeapOk, OrderOk, Total;
      if expiring == 0 {
        NoneExpiring(records, now);
        return |records|;
      }
      n := CountLive(records, now);
    }

    /** The live entries, in whatever order the record map yields them. */
    method Entries(now: i64, read: ValueReader) returns (r: Result<seq<Entry>, StoreError>)
      requires Valid()
      ensures r.Ok? ==>
        && (forall i, j :: 0 <= i < j < |r.value| ==> r.value[i].key != r.value[j].key)
        && (forall k :: Lives(records, k, now) <==> HasEntry(r.value, k))
        && forall e :: e in r.value ==> IsEntry(records, e, read)
      ensures r.Err? ==> exists k :: Lives(records, k, now) && Materialized(records[k].ref, read).Err?
    {
      var out: seq<Entry> := [];
      var todo := records.Keys;
      while todo != {}
        invariant todo <= records.Keys
        invariant forall i, j :: 0 <= i < j < |out| ==> out[i].key != out[j].key
        invariant forall k :: Lives(records, k, now) && k !in todo <==> HasEntry(out, k)
        invariant forall e :: e in out ==> IsEntry(records, e, read)
        decreases |todo|
      {
        var k :| k in todo;
        if !Expired(records[k].expireAt, now) {
          var v := Materialized(records[k].ref, read);
          if v.Err? {
            return Err(v.error);
          }
          var e := Entry(k, v.value, records[k].expireAt, records[k].meta);
          EntryAdded(out, e);
          out := out + [e];
        }
        todo := todo - {k};
      }
      r := Ok(out);
    }

    /**
      Removes what is due, earliest first, up to a maximum.  Without one, everything that has
      run out goes except what the heap does not know of.
     */
    method ReapExpired(max: Option<nat>, now: i64) returns (reaped: nat, ghost gone: set<bytes>)
      requires Valid()
      modifies this
      ensures Valid() && View() == Stored(old(records) - gone, old(sequence))
      ensures gone <= Due(old(records), old(expirations), now) && reaped == |gone|
      ensures max.None? || reaped < max.value ==> gone == Due(old(records), old(expirations), now)
      ensures max.Some? ==> reaped <= max.value
      ensures Uncovered(records, expirations) == Uncovered(old(records), old(expirations))
      ensures Noted(expired, old(expired), gone, old(records))
    {
      hide Total, OrderOk, Expiring, HeapOk, Uncovered, Due, Current, Noted;
      reaped, gone := 0, {};
      ghost var was, heap := records, expirations;
      assert was - {} == was;
      NoteNone(expired, was);
      while (max.None? || reaped < max.value) && expirations != [] && expirations[0].expireAt <= now
        invariant Valid() && records == was - gone && sequence == old(sequence)
        invariant reaped == |gone| && (max.Some? ==> reaped <= max.value)
        invariant gone * Due(records, expirations, now) == {} && Due(was, heap, now) == gone + Due(records, expirations, now)
        invariant Uncovered(records, expirations) == Uncovered(was, heap)
        invariant Noted(expired, old(expired), gone, was)
        decreases |expirations|
      {
        var x := expirations[0];
        if Current(records, x, now) {
          PopCurrent(records, expirations, sequence, now);
          expirations := expirations[1..];
          assert was - gone - {x.key} == was - (gone + {x.key});
          NoteOne(expired, old(expired), gone, was, x.key);
          gone := gone + {x.key};
          var _ := Remove(x.key, true);
          reaped := reaped + 1;
        } else {
          PopStale(records, expirations, sequence, now);
          expirations := expirations[1..];
        }
      }
      if max.None? || reaped < max.value {
        NothingDue(records, expirations, sequence, now);
      }
    }

    /** The removed records wait here until the indexes have dropped them too. */
    method TakeExpired() returns (taken: seq<(bytes, Record)>)
      requires Valid()
      modifies this
      ensures Valid() && View() == old(View()) && expirations == old(expirations)
      ensures taken == old(expired) && expired == []
    {
      taken := expired;
      expired := [];
    }

    /** The live keys of a range, in order, each by its own reading of the clock; those met that have run out are removed. */
    method RawKeys(options: RangeOptions<bytes>, clock: seq<i64>) returns (keys: seq<bytes>)
      requires Valid() && |clock| == |Wanted(CompareBytes, order, Effective(options))|
      modifies this
      ensures Valid() && expirations == old(expirations)
      ensures var hits := Wanted(CompareBytes, old(order), Effective(options));
        keys == LiveKeys(hits, old(records), clock) && View() == Stored(old(records) - RunOut(hits, old(records), clock), old(sequence))
      ensures forall i, j :: 0 <= i < j < |keys| ==> if options.reverse then CompareBytes(keys[i], keys[j]).Greater? else CompareBytes(keys[i], keys[j]).Less?
      ensures forall k :: k in keys ==>
        && k in old(records) && (old(records)[k].expireAt != 0 ==> exists now :: now in clock && now < old(records)[k].expireAt)
        && (options.gte.Some? ==> !CompareBytes(k, options.gte.value).Less?)
        && (options.gt.Some? && (options.reverse || options.gte.None?) ==> CompareBytes(k, options.gt.value).Greater?)
        && (options.lte.Some? ==> !CompareBytes(k, options.lte.value).Greater?)
        && (options.lt.Some? && (!options.reverse || options.lte.None?) ==> CompareBytes(k, options.lt.value).Less?)
      ensures options.offset == 0 && options.count.None? ==> forall k ::
        && k in old(records) && (old(records)[k].expireAt != 0 ==> forall now :: now in clock ==> now < old(records)[k].expireAt)
        && (options.gte.Some? ==> !CompareBytes(k, options.gte.value).Less?)
        && (options.gt.Some? && (options.reverse || options.gte.None?) ==> CompareBytes(k, options.gt.value).Greater?)
        && (options.lte.Some? ==> !CompareBytes(k, options.lte.value).Greater?)
        && (options.lt.Some? && (!options.reverse || options.lte.None?) ==> CompareBytes(k, options.lt.value).Less?)
        ==> k in keys
    {
      hide Total, OrderOk, Expiring, HeapOk, LiveKeys, RunOut, Wanted;
      KeysInRange(order, records, options, clock);
      ghost var was := records;
      var hits := Wanted(CompareBytes, order, Effective(options));
      keys := [];
      VisitNone(hits, was, clock);
      HitsOnce(order, was.Keys, options);
      for i := 0 to |hits|
        invariant Valid() && expirations == old(expirations) && sequence == old(sequence)
        invariant keys == LiveKeys(hits[..i], was, clock[..i]) && records == was - RunOut(hits[..i], was, clock[..i])
      {
        var key := hits[i].0;
        VisitOne(hits, i, was, clock);
        var gone := ExpireIfNeeded(key, clock[i]);
        if !gone && key in records {
          keys := keys + [key];
        }
        assert was - RunOut(hits[..i], was, clock[..i]) - {key} == was - (RunOut(hits[..i], was, clock[..i]) + {key});
      }
      assert hits[..|hits|] == hits && clock[..|hits|] == clock;
    }

    /** The live entries of a range, in order, each by its own reading of the clock. */
    method Scan(options: RangeOptions<bytes>, clock: seq<i64>, read: ValueReader) returns (r: Result<seq<Entry>, StoreError>)
      requires Valid() && |clock| == |Wanted(CompareBytes, order, Effective(options))|
      modifies this
      ensures Valid() && expirations == old(expirations)
      ensures var hits := Wanted(CompareBytes, old(order), Effective(options));
        if r.Ok? then
          && EntriesFor(r.value, LiveKeys(hits, old(records), clock), old(records), read)
          && View() == Stored(old(records) - RunOut(hits, old(records), clock), old(sequence))
        else exists i :: 0 <= i < |hits| && Lives(old(records), hits[i].0, clock[i]) && Materialized(old(records)[hits[i].0].ref, read).Err?
    {
      hide Total, OrderOk, Expiring, HeapOk, LiveKeys, RunOut, Wanted;
      ghost var was := records;
      var hits := Wanted(CompareBytes, order, Effective(options));
      var out := [];
      VisitNone(hits, was, clock);
      HitsOnce(order, was.Keys, options);
      for i := 0 to |hits|
        invariant Valid() && expirations == old(expirations) && sequence == old(sequence)
        invariant EntriesFor(out, LiveKeys(hits[..i], was, clock[..i]), was, read) && records == was - RunOut(hits[..i], was, clock[..i])
      {
        var key := hits[i].0;
        VisitOne(hits, i, was, clock);
        var gone := ExpireIfNeeded(key, clock[i]);
        if !gone && key in records {
          var v := Materialized(records[key].ref, read);
          if v.Err? {
            assert Lives(was, key, clock[i]);
            return Err(v.error);
          }
          out := out + [Entry(key, v.value, records[key].expireAt, records[key].meta)];
        }
        assert was - RunOut(hits[..i], was, clock[..i]) - {key} == was - (RunOut(hits[..i], was, clock[..i]) + {key});
      }
      assert hits[..|hits|] == hits && clock[..|hits|] == clock;
      r := Ok(out);
    }

    /** Moves values on disk; nothing else about any record changes. */
    method RemapLocations(remap: (bytes, ValueLoc, Record) -> Option<ValueLoc>)
      requires Valid()
      modifies this
      ensures Valid() && sequence == old(sequence) && expired == old(expired) && expirations == old(expirations) && order == old(order)
      ensures records.Keys == old(records).Keys
      ensures forall k :: k in records ==> records[k] == Remapped(old(records), k, remap)
    {
      var todo := records.Keys;
      ghost var was := records;
      while todo != {}
        invariant todo <= records.Keys == was.Keys
        invariant forall k :: k in records ==> records[k] == if k in todo then was[k] else Remapped(was, k, remap)
        invariant sequence == old(sequence) && expired == old(expired) && expirations == old(expirations) && order == old(order)
        invariant size == old(size) && expiring == old(expiring)
        decreases |todo|
      {
        var k :| k in todo;
        records := records[k := Remapped(records, k, remap)];
        todo := todo - {k};
      }
      RemapKeepsAccounts(was, records, remap, expirations, sequence);
    }
  }

  ghost predicate HasEntry(es: seq<Entry>, k: bytes) {
    exists i :: 0 <= i < |es| && es[i].key == k
  }

  lemma EntryAdded(es: seq<Entry>, e: Entry)
    ensures forall k :: HasEntry(es + [e], k) <==> HasEntry(es, k) || k == e.key
  {
    forall k
      ensures HasEntry(es + [e], k) <==> HasEntry(es, k) || k == e.key
    {
      if HasEntry(es, k) {
        var i :| 0 <= i < |es| && es[i].key == k;
        assert (es + [e])[i].key == k;
      }
      assert (es + [e])[|es|] == e;
    }
  }

  lemma NoneExpiring(m: map<bytes, Record>, now: i64)
    requires |Expiring(m)| == 0
    ensures |m| == |set k | k in m && Lives(m, k, now)|
  {
    assert forall k :: k in m && m[k].expireAt != 0 ==> k in Expiring(m);
    assert (set k | k in m && Lives(m, k, now)) == m.Keys;
  }

  method CountLive(m: map<bytes, Record>, now: i64) returns (n: nat)
    ensures n == |set k | k in m && Lives(m, k, now)|
  {
    n := 0;
    var todo := m.Keys;
    ghost var seen: set<bytes> := {};
    while todo != {}
      invariant todo <= m.Keys && seen <= m.Keys - todo && n == |seen|
      invariant forall k :: k in m && k !in todo && Lives(m, k, now) <==> k in seen
      decreases |todo|
    {
      var k :| k in todo;
      if !Expired(m[k].expireAt, now) {
        n := n + 1;
        seen := seen + {k};
      }
      todo := todo - {k};
    }
    assert (set k | k in m && Lives(m, k, now)) == seen;
  }

  // --- reaping ------------------------------------------------------------------------------

  /** Records that have run out and that the heap knows. */
  ghost function Due(m: map<bytes, Record>, h: seq<HeapItem>, now: i64): set<bytes> {
    set k | k in m && Expired(m[k].expireAt, now) && ItemOf(k, m[k]) in h
  }

  /** The item on top stands for the record its key has now, and that has run out. */
  predicate Current(m: map<bytes, Record>, x: HeapItem, now: i64) {
    x.key in m && m[x.key].sequence == x.sequence && Expired(m[x.key].expireAt, now)
  }

  /** The heap no longer knows of anything that is due. */
  predicate NothingOnTop(h: seq<HeapItem>, now: i64) {
    h == [] || h[0].expireAt > now
  }

  lemma PopStale(m: map<bytes, Record>, h: seq<HeapItem>, sequence: nat, now: i64)
    requires HeapOk(m, h, sequence) && h != [] && h[0].expireAt <= now && !Current(m, h[0], now)
    ensures HeapOk(m, h[1..], sequence) && Uncovered(m, h[1..]) == Uncovered(m, h) && Due(m, h[1..], now) == Due(m, h, now)
  {
    assert h == [h[0]] + h[1..];
    assert forall x :: x in h <==> x == h[0] || x in h[1..];
  }

  lemma PopCurrent(m: map<bytes, Record>, h: seq<HeapItem>, sequence: nat, now: i64)
    requires HeapOk(m, h, sequence) && h != [] && h[0].expireAt <= now && Current(m, h[0], now)
    ensures var k := h[0].key;
      && k in m && h[0] == ItemOf(k, m[k]) && k in Due(m, h, now)
      && HeapOk(m, h[1..], sequence)
      && Uncovered(m - {k}, h[1..]) == Uncovered(m, h) && Due(m - {k}, h[1..], now) == Due(m, h, now) - {k}
  {
    assert h == [h[0]] + h[1..];
    assert h[0] in h;
    assert forall x :: x in h <==> x == h[0] || x in h[1..];
  }

  lemma NothingDue(m: map<bytes, Record>, h: seq<HeapItem>, sequence: nat, now: i64)
    requires HeapOk(m, h, sequence) && NothingOnTop(h, now)
    ensures Due(m, h, now) == {}
  {
    if h != [] {
      TopFirst(h);
    }
  }

  lemma TopFirst(h: seq<HeapItem>)
    requires HeapSorted(h) && h != []
    ensures forall x :: x in h ==> h[0].expireAt <= x.expireAt
  {
  }

  /** The removed records were added to the list of those that have run out. */
  ghost predicate Noted(expired: seq<(bytes, Record)>, before: seq<(bytes, Record)>, gone: set<bytes>, was: map<bytes, Record>) {
    && |expired| == |before| + |gone| && before <= expired
    && forall i :: |before| <= i < |expired| ==> expired[i].0 in gone && expired[i].0 in was && expired[i].1 == was[expired[i].0]
  }

  lemma NoteNone(expired: seq<(bytes, Record)>, was: map<bytes, Record>)
    ensures Noted(expired, expired, {}, was)
  {
  }

  lemma NoteOne(expired: seq<(bytes, Record)>, before: seq<(bytes, Record)>, gone: set<bytes>, was: map<bytes, Record>, k: bytes)
    requires Noted(expired, before, gone, was) && k in was && k !in gone
    ensures Noted(expired + [(k, was[k])], before, gone + {k}, was)
  {
  }

  // --- ranges ---------------------------------------------------------------------------------

  function LiveKeys(hits: seq<(bytes, bytes)>, m: map<bytes, Record>, clock: seq<i64>): seq<bytes>
    requires |clock| == |hits|
  {
    if hits == [] then []
    else
      var n := |hits| - 1;
      LiveKeys(hits[..n], m, clock[..n]) + if Lives(m, hits[n].0, clock[n]) then [hits[n].0] else []
  }

  /** The keys a range visits that have run out when they are visited. */
  function RunOut(hits: seq<(bytes, bytes)>, m: map<bytes, Record>, clock: seq<i64>): set<bytes>
    requires |clock| == |hits|
  {
    set i | 0 <= i < |hits| && hits[i].0 in m && Expired(m[hits[i].0].expireAt, clock[i]) :: hits[i].0
  }

  /** Every key is visited once. */
  ghost predicate KeysOnce(hits: seq<(bytes, bytes)>) {
    forall i, j :: 0 <= i < j < |hits| ==> hits[i].0 != hits[j].0
  }

  lemma HitsOnce(order: seq<(bytes, bytes)>, keys: set<bytes>, options: RangeOptions<bytes>)
    requires OrderOk(order, keys)
    ensures KeysOnce(Wanted(CompareBytes, order, Effective(options)))
  {
    hide Wanted, Effective, Sorted;
    ShowsOnce(BYTE_ORDER, order, Doubles(keys));
    WantedOnce(CompareBytes, order, Effective(options));
    forall e | e in order
      ensures e.1 == e.0
    {
      assert multiset(order)[e] > 0;
    }
  }

  lemma {:induction false} LiveKeysSaid(hits: seq<(bytes, bytes)>, m: map<bytes, Record>, clock: seq<i64>, k: bytes)
    requires |clock| == |hits|
    ensures k in LiveKeys(hits, m, clock) <==> exists i :: 0 <= i < |hits| && hits[i].0 == k && k in m && (m[k].expireAt != 0 ==> clock[i] < m[k].expireAt)
    decreases |hits|
  {
    if hits != [] {
      var n := |hits| - 1;
      LiveKeysSaid(hits[..n], m, clock[..n], k);
      if i :| 0 <= i < n && hits[..n][i].0 == k && k in m && (m[k].expireAt != 0 ==> clock[..n][i] < m[k].expireAt) {
        assert hits[i].0 == k && clock[i] == clock[..n][i];
      }
      forall i | 0 <= i < n && hits[i].0 == k && k in m && (m[k].expireAt != 0 ==> clock[i] < m[k].expireAt)
        ensures k in LiveKeys(hits[..n], m, clock[..n])
      {
        assert hits[..n][i].0 == k && clock[..n][i] == clock[i];
      }
    }
  }

  /** The keys visited run strictly one way. */
  ghost predicate OneWay(keys: seq<bytes>, reverse: bool) {
    forall i, j :: 0 <= i < j < |keys| ==> if reverse then CompareBytes(keys[i], keys[j]).Greater? else CompareBytes(keys[i], keys[j]).Less?
  }

  lemma {:induction false} LiveKeysOneWay(hits: seq<(bytes, bytes)>, m: map<bytes, Record>, clock: seq<i64>, reverse: bool)
    requires |clock| == |hits| && KeysOnce(hits)
    requires forall i, j :: 0 <= i < j < |hits| ==> if reverse then !CompareBytes(hits[i].0, hits[j].0).Less? else !CompareBytes(hits[i].0, hits[j].0).Greater?
    ensures OneWay(LiveKeys(hits, m, clock), reverse)
    decreases |hits|
  {
    if hits != [] {
      var n := |hits| - 1;
      var keys := LiveKeys(hits[..n], m, clock[..n]);
      LiveKeysOneWay(hits[..n], m, clock[..n], reverse);
      forall i | 0 <= i < |keys|
        ensures if reverse then CompareBytes(keys[i], hits[n].0).Greater? else CompareBytes(keys[i], hits[n].0).Less?
      {
        LiveKeysSaid(hits[..n], m, clock[..n], keys[i]);
        var j :| 0 <= j < n && hits[..n][j].0 == keys[i];
        BytesTotal();
        assert hits[j].0 != hits[n].0;
      }
    }
  }

  /** The keys of a range, said of the records: those in bounds that live when they are visited. */
  lemma KeysInRange(order: seq<(bytes, bytes)>, m: map<bytes, Record>, options: RangeOptions<bytes>, clock: seq<i64>)
    requires OrderOk(order, m.Keys) && |clock| == |Wanted(CompareBytes, order, Effective(options))|
    ensures var keys := LiveKeys(Wanted(CompareBytes, order, Effective(options)), m, clock);
      && OneWay(keys, options.reverse)
      && (forall k :: k in keys ==>
            && k in m && (m[k].expireAt != 0 ==> exists now :: now in clock && now < m[k].expireAt)
            && (options.gte.Some? ==> !CompareBytes(k, options.gte.value).Less?)
            && (options.gt.Some? && (options.reverse || options.gte.None?) ==> CompareBytes(k, options.gt.value).Greater?)
            && (options.lte.Some? ==> !CompareBytes(k, options.lte.value).Greater?)
            && (options.lt.Some? && (!options.reverse || options.lte.None?) ==> CompareBytes(k, options.lt.value).Less?))
      && (options.offset == 0 && options.count.None? ==> forall k ::
            && k in m && (m[k].expireAt != 0 ==> forall now :: now in clock ==> now < m[k].expireAt)
            && (options.gte.Some? ==> !CompareBytes(k, options.gte.value).Less?)
            && (options.gt.Some? && (options.reverse || options.gte.None?) ==> CompareBytes(k, options.gt.value).Greater?)
            && (options.lte.Some? ==> !CompareBytes(k, options.lte.value).Greater?)
            && (options.lt.Some? && (!options.reverse || options.lte.None?) ==> CompareBytes(k, options.lt.value).Less?)
            ==> k in keys)
  {
    hide Wanted, Effective, LiveKeys, Shows, OneWay, CompareBytes;
    var hits := Wanted(CompareBytes, order, Effective(options));
    var keys := LiveKeys(hits, m, clock);
    BytesTotal();
    HitsOnce(order, m.Keys, options);
    RangeOfSet(BYTE_ORDER, order, Doubles(m.Keys), options);
    LiveKeysOneWay(hits, m, clock, options.reverse);
    forall k | k in keys
      ensures (k, k) in hits && k in m && (m[k].expireAt != 0 ==> exists now :: now in clock && now < m[k].expireAt)
    {
      LiveKeysSaid(hits, m, clock, k);
      var i :| 0 <= i < |hits| && hits[i].0 == k && k in m && (m[k].expireAt != 0 ==> clock[i] < m[k].expireAt);
      assert hits[i] in hits && clock[i] in clock;
    }
    forall k | k in m && (k, k) in hits && (m[k].expireAt != 0 ==> forall now :: now in clock ==> now < m[k].expireAt)
      ensures k in keys
    {
      var i :| 0 <= i < |hits| && hits[i] == (k, k);
      assert clock[i] in clock;
      LiveKeysSaid(hits, m, clock, k);
    }
  }

  lemma VisitOne(hits: seq<(bytes, bytes)>, i: nat, m: map<bytes, Record>, clock: seq<i64>)
    requires i < |hits| == |clock| && KeysOnce(hits)
    ensures var k := hits[i].0;
      && LiveKeys(hits[..i + 1], m, clock[..i + 1]) == LiveKeys(hits[..i], m, clock[..i]) + (if Lives(m, k, clock[i]) then [k] else [])
      && RunOut(hits[..i + 1], m, clock[..i + 1]) == RunOut(hits[..i], m, clock[..i]) + (if k in m && Expired(m[k].expireAt, clock[i]) then {k} else {})
      && k !in RunOut(hits[..i], m, clock[..i])
  {
    assert hits[..i + 1][..i] == hits[..i] && clock[..i + 1][..i] == clock[..i];
    var k, more, some := hits[i].0, RunOut(hits[..i + 1], m, clock[..i + 1]), RunOut(hits[..i], m, clock[..i]);
    forall x
      ensures x in more <==> x in some || (x == k && k in m && Expired(m[k].expireAt, clock[i]))
    {
      if x in more {
        var j :| 0 <= j < i + 1 && hits[..i + 1][j].0 in m && Expired(m[hits[..i + 1][j].0].expireAt, clock[..i + 1][j]) && hits[..i + 1][j].0 == x;
        assert j < i ==> hits[..i][j] == hits[j] && clock[..i][j] == clock[j];
      }
      if x in some {
        var j :| 0 <= j < i && hits[..i][j].0 in m && Expired(m[hits[..i][j].0].expireAt, clock[..i][j]) && hits[..i][j].0 == x;
        assert hits[..i + 1][j] == hits[j] && clock[..i + 1][j] == clock[j];
      }
      assert hits[..i + 1][i] == hits[i] && clock[..i + 1][i] == clock[i];
    }
  }

  lemma VisitNone(hits: seq<(bytes, bytes)>, m: map<bytes, Record>, clock: seq<i64>)
    requires |clock| == |hits|
    ensures LiveKeys(hits[..0], m, clock[..0]) == [] && RunOut(hits[..0], m, clock[..0]) == {} && m - RunOut(hits[..0], m, clock[..0]) == m
  {
  }

  ghost predicate EntriesFor(es: seq<Entry>, keys: seq<bytes>, m: map<bytes, Record>, read: ValueReader) {
    |es| == |keys| && forall i :: 0 <= i < |es| ==> es[i].key == keys[i] && IsEntry(m, es[i], read)
  }

  predicate IsEntry(m: map<bytes, Record>, e: Entry, read: ValueReader) {
    && e.key in m && Materialized(m[e.key].ref, read) == Ok(e.value)
    && e.expireAt == m[e.key].expireAt && e.meta == m[e.key].meta
  }

  function Remapped(m: map<bytes, Record>, k: bytes, remap: (bytes, ValueLoc, Record) -> Option<ValueLoc>): Record
    requires k in m
  {
    if m[k].ref.Memory? then m[k]
    else
      var l := remap(k, m[k].ref.loc, m[k]);
      if l.Some? then m[k].(ref := Disk(l.value)) else m[k]
  }

  lemma RemapKeepsAccounts(was: map<bytes, Record>, now: map<bytes, Record>, remap: (bytes, ValueLoc, Record) -> Option<ValueLoc>, heap: seq<HeapItem>, sequence: nat)
    requires was.Keys == now.Keys && forall k :: k in now ==> now[k] == Remapped(was, k, remap)
    requires HeapOk(was, heap, sequence)
    ensures Total(was) == Total(now) && Expiring(was) == Expiring(now) && HeapOk(now, heap, sequence)
  {
    TotalSameSizes(was, now);
  }

  /** One heap item for each expiring record. */
  method RebuildExpirations(m: map<bytes, Record>) returns (h: seq<HeapItem>)
    ensures HeapSorted(h)
    ensures forall x :: x in h <==> x.key in m && m[x.key].expireAt != 0 && x == ItemOf(x.key, m[x.key])
  {
    h := [];
    var todo := m.Keys;
    while todo != {}
      invariant todo <= m.Keys && HeapSorted(h)
      invariant forall x :: x in h <==> x.key in m && x.key !in todo && m[x.key].expireAt != 0 && x == ItemOf(x.key, m[x.key])
      decreases |todo|
    {
      var k :| k in todo;
      if m[k].expireAt != 0 {
        PushKeeps(h, ItemOf(k, m[k]));
        forall x
          ensures x in PushItem(h, ItemOf(k, m[k])) <==> x in h || x == ItemOf(k, m[k])
        {
          PushHas(h, ItemOf(k, m[k]), x);
        }
        h := PushItem(h, ItemOf(k, m[k]));
      }
      todo := todo - {k};
    }
  }

  /** What replacing the record of a key makes of the other fields. */
  method Replace(m: map<bytes, Record>, order: seq<(bytes, bytes)>, expirations: seq<HeapItem>, sequence: nat, size: nat, expiring: nat, key: bytes, r: Record)
    returns (place: seq<(bytes, bytes)>, heap: seq<HeapItem>, total: nat, count: nat)
    requires Sound(m, order, expirations, sequence, size, expiring) && r.sequence == sequence + 1
    ensures Sound(m[key := r], place, heap, sequence + 1, total, count)
    ensures Uncovered(m[key := r], heap) ==
      if r.expireAt != 0 && |expirations| + 1 > 2 * |m.Keys - {key}| + 64 then {key} else Uncovered(m, expirations) - {key}
    ensures r.expireAt != 0 && |expirations| + 1 <= 2 * |m.Keys - {key}| + 64 ==> |heap| == |expirations| + 1
  {
    hide Total, HeapOk, OrderOk, Insert, Expiring, Uncovered, RecordSize, PushItem;
    total, count := WithoutOld(m, key, size, expiring);
    TotalWith(m, key, r);
    ExpiringWith(m, key, r);
    total := total + RecordSize(key, r);
    count := count + if r.expireAt != 0 then 1 else 0;
    place := if key in m then order else Insert(BYTE_ORDER, order, (key, key));
    PlaceKey(order, m, key, r);
    assert (m - {key}).Keys == m.Keys - {key};
    heap := Enqueue(m, m - {key}, expirations, key, r);
  }

  /** The counters without the record that a key may have had. */
  method WithoutOld(m: map<bytes, Record>, key: bytes, size: nat, expiring: nat) returns (total: nat, count: nat)
    requires size == Total(m) && expiring == |Expiring(m)|
    ensures total == Total(m - {key}) && count == |Expiring(m - {key})|
  {
    hide Total, Expiring, RecordSize;
    total, count := size, expiring;
    if key in m {
      TotalWithout(m, key);
      ExpiringWithout(m, key);
      total := SatSub(total, RecordSize(key, m[key]));
      if m[key].expireAt != 0 {
        count := SatSub(count, 1);
      }
    } else {
      assert m - {key} == m;
    }
  }

  lemma PlaceKey(order: seq<(bytes, bytes)>, m: map<bytes, Record>, key: bytes, r: Record)
    requires OrderOk(order, m.Keys)
    ensures OrderOk(if key in m then order else Insert(BYTE_ORDER, order, (key, key)), m[key := r].Keys)
  {
    hide OrderOk, Insert;
    if key in m {
      assert m[key := r].Keys == m.Keys;
    } else {
      OrderInsert(order, m.Keys, key);
      assert m[key := r].Keys == m.Keys + {key};
    }
  }

  /** Push the item of a new record; when the heap has grown too long, rebuild it from the other records. */
  method Enqueue(ghost was: map<bytes, Record>, rest: map<bytes, Record>, heap: seq<HeapItem>, key: bytes, r: Record) returns (h: seq<HeapItem>)
    requires rest == was - {key} && r.sequence > 0 && HeapOk(was, heap, r.sequence - 1)
    ensures HeapOk(was[key := r], h, r.sequence)
    ensures Uncovered(was[key := r], h) ==
      if r.expireAt != 0 && |heap| + 1 > 2 * |rest.Keys| + 64 then {key} else Uncovered(was, heap) - {key}
    ensures r.expireAt != 0 && |heap| + 1 <= 2 * |rest.Keys| + 64 ==> |h| == |heap| + 1
  {
    h := heap;
    if r.expireAt != 0 {
      h := PushItem(h, ItemOf(key, r));
      PushFresh(was, heap, r.sequence, key, r);
      assert |rest| == |rest.Keys|;
      if |h| > |rest| * 2 + 64 {
        h := RebuildExpirations(rest);
        RebuiltFresh(was, r.sequence, key, r, h);
      }
    } else {
      PlainFresh(was, heap, r.sequence, key, r);
    }
  }

  lemma PushFresh(m: map<bytes, Record>, h: seq<HeapItem>, sequence: nat, key: bytes, r: Record)
    requires sequence > 0 && HeapOk(m, h, sequence - 1) && r.sequence == sequence && r.expireAt != 0
    ensures var g := PushItem(h, ItemOf(key, r));
      HeapOk(m[key := r], g, sequence) && Uncovered(m[key := r], g) == Uncovered(m, h) - {key}
  {
    var x := ItemOf(key, r);
    PushKeeps(h, x);
    forall y
      ensures y in PushItem(h, x) <==> y in h || y == x
    {
      PushHas(h, x, y);
    }
  }

  lemma RebuiltFresh(m: map<bytes, Record>, sequence: nat, key: bytes, r: Record, g: seq<HeapItem>)
    requires sequence > 0 && (forall k :: k in m ==> m[k].sequence < sequence) && r.sequence == sequence && r.expireAt != 0
    requires var rest := m - {key};
      HeapSorted(g) && forall x :: x in g <==> x.key in rest && rest[x.key].expireAt != 0 && x == ItemOf(x.key, rest[x.key])
    ensures HeapOk(m[key := r], g, sequence) && Uncovered(m[key := r], g) == {key}
  {
    var n := m[key := r];
    forall k
      ensures k in Uncovered(n, g) <==> k == key
    {
      if k in m && k != key && m[k].expireAt != 0 {
        assert ItemOf(k, m[k]) in g;
      }
    }
  }

  lemma PlainFresh(m: map<bytes, Record>, h: seq<HeapItem>, sequence: nat, key: bytes, r: Record)
    requires sequence > 0 && HeapOk(m, h, sequence - 1) && r.sequence == sequence && r.expireAt == 0
    ensures HeapOk(m[key := r], h, sequence) && Uncovered(m[key := r], h) == Uncovered(m, h) - {key}
  {
  }

  /**
    A run that leaves an expiring record out of the heap: one key set 65 times in an empty
    store.  Its record has run out and stays, whatever reaping does.
   */
  method MissedByTheHeap(key: bytes, value: bytes, expireAt: i64, now: i64) returns (store: Store)
    requires expireAt != 0 && Expired(expireAt, now)
    ensures store.Valid() && Uncovered(store.records, store.expirations) == {key}
    ensures key in store.records && Expired(store.records[key].expireAt, now)
  {
    hide Sound, Uncovered, Due, Noted;
    store := new Store();
    for i := 0 to 64
      invariant fresh(store) && store.Valid() && |store.expirations| == i && store.records.Keys <= {key}
    {
      assert store.records.Keys - {key} == {};
      store.SetRef(key, ValueRef.Memory(value), expireAt, None);
    }
    assert store.records.Keys - {key} == {};
    store.SetRef(key, ValueRef.Memory(value), expireAt, None);
    ghost var m, h := store.records, store.expirations;
    UncoveredNotDue(m, h, key, now);
    var reaped, gone := store.ReapExpired(None, now);
  }

  lemma UncoveredNotDue(m: map<bytes, Record>, h: seq<HeapItem>, key: bytes, now: i64)
    requires Uncovered(m, h) == {key}
    ensures key !in Due(m, h, now)
  {
    assert key in Uncovered(m, h);
  }
}
