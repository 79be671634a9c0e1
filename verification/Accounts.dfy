/** The counters and the expiry heap of `store.rs`, as functions of its records. */
module Accounts {
  import opened Wrappers
  import opened Bytes
  import opened Records

  const DISK_REF_BYTES: nat := 64

  function MetadataBytes(meta: Option<bytes>): nat {
    if meta.Some? then |meta.value| else 0
  }

  function RefBytes(ref: ValueRef): nat {
    if ref.Memory? then |ref.value| else DISK_REF_BYTES
  }

  function RecordSize(k: bytes, r: Record): nat {
    |k| + RefBytes(r.ref) + MetadataBytes(r.meta)
  }

  // --- bytes --------------------------------------------------------------------------------

  ghost function Total(m: map<bytes, Record>): nat {
    if m == map[] then 0
    else
      var k :| k in m;
      RecordSize(k, m[k]) + Total(m - {k})
  }

  lemma {:induction false} TotalWithout(m: map<bytes, Record>, k: bytes)
    requires k in m
    ensures Total(m) == RecordSize(k, m[k]) + Total(m - {k})
    decreases |m|
  {
    var x :| x in m && Total(m) == RecordSize(x, m[x]) + Total(m - {x});
    if x != k {
      TotalWithout(m - {x}, k);
      TotalWithout(m - {k}, x);
      assert m - {x} - {k} == m - {k} - {x};
    }
  }

  lemma TotalWith(m: map<bytes, Record>, k: bytes, r: Record)
    ensures Total(m[k := r]) == RecordSize(k, r) + Total(m - {k})
  {
    TotalWithout(m[k := r], k);
    assert m[k := r] - {k} == m - {k};
  }

  lemma {:induction false} TotalSameSizes(m: map<bytes, Record>, n: map<bytes, Record>)
    requires m.Keys == n.Keys && forall k :: k in m ==> RecordSize(k, m[k]) == RecordSize(k, n[k])
    ensures Total(m) == Total(n)
    decreases |m|
  {
    if m != map[] {
      var k :| k in m;
      TotalWithout(m, k);
      TotalWithout(n, k);
      TotalSameSizes(m - {k}, n - {k});
    } else {
      assert n == map[];
    }
  }

  // --- what the bytes are -------------------------------------------------------------------

  /** Keys, values in memory and metadata, one behind another. */
  function LaidOut(keys: seq<bytes>, m: map<bytes, Record>): bytes
    requires forall k :: k in keys ==> k in m
  {
    if keys == [] then []
    else
      var n := |keys| - 1;
      var r := m[keys[n]];
      LaidOut(keys[..n], m) + keys[n] + (if r.ref.Memory? then r.ref.value else []) + if r.meta.Some? then r.meta.value else []
  }

  ghost predicate EachOnce(keys: seq<bytes>, m: map<bytes, Record>) {
    (forall k :: k in keys <==> k in m) && forall i, j :: 0 <= i < j < |keys| ==> keys[i] != keys[j]
  }

  ghost function ValuesOnDisk(m: map<bytes, Record>): set<bytes> {
    set k | k in m && m[k].ref.Disk?
  }

  lemma EachOnceBefore(keys: seq<bytes>, m: map<bytes, Record>)
    requires EachOnce(keys, m) && keys != []
    ensures var n := |keys| - 1; keys[n] in m && EachOnce(keys[..n], m - {keys[n]})
  {
    var n := |keys| - 1;
    assert keys[n] in keys && keys == keys[..n] + [keys[n]];
    forall x
      ensures x in keys[..n] <==> x in m - {keys[n]}
    {
      assert x in keys <==> x in keys[..n] || x == keys[n];
    }
  }

  lemma ValuesWithout(m: map<bytes, Record>, k: bytes)
    requires k in m
    ensures |ValuesOnDisk(m)| == |ValuesOnDisk(m - {k})| + if m[k].ref.Disk? then 1 else 0
  {
    assert ValuesOnDisk(m) == ValuesOnDisk(m - {k}) + if m[k].ref.Disk? then {k} else {};
  }

  /** The total is the length of everything in memory laid out, in any order, and 64 for each value on disk. */
  lemma {:induction false} TotalLaidOut(keys: seq<bytes>, m: map<bytes, Record>)
    requires EachOnce(keys, m)
    ensures Total(m) == |LaidOut(keys, m)| + 64 * |ValuesOnDisk(m)|
    decreases |keys|
  {
    hide EachOnce, Total, ValuesOnDisk;
    if keys == [] {
      NothingLaidOut(m);
    } else {
      var n := |keys| - 1;
      var k := keys[n];
      EachOnceBefore(keys, m);
      TotalWithout(m, k);
      TotalLaidOut(keys[..n], m - {k});
      EachOnceIn(keys[..n], m - {k});
      LaidOutSame(keys[..n], m, m - {k});
      ValuesWithout(m, k);
    }
  }

  lemma NothingLaidOut(m: map<bytes, Record>)
    requires EachOnce([], m)
    ensures Total(m) == 0 && ValuesOnDisk(m) == {}
  {
    var none: seq<bytes> := [];
    assert forall k :: k in m ==> k in none;
    assert m == map[];
  }

  lemma EachOnceIn(keys: seq<bytes>, m: map<bytes, Record>)
    requires EachOnce(keys, m)
    ensures forall k :: k in keys ==> k in m
  {
  }

  lemma {:induction false} SomeOrder(m: map<bytes, Record>) returns (keys: seq<bytes>)
    ensures EachOnce(keys, m)
    decreases |m|
  {
    if m == map[] {
      keys := [];
    } else {
      var k :| k in m;
      var rest := SomeOrder(m - {k});
      keys := rest + [k];
      forall x
        ensures x in keys <==> x in m
      {
        assert x in keys <==> x in rest || x == k;
        assert x in m - {k} <==> x in m && x != k;
      }
      assert k !in rest;
      assert forall i :: 0 <= i < |rest| ==> rest[i] in rest;
    }
  }

  /** Everything the records hold takes at most so many bytes, a value on disk counting 64. */
  ghost predicate Within(m: map<bytes, Record>, maximum: nat) {
    forall keys :: EachOnce(keys, m) ==> |LaidOut(keys, m)| + 64 * |ValuesOnDisk(m)| <= maximum
  }

  lemma WithinTotal(m: map<bytes, Record>, maximum: nat)
    ensures Within(m, maximum) <==> Total(m) <= maximum
  {
    forall keys | EachOnce(keys, m)
      ensures |LaidOut(keys, m)| + 64 * |ValuesOnDisk(m)| == Total(m)
    {
      TotalLaidOut(keys, m);
    }
    var keys := SomeOrder(m);
  }

  lemma {:induction false} LaidOutSame(keys: seq<bytes>, m: map<bytes, Record>, n: map<bytes, Record>)
    requires forall k :: k in keys ==> k in m && k in n && m[k] == n[k]
    ensures LaidOut(keys, m) == LaidOut(keys, n)
    decreases |keys|
  {
    if keys != [] {
      assert keys[|keys| - 1] in keys;
      LaidOutSame(keys[..|keys| - 1], m, n);
    }
  }

  // --- expiring records ---------------------------------------------------------------------

  ghost function Expiring(m: map<bytes, Record>): set<bytes> {
    set k | k in m && m[k].expireAt != 0
  }

  lemma ExpiringWithout(m: map<bytes, Record>, k: bytes)
    requires k in m
    ensures |Expiring(m)| == |Expiring(m - {k})| + if m[k].expireAt != 0 then 1 else 0
  {
    if m[k].expireAt != 0 {
      assert Expiring(m) == Expiring(m - {k}) + {k};
    } else {
      assert Expiring(m) == Expiring(m - {k});
    }
  }

  lemma ExpiringWith(m: map<bytes, Record>, k: bytes, r: Record)
    ensures |Expiring(m[k := r])| == |Expiring(m - {k})| + if r.expireAt != 0 then 1 else 0
  {
    ExpiringWithout(m[k := r], k);
    assert m[k := r] - {k} == m - {k};
  }

  // --- the heap -----------------------------------------------------------------------------

  datatype HeapItem = HeapItem(expireAt: i64, sequence: nat, key: bytes)

  function ItemOf(k: bytes, r: Record): HeapItem {
    HeapItem(r.expireAt, r.sequence, k)
  }

  /** The heap, kept as its items in the order in which they come out. */
  ghost predicate HeapSorted(h: seq<HeapItem>) {
    forall i, j :: 0 <= i < j < |h| ==> h[i].expireAt <= h[j].expireAt
  }

  function PushItem(h: seq<HeapItem>, x: HeapItem): (r: seq<HeapItem>)
    ensures |r| == |h| + 1
  {
    if h == [] || x.expireAt < h[0].expireAt || (x.expireAt == h[0].expireAt && x.sequence < h[0].sequence) then [x] + h
    else [h[0]] + PushItem(h[1..], x)
  }

  lemma {:induction false} PushItems(h: seq<HeapItem>, x: HeapItem)
    ensures multiset(PushItem(h, x)) == multiset(h) + multiset{x}
  {
    if h != [] {
      assert h == [h[0]] + h[1..];
      PushItems(h[1..], x);
    }
  }

  lemma PushHas(h: seq<HeapItem>, x: HeapItem, y: HeapItem)
    ensures y in PushItem(h, x) <==> y in h || y == x
  {
    PushItems(h, x);
    assert y in PushItem(h, x) <==> y in multiset(PushItem(h, x));
    assert y in h <==> y in multiset(h);
  }

  lemma {:induction false} PushKeeps(h: seq<HeapItem>, x: HeapItem)
    requires HeapSorted(h)
    ensures HeapSorted(PushItem(h, x))
  {
    if h != [] && !(x.expireAt < h[0].expireAt || (x.expireAt == h[0].expireAt && x.sequence < h[0].sequence)) {
      var t := PushItem(h[1..], x);
      PushKeeps(h[1..], x);
      forall j | 0 <= j < |t|
        ensures h[0].expireAt <= t[j].expireAt
      {
        PushHas(h[1..], x, t[j]);
      }
    }
  }

  /** Expiring records that the heap does not know. */
  ghost function Uncovered(m: map<bytes, Record>, h: seq<HeapItem>): set<bytes> {
    set k | k in m && m[k].expireAt != 0 && ItemOf(k, m[k]) !in h
  }

  /** Sequences in the heap and the records have been handed out, and one with a key's sequence is that key's. */
  ghost predicate HeapOk(m: map<bytes, Record>, h: seq<HeapItem>, sequence: nat) {
    && HeapSorted(h)
    && (forall x :: x in h ==> x.sequence <= sequence && x.expireAt != 0)
    && (forall k :: k in m ==> m[k].sequence <= sequence)
    && (forall x :: x in h && x.key in m && m[x.key].sequence == x.sequence ==> m[x.key].expireAt == x.expireAt)
  }
}
