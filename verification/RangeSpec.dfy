/** What a range query of `skiplist.rs` means, over the sorted pairs. */
module RangeSpec {
  import opened Wrappers
  import opened SortedPairs

  datatype RangeOptions<+K> = RangeOptions(
    gte: Option<K>, gt: Option<K>, lte: Option<K>, lt: Option<K>,
    offset: nat, count: Option<nat>, reverse: bool)

  predicate AboveLower<K>(compare: (K, K) -> Ordering, o: RangeOptions<K>, key: K) {
    && (o.gte.Some? ==> !compare(key, o.gte.value).Less?)
    && (o.gt.Some? ==> compare(key, o.gt.value).Greater?)
  }

  predicate BelowUpper<K>(compare: (K, K) -> Ordering, o: RangeOptions<K>, key: K) {
    && (o.lte.Some? ==> !compare(key, o.lte.value).Greater?)
    && (o.lt.Some? ==> compare(key, o.lt.value).Less?)
  }

  function Filter<T>(s: seq<T>, p: T -> bool): seq<T> {
    if s == [] then [] else (if p(s[0]) then [s[0]] else []) + Filter(s[1..], p)
  }

  function Reverse<T>(s: seq<T>): (r: seq<T>)
    ensures |r| == |s|
    ensures forall i {:trigger r[i]} :: 0 <= i < |s| ==> r[i] == s[|s| - 1 - i]
  {
    if s == [] then [] else Reverse(s[1..]) + [s[0]]
  }

  /** Drop `offset` entries, then take at most `count`. */
  function Page<T>(s: seq<T>, offset: nat, count: Option<nat>): seq<T> {
    var rest := if offset <= |s| then s[offset..] else [];
    if count.Some? && count.value <= |rest| then rest[..count.value] else rest
  }

  /** Filter by all bounds, reverse if asked, then page. */
  function Wanted<K, V>(compare: (K, K) -> Ordering, s: seq<(K, V)>, o: RangeOptions<K>): seq<(K, V)> {
    var hits := Filter(s, (e: (K, V)) => AboveLower(compare, o, e.0) && BelowUpper(compare, o, e.0));
    Page(if o.reverse then Reverse(hits) else hits, o.offset, o.count)
  }

  ghost predicate Once<T>(s: seq<T>) {
    forall i, j :: 0 <= i < j < |s| ==> s[i] != s[j]
  }

  lemma {:induction false} FilterOnce<T(!new)>(s: seq<T>, p: T -> bool)
    requires Once(s)
    ensures Once(Filter(s, p)) && forall x :: x in Filter(s, p) ==> x in s
  {
    if s != [] {
      FilterOnce(s[1..], p);
      var rest := Filter(s[1..], p);
      assert forall x :: x in rest ==> x in s[1..];
      assert s[0] !in s[1..];
      assert forall j :: 0 <= j < |rest| ==> rest[j] in rest;
    }
  }

  lemma ReverseOnce<T>(s: seq<T>)
    requires Once(s)
    ensures Once(Reverse(s)) && forall x :: x in Reverse(s) ==> x in s
  {
    var r := Reverse(s);
    forall i, j | 0 <= i < j < |r|
      ensures r[i] != r[j]
    {
      assert r[i] == s[|s| - 1 - i] && r[j] == s[|s| - 1 - j];
    }
  }

  lemma PageOnce<T>(s: seq<T>, offset: nat, count: Option<nat>)
    requires Once(s)
    ensures Once(Page(s, offset, count)) && forall x :: x in Page(s, offset, count) ==> x in s
  {
  }

  /** A range visits nothing twice, and nothing that is not in the list. */
  lemma WantedOnce<K(!new), V(!new)>(compare: (K, K) -> Ordering, s: seq<(K, V)>, o: RangeOptions<K>)
    requires Once(s)
    ensures Once(Wanted(compare, s, o)) && forall x :: x in Wanted(compare, s, o) ==> x in s
  {
    hide Once, Filter, Reverse, Page, AboveLower, BelowUpper;
    var p := (e: (K, V)) => AboveLower(compare, o, e.0) && BelowUpper(compare, o, e.0);
    var hits := Filter(s, p);
    FilterOnce(s, p);
    ReverseOnce(hits);
    PageOnce(if o.reverse then Reverse(hits) else hits, o.offset, o.count);
  }

  // --- the answer, bound by bound ---------------------------------------------------------------

  lemma {:induction false} FilterCounts<T>(s: seq<T>, p: T -> bool, x: T)
    ensures multiset(Filter(s, p))[x] == if p(x) then multiset(s)[x] else 0
  {
    if s != [] {
      FilterCounts(s[1..], p, x);
      assert s == [s[0]] + s[1..];
    }
  }

  lemma {:induction false} ReverseCounts<T>(s: seq<T>)
    ensures multiset(Reverse(s)) == multiset(s)
  {
    if s != [] {
      ReverseCounts(s[1..]);
      assert s == [s[0]] + s[1..];
    }
  }

  lemma {:induction false} FilterSorted<K(!new), V(!new)>(ord: Order<K, V>, s: seq<(K, V)>, p: ((K, V)) -> bool)
    requires Sorted(ord, s)
    ensures Sorted(ord, Filter(s, p))
  {
    if s != [] {
      SortedTail(ord, s);
      FilterSorted(ord, s[1..], p);
      var rest := Filter(s[1..], p);
      forall i | 0 <= i < |rest|
        ensures !ord.Precedes(rest[i], s[0])
      {
        FilterCounts(s[1..], p, rest[i]);
        assert rest[i] in multiset(rest);
      }
      SortedCons(ord, s[0], rest);
      assert Filter(s, p) == if p(s[0]) then [s[0]] + rest else rest;
    }
  }

  function AllWanted<K, V>(compare: (K, K) -> Ordering, s: seq<(K, V)>, o: RangeOptions<K>): seq<(K, V)> {
    Wanted(compare, s, o.(offset := 0, count := None))
  }

  /** The answer is the stretch of everything wanted that starts at `offset` and is at most `count` long. */
  lemma WantedPage<K, V>(compare: (K, K) -> Ordering, s: seq<(K, V)>, o: RangeOptions<K>)
    ensures var all, r := AllWanted(compare, s, Effective(o)), Wanted(compare, s, Effective(o));
      && |r| == (if |all| <= o.offset then 0 else if o.count.Some? && o.count.value < |all| - o.offset then o.count.value else |all| - o.offset)
      && forall i {:trigger r[i]} :: 0 <= i < |r| ==> r[i] == all[o.offset + i]
  {
    hide Filter, AboveLower, BelowUpper, Reverse;
    SameHits(compare, s, Effective(o));
  }

  function InBounds<K, V>(compare: (K, K) -> Ordering, s: seq<(K, V)>, o: RangeOptions<K>): seq<(K, V)> {
    var hits := Filter(s, (e: (K, V)) => AboveLower(compare, o, e.0) && BelowUpper(compare, o, e.0));
    if o.reverse then Reverse(hits) else hits
  }

  lemma SameHits<K, V>(compare: (K, K) -> Ordering, s: seq<(K, V)>, o: RangeOptions<K>)
    ensures Wanted(compare, s, o) == Page(InBounds(compare, s, o), o.offset, o.count)
    ensures AllWanted(compare, s, o) == InBounds(compare, s, o)
  {
    hide Reverse;
    var a := o.(offset := 0, count := None);
    var p := (x: (K, V)) => AboveLower(compare, o, x.0) && BelowUpper(compare, o, x.0);
    var q := (x: (K, V)) => AboveLower(compare, a, x.0) && BelowUpper(compare, a, x.0);
    FilterSame(s, p, q);
    assert Filter(s, p) == Filter(s, q);
    var hits := if o.reverse then Reverse(Filter(s, p)) else Filter(s, p);
    assert hits[0..] == hits;
  }

  /** How often a pair is in everything wanted: as often as in the list, if it is inside every bound honoured. */
  lemma AllWantedCounts<K, V>(compare: (K, K) -> Ordering, s: seq<(K, V)>, o: RangeOptions<K>, e: (K, V))
    ensures multiset(AllWanted(compare, s, Effective(o)))[e] ==
      if && (o.gte.Some? ==> !compare(e.0, o.gte.value).Less?)
         && (o.gt.Some? && (o.reverse || o.gte.None?) ==> compare(e.0, o.gt.value).Greater?)
         && (o.lte.Some? ==> !compare(e.0, o.lte.value).Greater?)
         && (o.lt.Some? && (!o.reverse || o.lte.None?) ==> compare(e.0, o.lt.value).Less?)
      then multiset(s)[e] else 0
  {
    var a := Effective(o).(offset := 0, count := None);
    var p := (x: (K, V)) => AboveLower(compare, a, x.0) && BelowUpper(compare, a, x.0);
    FilterCounts(s, p, e);
    ReverseCounts(Filter(s, p));
    assert Filter(s, p)[0..] == Filter(s, p) && Reverse(Filter(s, p))[0..] == Reverse(Filter(s, p));
  }

  /** Everything wanted ascends, or descends in reverse, by key and then by value. */
  lemma AllWantedSorted<K(!new), V(!new)>(ord: Order<K, V>, s: seq<(K, V)>, o: RangeOptions<K>, i: nat, j: nat)
    requires ord.Total() && Sorted(ord, s) && i < j < |AllWanted(ord.key, s, Effective(o))|
    ensures var r := AllWanted(ord.key, s, Effective(o));
      var (x, y) := if o.reverse then (r[j], r[i]) else (r[i], r[j]);
      !ord.key(x.0, y.0).Greater? && (ord.key(x.0, y.0).Equal? ==> !ord.value(x.1, y.1).Greater?)
  {
    var a := Effective(o).(offset := 0, count := None);
    var hits := Filter(s, (x: (K, V)) => AboveLower(ord.key, a, x.0) && BelowUpper(ord.key, a, x.0));
    FilterSorted(ord, s, (x: (K, V)) => AboveLower(ord.key, a, x.0) && BelowUpper(ord.key, a, x.0));
    if o.reverse {
      assert InOrder(ord, hits, |hits| - 1 - j, |hits| - 1 - i);
    } else {
      assert InOrder(ord, hits, i, j);
    }
  }

  /** A range of a sorted list, said outright: what is in it, how much of it, and in which order. */
  lemma RangeSaid<K(!new), V(!new)>(ord: Order<K, V>, s: seq<(K, V)>, o: RangeOptions<K>)
    requires ord.Total() && Sorted(ord, s)
    ensures var r := Wanted(ord.key, s, Effective(o));
      && (forall e :: e in r ==>
            && e in s
            && (o.gte.Some? ==> !ord.key(e.0, o.gte.value).Less?)
            && (o.gt.Some? && (o.reverse || o.gte.None?) ==> ord.key(e.0, o.gt.value).Greater?)
            && (o.lte.Some? ==> !ord.key(e.0, o.lte.value).Greater?)
            && (o.lt.Some? && (!o.reverse || o.lte.None?) ==> ord.key(e.0, o.lt.value).Less?))
      && (o.offset == 0 && o.count.None? ==> forall e ::
            && e in s
            && (o.gte.Some? ==> !ord.key(e.0, o.gte.value).Less?)
            && (o.gt.Some? && (o.reverse || o.gte.None?) ==> ord.key(e.0, o.gt.value).Greater?)
            && (o.lte.Some? ==> !ord.key(e.0, o.lte.value).Greater?)
            && (o.lt.Some? && (!o.reverse || o.lte.None?) ==> ord.key(e.0, o.lt.value).Less?)
            ==> multiset(r)[e] == multiset(s)[e])
      && (forall i, j :: 0 <= i < j < |r| ==>
            if o.reverse then !ord.key(r[i].0, r[j].0).Less? else !ord.key(r[i].0, r[j].0).Greater?)
      && (forall i, j :: 0 <= i < j < |r| && ord.key(r[i].0, r[j].0).Equal? ==>
            if o.reverse then !ord.value(r[i].1, r[j].1).Less? else !ord.value(r[i].1, r[j].1).Greater?)
  {
    hide AllWanted, Wanted, Effective, Sorted;
    var r, all := Wanted(ord.key, s, Effective(o)), AllWanted(ord.key, s, Effective(o));
    WantedPage(ord.key, s, o);
    forall e | e in r
      ensures multiset(all)[e] > 0
    {
      var i :| 0 <= i < |r| && r[i] == e;
      assert all[o.offset + i] in multiset(all);
    }
    if o.offset == 0 && o.count.None? {
      assert r == all;
    }
    forall e
    {
      AllWantedCounts(ord.key, s, o, e);
    }
    forall i, j | 0 <= i < j < |r|
      ensures if o.reverse then !ord.key(r[i].0, r[j].0).Less? else !ord.key(r[i].0, r[j].0).Greater?
      ensures ord.key(r[i].0, r[j].0).Equal? ==> if o.reverse then !ord.value(r[i].1, r[j].1).Less? else !ord.value(r[i].1, r[j].1).Greater?
    {
      AllWantedSorted(ord, s, o, o.offset + i, o.offset + j);
      assert r[i] == all[o.offset + i] && r[j] == all[o.offset + j];
      assert ord.key(r[j].0, r[i].0).Greater? <==> ord.key(r[i].0, r[j].0).Less?;
      assert ord.value(r[j].1, r[i].1).Greater? <==> ord.value(r[i].1, r[j].1).Less?;
      assert ord.key(r[i].0, r[j].0).Equal? <==> ord.key(r[j].0, r[i].0).Equal?;
    }
  }

  lemma ShowsOnce<K(!new), V(!new)>(ord: Order<K, V>, list: seq<(K, V)>, pairs: set<(K, V)>)
    requires Shows(ord, list, pairs)
    ensures Once(list) && forall e :: (e in list <==> e in pairs)
  {
    hide Sorted;
    forall e
      ensures e in list <==> e in pairs
    {
      assert e in list <==> multiset(list)[e] > 0;
    }
    forall i, j | 0 <= i < j < |list|
      ensures list[i] != list[j]
    {
      Twice(list, i, j);
    }
  }

  lemma Twice<T>(s: seq<T>, i: nat, j: nat)
    requires i < j < |s|
    ensures s[i] == s[j] ==> multiset(s)[s[i]] >= 2
  {
    assert s == s[..j] + [s[j]] + s[j + 1..];
    assert s[i] in s[..j];
  }

  /** A range of the sorted list of a set, said of the set. */
  lemma RangeOfSet<K(!new), V(!new)>(ord: Order<K, V>, list: seq<(K, V)>, pairs: set<(K, V)>, o: RangeOptions<K>)
    requires ord.Total() && Shows(ord, list, pairs)
    ensures var r := Wanted(ord.key, list, Effective(o));
      && Once(r)
      && (forall e :: e in r ==>
            && e in pairs
            && (o.gte.Some? ==> !ord.key(e.0, o.gte.value).Less?)
            && (o.gt.Some? && (o.reverse || o.gte.None?) ==> ord.key(e.0, o.gt.value).Greater?)
            && (o.lte.Some? ==> !ord.key(e.0, o.lte.value).Greater?)
            && (o.lt.Some? && (!o.reverse || o.lte.None?) ==> ord.key(e.0, o.lt.value).Less?))
      && (o.offset == 0 && o.count.None? ==> forall e ::
            && e in pairs
            && (o.gte.Some? ==> !ord.key(e.0, o.gte.value).Less?)
            && (o.gt.Some? && (o.reverse || o.gte.None?) ==> ord.key(e.0, o.gt.value).Greater?)
            && (o.lte.Some? ==> !ord.key(e.0, o.lte.value).Greater?)
            && (o.lt.Some? && (!o.reverse || o.lte.None?) ==> ord.key(e.0, o.lt.value).Less?)
            ==> e in r)
      && (forall i, j :: 0 <= i < j < |r| ==>
            if o.reverse then !ord.key(r[i].0, r[j].0).Less? else !ord.key(r[i].0, r[j].0).Greater?)
  {
    hide Wanted, Effective, Sorted, Once;
    ShowsOnce(ord, list, pairs);
    WantedOnce(ord.key, list, Effective(o));
    RangeSaid(ord, list, o);
    var r := Wanted(ord.key, list, Effective(o));
    forall e
      ensures e in r <==> multiset(r)[e] > 0
      ensures e in list <==> multiset(list)[e] > 0
    {
    }
  }

  lemma WantedNothing<K, V>(compare: (K, K) -> Ordering, o: RangeOptions<K>)
    ensures Wanted<K, V>(compare, [], o) == []
  {
  }

  /**
    The bounds the walk honours: the one it starts from is `gte` if given, else `gt`
    (in reverse `lte`, else `lt`); on the far side it honours both.
   */
  function Effective<K>(o: RangeOptions<K>): RangeOptions<K> {
    if o.reverse then (if o.lte.Some? then o.(lt := None) else o)
    else if o.gte.Some? then o.(gt := None) else o
  }

  /** A bound is given that the walk drops, and it would have excluded something. */
  predicate Shadowed<K>(compare: (K, K) -> Ordering, o: RangeOptions<K>) {
    && o.count != Some(0)
    && if o.reverse
       then o.lte.Some? && o.lt.Some? && !compare(o.lte.value, o.lt.value).Less? && AboveLower(compare, o, o.lte.value)
       else o.gte.Some? && o.gt.Some? && !compare(o.gte.value, o.gt.value).Greater? && BelowUpper(compare, o, o.gte.value)
  }

  lemma {:induction false} FilterSlice<T>(s: seq<T>, p: T -> bool, lo: nat, hi: nat)
    requires lo <= hi <= |s|
    requires forall i :: 0 <= i < |s| ==> (p(s[i]) <==> lo <= i < hi)
    ensures Filter(s, p) == s[lo..hi]
  {
    if s != [] {
      if lo > 0 {
        FilterSlice(s[1..], p, lo - 1, hi - 1);
        assert s[1..][lo - 1..hi - 1] == s[lo..hi];
      } else if hi > 0 {
        FilterSlice(s[1..], p, 0, hi - 1);
        assert s[1..][..hi - 1] == s[1..hi];
        assert s[..hi] == [s[0]] + s[1..hi];
      } else {
        FilterSlice(s[1..], p, 0, 0);
      }
    }
  }

  lemma {:induction false} FilterSame<T>(s: seq<T>, p: T -> bool, r: T -> bool)
    requires forall i :: 0 <= i < |s| ==> (p(s[i]) <==> r(s[i]))
    ensures Filter(s, p) == Filter(s, r)
  {
    if s != [] {
      FilterSame(s[1..], p, r);
    }
  }

  /** A page that is already full does not change as the input grows. */
  lemma PageFull<T>(s: seq<T>, j: nat, k: nat, offset: nat, count: nat)
    requires j <= k <= |s| && |Page(s[..j], offset, Some(count))| == count
    ensures Page(s[..k], offset, Some(count)) == Page(s[..j], offset, Some(count))
  {
    if offset <= j {
      assert s[..k][offset..][..count] == s[..j][offset..][..count];
    }
  }

  /** How the page grows by one entry. */
  lemma PageStep<T>(s: seq<T>, j: nat, offset: nat, count: Option<nat>)
    requires j < |s|
    ensures Page(s[..j + 1], offset, count) ==
      if offset <= j && (count.Some? ==> |Page(s[..j], offset, count)| < count.value) then Page(s[..j], offset, count) + [s[j]]
      else Page(s[..j], offset, count)
    ensures offset > j ==> Page(s[..j], offset, count) == []
    ensures offset <= j ==> |Page(s[..j], offset, count)| == if count.Some? && count.value <= j - offset then count.value else j - offset
  {
    if offset <= j {
      assert s[..j + 1][offset..] == s[..j][offset..] + [s[j]];
    }
  }

  // --- exactly when the walk drops no bound that matters ---------------------------------------

  /** Unless a bound is shadowed, both readings of the options agree on every key. */
  lemma BoundsAgree<K(!new), V(!new)>(ord: Order<K, V>, o: RangeOptions<K>, key: K)
    requires ord.Total() && !Shadowed(ord.key, o) && o.count != Some(0)
    ensures AboveLower(ord.key, Effective(o), key) && BelowUpper(ord.key, Effective(o), key)
       <==> AboveLower(ord.key, o, key) && BelowUpper(ord.key, o, key)
  {
    var c := ord.key;
    if o.gte.Some? && o.gt.Some? {
      assert Chains(c, o.gt.value, o.gte.value, key);
    }
    if o.gte.Some? && o.lte.Some? { assert Chains(c, o.lte.value, o.gte.value, key); }
    if o.gte.Some? && o.lt.Some? { assert Chains(c, o.lt.value, o.gte.value, key); }
    if o.lte.Some? && o.lt.Some? { assert Chains(c, key, o.lte.value, o.lt.value); }
    if o.lte.Some? && o.gte.Some? { assert Chains(c, key, o.lte.value, o.gte.value); }
    if o.lte.Some? && o.gt.Some? { assert Chains(c, key, o.lte.value, o.gt.value); }
  }

  lemma UnshadowedAgrees<K(!new), V(!new)>(ord: Order<K, V>, s: seq<(K, V)>, o: RangeOptions<K>)
    requires ord.Total() && !Shadowed(ord.key, o)
    ensures Wanted(ord.key, s, Effective(o)) == Wanted(ord.key, s, o)
  {
    if o.count != Some(0) {
      var e := Effective(o);
      var p := (x: (K, V)) => AboveLower(ord.key, e, x.0) && BelowUpper(ord.key, e, x.0);
      var q := (x: (K, V)) => AboveLower(ord.key, o, x.0) && BelowUpper(ord.key, o, x.0);
      forall i | 0 <= i < |s|
        ensures p(s[i]) <==> q(s[i])
      {
        BoundsAgree(ord, o, s[i].0);
      }
      FilterSame(s, p, q);
    }
  }

  /** The list that tells the two readings apart: enough copies of the bound the walk starts from. */
  lemma ShadowedDiffers<K(!new), V(!new)>(ord: Order<K, V>, o: RangeOptions<K>, v: V) returns (s: seq<(K, V)>)
    requires ord.Total() && Shadowed(ord.key, o)
    ensures Sorted(ord, s) && Wanted(ord.key, s, Effective(o)) != Wanted(ord.key, s, o)
  {
    var k := if o.reverse then o.lte.value else o.gte.value;
    s := seq(o.offset + 1, _ => (k, v));
    PrecedesTotal(ord, (k, v), (k, v), (k, v));
    var e := Effective(o);
    var p := (x: (K, V)) => AboveLower(ord.key, e, x.0) && BelowUpper(ord.key, e, x.0);
    var q := (x: (K, V)) => AboveLower(ord.key, o, x.0) && BelowUpper(ord.key, o, x.0);
    assert ord.key(k, k).Equal?;
    assert p((k, v)) && !q((k, v));
    FilterSlice(s, p, 0, |s|);
    FilterSlice(s, q, 0, 0);
    assert Filter(s, p) == s && Filter(s, q) == [];
    assert |Wanted(ord.key, s, Effective(o))| == 1;
    assert |Wanted(ord.key, s, o)| == 0;
  }

  /** The walk honours all bounds on every list if and only if no given bound is shadowed. */
  lemma RangeExact<K(!new), V(!new)>(ord: Order<K, V>, o: RangeOptions<K>, v: V)
    requires ord.Total()
    ensures (forall s | Sorted(ord, s) :: Wanted(ord.key, s, Effective(o)) == Wanted(ord.key, s, o)) <==> !Shadowed(ord.key, o)
  {
    if Shadowed(ord.key, o) {
      var s := ShadowedDiffers(ord, o, v);
    } else {
      forall s | Sorted(ord, s)
        ensures Wanted(ord.key, s, Effective(o)) == Wanted(ord.key, s, o)
      {
        UnshadowedAgrees(ord, s, o);
      }
    }
  }
}
