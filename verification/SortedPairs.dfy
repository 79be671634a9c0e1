/** Sorted sequences of key-value pairs: the multiset view that the skip list refines. */
module SortedPairs {
  datatype Ordering = Less | Equal | Greater

  /** The two comparators of an ordered index. */
  datatype Order<!K(!new), !V(!new)> = Order(key: (K, K) -> Ordering, value: (V, V) -> Ordering) {

    ghost predicate Total() {
      TotalOrder(key) && TotalOrder(value)
    }

    predicate Precedes(a: (K, V), b: (K, V)) {
      key(a.0, b.0).Less? || (key(a.0, b.0).Equal? && value(a.1, b.1).Less?)
    }
  }

  ghost predicate TotalOrder<T(!new)>(compare: (T, T) -> Ordering) {
    && (forall a, b :: compare(a, b).Equal? <==> a == b)
    && (forall a, b :: compare(a, b).Less? <==> compare(b, a).Greater?)
    && (forall a, b, c :: Chains(compare, a, b, c))
  }

  predicate Chains<T>(compare: (T, T) -> Ordering, a: T, b: T, c: T) {
    compare(a, b).Less? && compare(b, c).Less? ==> compare(a, c).Less?
  }

  ghost predicate Sorted<K(!new), V(!new)>(o: Order<K, V>, s: seq<(K, V)>) {
    forall i: nat, j: nat | i < j < |s| :: InOrder(o, s, i, j)
  }

  predicate InOrder<K(!new), V(!new)>(o: Order<K, V>, s: seq<(K, V)>, i: nat, j: nat)
    requires i < j < |s|
  {
    !o.Precedes(s[j], s[i])
  }

  lemma SortedTail<K(!new), V(!new)>(o: Order<K, V>, s: seq<(K, V)>)
    requires Sorted(o, s) && s != []
    ensures Sorted(o, s[1..])
    ensures forall i :: 0 <= i < |s[1..]| ==> !o.Precedes(s[1..][i], s[0])
  {
    forall i: nat, j: nat | i < j < |s[1..]|
      ensures InOrder(o, s[1..], i, j)
    {
      assert InOrder(o, s, i + 1, j + 1);
    }
    forall i | 0 <= i < |s[1..]|
      ensures !o.Precedes(s[1..][i], s[0])
    {
      assert InOrder(o, s, 0, i + 1);
    }
  }

  lemma SortedCons<K(!new), V(!new)>(o: Order<K, V>, x: (K, V), s: seq<(K, V)>)
    requires Sorted(o, s) && forall i :: 0 <= i < |s| ==> !o.Precedes(s[i], x)
    ensures Sorted(o, [x] + s)
  {
    forall i: nat, j: nat | i < j < |[x] + s|
      ensures InOrder(o, [x] + s, i, j)
    {
      if i > 0 {
        assert InOrder(o, s, i - 1, j - 1);
      }
    }
  }

  lemma PrecedesTotal<K(!new), V(!new)>(o: Order<K, V>, a: (K, V), b: (K, V), c: (K, V))
    requires o.Total()
    ensures o.Precedes(a, b) && o.Precedes(b, c) ==> o.Precedes(a, c)
    ensures !(o.Precedes(a, b) && o.Precedes(b, a))
    ensures !o.Precedes(a, b) && !o.Precedes(b, a) ==> a == b
    ensures !o.Precedes(a, a)
    ensures o.Precedes(a, b) && !o.Precedes(c, b) ==> o.Precedes(a, c)
    ensures o.Precedes(b, c) && !o.Precedes(b, a) ==> o.Precedes(a, c)
  {
    assert o.key(a.0, b.0).Equal? <==> a.0 == b.0;
    assert o.key(b.0, a.0).Equal? <==> a.0 == b.0;
    assert o.key(b.0, c.0).Equal? <==> b.0 == c.0;
    assert o.key(c.0, b.0).Equal? <==> b.0 == c.0;
    assert o.value(a.1, b.1).Equal? <==> a.1 == b.1;
    assert o.value(b.1, c.1).Equal? <==> b.1 == c.1;
    assert Chains(o.key, a.0, b.0, c.0) && Chains(o.value, a.1, b.1, c.1);
    assert Chains(o.key, a.0, c.0, b.0) && Chains(o.key, b.0, a.0, c.0);
    assert Chains(o.key, c.0, b.0, a.0) && Chains(o.key, b.0, c.0, a.0) && Chains(o.key, c.0, a.0, b.0);
    assert Chains(o.value, a.1, c.1, b.1) && Chains(o.value, b.1, a.1, c.1);
    assert Chains(o.value, c.1, b.1, a.1) && Chains(o.value, b.1, c.1, a.1) && Chains(o.value, c.1, a.1, b.1);
  }

  /** Where a pair goes: after everything that precedes it. */
  function Insert<K(!new), V(!new)>(o: Order<K, V>, s: seq<(K, V)>, e: (K, V)): seq<(K, V)> {
    if s == [] || !o.Precedes(s[0], e) then [e] + s else [s[0]] + Insert(o, s[1..], e)
  }

  /** The first copy of e goes, if there is one. */
  function Remove<T(==)>(s: seq<T>, e: T): seq<T> {
    if s == [] then [] else if s[0] == e then s[1..] else [s[0]] + Remove(s[1..], e)
  }

  lemma {:induction false} InsertAtSplit<K(!new), V(!new)>(o: Order<K, V>, s: seq<(K, V)>, e: (K, V), q: nat)
    requires q <= |s|
    requires forall i :: 0 <= i < q ==> o.Precedes(s[i], e)
    requires q < |s| ==> !o.Precedes(s[q], e)
    ensures Insert(o, s, e) == s[..q] + [e] + s[q..]
  {
    if q > 0 {
      InsertAtSplit(o, s[1..], e, q - 1);
      assert s[1..][..q - 1] == s[1..q] && s[1..][q - 1..] == s[q..];
      assert s[..q] == [s[0]] + s[1..q];
    }
  }

  lemma {:induction false} RemoveAtSplit<T>(s: seq<T>, e: T, q: nat)
    requires q < |s| && s[q] == e && e !in s[..q]
    ensures Remove(s, e) == s[..q] + s[q + 1..]
  {
    if q > 0 {
      assert s[0] == s[..q][0];
      assert s[1..][..q - 1] == s[..q][1..];
      RemoveAtSplit(s[1..], e, q - 1);
      assert s[..q] == [s[0]] + s[1..][..q - 1];
    }
  }

  lemma {:induction false} RemoveAbsent<T>(s: seq<T>, e: T)
    requires e !in s
    ensures Remove(s, e) == s
  {
    if s != [] {
      RemoveAbsent(s[1..], e);
    }
  }

  lemma {:induction false} InsertMultiset<K(!new), V(!new)>(o: Order<K, V>, s: seq<(K, V)>, e: (K, V))
    ensures multiset(Insert(o, s, e)) == multiset(s) + multiset{e}
  {
    if s != [] && o.Precedes(s[0], e) {
      InsertMultiset(o, s[1..], e);
      assert s == [s[0]] + s[1..];
    }
  }

  lemma {:induction false} RemoveMultiset<T>(s: seq<T>, e: T)
    ensures multiset(Remove(s, e)) == multiset(s) - multiset{e}
  {
    if s != [] {
      assert s == [s[0]] + s[1..];
      RemoveMultiset(s[1..], e);
    }
  }

  /** Everything in t comes from s or is e, so x comes before all of t. */
  lemma BeforeAll<K(!new), V(!new)>(o: Order<K, V>, x: (K, V), s: seq<(K, V)>, e: (K, V), t: seq<(K, V)>)
    requires forall i :: 0 <= i < |s| ==> !o.Precedes(s[i], x)
    requires !o.Precedes(e, x) && multiset(t) <= multiset(s) + multiset{e} && Sorted(o, t)
    ensures Sorted(o, [x] + t)
  {
    forall j | 0 <= j < |t|
      ensures !o.Precedes(t[j], x)
    {
      assert t[j] in multiset(t);
      if t[j] != e {
        var k :| 0 <= k < |s| && s[k] == t[j];
      }
    }
    SortedCons(o, x, t);
  }

  lemma {:induction false} InsertIsSorted<K(!new), V(!new)>(o: Order<K, V>, s: seq<(K, V)>, e: (K, V))
    requires o.Total() && Sorted(o, s)
    ensures Sorted(o, Insert(o, s, e))
  {
    if s == [] {
    } else if o.Precedes(s[0], e) {
      SortedTail(o, s);
      InsertIsSorted(o, s[1..], e);
      InsertMultiset(o, s[1..], e);
      PrecedesTotal(o, s[0], e, s[0]);
      BeforeAll(o, s[0], s[1..], e, Insert(o, s[1..], e));
    } else {
      forall j | 0 <= j < |s|
        ensures !o.Precedes(s[j], e)
      {
        PrecedesTotal(o, s[j], e, s[0]);
        if j > 0 {
          assert InOrder(o, s, 0, j);
        }
      }
      SortedCons(o, e, s);
    }
  }

  lemma {:induction false} RemoveIsSorted<K(!new), V(!new)>(o: Order<K, V>, s: seq<(K, V)>, e: (K, V))
    requires o.Total() && Sorted(o, s)
    ensures Sorted(o, Remove(s, e))
  {
    if s != [] {
      SortedTail(o, s);
    }
    if s != [] && s[0] != e {
      RemoveIsSorted(o, s[1..], e);
      RemoveMultiset(s[1..], e);
      PrecedesTotal(o, s[0], s[0], s[0]);
      BeforeAll(o, s[0], s[1..], s[0], Remove(s[1..], e));
    }
  }

  lemma TailMultiset<T>(s: seq<T>)
    requires s != []
    ensures multiset(s[1..]) == multiset(s) - multiset{s[0]}
  {
    assert s == [s[0]] + s[1..];
  }

  lemma SameHead<K(!new), V(!new)>(o: Order<K, V>, s: seq<(K, V)>, t: seq<(K, V)>)
    requires o.Total() && Sorted(o, s) && Sorted(o, t) && multiset(s) == multiset(t) && s != [] && t != []
    ensures s[0] == t[0]
  {
    assert s[0] in multiset(t);
    assert t[0] in multiset(s);
    var i :| 0 <= i < |t| && t[i] == s[0];
    var j :| 0 <= j < |s| && s[j] == t[0];
    assert i > 0 ==> InOrder(o, t, 0, i);
    assert j > 0 ==> InOrder(o, s, 0, j);
    PrecedesTotal(o, s[0], t[0], s[0]);
  }

  /** A sorted sequence is determined by its multiset, so two indexes that hold the same pairs answer alike. */
  lemma {:induction false} SortedUnique<K(!new), V(!new)>(o: Order<K, V>, s: seq<(K, V)>, t: seq<(K, V)>)
    requires o.Total() && Sorted(o, s) && Sorted(o, t) && multiset(s) == multiset(t)
    ensures s == t
  {
    assert |s| == |multiset(s)| == |multiset(t)| == |t|;
    if s != [] {
      SameHead(o, s, t);
      SortedTail(o, s);
      SortedTail(o, t);
      TailMultiset(s);
      TailMultiset(t);
      SortedUnique(o, s[1..], t[1..]);
    }
  }

  // --- sorted lists of sets -------------------------------------------------------------------

  /** The list holds exactly the pairs of the set, each once, in order. */
  ghost predicate Shows<K(!new), V(!new)>(o: Order<K, V>, s: seq<(K, V)>, pairs: set<(K, V)>) {
    Sorted(o, s) && forall e :: multiset(s)[e] == if e in pairs then 1 else 0
  }

  lemma ShowsInsert<K(!new), V(!new)>(o: Order<K, V>, s: seq<(K, V)>, pairs: set<(K, V)>, e: (K, V))
    requires o.Total() && Shows(o, s, pairs) && e !in pairs
    ensures Shows(o, Insert(o, s, e), pairs + {e})
  {
    InsertIsSorted(o, s, e);
    InsertMultiset(o, s, e);
  }

  lemma ShowsRemove<K(!new), V(!new)>(o: Order<K, V>, s: seq<(K, V)>, pairs: set<(K, V)>, e: (K, V))
    requires o.Total() && Shows(o, s, pairs)
    ensures Shows(o, Remove(s, e), pairs - {e})
  {
    RemoveIsSorted(o, s, e);
    RemoveMultiset(s, e);
  }

  /** The set determines the list. */
  lemma ShowsUnique<K(!new), V(!new)>(o: Order<K, V>, s: seq<(K, V)>, t: seq<(K, V)>, pairs: set<(K, V)>)
    requires o.Total() && Shows(o, s, pairs) && Shows(o, t, pairs)
    ensures s == t
  {
    assert forall e :: multiset(s)[e] == multiset(t)[e];
    assert multiset(s) == multiset(t);
    SortedUnique(o, s, t);
  }

  lemma ShowsHas<K(!new), V(!new)>(o: Order<K, V>, s: seq<(K, V)>, pairs: set<(K, V)>, e: (K, V))
    requires Shows(o, s, pairs)
    ensures e in s <==> e in pairs
  {
    assert e in s <==> e in multiset(s);
  }
}
