/** The lexicographic order of byte strings, under which the store keeps its keys. */
module ByteOrder {
  import opened Bytes
  import opened SortedPairs

  function CompareCodes(a: seq<nat>, b: seq<nat>): Ordering {
    if a == [] then (if b == [] then Equal else Less)
    else if b == [] then Greater
    else if a[0] < b[0] then Less
    else if b[0] < a[0] then Greater
    else CompareCodes(a[1..], b[1..])
  }

  function CompareBytes(a: bytes, b: bytes): Ordering {
    CompareCodes(a, b)
  }

  lemma {:induction false} CompareEqual(a: seq<nat>, b: seq<nat>)
    ensures CompareCodes(a, b).Equal? <==> a == b
  {
    if a != [] && b != [] && a[0] == b[0] {
      CompareEqual(a[1..], b[1..]);
      assert a == [a[0]] + a[1..] && b == [b[0]] + b[1..];
    }
  }

  lemma {:induction false} CompareSwaps(a: seq<nat>, b: seq<nat>)
    ensures CompareCodes(a, b).Less? <==> CompareCodes(b, a).Greater?
  {
    if a != [] && b != [] && a[0] == b[0] {
      CompareSwaps(a[1..], b[1..]);
    }
  }

  lemma {:induction false} CompareChains(a: seq<nat>, b: seq<nat>, c: seq<nat>)
    ensures Chains(CompareCodes, a, b, c)
  {
    if a != [] && b != [] && c != [] && a[0] == b[0] == c[0] {
      CompareChains(a[1..], b[1..], c[1..]);
    }
  }

  lemma BytesTotal()
    ensures TotalOrder<bytes>(CompareBytes)
  {
    forall a: bytes, b: bytes
      ensures CompareBytes(a, b).Equal? <==> a == b
      ensures CompareBytes(a, b).Less? <==> CompareBytes(b, a).Greater?
    {
      CompareEqual(a, b);
      CompareSwaps(a, b);
    }
    forall a: bytes, b: bytes, c: bytes
      ensures Chains(CompareBytes, a, b, c)
    {
      CompareChains(a, b, c);
    }
  }

  /** Lexicographic: where two strings first differ decides, and a beginning comes before what it begins. */
  lemma {:induction false} Lexicographic(a: seq<nat>, b: seq<nat>)
    ensures CompareCodes(a, b).Less? <==> exists i: nat :: DiffersAt(a, b, i) && i < |b| && (i < |a| ==> a[i] < b[i])
  {
    if a != [] && b != [] && a[0] == b[0] {
      Lexicographic(a[1..], b[1..]);
      forall i: nat
        ensures DiffersAt(a, b, i + 1) <==> DiffersAt(a[1..], b[1..], i)
      {
        DiffersLater(a, b, i);
      }
      if CompareCodes(a[1..], b[1..]).Less? {
        var i: nat :| DiffersAt(a[1..], b[1..], i) && i < |b[1..]| && (i < |a[1..]| ==> a[1..][i] < b[1..][i]);
        assert DiffersAt(a, b, i + 1);
      }
      forall i: nat | DiffersAt(a, b, i) && i < |b| && (i < |a| ==> a[i] < b[i])
        ensures CompareCodes(a[1..], b[1..]).Less?
      {
        assert i > 0 && DiffersAt(a, b, (i - 1) + 1);
        assert DiffersAt(a[1..], b[1..], i - 1);
      }
    } else if a == [] || b == [] || a[0] < b[0] {
      assert DiffersAt(a, b, 0);
    }
  }

  /** The strings are alike before position i, and there one ends or they differ. */
  predicate DiffersAt(a: seq<nat>, b: seq<nat>, i: nat) {
    i <= |a| && i <= |b| && (forall j :: 0 <= j < i ==> a[j] == b[j]) && (i < |a| && i < |b| ==> a[i] != b[i])
  }

  lemma DiffersLater(a: seq<nat>, b: seq<nat>, i: nat)
    requires a != [] && b != [] && a[0] == b[0]
    ensures DiffersAt(a, b, i + 1) <==> DiffersAt(a[1..], b[1..], i)
  {
    if DiffersAt(a[1..], b[1..], i) {
      forall j | 0 <= j < i + 1
        ensures a[j] == b[j]
      {
        assert j > 0 ==> a[1..][j - 1] == b[1..][j - 1];
      }
    }
    if DiffersAt(a, b, i + 1) {
      assert forall j :: 0 <= j < i ==> a[1..][j] == a[j + 1] && b[1..][j] == b[j + 1];
    }
  }

  const BYTE_ORDER: Order<bytes, bytes> := Order(CompareBytes, CompareBytes)

  // --- the order of a key set ---------------------------------------------------------------

  function Doubles(keys: set<bytes>): set<(bytes, bytes)> {
    set k | k in keys :: (k, k)
  }

  /** The pairs (k, k) for the given keys, each once, in order. */
  ghost predicate OrderOk(order: seq<(bytes, bytes)>, keys: set<bytes>) {
    Shows(BYTE_ORDER, order, Doubles(keys))
  }

  lemma OrderInsert(order: seq<(bytes, bytes)>, keys: set<bytes>, k: bytes)
    requires OrderOk(order, keys) && k !in keys
    ensures OrderOk(Insert(BYTE_ORDER, order, (k, k)), keys + {k})
  {
    BytesTotal();
    ShowsInsert(BYTE_ORDER, order, Doubles(keys), (k, k));
    assert Doubles(keys + {k}) == Doubles(keys) + {(k, k)};
  }

  lemma OrderRemove(order: seq<(bytes, bytes)>, keys: set<bytes>, k: bytes)
    requires OrderOk(order, keys) && k in keys
    ensures OrderOk(Remove(order, (k, k)), keys - {k})
  {
    BytesTotal();
    ShowsRemove(BYTE_ORDER, order, Doubles(keys), (k, k));
    assert Doubles(keys - {k}) == Doubles(keys) - {(k, k)};
  }

  /** The key set determines the order. */
  lemma OrderUnique(a: seq<(bytes, bytes)>, b: seq<(bytes, bytes)>, keys: set<bytes>)
    requires OrderOk(a, keys) && OrderOk(b, keys)
    ensures a == b
  {
    BytesTotal();
    ShowsUnique(BYTE_ORDER, a, b, Doubles(keys));
  }
}
