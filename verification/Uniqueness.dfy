/** The uniqueness checks of `index_manager.rs`, for one index. */
module Uniqueness {
  import opened Wrappers
  import opened Bytes
  import opened SortedPairs
  import opened ByteOrder
  import opened RangeSpec
  import opened Json
  import opened Indexes

  /** No value has two owners. */
  ghost predicate UniqueRel<K(!new)>(rel: set<(K, bytes)>) {
    forall v, p, q :: (v, p) in rel && (v, q) in rel ==> p == q
  }

  /** What the index takes from the documents has no value with two owners. */
  ghost predicate UniqueFor(x: Index, sk: Json -> string, docs: map<bytes, Json>) {
    match x
    case Equality(info, _, _) => UniqueRel(Pairs(KeyMap(info, sk, docs)))
    case Range(info, _, _) => UniqueRel(Pairs(NumberMap(info, docs)))
  }

  /** Uniqueness, said of the documents: no two of them have a key, or a number, in common. */
  lemma UniqueSaid(x: Index, sk: Json -> string, docs: map<bytes, Json>)
    ensures UniqueFor(x, sk, docs) <==> match x
      case Equality(info, _, _) =>
        forall key, p, q :: p in docs && q in docs && HasKey(info, sk, docs[p], key) && HasKey(info, sk, docs[q], key) ==> p == q
      case Range(info, _, _) =>
        forall n, p, q :: p in docs && q in docs && HasNumber(info, docs[p], n) && HasNumber(info, docs[q], n) ==> p == q
  {
    hide HasKey, HasNumber, KeysOf, NumbersOf;
    match x {
      case Equality(info, _, _) =>
        var rel := Pairs(KeyMap(info, sk, docs));
        forall key, p
          ensures (key, p) in rel <==> p in docs && HasKey(info, sk, docs[p], key)
        {
          if p in docs {
            KeysTaken(info, sk, docs[p], key);
          }
        }
      case Range(info, _, _) =>
        var rel := Pairs(NumberMap(info, docs));
        forall n, p
          ensures (n, p) in rel <==> p in docs && HasNumber(info, docs[p], n)
        {
          if p in docs {
            NumbersTaken(info, docs[p], n);
          }
        }
        if UniqueRel(rel) {
          forall n, p, q | p in docs && q in docs && HasNumber(info, docs[p], n) && HasNumber(info, docs[q], n)
            ensures p == q
          {
            assert (n, p) in rel && (n, q) in rel;
          }
        } else {
          var n, p, q := TwoOwners(rel);
          assert HasNumber(info, docs[p], n) && HasNumber(info, docs[q], n);
        }
    }
  }

  lemma TwoOwners<K(!new)>(rel: set<(K, bytes)>) returns (v: K, p: bytes, q: bytes)
    requires !UniqueRel(rel)
    ensures (v, p) in rel && (v, q) in rel && p != q
  {
    v, p, q :| (v, p) in rel && (v, q) in rel && p != q;
  }

  // --- one document ---------------------------------------------------------------------------

  ghost predicate OwnedByOther<K>(rel: set<(K, bytes)>, v: K, pk: bytes) {
    exists q :: q != pk && (v, q) in rel
  }

  lemma KeyPairsSet(info: IndexInfo, sk: Json -> string, docs: map<bytes, Json>, pk: bytes, doc: Json)
    ensures Pairs(KeyMap(info, sk, docs[pk := doc])) == Pairs(KeyMap(info, sk, docs) - {pk}) + Links(KeysOrNone(info, sk, doc), pk)
  {
    hide KeysOf, Pairs, KeyMap, Links;
    var base := docs - {pk};
    assert base[pk := doc] == docs[pk := doc];
    KeyMapDrop(info, sk, docs, pk);
    KeyMapPut(info, sk, base, pk, doc);
    if KeysOf(info, sk, doc).Some? {
      PairsPut(KeyMap(info, sk, base), pk, KeysOf(info, sk, doc).value);
    } else {
      NoLinks<string>(pk);
    }
  }

  lemma NumberPairsSet(info: IndexInfo, docs: map<bytes, Json>, pk: bytes, doc: Json)
    ensures Pairs(NumberMap(info, docs[pk := doc])) == Pairs(NumberMap(info, docs) - {pk}) + Links(NumbersOf(info, doc), pk)
  {
    hide NumbersOf, Pairs, NumberMap, Links;
    var base := docs - {pk};
    assert base[pk := doc] == docs[pk := doc];
    NumberMapDrop(info, docs, pk);
    NumberMapPut(info, base, pk, doc);
    if NumbersOf(info, doc) != [] {
      PairsPut(NumberMap(info, base), pk, NumbersOf(info, doc));
    } else {
      NoLinks<real>(pk);
    }
  }

  lemma NoLinks<K>(pk: bytes)
    ensures Links<K>([], pk) == {}
  {
  }

  /** Giving a key new values keeps values unique exactly when nobody else owns one of them. */
  lemma SetUnique<K(!new)>(m: map<bytes, seq<K>>, pk: bytes, vs: seq<K>)
    requires UniqueRel(Pairs(m))
    ensures UniqueRel(Pairs(m - {pk}) + Links(vs, pk)) <==> forall v :: v in vs ==> !OwnedByOther(Pairs(m), v, pk)
  {
    var rel := Pairs(m - {pk}) + Links(vs, pk);
    assert forall v, q :: (v, q) in Pairs(m - {pk}) <==> (v, q) in Pairs(m) && q != pk by { PairsLess(m, pk); }
    forall v, q | v in vs && q != pk && (v, q) in Pairs(m)
      ensures !UniqueRel(rel)
    {
      assert (v, pk) in rel && (v, q) in rel;
    }
  }

  lemma PairsLess<K(!new)>(m: map<bytes, seq<K>>, pk: bytes)
    ensures forall v, q :: (v, q) in Pairs(m - {pk}) <==> (v, q) in Pairs(m) && q != pk
  {
    forall v, q
      ensures (v, q) in Pairs(m - {pk}) <==> (v, q) in Pairs(m) && q != pk
    {
      assert q != pk ==> (q in m - {pk} <==> q in m);
    }
  }

  /** An equality lookup finds another owner exactly when there is one. */
  method OtherOwner(forward: map<string, seq<bytes>>, key: string, pk: bytes, ghost rel: set<(string, bytes)>) returns (other: bool)
    requires Inverse(forward, rel) && UniqueRel(rel)
    ensures other <==> OwnedByOther(rel, key, pk)
  {
    other := key in forward && (|forward[key]| > 1 || (|forward[key]| == 1 && forward[key][0] != pk));
    if key in forward {
      OneOwner(forward, key, rel);
      assert (key, forward[key][0]) in rel;
    } else {
      assert forall q :: (key, q) !in rel;
    }
  }

  lemma OneOwner(forward: map<string, seq<bytes>>, key: string, rel: set<(string, bytes)>)
    requires Inverse(forward, rel) && UniqueRel(rel) && key in forward
    ensures |forward[key]| == 1 && forall q :: (key, q) in rel <==> q == forward[key][0]
  {
    var pks := forward[key];
    assert forall q :: q in pks <==> (key, q) in rel;
    assert pks[0] in pks && (key, pks[0]) in rel;
    forall i | 0 <= i < |pks|
      ensures pks[i] == pks[0]
    {
      assert pks[i] in pks && (key, pks[i]) in rel;
    }
    assert pks[|pks| - 1] == pks[0];
  }

  lemma {:induction false} FilterHits<T>(s: seq<T>, p: T -> bool)
    ensures forall e :: e in Filter(s, p) <==> e in s && p(e)
  {
    if s != [] {
      FilterHits(s[1..], p);
      assert forall e :: e in s <==> e == s[0] || e in s[1..];
    }
  }

  function At(v: real): RangeOptions<real> {
    RangeOptions(Some(v), None, Some(v), None, 0, Some(1), false)
  }

  /** A range of one number, limited to one hit. */
  lemma RangeAt(list: seq<(real, bytes)>, v: real)
    ensures var hits := Wanted(CompareReal, list, At(v));
      && (hits == [] <==> forall q :: (v, q) !in list)
      && (hits != [] ==> hits[0] in list && hits[0].0 == v)
  {
    var p := (e: (real, bytes)) => AboveLower(CompareReal, At(v), e.0) && BelowUpper(CompareReal, At(v), e.0);
    var all := Filter(list, p);
    FilterHits(list, p);
    assert forall e: (real, bytes) :: p(e) <==> e.0 == v;
    assert all[0..] == all;
    if all != [] {
      assert all[0] in all && all[0] == (v, all[0].1);
    }
  }

  method OtherNumberOwner(list: seq<(real, bytes)>, v: real, pk: bytes, ghost rel: set<(real, bytes)>) returns (other: bool)
    requires Shows(NUMBER_ORDER, list, rel) && UniqueRel(rel)
    ensures other <==> OwnedByOther(rel, v, pk)
  {
    hide Shows, Wanted;
    var hits := Wanted(CompareReal, list, Effective(At(v)));
    RangeAt(list, v);
    forall e
      ensures e in list <==> e in rel
    {
      ShowsHas(NUMBER_ORDER, list, rel, e);
    }
    other := hits != [] && hits[0].1 != pk;
    if hits != [] {
      assert (v, hits[0].1) in rel;
    }
  }

  /** Another key has what the index takes from an item. */
  ghost predicate TakenByOther(x: Index, sk: Json -> string, item: Json, pk: bytes) {
    match x
    case Equality(_, _, byPk) => OwnedByOther(Pairs(byPk), sk(item), pk)
    case Range(_, _, keys) => item.Number? && OwnedByOther(Pairs(keys), item.n, pk)
  }

  method IsTaken(x: Index, sk: Json -> string, item: Json, pk: bytes, ghost docs: map<bytes, Json>) returns (taken: bool)
    requires Reflects(x, sk, docs) && UniqueFor(x, sk, docs)
    ensures taken <==> TakenByOther(x, sk, item, pk)
  {
    hide Inverse, Shows, KeyMap, NumberMap, Pairs, UniqueRel, OwnedByOther;
    match x {
      case Range(_, list, keys) =>
        taken := false;
        if item.Number? {
          taken := OtherNumberOwner(list, item.n, pk, Pairs(keys));
        }
      case Equality(_, forward, byPk) =>
        taken := OtherOwner(forward, sk(item), pk, Pairs(byPk));
    }
  }

  /** A document keeps values unique exactly when none of the items under its field is taken by another key. */
  lemma ItemsDecide(x: Index, sk: Json -> string, pk: bytes, doc: Json, docs: map<bytes, Json>)
    requires Reflects(x, sk, docs) && UniqueFor(x, sk, docs)
    ensures var v := GetPath(doc, x.info.field);
      UniqueFor(x, sk, docs[pk := doc]) <==> (v.None? && x.info.sparse) || forall item :: item in ItemsOf(ValueOr(v)) ==> !TakenByOther(x, sk, item, pk)
  {
    hide Inverse, Shows, KeyMap, NumberMap, Pairs, Links, UniqueRel, OwnedByOther, KeysOf, NumbersOf;
    if x.Equality? {
      KeyPairsSet(x.info, sk, docs, pk, doc);
      SetUnique(x.byPk, pk, KeysOrNone(x.info, sk, doc));
      KeysFromItems(x.info, sk, doc);
    } else {
      NumberPairsSet(x.info, docs, pk, doc);
      SetUnique(x.keys, pk, NumbersOf(x.info, doc));
      NumbersFromItems(x.info, doc);
      var vs, items := NumbersOf(x.info, doc), ItemsOf(ValueOr(GetPath(doc, x.info.field)));
      if forall n :: n in vs ==> !OwnedByOther(Pairs(x.keys), n, pk) {
        forall item | item in items && !(GetPath(doc, x.info.field).None? && x.info.sparse)
          ensures !TakenByOther(x, sk, item, pk)
        {
          assert item.Number? ==> item == Number(item.n);
        }
      }
      if forall item :: item in items ==> !TakenByOther(x, sk, item, pk) {
        forall n | n in vs
          ensures !OwnedByOther(Pairs(x.keys), n, pk)
        {
          assert !TakenByOther(x, sk, Number(n), pk);
        }
      }
    }
  }

  lemma KeysFromItems(info: IndexInfo, sk: Json -> string, doc: Json)
    ensures var v := GetPath(doc, info.field);
      && (v.None? && info.sparse ==> KeysOrNone(info, sk, doc) == [])
      && (!(v.None? && info.sparse) ==> forall key :: key in KeysOrNone(info, sk, doc) <==> exists item :: item in ItemsOf(ValueOr(v)) && sk(item) == key)
  {
    var v := GetPath(doc, info.field);
    if !(v.None? && info.sparse) {
      var items := ItemsOf(ValueOr(v));
      var keys := ScalarKeys(sk, items);
      forall key
        ensures key in keys <==> exists item :: item in items && sk(item) == key
      {
        if key in keys {
          var i :| 0 <= i < |keys| && keys[i] == key;
          assert items[i] in items;
        }
        if item :| item in items && sk(item) == key {
          var i :| 0 <= i < |items| && items[i] == item;
          assert keys[i] == key;
        }
      }
    }
  }

  lemma NumbersFromItems(info: IndexInfo, doc: Json)
    ensures var v := GetPath(doc, info.field);
      && (v.None? && info.sparse ==> NumbersOf(info, doc) == [])
      && (!(v.None? && info.sparse) ==> forall n :: n in NumbersOf(info, doc) <==> Number(n) in ItemsOf(ValueOr(v)))
  {
  }

  /** `check_unique` for one unique index: the first item that another key owns. */
  method FindConflict(x: Index, sk: Json -> string, pk: bytes, doc: Json, ghost docs: map<bytes, Json>) returns (conflict: Option<Json>)
    requires Reflects(x, sk, docs) && UniqueFor(x, sk, docs)
    ensures conflict.None? <==> UniqueFor(x, sk, docs[pk := doc])
  {
    hide Reflects, UniqueFor, TakenByOther;
    ItemsDecide(x, sk, pk, doc, docs);
    var value := GetPath(doc, x.info.field);
    if value.None? && x.info.sparse {
      return None;
    }
    var items := ItemsOf(ValueOr(value));
    for i := 0 to |items|
      invariant forall j :: 0 <= j < i ==> !TakenByOther(x, sk, items[j], pk)
    {
      var taken := IsTaken(x, sk, items[i], pk, docs);
      if taken {
        assert items[i] in items;
        return Some(items[i]);
      }
    }
    return None;
  }

  // --- a batch ------------------------------------------------------------------------------

  datatype BatchIndexOp = BatchIndexOp(pk: bytes, isSet: bool, doc: Json)

  /** The documents after the operations, one by one. */
  function DocsAfter(docs: map<bytes, Json>, ops: seq<BatchIndexOp>): map<bytes, Json> {
    if ops == [] then docs
    else
      var op := ops[|ops| - 1];
      var before := DocsAfter(docs, ops[..|ops| - 1]);
      if op.isSet then before[op.pk := op.doc] else before - {op.pk}
  }

  /** The last operation on each key. */
  function LastOps(ops: seq<BatchIndexOp>): map<bytes, BatchIndexOp> {
    if ops == [] then map[] else LastOps(ops[..|ops| - 1])[ops[|ops| - 1].pk := ops[|ops| - 1]]
  }

  /** Only the last operation on a key counts. */
  lemma {:induction false} LastOpsDecide(docs: map<bytes, Json>, ops: seq<BatchIndexOp>)
    ensures var last, after := LastOps(ops), DocsAfter(docs, ops);
      forall pk ::
        && (pk in last ==> (pk in after <==> last[pk].isSet) && (last[pk].isSet ==> after[pk] == last[pk].doc))
        && (pk !in last ==> (pk in after <==> pk in docs) && (pk in docs ==> after[pk] == docs[pk]))
  {
    if ops != [] {
      LastOpsDecide(docs, ops[..|ops| - 1]);
    }
  }

  /** The values that the sets among the last operations claim. */
  ghost function Claims<K>(last: map<bytes, BatchIndexOp>, valuesOf: Json -> seq<K>): set<(K, bytes)> {
    set pk, v | pk in last && last[pk].isSet && v in valuesOf(last[pk].doc) :: (v, pk)
  }

  ghost function Untouched<K(!new)>(rel: set<(K, bytes)>, touched: set<bytes>): set<(K, bytes)> {
    set e | e in rel && e.1 !in touched
  }

  ghost predicate Owns<K(!new)>(owners: map<K, bytes>, rel: set<(K, bytes)>) {
    forall v, pk :: (v, pk) in rel <==> v in owners && owners[v] == pk
  }

  lemma OwnsUnique<K(!new)>(owners: map<K, bytes>, rel: set<(K, bytes)>)
    requires Owns(owners, rel)
    ensures UniqueRel(rel)
  {
  }

  /** Claims the values one by one; a value somebody else owns is a conflict. */
  method Claim<K(!new, ==)>(owners: map<K, bytes>, vs: seq<K>, pk: bytes, ghost rel: set<(K, bytes)>) returns (after: map<K, bytes>, conflict: Option<K>)
    requires Owns(owners, rel)
    ensures conflict.None? ==> Owns(after, rel + Links(vs, pk))
    ensures conflict.Some? ==> !UniqueRel(rel + Links(vs, pk))
  {
    after, conflict := owners, None;
    assert rel + Links(vs[..0], pk) == rel;
    for i := 0 to |vs|
      invariant Owns(after, rel + Links(vs[..i], pk))
    {
      LinksSnoc(vs, i, pk);
      if vs[i] in after && after[vs[i]] != pk {
        ClaimTaken(after, rel, vs, i, pk);
        return after, Some(vs[i]);
      }
      ClaimFree(after, rel + Links(vs[..i], pk), vs[i], pk);
      assert rel + Links(vs[..i], pk) + {(vs[i], pk)} == rel + Links(vs[..i + 1], pk);
      after := after[vs[i] := pk];
    }
    assert vs[..|vs|] == vs;
  }

  lemma ClaimFree<K(!new)>(owners: map<K, bytes>, rel: set<(K, bytes)>, v: K, pk: bytes)
    requires Owns(owners, rel) && (v in owners ==> owners[v] == pk)
    ensures Owns(owners[v := pk], rel + {(v, pk)})
  {
  }

  lemma ClaimTaken<K(!new)>(owners: map<K, bytes>, rel: set<(K, bytes)>, vs: seq<K>, i: nat, pk: bytes)
    requires i < |vs| && Owns(owners, rel + Links(vs[..i], pk)) && vs[i] in owners && owners[vs[i]] != pk
    ensures !UniqueRel(rel + Links(vs, pk))
  {
    var q := owners[vs[i]];
    assert (vs[i], q) in rel + Links(vs[..i], pk);
    assert (vs[i], q) !in Links(vs[..i], pk);
    assert (vs[i], q) in rel + Links(vs, pk) && (vs[i], pk) in rel + Links(vs, pk);
  }

  /** Starting from the owners of untouched keys, every set claims its values, in any order. */
  method ClaimAll<K(!new, ==)>(owners: map<K, bytes>, last: map<bytes, BatchIndexOp>, valuesOf: Json -> seq<K>, ghost rel: set<(K, bytes)>)
    returns (conflict: Option<K>)
    requires Owns(owners, rel)
    ensures conflict.None? <==> UniqueRel(rel + Claims(last, valuesOf))
  {
    hide Owns, UniqueRel, Claims, Links;
    var now := owners;
    var todo := last.Keys;
    ghost var done := map pk | pk in last && pk !in todo :: last[pk];
    NoClaims(done, valuesOf, rel);
    while todo != {}
      invariant todo <= last.Keys && done == map pk | pk in last && pk !in todo :: last[pk]
      invariant Owns(now, rel + Claims(done, valuesOf))
      decreases |todo|
    {
      var pk :| pk in todo;
      var vs := if last[pk].isSet then valuesOf(last[pk].doc) else [];
      var result;
      ClaimsPut(done, valuesOf, pk, last[pk]);
      now, result := Claim(now, vs, pk, rel + Claims(done, valuesOf));
      ghost var more := done[pk := last[pk]];
      assert rel + Claims(done, valuesOf) + Links(vs, pk) == rel + Claims(more, valuesOf);
      if result.Some? {
        ClaimsGrow(more, last, valuesOf, rel);
        return result;
      }
      todo := todo - {pk};
      done := more;
    }
    assert done == last;
    OwnsUnique(now, rel + Claims(last, valuesOf));
    return None;
  }

  lemma NoClaims<K>(done: map<bytes, BatchIndexOp>, valuesOf: Json -> seq<K>, rel: set<(K, bytes)>)
    requires done == map[]
    ensures rel + Claims(done, valuesOf) == rel
  {
  }

  lemma ClaimsPut<K(!new)>(done: map<bytes, BatchIndexOp>, valuesOf: Json -> seq<K>, pk: bytes, op: BatchIndexOp)
    requires pk !in done
    ensures Claims(done[pk := op], valuesOf) == Claims(done, valuesOf) + Links(if op.isSet then valuesOf(op.doc) else [], pk)
  {
    var more := done[pk := op];
    forall e
      ensures e in Claims(more, valuesOf) <==> e in Claims(done, valuesOf) + Links(if op.isSet then valuesOf(op.doc) else [], pk)
    {
      assert e.1 != pk ==> (e.1 in more <==> e.1 in done);
    }
  }

  lemma ClaimsGrow<K(!new)>(some: map<bytes, BatchIndexOp>, last: map<bytes, BatchIndexOp>, valuesOf: Json -> seq<K>, rel: set<(K, bytes)>)
    requires (forall pk :: pk in some ==> pk in last && some[pk] == last[pk]) && !UniqueRel(rel + Claims(some, valuesOf))
    ensures !UniqueRel(rel + Claims(last, valuesOf))
  {
    assert rel + Claims(some, valuesOf) <= rel + Claims(last, valuesOf);
    var v, p, q :| (v, p) in rel + Claims(some, valuesOf) && (v, q) in rel + Claims(some, valuesOf) && p != q;
    assert (v, p) in rel + Claims(last, valuesOf) && (v, q) in rel + Claims(last, valuesOf);
  }

  /** The owners of untouched keys, read off the forward map. */
  method ForwardOwners(forward: map<string, seq<bytes>>, touched: set<bytes>, ghost rel: set<(string, bytes)>) returns (owners: map<string, bytes>)
    requires Inverse(forward, rel) && UniqueRel(rel)
    ensures Owns(owners, Untouched(rel, touched))
  {
    hide Inverse, UniqueRel, Owns;
    owners := map[];
    var todo := forward.Keys;
    ghost var done: set<(string, bytes)> := {};
    NoOwners<string>();
    while todo != {}
      invariant todo <= forward.Keys && done == set e | e in rel && e.0 !in todo && e.0 in forward && e.1 !in touched
      invariant Owns(owners, done)
      decreases |todo|
    {
      var v :| v in todo;
      OneOwner(forward, v, rel);
      var before := owners;
      for i := 0 to |forward[v]|
        invariant owners == if i == 0 || forward[v][0] in touched then before else before[v := forward[v][0]]
      {
        if forward[v][i] !in touched {
          owners := owners[v := forward[v][i]];
        }
      }
      if forward[v][0] !in touched {
        NotOwned(before, done, v);
        ClaimFree(before, done, v, forward[v][0]);
        done := done + {(v, forward[v][0])};
      }
      todo := todo - {v};
    }
    InForward(forward, rel);
    assert done == Untouched(rel, touched);
  }

  lemma NoOwners<K(!new)>()
    ensures Owns<K>(map[], {})
  {
  }

  lemma NotOwned<K(!new)>(owners: map<K, bytes>, rel: set<(K, bytes)>, v: K)
    requires Owns(owners, rel) && forall e :: e in rel ==> e.0 != v
    ensures v !in owners
  {
    assert forall u :: u in owners ==> (u, owners[u]) in rel;
  }

  lemma InForward(forward: map<string, seq<bytes>>, rel: set<(string, bytes)>)
    requires Inverse(forward, rel)
    ensures forall e :: e in rel ==> e.0 in forward
  {
    forall e | e in rel
      ensures e.0 in forward
    {
      assert (e.0, e.1) in rel;
    }
  }

  /** The owners of untouched keys, read off the by-key map. */
  method KeyOwners<K(!new, ==)>(m: map<bytes, seq<K>>, touched: set<bytes>) returns (owners: map<K, bytes>)
    requires UniqueRel(Pairs(m))
    ensures Owns(owners, Untouched(Pairs(m), touched))
  {
    hide Owns, UniqueRel, Pairs, Links;
    owners := map[];
    var todo := m.Keys;
    ghost var done := map pk | pk in m && pk !in todo && pk !in touched :: m[pk];
    NoPairs(done, owners);
    while todo != {}
      invariant todo <= m.Keys && done == map pk | pk in m && pk !in todo && pk !in touched :: m[pk]
      invariant Owns(owners, Pairs(done))
      decreases |todo|
    {
      var pk :| pk in todo;
      if pk !in touched {
        var result;
        owners, result := Claim(owners, m[pk], pk, Pairs(done));
        PairsPut(done, pk, m[pk]);
        SubUnique(done[pk := m[pk]], m);
        done := done[pk := m[pk]];
      }
      todo := todo - {pk};
    }
    UntouchedPairs(m, done, touched);
  }

  lemma NoPairs<K(!new)>(done: map<bytes, seq<K>>, owners: map<K, bytes>)
    requires done == map[] && owners == map[]
    ensures Owns(owners, Pairs(done))
  {
  }

  lemma SubUnique<K(!new)>(some: map<bytes, seq<K>>, m: map<bytes, seq<K>>)
    requires (forall pk :: pk in some ==> pk in m && some[pk] == m[pk]) && UniqueRel(Pairs(m))
    ensures UniqueRel(Pairs(some))
  {
    assert Pairs(some) <= Pairs(m);
  }

  lemma UntouchedPairs<K(!new)>(m: map<bytes, seq<K>>, done: map<bytes, seq<K>>, touched: set<bytes>)
    requires done == map pk | pk in m && pk !in touched :: m[pk]
    ensures Pairs(done) == Untouched(Pairs(m), touched)
  {
  }

  /** The pairs after a batch: those of untouched keys, and what the last sets claim. */
  lemma KeyPairsAfter(info: IndexInfo, sk: Json -> string, docs: map<bytes, Json>, ops: seq<BatchIndexOp>)
    ensures Pairs(KeyMap(info, sk, DocsAfter(docs, ops)))
         == Untouched(Pairs(KeyMap(info, sk, docs)), LastOps(ops).Keys) + Claims(LastOps(ops), (d: Json) => KeysOrNone(info, sk, d))
  {
    hide KeysOf, DocsAfter, LastOps;
    LastOpsDecide(docs, ops);
    var after, last := DocsAfter(docs, ops), LastOps(ops);
    var was, next := KeyMap(info, sk, docs), KeyMap(info, sk, after);
    forall e
      ensures e in Pairs(next) <==> e in Untouched(Pairs(was), last.Keys) + Claims(last, (d: Json) => KeysOrNone(info, sk, d))
    {
      if e.1 in last {
        assert e in Pairs(next) <==> e.1 in next && e.0 in next[e.1];
      } else {
        assert e.1 in next <==> e.1 in was;
      }
    }
  }

  lemma NumberPairsAfter(info: IndexInfo, docs: map<bytes, Json>, ops: seq<BatchIndexOp>)
    ensures Pairs(NumberMap(info, DocsAfter(docs, ops)))
         == Untouched(Pairs(NumberMap(info, docs)), LastOps(ops).Keys) + Claims(LastOps(ops), (d: Json) => NumbersOf(info, d))
  {
    hide NumbersOf, DocsAfter, LastOps;
    LastOpsDecide(docs, ops);
    var after, last := DocsAfter(docs, ops), LastOps(ops);
    var was, next := NumberMap(info, docs), NumberMap(info, after);
    forall e
      ensures e in Pairs(next) <==> e in Untouched(Pairs(was), last.Keys) + Claims(last, (d: Json) => NumbersOf(info, d))
    {
      if e.1 in last {
        assert e in Pairs(next) <==> e.1 in next && e.0 in next[e.1];
      } else {
        assert e.1 in next <==> e.1 in was;
      }
    }
  }

  /** `check_unique_batch` for one unique index: it accepts exactly when the documents after the batch have unique values. */
  method BatchConflicts(x: Index, sk: Json -> string, ops: seq<BatchIndexOp>, last: map<bytes, BatchIndexOp>, ghost docs: map<bytes, Json>) returns (conflict: bool)
    requires Reflects(x, sk, docs) && UniqueFor(x, sk, docs) && last == LastOps(ops)
    ensures !conflict <==> UniqueFor(x, sk, DocsAfter(docs, ops))
  {
    hide Inverse, Shows, KeyMap, NumberMap, Pairs, Claims, Untouched, UniqueRel, Owns, LastOps, DocsAfter, KeysOf, NumbersOf;
    match x {
      case Range(info, _, keys) =>
        NumberPairsAfter(info, docs, ops);
        var owners := KeyOwners(keys, last.Keys);
        var c := ClaimAll(owners, last, (d: Json) => NumbersOf(info, d), Untouched(Pairs(keys), last.Keys));
        conflict := c.Some?;
      case Equality(info, forward, byPk) =>
        KeyPairsAfter(info, sk, docs, ops);
        var owners := ForwardOwners(forward, last.Keys, Pairs(byPk));
        var c := ClaimAll(owners, last, (d: Json) => KeysOrNone(info, sk, d), Untouched(Pairs(byPk), last.Keys));
        conflict := c.Some?;
    }
  }

  /** `assert_unique_valid` for one unique index. */
  method IsUnique(x: Index, sk: Json -> string, ghost docs: map<bytes, Json>) returns (ok: bool)
    requires Reflects(x, sk, docs)
    ensures ok <==> UniqueFor(x, sk, docs)
  {
    hide Shows, KeyMap, NumberMap, Pairs;
    match x {
      case Range(_, _, keys) =>
        ok := NoTwoOwners(keys);
      case Equality(_, forward, byPk) =>
        var todo := forward.Keys;
        while todo != {}
          invariant todo <= forward.Keys && forall key :: key in forward && key !in todo ==> |forward[key]| <= 1
          decreases |todo|
        {
          var key :| key in todo;
          if |forward[key]| > 1 {
            assert forward[key][0] in forward[key] && forward[key][1] in forward[key];
            assert (key, forward[key][0]) in Pairs(byPk) && (key, forward[key][1]) in Pairs(byPk);
            return false;
          }
          todo := todo - {key};
        }
        ok := true;
    }
  }

  method NoTwoOwners<K(!new, ==)>(m: map<bytes, seq<K>>) returns (ok: bool)
    ensures ok <==> UniqueRel(Pairs(m))
  {
    hide Owns, UniqueRel, Pairs, Links;
    var owners: map<K, bytes> := map[];
    var todo := m.Keys;
    ghost var done := map pk | pk in m && pk !in todo :: m[pk];
    NoPairs(done, owners);
    while todo != {}
      invariant todo <= m.Keys && done == map pk | pk in m && pk !in todo :: m[pk]
      invariant Owns(owners, Pairs(done))
      decreases |todo|
    {
      var pk :| pk in todo;
      var result;
      owners, result := Claim(owners, m[pk], pk, Pairs(done));
      PairsPut(done, pk, m[pk]);
      done := done[pk := m[pk]];
      if result.Some? {
        if UniqueRel(Pairs(m)) {
          SubUnique(done, m);
        }
        return false;
      }
      todo := todo - {pk};
    }
    assert done == m;
    OwnsUnique(owners, Pairs(m));
    ok := true;
  }

  // --- sets without a document ------------------------------------------------------------------

  /** A batch operation as it is prepared: a set whose value is no document has none. */
  datatype PreparedOp = PreparedOp(pk: bytes, isSet: bool, doc: Option<Json>)

  /** What the check is given: null stands for a missing document. */
  function AsChecked(ops: seq<PreparedOp>): seq<BatchIndexOp> {
    if ops == [] then []
    else
      var op := ops[|ops| - 1];
      AsChecked(ops[..|ops| - 1]) + [BatchIndexOp(op.pk, op.isSet, ValueOr(op.doc))]
  }

  /** What the operations do to the indexed documents: a set without a document only takes the old one out. */
  function DocsAfterPrepared(docs: map<bytes, Json>, ops: seq<PreparedOp>): map<bytes, Json> {
    if ops == [] then docs
    else
      var op := ops[|ops| - 1];
      var before := DocsAfterPrepared(docs, ops[..|ops| - 1]);
      if op.isSet && op.doc.Some? then before[op.pk := op.doc.value] else before - {op.pk}
  }

  /** The keys whose last operation is a set without a document. */
  function Undocumented(ops: seq<PreparedOp>): set<bytes> {
    if ops == [] then {}
    else
      var op := ops[|ops| - 1];
      var before := Undocumented(ops[..|ops| - 1]);
      if op.isSet && op.doc.None? then before + {op.pk} else before - {op.pk}
  }

  function WithNulls(docs: map<bytes, Json>, keys: set<bytes>): map<bytes, Json> {
    map k | k in docs.Keys + keys :: if k in keys then Null else docs[k]
  }

  /** The check sees the documents after the batch, with null under every key set without one. */
  lemma {:induction false} CheckedSees(docs: map<bytes, Json>, ops: seq<PreparedOp>)
    ensures DocsAfter(docs, AsChecked(ops)) == WithNulls(DocsAfterPrepared(docs, ops), Undocumented(ops))
    ensures DocsAfterPrepared(docs, ops).Keys !! Undocumented(ops)
  {
    if ops == [] {
      assert WithNulls(docs, {}) == docs;
    } else {
      hide WithNulls;
      var n := |ops| - 1;
      CheckedSees(docs, ops[..n]);
      CheckedSnoc(docs, ops);
      NullsStep(DocsAfterPrepared(docs, ops[..n]), Undocumented(ops[..n]), ops[n].pk, ValueOr(ops[n].doc));
    }
  }

  lemma CheckedSnoc(docs: map<bytes, Json>, ops: seq<PreparedOp>)
    requires ops != []
    ensures var op, before := ops[|ops| - 1], DocsAfter(docs, AsChecked(ops[..|ops| - 1]));
      DocsAfter(docs, AsChecked(ops)) == if op.isSet then before[op.pk := ValueOr(op.doc)] else before - {op.pk}
  {
    var op, earlier := ops[|ops| - 1], AsChecked(ops[..|ops| - 1]);
    assert AsChecked(ops) == earlier + [BatchIndexOp(op.pk, op.isSet, ValueOr(op.doc))];
    assert AsChecked(ops)[..|earlier|] == earlier;
  }

  lemma NullsStep(docs: map<bytes, Json>, keys: set<bytes>, pk: bytes, doc: Json)
    requires docs.Keys !! keys
    ensures WithNulls(docs[pk := doc], keys - {pk}) == WithNulls(docs, keys)[pk := doc]
    ensures WithNulls(docs - {pk}, keys + {pk}) == WithNulls(docs, keys)[pk := Null]
    ensures WithNulls(docs - {pk}, keys - {pk}) == WithNulls(docs, keys) - {pk}
  {
  }

  /** What an equality index takes from null. */
  predicate NullTaken(x: Index, sk: Json -> string) {
    x.Equality? && KeysOrNone(x.info, sk, Null) != []
  }

  lemma NullKeys(info: IndexInfo, sk: Json -> string)
    ensures KeysOrNone(info, sk, Null) == if info.sparse && info.field != [] then [] else [sk(Null)]
    ensures NumbersOf(info, Null) == []
  {
    assert [Null][1..] == [] && [Null][..0] == [];
    assert ScalarKeys(sk, [Null]) == [sk(Null)] && DistinctNumbers([Null]) == [];
  }

  /**
    The nulls are accepted exactly if the documents are unique without them and, where the index
    takes a key from null, there is at most one null and no document with that key.
   */
  lemma NullsExact(x: Index, sk: Json -> string, docs: map<bytes, Json>, keys: set<bytes>)
    requires docs.Keys !! keys
    ensures UniqueFor(x, sk, WithNulls(docs, keys)) <==>
      && UniqueFor(x, sk, docs)
      && (NullTaken(x, sk) ==>
            && (forall p, q :: p in keys && q in keys ==> p == q)
            && forall p, k :: p in keys && k in docs ==> sk(Null) !in KeysOrNone(x.info, sk, docs[k]))
  {
    var after := WithNulls(docs, keys);
    NullKeys(x.info, sk);
    if x.Range? {
      assert NumberMap(x.info, after) == NumberMap(x.info, docs) by { NumbersOfNulls(x.info, docs, keys); }
    } else if !NullTaken(x, sk) {
      NullsNotTaken(x.info, sk, docs, keys);
    } else {
      NullPairs(x.info, sk, docs, keys);
      NullRel(Pairs(KeyMap(x.info, sk, docs)), Pairs(KeyMap(x.info, sk, after)), sk(Null), keys);
      OwnersOfNull(x.info, sk, docs);
    }
  }

  lemma NumbersOfNulls(info: IndexInfo, docs: map<bytes, Json>, keys: set<bytes>)
    requires docs.Keys !! keys
    ensures NumberMap(info, WithNulls(docs, keys)) == NumberMap(info, docs)
  {
    hide NumbersOf;
    NullKeys(info, _ => "");
  }

  lemma NullsNotTaken(info: IndexInfo, sk: Json -> string, docs: map<bytes, Json>, keys: set<bytes>)
    requires docs.Keys !! keys && KeysOrNone(info, sk, Null) == []
    ensures Pairs(KeyMap(info, sk, WithNulls(docs, keys))) == Pairs(KeyMap(info, sk, docs))
  {
    hide KeysOf;
    forall e
      ensures e in Pairs(KeyMap(info, sk, WithNulls(docs, keys))) <==> e in Pairs(KeyMap(info, sk, docs))
    {
    }
  }

  lemma NullPairs(info: IndexInfo, sk: Json -> string, docs: map<bytes, Json>, keys: set<bytes>)
    requires docs.Keys !! keys && KeysOrNone(info, sk, Null) == [sk(Null)]
    ensures forall v, k :: (v, k) in Pairs(KeyMap(info, sk, WithNulls(docs, keys))) <==>
      (v, k) in Pairs(KeyMap(info, sk, docs)) || (v == sk(Null) && k in keys)
    ensures forall v, k :: (v, k) in Pairs(KeyMap(info, sk, docs)) ==> k !in keys
  {
    hide KeysOf;
    forall v, k
      ensures (v, k) in Pairs(KeyMap(info, sk, WithNulls(docs, keys))) <==>
        (v, k) in Pairs(KeyMap(info, sk, docs)) || (v == sk(Null) && k in keys)
    {
    }
  }

  lemma OwnersOfNull(info: IndexInfo, sk: Json -> string, docs: map<bytes, Json>)
    ensures forall k :: (sk(Null), k) in Pairs(KeyMap(info, sk, docs)) <==> k in docs && sk(Null) in KeysOrNone(info, sk, docs[k])
  {
    hide KeysOf;
  }

  lemma NullRel<K(!new)>(rel: set<(K, bytes)>, more: set<(K, bytes)>, v: K, keys: set<bytes>)
    requires forall w, k :: (w, k) in more <==> (w, k) in rel || (w == v && k in keys)
    requires forall w, k :: (w, k) in rel ==> k !in keys
    ensures UniqueRel(more) <==>
      && UniqueRel(rel) && (forall p, q :: p in keys && q in keys ==> p == q)
      && forall p, k :: p in keys ==> (v, k) !in rel
  {
    if UniqueRel(more) {
      forall w, p, q | (w, p) in rel && (w, q) in rel
        ensures p == q
      {
        assert (w, p) in more && (w, q) in more;
      }
      forall p, q | p in keys && q in keys
        ensures p == q
      {
        assert (v, p) in more && (v, q) in more;
      }
      forall p, k | p in keys
        ensures (v, k) !in rel
      {
        assert (v, p) in more && ((v, k) in rel ==> (v, k) in more);
      }
    }
  }

  lemma OnePrepared(docs: map<bytes, Json>, ops: seq<PreparedOp>, op: PreparedOp)
    requires op.isSet && op.doc.None?
    ensures DocsAfterPrepared(docs, ops + [op]) == DocsAfterPrepared(docs, ops) - {op.pk}
    ensures Undocumented(ops + [op]) == Undocumented(ops) + {op.pk}
  {
    assert (ops + [op])[..|ops|] == ops;
  }

  /** Concrete input: two sets without documents under a unique index that is not sparse are refused, though nothing would be indexed. */
  lemma TwoNullsRefused(x: Index, sk: Json -> string, a: bytes, b: bytes)
    requires x.Equality? && !x.info.sparse && a != b
    ensures var ops := [PreparedOp(a, true, None), PreparedOp(b, true, None)];
      && DocsAfterPrepared(map[], ops) == map[] && UniqueFor(x, sk, map[])
      && !UniqueFor(x, sk, DocsAfter(map[], AsChecked(ops)))
  {
    var one, ops := [PreparedOp(a, true, None)], [PreparedOp(a, true, None), PreparedOp(b, true, None)];
    OnePrepared(map[], [], PreparedOp(a, true, None));
    OnePrepared(map[], one, PreparedOp(b, true, None));
    assert [] + one == one && one + [PreparedOp(b, true, None)] == ops;
    CheckedSees(map[], ops);
    NullKeys(x.info, sk);
    NullsExact(x, sk, map[], {a} + {b});
    assert Undocumented(ops) == {a} + {b} && DocsAfterPrepared(map[], ops) == map[];
    assert KeyMap(x.info, sk, map[]) == map[];
    assert a in {a} + {b} && b in {a} + {b};
  }
}
