/** The index manager of `index_manager.rs`: every index says of the documents what a fresh one would. */
module IndexManagers {
  import opened Wrappers
  import opened Bytes
  import opened SortedPairs
  import opened ByteOrder
  import opened RangeSpec
  import opened Json
  import opened Indexes
  import opened Uniqueness

  datatype IndexError =
    | NotFound(name: string)
    | NotEquality(name: string)
    | NotRange(name: string)
    | UniqueViolation(index: string)

  datatype NumericRangeOptions = NumericRangeOptions(
    min: Option<real>, max: Option<real>, minExclusive: bool, maxExclusive: bool,
    offset: nat, count: Option<nat>, reverse: bool)

  /** Each bound becomes one of the two kinds, so none is ever shadowed. */
  function RangeOf(o: NumericRangeOptions): RangeOptions<real> {
    RangeOptions(
      if o.minExclusive then None else o.min, if o.minExclusive then o.min else None,
      if o.maxExclusive then None else o.max, if o.maxExclusive then o.max else None,
      o.offset, o.count, o.reverse)
  }

  /** A range of the numbers of the documents, said of the documents. */
  lemma NumbersInRange(info: IndexInfo, docs: map<bytes, Json>, list: seq<(real, bytes)>, o: NumericRangeOptions)
    requires Shows(NUMBER_ORDER, list, Pairs(NumberMap(info, docs)))
    ensures var r := Wanted(CompareReal, list, Effective(RangeOf(o)));
      && Once(r)
      && (forall i, j :: 0 <= i < j < |r| ==> if o.reverse then r[i].0 >= r[j].0 else r[i].0 <= r[j].0)
      && (forall n, pk :: (n, pk) in r ==>
            && pk in docs && HasNumber(info, docs[pk], n)
            && (o.min.Some? ==> if o.minExclusive then o.min.value < n else o.min.value <= n)
            && (o.max.Some? ==> if o.maxExclusive then n < o.max.value else n <= o.max.value))
      && (o.offset == 0 && o.count.None? ==> forall n, pk ::
            && pk in docs && HasNumber(info, docs[pk], n)
            && (o.min.Some? ==> if o.minExclusive then o.min.value < n else o.min.value <= n)
            && (o.max.Some? ==> if o.maxExclusive then n < o.max.value else n <= o.max.value)
            ==> (n, pk) in r)
  {
    hide Shows, Wanted, Once, HasNumber, NumbersOf;
    NumbersTotal();
    RangeOfSet(NUMBER_ORDER, list, Pairs(NumberMap(info, docs)), RangeOf(o));
    forall n, pk
      ensures (n, pk) in Pairs(NumberMap(info, docs)) <==> pk in docs && HasNumber(info, docs[pk], n)
    {
      if pk in docs {
        NumbersTaken(info, docs[pk], n);
      }
    }
  }

  type Family = map<string, Index>

  ghost predicate AllReflect(f: Family, sk: Json -> string, docs: map<bytes, Json>) {
    forall name :: name in f ==> Reflects(f[name], sk, docs)
  }

  ghost predicate AllUnique(f: Family, sk: Json -> string, docs: map<bytes, Json>) {
    forall name :: name in f && f[name].info.unique ==> UniqueFor(f[name], sk, docs)
  }

  /** The same indexes by name, kind and definition. */
  ghost predicate SameShape(f: Family, g: Family) {
    f.Keys == g.Keys && forall name :: name in f ==> f[name].info == g[name].info && f[name].Equality? == g[name].Equality?
  }

  lemma SameShapeUnique(f: Family, g: Family, sk: Json -> string, docs: map<bytes, Json>)
    requires SameShape(f, g)
    ensures AllUnique(f, sk, docs) <==> AllUnique(g, sk, docs)
  {
  }

  /** Two managers with the same definitions and the same documents answer alike, whatever their pasts. */
  lemma ManagersAgree(f: Family, g: Family, sk: Json -> string, docs: map<bytes, Json>, name: string)
    requires AllReflect(f, sk, docs) && AllReflect(g, sk, docs) && SameShape(f, g) && name in f
    ensures SameAnswers(f[name], g[name])
  {
    hide Reflects;
    ReflectsUnique(f[name], g[name], sk, docs);
  }

  /** What every index of a family is left with. */
  ghost predicate AllKeep(f: Family, sk: Json -> string, kept: map<string, Kept>) {
    forall name :: name in f ==> name in kept && Keeps(f[name], sk, kept[name])
  }

  ghost function AllClean(f: Family, docs: map<bytes, Json>): map<string, Kept> {
    map name | name in f :: Clean(docs)
  }

  ghost function AllOverlaid(f: Family, sk: Json -> string, docs: map<bytes, Json>, pk: bytes, doc: Json): map<string, Kept> {
    map name | name in f :: Overlaid(f[name], sk, docs, pk, doc)
  }

  ghost function AllPruned(f: Family, sk: Json -> string, kept: map<string, Kept>, gone: set<bytes>): map<string, Kept> {
    map name | name in f && name in kept :: Pruned(f[name].info, sk, kept[name], gone)
  }

  lemma CleanIsReflected(f: Family, sk: Json -> string, docs: map<bytes, Json>)
    ensures AllKeep(f, sk, AllClean(f, docs)) <==> AllReflect(f, sk, docs)
  {
    hide Keeps, Reflects, Clean;
    forall name | name in f
      ensures Keeps(f[name], sk, AllClean(f, docs)[name]) <==> Reflects(f[name], sk, docs)
    {
      CleanReflects(f[name], sk, docs);
    }
    if AllKeep(f, sk, AllClean(f, docs)) {
      forall name | name in f
        ensures Reflects(f[name], sk, docs)
      {
        assert name in AllClean(f, docs) && Keeps(f[name], sk, AllClean(f, docs)[name]);
      }
    }
  }

  lemma CleanPruned(f: Family, g: Family, sk: Json -> string, docs: map<bytes, Json>, gone: set<bytes>)
    requires SameShape(g, f)
    ensures AllPruned(f, sk, AllClean(f, docs), gone) == AllClean(g, docs - gone)
  {
    hide Unlinked;
    forall name | name in f
      ensures Pruned(f[name].info, sk, Clean(docs), gone) == Clean(docs - gone)
    {
      assert {} - Unlinked(f[name].info, sk, docs, gone) == {};
    }
  }

  lemma PrunedShape(f: Family, g: Family, sk: Json -> string, kept: map<string, Kept>, gone: set<bytes>)
    requires SameShape(g, f)
    ensures AllPruned(f, sk, kept, gone) == AllPruned(g, sk, kept, gone)
  {
    hide Pruned;
  }

  lemma AllPrunedNone(f: Family, sk: Json -> string, kept: map<string, Kept>)
    requires kept.Keys == f.Keys
    ensures AllPruned(f, sk, kept, {}) == kept
  {
    hide Pruned;
    forall name | name in f
      ensures Pruned(f[name].info, sk, kept[name], {}) == kept[name]
    {
      PrunedNone(f[name].info, sk, kept[name]);
    }
  }

  lemma AllPrunedOneMore(f: Family, sk: Json -> string, kept: map<string, Kept>, gone: set<bytes>, pk: bytes)
    ensures AllPruned(f, sk, AllPruned(f, sk, kept, gone), {pk}) == AllPruned(f, sk, kept, gone + {pk})
  {
    hide Pruned;
    forall name | name in f && name in kept
      ensures Pruned(f[name].info, sk, Pruned(f[name].info, sk, kept[name], gone), {pk}) == Pruned(f[name].info, sk, kept[name], gone + {pk})
    {
      PrunedOneMore(f[name].info, sk, kept[name], gone, pk);
    }
  }

  class IndexManager {
    var indexes: Family
    const scalarKey: Json -> string
    /** The documents that are indexed, and what each index is left with. */
    ghost var docs: map<bytes, Json>
    ghost var kept: map<string, Kept>

    /** Every index is as `kept` says. */
    ghost predicate Sound()
      reads this
    {
      AllKeep(indexes, scalarKey, kept) && kept.Keys == indexes.Keys
    }

    /** Nothing is forgotten or doubled: every index says what a fresh one of the documents would. */
    ghost predicate Valid()
      reads this
      ensures Valid() ==> Sound()
    {
      Sound() && AllReflect(indexes, scalarKey, docs) && kept == AllClean(indexes, docs)
    }

    constructor (family: Family, scalarKey: Json -> string)
      ensures Valid() && this.scalarKey == scalarKey && docs == map[] && SameShape(indexes, family)
    {
      this.scalarKey := scalarKey;
      indexes := map name | name in family :: Empty(family[name]);
      docs := map[];
      kept := map name | name in family :: Clean(map[]);
      new;
      forall name | name in family
        ensures Reflects(indexes[name], scalarKey, docs)
      {
        EmptyReflects(family[name], scalarKey);
      }
      CleanIsReflected(indexes, scalarKey, docs);
    }

    /** Adds a document; under a key that has one already, stale answers can be left over. */
    method Add(pk: bytes, doc: Json)
      requires Valid()
      modifies this
      ensures Sound() && docs == old(docs)[pk := doc] && SameShape(indexes, old(indexes))
      ensures AllReflect(indexes, scalarKey, docs) <==> AllAddCleanly(old(indexes), scalarKey, old(docs), pk, doc)
      ensures pk !in old(docs) ==> Valid()
      ensures pk in old(docs) ==> kept == AllOverlaid(old(indexes), scalarKey, old(docs), pk, doc)
    {
      hide AllReflect, AllKeep, AllAddCleanly, AllOverlaid, AllClean;
      if pk !in docs {
        NewKeyIsClean(indexes, scalarKey, docs, pk, doc);
      }
      ghost var was := docs;
      ghost var over := AllOverlaid(indexes, scalarKey, docs, pk, doc);
      OverlaidKeys(indexes, scalarKey, docs, pk, doc);
      indexes := AddToAll(indexes, scalarKey, pk, doc, docs);
      docs := docs[pk := doc];
      CleanIsReflected(indexes, scalarKey, docs);
      CleanKeys(indexes, docs);
      kept := if pk in was then over else AllClean(indexes, docs);
    }

    /** Takes a key out of every index, as far as each still knows what it has under it. */
    method Remove(pk: bytes)
      requires Sound()
      modifies this
      ensures Sound() && docs == old(docs) - {pk} && SameShape(indexes, old(indexes))
      ensures kept == AllPruned(old(indexes), scalarKey, old(kept), {pk})
      ensures old(Valid()) ==> Valid()
    {
      hide AllReflect, AllKeep, AllPruned, AllClean;
      ghost var f, was, before := indexes, kept, docs;
      PrunedKeys(f, scalarKey, was, {pk});
      indexes := RemoveFromAll(indexes, scalarKey, pk, kept);
      kept := AllPruned(f, scalarKey, was, {pk});
      docs := docs - {pk};
      CleanPruned(f, indexes, scalarKey, before, {pk});
      CleanIsReflected(indexes, scalarKey, docs);
    }

    /** From the documents of the store; what is not an object is passed over. */
    method Rebuild(entries: seq<(bytes, Json)>)
      requires forall i, j :: 0 <= i < j < |entries| ==> entries[i].0 != entries[j].0
      modifies this
      ensures Valid() && docs == ObjectsOf(entries) && SameShape(indexes, old(indexes))
    {
      hide AllReflect, AllKeep, AllClean, SameShape;
      ghost var was := indexes;
      EmptyFamily(indexes, scalarKey);
      indexes := map name | name in indexes :: Empty(indexes[name]);
      docs := map[];
      kept := AllClean(indexes, docs);
      CleanKeys(indexes, docs);
      CleanIsReflected(indexes, scalarKey, docs);
      assert entries[..0] == [];
      for i := 0 to |entries|
        invariant Valid() && docs == ObjectsOf(entries[..i]) && SameShape(indexes, old(indexes))
      {
        assert entries[..i + 1][..i] == entries[..i];
        if entries[i].1.Object? {
          ObjectsFrom(entries[..i], entries[i].0);
          ghost var before := indexes;
          Add(entries[i].0, entries[i].1);
          ShapeChain(was, before, indexes);
        }
      }
      assert entries[..|entries|] == entries;
    }

    /** The keys under a value, in no promised order. */
    method FindEq(name: string, value: Json) returns (r: Result<seq<bytes>, IndexError>)
      requires Valid()
      ensures name !in indexes ==> r == Err(NotFound(name))
      ensures name in indexes && indexes[name].Range? ==> r == Err(NotEquality(name))
      ensures name in indexes && indexes[name].Equality? ==>
        && r.Ok? && NoDup(r.value)
        && forall pk :: pk in r.value <==> pk in docs && HasKey(indexes[name].info, scalarKey, docs[pk], scalarKey(value))
    {
      hide KeysOf, HasKey;
      if name !in indexes {
        return Err(NotFound(name));
      }
      match indexes[name] {
        case Range(_, _, _) => return Err(NotEquality(name));
        case Equality(info, forward, byPk) =>
          var key := scalarKey(value);
          r := Ok(if key in forward then forward[key] else []);
          forall pk
            ensures pk in r.value <==> pk in docs && HasKey(info, scalarKey, docs[pk], key)
          {
            if pk in docs {
              KeysTaken(info, scalarKey, docs[pk], key);
            }
            assert (key, pk) in Pairs(byPk) <==> pk in byPk && key in byPk[pk];
            assert pk in r.value <==> (key, pk) in Pairs(byPk);
          }
      }
    }

    /** The keys and numbers of a range, as filtering, reversing and paging the sorted pairs gives them. */
    method FindRange(name: string, options: NumericRangeOptions) returns (r: Result<seq<(real, bytes)>, IndexError>)
      requires Valid()
      ensures name !in indexes ==> r == Err(NotFound(name))
      ensures name in indexes && indexes[name].Equality? ==> r == Err(NotRange(name))
      ensures name in indexes && indexes[name].Range? ==>
        exists list :: Shows(NUMBER_ORDER, list, Pairs(NumberMap(indexes[name].info, docs))) && r == Ok(Wanted(CompareReal, list, RangeOf(options)))
      ensures name in indexes && indexes[name].Range? ==>
        && r.Ok? && Once(r.value)
        && forall i, j :: 0 <= i < j < |r.value| ==> if options.reverse then r.value[i].0 >= r.value[j].0 else r.value[i].0 <= r.value[j].0
      ensures name in indexes && indexes[name].Range? ==> forall n, pk :: (n, pk) in r.value ==>
        && pk in docs && HasNumber(indexes[name].info, docs[pk], n)
        && (options.min.Some? ==> if options.minExclusive then options.min.value < n else options.min.value <= n)
        && (options.max.Some? ==> if options.maxExclusive then n < options.max.value else n <= options.max.value)
      ensures name in indexes && indexes[name].Range? && options.offset == 0 && options.count.None? ==> forall n, pk ::
        && pk in docs && HasNumber(indexes[name].info, docs[pk], n)
        && (options.min.Some? ==> if options.minExclusive then options.min.value < n else options.min.value <= n)
        && (options.max.Some? ==> if options.maxExclusive then n < options.max.value else n <= options.max.value)
        ==> (n, pk) in r.value
    {
      hide Shows, Wanted, NumberMap, HasNumber, Once;
      if name !in indexes {
        return Err(NotFound(name));
      }
      match indexes[name] {
        case Equality(_, _, _) => return Err(NotRange(name));
        case Range(info, list, _) =>
          var o := RangeOf(options);
          assert Effective(o) == o;
          r := Ok(Wanted(CompareReal, list, Effective(o)));
          NumbersInRange(info, docs, list, options);
      }
    }

    /** Accepts exactly when the documents with this one have unique values. */
    method CheckUnique(pk: bytes, doc: Json) returns (r: Result<(), IndexError>)
      requires Valid() && AllUnique(indexes, scalarKey, docs)
      ensures r.Ok? <==> AllUnique(indexes, scalarKey, docs[pk := doc])
    {
      hide Reflects, UniqueFor;
      var todo := indexes.Keys;
      while todo != {}
        invariant todo <= indexes.Keys
        invariant forall name :: name in indexes && name !in todo && indexes[name].info.unique ==> UniqueFor(indexes[name], scalarKey, docs[pk := doc])
        decreases |todo|
      {
        var name :| name in todo;
        if indexes[name].info.unique {
          var c := FindConflict(indexes[name], scalarKey, pk, doc, docs);
          if c.Some? {
            return Err(UniqueViolation(name));
          }
        }
        todo := todo - {name};
      }
      return Ok(());
    }

    /** Accepts exactly when the documents after the whole batch have unique values; what holds in between does not matter. */
    method CheckUniqueBatch(ops: seq<BatchIndexOp>) returns (r: Result<(), IndexError>)
      requires Valid() && AllUnique(indexes, scalarKey, docs)
      ensures r.Ok? <==> AllUnique(indexes, scalarKey, DocsAfter(docs, ops))
    {
      hide Reflects, UniqueFor, LastOps, DocsAfter;
      var last := LastOps(ops);
      var todo := indexes.Keys;
      while todo != {}
        invariant todo <= indexes.Keys
        invariant forall name :: name in indexes && name !in todo && indexes[name].info.unique ==> UniqueFor(indexes[name], scalarKey, DocsAfter(docs, ops))
        decreases |todo|
      {
        var name :| name in todo;
        if indexes[name].info.unique {
          var c := BatchConflicts(indexes[name], scalarKey, ops, last, docs);
          if c {
            return Err(UniqueViolation(name));
          }
        }
        todo := todo - {name};
      }
      return Ok(());
    }

    method AssertUniqueValid(name: string) returns (r: Result<(), IndexError>)
      requires Valid()
      ensures name !in indexes ==> r == Err(NotFound(name))
      ensures name in indexes ==> (r.Ok? <==> indexes[name].info.unique ==> UniqueFor(indexes[name], scalarKey, docs))
    {
      hide Reflects, UniqueFor;
      if name !in indexes {
        return Err(NotFound(name));
      }
      if !indexes[name].info.unique {
        return Ok(());
      }
      var ok := IsUnique(indexes[name], scalarKey, docs);
      r := if ok then Ok(()) else Err(UniqueViolation(name));
    }

    /** A set that passes the check keeps every unique index unique; one that does not changes nothing. */
    method SetChecked(pk: bytes, doc: Json) returns (r: Result<(), IndexError>)
      requires Valid() && AllUnique(indexes, scalarKey, docs)
      modifies this
      ensures Valid() && AllUnique(indexes, scalarKey, docs) && SameShape(indexes, old(indexes))
      ensures docs == if r.Ok? then old(docs)[pk := doc] else old(docs)
      ensures r.Ok? <==> AllUnique(old(indexes), scalarKey, old(docs)[pk := doc])
    {
      hide Reflects, UniqueFor, AllReflect, AllUnique, SameShape, AllKeep, AllClean;
      r := CheckUnique(pk, doc);
      SameShapeSelf(indexes);
      if r.Ok? {
        Remove(pk);
        assert (docs)[pk := doc] == old(docs)[pk := doc];
        ghost var between := indexes;
        Add(pk, doc);
        ShapeChain(old(indexes), between, indexes);
        SameShapeUnique(indexes, old(indexes), scalarKey, docs);
      }
    }

    /** A batch that passes the check may break uniqueness between its operations, but not at its end. */
    method BatchChecked(ops: seq<BatchIndexOp>) returns (r: Result<(), IndexError>)
      requires Valid() && AllUnique(indexes, scalarKey, docs)
      modifies this
      ensures Valid() && AllUnique(indexes, scalarKey, docs) && SameShape(indexes, old(indexes))
      ensures docs == if r.Ok? then DocsAfter(old(docs), ops) else old(docs)
      ensures r.Ok? <==> AllUnique(old(indexes), scalarKey, DocsAfter(old(docs), ops))
    {
      hide Reflects, UniqueFor, AllReflect, AllUnique, SameShape, AllKeep, AllClean;
      r := CheckUniqueBatch(ops);
      SameShapeSelf(indexes);
      if r.Err? {
        return;
      }
      assert ops[..0] == [];
      for i := 0 to |ops|
        invariant Valid() && SameShape(indexes, old(indexes)) && docs == DocsAfter(old(docs), ops[..i])
      {
        assert ops[..i + 1][..i] == ops[..i];
        ghost var was, start := docs, indexes;
        Remove(ops[i].pk);
        ghost var between := indexes;
        ShapeChain(old(indexes), start, between);
        if ops[i].isSet {
          assert docs[ops[i].pk := ops[i].doc] == was[ops[i].pk := ops[i].doc];
          Add(ops[i].pk, ops[i].doc);
          ShapeChain(old(indexes), between, indexes);
        }
      }
      assert ops[..|ops|] == ops;
      SameShapeUnique(indexes, old(indexes), scalarKey, docs);
    }

    /**
      A batch as it is prepared: a set without a document is checked as null, and applied as a
      removal.  Uniqueness is kept; the nulls can make the check refuse what would have kept it.
     */
    method PreparedChecked(ops: seq<PreparedOp>) returns (r: Result<(), IndexError>)
      requires Valid() && AllUnique(indexes, scalarKey, docs)
      modifies this
      ensures Valid() && AllUnique(indexes, scalarKey, docs) && SameShape(indexes, old(indexes))
      ensures docs == if r.Ok? then DocsAfterPrepared(old(docs), ops) else old(docs)
      ensures var after, nulls := DocsAfterPrepared(old(docs), ops), Undocumented(ops);
        r.Ok? <==> AllUnique(old(indexes), scalarKey, after) && AllNullsFit(old(indexes), scalarKey, after, nulls)
    {
      hide Reflects, UniqueFor, AllReflect, AllUnique, SameShape, AllNullsFit, AllKeep, AllClean, DocsAfter, AsChecked, Undocumented, WithNulls;
      CheckedSees(docs, ops);
      AllNullsExact(indexes, scalarKey, DocsAfterPrepared(docs, ops), Undocumented(ops));
      r := CheckUniqueBatch(AsChecked(ops));
      SameShapeSelf(indexes);
      if r.Err? {
        return;
      }
      assert ops[..0] == [];
      for i := 0 to |ops|
        invariant Valid() && SameShape(indexes, old(indexes)) && docs == DocsAfterPrepared(old(docs), ops[..i])
      {
        assert ops[..i + 1][..i] == ops[..i];
        ghost var was, start := docs, indexes;
        Remove(ops[i].pk);
        ghost var between := indexes;
        ShapeChain(old(indexes), start, between);
        if ops[i].isSet && ops[i].doc.Some? {
          assert docs[ops[i].pk := ops[i].doc.value] == was[ops[i].pk := ops[i].doc.value];
          Add(ops[i].pk, ops[i].doc.value);
          ShapeChain(old(indexes), between, indexes);
        }
      }
      assert ops[..|ops|] == ops;
      SameShapeUnique(indexes, old(indexes), scalarKey, docs);
    }
  }

  /** In every unique index that takes a key from null: at most one null, and no document with that key. */
  ghost predicate AllNullsFit(f: Family, sk: Json -> string, docs: map<bytes, Json>, keys: set<bytes>) {
    forall name :: name in f && f[name].info.unique && NullTaken(f[name], sk) ==>
      && (forall p, q :: p in keys && q in keys ==> p == q)
      && forall p, k :: p in keys && k in docs ==> sk(Null) !in KeysOrNone(f[name].info, sk, docs[k])
  }

  lemma AllNullsExact(f: Family, sk: Json -> string, docs: map<bytes, Json>, keys: set<bytes>)
    requires docs.Keys !! keys
    ensures AllUnique(f, sk, WithNulls(docs, keys)) <==> AllUnique(f, sk, docs) && AllNullsFit(f, sk, docs, keys)
  {
    hide UniqueFor, WithNulls, NullTaken, KeysOrNone;
    forall name | name in f && f[name].info.unique
      ensures UniqueFor(f[name], sk, WithNulls(docs, keys)) <==>
        && UniqueFor(f[name], sk, docs)
        && (NullTaken(f[name], sk) ==>
              && (forall p, q :: p in keys && q in keys ==> p == q)
              && forall p, k :: p in keys && k in docs ==> sk(Null) !in KeysOrNone(f[name].info, sk, docs[k]))
    {
      NullsExact(f[name], sk, docs, keys);
    }
  }

  ghost predicate AllAddCleanly(f: Family, sk: Json -> string, docs: map<bytes, Json>, pk: bytes, doc: Json) {
    forall name :: name in f ==> AddsCleanly(f[name], sk, docs, pk, doc)
  }

  lemma NewKeyIsClean(f: Family, sk: Json -> string, docs: map<bytes, Json>, pk: bytes, doc: Json)
    requires pk !in docs
    ensures AllAddCleanly(f, sk, docs, pk, doc)
  {
  }

  lemma EmptyFamily(f: Family, sk: Json -> string)
    ensures var g := map name | name in f :: Empty(f[name]);
      AllReflect(g, sk, map[]) && SameShape(g, f)
  {
    hide Reflects;
    forall name | name in f
      ensures Reflects(Empty(f[name]), sk, map[])
    {
      EmptyReflects(f[name], sk);
    }
  }

  lemma CleanKeys(f: Family, docs: map<bytes, Json>)
    ensures AllClean(f, docs).Keys == f.Keys
  {
  }

  lemma OverlaidKeys(f: Family, sk: Json -> string, docs: map<bytes, Json>, pk: bytes, doc: Json)
    ensures AllOverlaid(f, sk, docs, pk, doc).Keys == f.Keys
  {
  }

  lemma PrunedKeys(f: Family, sk: Json -> string, kept: map<string, Kept>, gone: set<bytes>)
    requires kept.Keys == f.Keys
    ensures AllPruned(f, sk, kept, gone).Keys == f.Keys
  {
  }

  method AddToAll(f: Family, sk: Json -> string, pk: bytes, doc: Json, ghost docs: map<bytes, Json>) returns (g: Family)
    requires AllReflect(f, sk, docs)
    ensures AllReflect(g, sk, docs[pk := doc]) <==> AllAddCleanly(f, sk, docs, pk, doc)
    ensures AllKeep(g, sk, AllOverlaid(f, sk, docs, pk, doc)) && SameShape(g, f)
  {
    hide Reflects, AddsCleanly, Keeps, Overlaid;
    g := map[];
    var todo := f.Keys;
    while todo != {}
      invariant todo <= f.Keys && g.Keys == f.Keys - todo && forall name :: name in g ==> Took(f[name], g[name], sk, docs, pk, doc)
      decreases |todo|
    {
      var name :| name in todo;
      var x := AddTo(f[name], sk, pk, doc, docs);
      g := g[name := x];
      todo := todo - {name};
    }
    AllTook(f, g, sk, docs, pk, doc);
  }

  /** One index after a document has been added to it. */
  ghost predicate Took(x: Index, y: Index, sk: Json -> string, docs: map<bytes, Json>, pk: bytes, doc: Json) {
    && y.info == x.info && y.Equality? == x.Equality?
    && (Reflects(y, sk, docs[pk := doc]) <==> AddsCleanly(x, sk, docs, pk, doc))
    && Keeps(y, sk, Overlaid(x, sk, docs, pk, doc))
  }

  lemma AllTook(f: Family, g: Family, sk: Json -> string, docs: map<bytes, Json>, pk: bytes, doc: Json)
    requires f.Keys == g.Keys && forall name :: name in g ==> Took(f[name], g[name], sk, docs, pk, doc)
    ensures AllReflect(g, sk, docs[pk := doc]) <==> AllAddCleanly(f, sk, docs, pk, doc)
    ensures AllKeep(g, sk, AllOverlaid(f, sk, docs, pk, doc)) && SameShape(g, f)
  {
    hide Reflects, AddsCleanly, Keeps, Overlaid;
  }

  method RemoveFromAll(f: Family, sk: Json -> string, pk: bytes, ghost kept: map<string, Kept>) returns (g: Family)
    requires AllKeep(f, sk, kept)
    ensures AllKeep(g, sk, AllPruned(f, sk, kept, {pk})) && SameShape(g, f)
  {
    hide Keeps, Pruned;
    g := map[];
    var todo := f.Keys;
    while todo != {}
      invariant todo <= f.Keys && g.Keys == f.Keys - todo && forall name :: name in g ==> Lost(f[name], g[name], sk, kept[name], pk)
      decreases |todo|
    {
      var name :| name in todo;
      var x := RemoveFrom(f[name], sk, pk, kept[name]);
      g := g[name := x];
      todo := todo - {name};
    }
    AllLost(f, g, sk, kept, pk);
  }

  /** One index after a key has been taken out of it. */
  ghost predicate Lost(x: Index, y: Index, sk: Json -> string, c: Kept, pk: bytes) {
    y.info == x.info && y.Equality? == x.Equality? && Keeps(y, sk, Pruned(x.info, sk, c, {pk}))
  }

  lemma AllLost(f: Family, g: Family, sk: Json -> string, kept: map<string, Kept>, pk: bytes)
    requires f.Keys == g.Keys && f.Keys <= kept.Keys && forall name :: name in g ==> Lost(f[name], g[name], sk, kept[name], pk)
    ensures AllKeep(g, sk, AllPruned(f, sk, kept, {pk})) && SameShape(g, f)
  {
    hide Keeps, Pruned;
  }

  lemma SameShapeSelf(f: Family)
    ensures SameShape(f, f)
  {
  }

  lemma ShapeChain(f: Family, g: Family, h: Family)
    requires SameShape(g, f) && SameShape(h, g)
    ensures SameShape(h, f)
  {
  }

  function ObjectsOf(entries: seq<(bytes, Json)>): map<bytes, Json> {
    if entries == [] then map[]
    else
      var e := entries[|entries| - 1];
      var before := ObjectsOf(entries[..|entries| - 1]);
      if e.1.Object? then before[e.0 := e.1] else before
  }

  lemma {:induction false} ObjectsFrom(entries: seq<(bytes, Json)>, pk: bytes)
    requires forall e :: e in entries ==> e.0 != pk
    ensures pk !in ObjectsOf(entries)
  {
    if entries != [] {
      ObjectsFrom(entries[..|entries| - 1], pk);
    }
  }
}
