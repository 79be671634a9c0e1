/** One equality or range index of `index_manager.rs`, and what it says about the documents. */
module Indexes {
  import opened Wrappers
  import opened Bytes
  import opened SortedPairs
  import opened ByteOrder
  import opened Json

  datatype IndexInfo = IndexInfo(field: seq<Token>, unique: bool, sparse: bool)

  /** Primary keys are byte strings; an index lists them by scalar key or by number. */
  datatype Index =
    | Equality(info: IndexInfo, forward: map<string, seq<bytes>>, byPk: map<bytes, seq<string>>)
    | Range(info: IndexInfo, list: seq<(real, bytes)>, keys: map<bytes, seq<real>>)

  function CompareReal(a: real, b: real): Ordering {
    if a < b then Less else if a == b then Equal else Greater
  }

  const NUMBER_ORDER: Order<real, bytes> := Order(CompareReal, CompareBytes)

  lemma NumbersTotal()
    ensures NUMBER_ORDER.Total()
  {
    BytesTotal();
    assert forall a: real, b: real, c: real :: Chains(CompareReal, a, b, c);
  }

  // --- what an index takes from a document --------------------------------------------------------

  function ScalarKeys(sk: Json -> string, items: seq<Json>): (r: seq<string>)
    ensures |r| == |items| && forall i :: 0 <= i < |items| ==> r[i] == sk(items[i])
  {
    if items == [] then [] else [sk(items[0])] + ScalarKeys(sk, items[1..])
  }

  /** The scalar keys of a document, or none if a sparse index passes it over. */
  function KeysOf(info: IndexInfo, sk: Json -> string, doc: Json): Option<seq<string>> {
    var v := GetPath(doc, info.field);
    if v.None? && info.sparse then None else Some(ScalarKeys(sk, ItemsOf(ValueOr(v))))
  }

  function KeysOrNone(info: IndexInfo, sk: Json -> string, doc: Json): seq<string> {
    var k := KeysOf(info, sk, doc);
    if k.Some? then k.value else []
  }

  /** The numbers among the items, each once, in order of appearance. */
  function DistinctNumbers(items: seq<Json>): (r: seq<real>)
    ensures forall x :: x in r <==> exists i :: 0 <= i < |items| && items[i] == Number(x)
    ensures forall i, j :: 0 <= i < j < |r| ==> r[i] != r[j]
  {
    if items == [] then []
    else
      var n := |items| - 1;
      var rest := DistinctNumbers(items[..n]);
      assert forall x :: x in rest <==> exists i :: 0 <= i < n && items[i] == Number(x);
      if items[n].Number? && items[n].n !in rest then rest + [items[n].n] else rest
  }

  function NumbersOf(info: IndexInfo, doc: Json): seq<real> {
    var v := GetPath(doc, info.field);
    if v.None? && info.sparse then [] else DistinctNumbers(ItemsOf(ValueOr(v)))
  }

  // --- the same, said of the document --------------------------------------------------------------

  /** A document has a key: an array has those of its items, any other value its own, a missing one that of null unless the index is sparse. */
  predicate HasKey(info: IndexInfo, sk: Json -> string, doc: Json, key: string) {
    match GetPath(doc, info.field)
    case None => !info.sparse && key == sk(Null)
    case Some(Array(items)) => exists i :: 0 <= i < |items| && key == sk(items[i])
    case Some(v) => key == sk(v)
  }

  /** A document has a number: an array has those among its items, a number itself, anything else none. */
  predicate HasNumber(info: IndexInfo, doc: Json, n: real) {
    match GetPath(doc, info.field)
    case None => false
    case Some(Array(items)) => exists i :: 0 <= i < |items| && items[i] == Number(n)
    case Some(v) => v == Number(n)
  }

  lemma KeysTaken(info: IndexInfo, sk: Json -> string, doc: Json, key: string)
    ensures key in KeysOrNone(info, sk, doc) <==> HasKey(info, sk, doc, key)
  {
    var v := GetPath(doc, info.field);
    if v.Some? || !info.sparse {
      var keys := ScalarKeys(sk, ItemsOf(ValueOr(v)));
      assert key in keys <==> exists i :: 0 <= i < |keys| && keys[i] == key;
      if v.Some? && v.value.Array? {
        assert forall i :: 0 <= i < |keys| ==> keys[i] == sk(v.value.items[i]);
      } else {
        assert |keys| == 1 && keys[0] == sk(ValueOr(v));
      }
    }
  }

  lemma NumbersTaken(info: IndexInfo, doc: Json, n: real)
    ensures n in NumbersOf(info, doc) <==> HasNumber(info, doc, n)
  {
    var v := GetPath(doc, info.field);
    if v.Some? && !v.value.Array? {
      assert n in DistinctNumbers([v.value]) <==> [v.value][0] == Number(n);
    }
  }

  // --- pairs --------------------------------------------------------------------------------

  ghost function Links<K>(vs: seq<K>, pk: bytes): set<(K, bytes)> {
    set v | v in vs :: (v, pk)
  }

  ghost function Pairs<K>(m: map<bytes, seq<K>>): set<(K, bytes)> {
    set pk, v | pk in m && v in m[pk] :: (v, pk)
  }

  lemma PairsPut<K>(m: map<bytes, seq<K>>, pk: bytes, vs: seq<K>)
    requires pk !in m
    ensures Pairs(m[pk := vs]) == Pairs(m) + Links(vs, pk)
  {
    var n := m[pk := vs];
    forall e
      ensures e in Pairs(n) <==> e in Pairs(m) + Links(vs, pk)
    {
      assert e.1 != pk ==> (e.1 in n <==> e.1 in m);
    }
  }

  lemma PairsDrop<K>(m: map<bytes, seq<K>>, pk: bytes)
    requires pk in m
    ensures Pairs(m - {pk}) == Pairs(m) - Links(m[pk], pk)
  {
    var n := m - {pk};
    forall e
      ensures e in Pairs(n) <==> e in Pairs(m) - Links(m[pk], pk)
    {
      assert e.1 != pk ==> (e.1 in n <==> e.1 in m);
    }
  }

  ghost predicate NoDup<T>(s: seq<T>) {
    forall i, j :: 0 <= i < j < |s| ==> s[i] != s[j]
  }

  /** The forward map is the inverse of the relation: it lists each pair once and no empty entry. */
  ghost predicate Inverse(forward: map<string, seq<bytes>>, rel: set<(string, bytes)>) {
    && (forall key :: key in forward ==> forward[key] != [] && NoDup(forward[key]))
    && forall key, pk :: (key, pk) in rel <==> key in forward && pk in forward[key]
  }

  // --- what an index says -----------------------------------------------------------------------

  ghost function KeyMap(info: IndexInfo, sk: Json -> string, docs: map<bytes, Json>): map<bytes, seq<string>> {
    map pk | pk in docs && KeysOf(info, sk, docs[pk]).Some? :: KeysOf(info, sk, docs[pk]).value
  }

  ghost function NumberMap(info: IndexInfo, docs: map<bytes, Json>): map<bytes, seq<real>> {
    map pk | pk in docs && NumbersOf(info, docs[pk]) != [] :: NumbersOf(info, docs[pk])
  }

  /** The index says of the documents what a fresh index of them would. */
  ghost predicate Reflects(x: Index, sk: Json -> string, docs: map<bytes, Json>) {
    match x
    case Equality(info, forward, byPk) => byPk == KeyMap(info, sk, docs) && Inverse(forward, Pairs(byPk))
    case Range(info, list, keys) => keys == NumberMap(info, docs) && Shows(NUMBER_ORDER, list, Pairs(keys))
  }

  /**
    What an index is left with when documents are added under keys that it has: the documents it
    goes by, keys listed under values that it has forgotten, and numbers listed once more.
   */
  datatype Kept = Kept(docs: map<bytes, Json>, stale: set<(string, bytes)>, doubled: multiset<(real, bytes)>)

  ghost predicate Keeps(x: Index, sk: Json -> string, c: Kept) {
    match x
    case Equality(info, forward, byPk) => byPk == KeyMap(info, sk, c.docs) && Inverse(forward, Pairs(byPk) + c.stale)
    case Range(info, list, keys) => keys == NumberMap(info, c.docs) && Counts(list, Pairs(keys), c.doubled)
  }

  /** Each pair once, and some pairs more often. */
  ghost predicate Counts(list: seq<(real, bytes)>, rel: set<(real, bytes)>, more: multiset<(real, bytes)>) {
    Sorted(NUMBER_ORDER, list) && forall e :: multiset(list)[e] == (if e in rel then 1 else 0) + more[e]
  }

  function Clean(docs: map<bytes, Json>): Kept {
    Kept(docs, {}, multiset{})
  }

  lemma CleanReflects(x: Index, sk: Json -> string, docs: map<bytes, Json>)
    ensures Keeps(x, sk, Clean(docs)) <==> Reflects(x, sk, docs)
  {
    hide KeyMap, NumberMap, Inverse, Sorted, Pairs;
    if x.Equality? {
      assert Pairs(x.byPk) + {} == Pairs(x.byPk);
    }
  }

  /** Whether the index takes the document in, be it with no keys. */
  predicate TakesIn(x: Index, sk: Json -> string, doc: Json) {
    if x.Equality? then KeysOf(x.info, sk, doc).Some? else NumbersOf(x.info, doc) != []
  }

  /** After a document is added over the one under its key: an index that does not take it in stays as it is. */
  ghost function Overlaid(x: Index, sk: Json -> string, docs: map<bytes, Json>, pk: bytes, doc: Json): Kept {
    if !TakesIn(x, sk, doc) then Clean(docs)
    else if pk !in docs then Clean(docs[pk := doc])
    else if x.Equality? then Kept(docs[pk := doc], Links(KeysOrNone(x.info, sk, docs[pk]), pk), multiset{})
    else Kept(docs[pk := doc], {}, multiset(Links(NumbersOf(x.info, docs[pk]), pk)))
  }

  /** The pairs under which an equality index takes these keys out. */
  ghost function Unlinked(info: IndexInfo, sk: Json -> string, docs: map<bytes, Json>, gone: set<bytes>): set<(string, bytes)> {
    set pk, v | pk in gone && pk in docs && v in KeysOrNone(info, sk, docs[pk]) :: (v, pk)
  }

  /** After removing some keys: what had been forgotten or doubled stays, unless it is listed under the same values. */
  ghost function Pruned(info: IndexInfo, sk: Json -> string, c: Kept, gone: set<bytes>): Kept {
    Kept(c.docs - gone, c.stale - Unlinked(info, sk, c.docs, gone), c.doubled)
  }

  lemma PrunedNone(info: IndexInfo, sk: Json -> string, c: Kept)
    ensures Pruned(info, sk, c, {}) == c
  {
    assert Unlinked(info, sk, c.docs, {}) == {};
    assert c.docs - {} == c.docs;
  }

  lemma PrunedOneMore(info: IndexInfo, sk: Json -> string, c: Kept, gone: set<bytes>, pk: bytes)
    ensures Pruned(info, sk, Pruned(info, sk, c, gone), {pk}) == Pruned(info, sk, c, gone + {pk})
  {
    hide KeysOrNone;
    assert c.docs - gone - {pk} == c.docs - (gone + {pk});
    forall e
      ensures e in c.stale - Unlinked(info, sk, c.docs, gone) - Unlinked(info, sk, c.docs - gone, {pk})
         <==> e in c.stale - Unlinked(info, sk, c.docs, gone + {pk})
    {
      UnlinkedHas(info, sk, c.docs, gone, e);
      UnlinkedHas(info, sk, c.docs - gone, {pk}, e);
      UnlinkedHas(info, sk, c.docs, gone + {pk}, e);
    }
  }

  lemma UnlinkedHas(info: IndexInfo, sk: Json -> string, docs: map<bytes, Json>, gone: set<bytes>, e: (string, bytes))
    ensures e in Unlinked(info, sk, docs, gone) <==> e.1 in gone && e.1 in docs && e.0 in KeysOrNone(info, sk, docs[e.1])
  {
    assert e == (e.0, e.1);
  }

  function Empty(x: Index): Index {
    match x
    case Equality(info, _, _) => Equality(info, map[], map[])
    case Range(info, _, _) => Range(info, [], map[])
  }

  lemma EmptyReflects(x: Index, sk: Json -> string)
    ensures Reflects(Empty(x), sk, map[])
  {
    if x.Equality? {
      assert KeyMap(x.info, sk, map[]) == map[];
    } else {
      assert NumberMap(x.info, map[]) == map[];
    }
  }

  lemma KeyMapPut(info: IndexInfo, sk: Json -> string, docs: map<bytes, Json>, pk: bytes, doc: Json)
    requires pk !in docs
    ensures pk !in KeyMap(info, sk, docs)
    ensures KeyMap(info, sk, docs[pk := doc]) ==
      if KeysOf(info, sk, doc).Some? then KeyMap(info, sk, docs)[pk := KeysOf(info, sk, doc).value] else KeyMap(info, sk, docs)
  {
  }

  lemma KeyMapDrop(info: IndexInfo, sk: Json -> string, docs: map<bytes, Json>, pk: bytes)
    ensures KeyMap(info, sk, docs - {pk}) == KeyMap(info, sk, docs) - {pk}
  {
  }

  lemma NumberMapPut(info: IndexInfo, docs: map<bytes, Json>, pk: bytes, doc: Json)
    requires pk !in docs
    ensures pk !in NumberMap(info, docs)
    ensures NumberMap(info, docs[pk := doc]) ==
      if NumbersOf(info, doc) != [] then NumberMap(info, docs)[pk := NumbersOf(info, doc)] else NumberMap(info, docs)
  {
    hide DistinctNumbers;
  }

  lemma NumberMapDrop(info: IndexInfo, docs: map<bytes, Json>, pk: bytes)
    ensures NumberMap(info, docs - {pk}) == NumberMap(info, docs) - {pk}
  {
    hide NumbersOf;
  }

  // --- updating -----------------------------------------------------------------------------

  method LinkKeys(forward: map<string, seq<bytes>>, pk: bytes, keys: seq<string>, ghost rel: set<(string, bytes)>) returns (after: map<string, seq<bytes>>)
    requires Inverse(forward, rel)
    ensures Inverse(after, rel + Links(keys, pk))
  {
    after := forward;
    ghost var grown := rel;
    for i := 0 to |keys|
      invariant Inverse(after, grown) && grown == rel + Links(keys[..i], pk)
    {
      var key := keys[i];
      var pks := if key in after then after[key] else [];
      LinkKey(after, grown, key, pk);
      if pk !in pks {
        pks := pks + [pk];
      }
      after := after[key := pks];
      grown := grown + {(key, pk)};
      assert Links(keys[..i + 1], pk) == Links(keys[..i], pk) + {(key, pk)} by { LinksSnoc(keys, i, pk); }
    }
    assert keys[..|keys|] == keys;
  }

  lemma LinksSnoc<K>(vs: seq<K>, i: nat, pk: bytes)
    requires i < |vs|
    ensures Links(vs[..i + 1], pk) == Links(vs[..i], pk) + {(vs[i], pk)}
    ensures Links(vs[..0], pk) == {}
  {
    assert vs[..i + 1] == vs[..i] + [vs[i]];
  }

  lemma LinksHas<K>(vs: seq<K>, pk: bytes, v: K)
    ensures (v, pk) in Links(vs, pk) <==> v in vs
  {
  }

  lemma LinkKey(forward: map<string, seq<bytes>>, rel: set<(string, bytes)>, key: string, pk: bytes)
    requires Inverse(forward, rel)
    ensures var pks := if key in forward then forward[key] else [];
      Inverse(forward[key := if pk in pks then pks else pks + [pk]], rel + {(key, pk)})
  {
    var pks := if key in forward then forward[key] else [];
    var grown := if pk in pks then pks else pks + [pk];
    assert NoDup(grown);
    assert forall q :: q in grown <==> q in pks || q == pk;
  }

  lemma {:induction false} WithoutNoDup(pks: seq<bytes>, pk: bytes)
    requires NoDup(pks)
    ensures NoDup(Without(pks, pk))
  {
    if pks != [] {
      var rest := Without(pks[1..], pk);
      WithoutNoDup(pks[1..], pk);
      assert forall q :: q in pks[1..] ==> q != pks[0];
      assert forall j :: 0 <= j < |rest| ==> rest[j] in rest;
    }
  }

  lemma UnlinkKey(forward: map<string, seq<bytes>>, rel: set<(string, bytes)>, key: string, pk: bytes)
    requires Inverse(forward, rel) && key in forward
    ensures var pks := Without(forward[key], pk);
      Inverse(if pks == [] then forward - {key} else forward[key := pks], rel - {(key, pk)})
  {
    WithoutNoDup(forward[key], pk);
  }

  method UnlinkKeys(forward: map<string, seq<bytes>>, pk: bytes, keys: seq<string>, ghost rel: set<(string, bytes)>) returns (after: map<string, seq<bytes>>)
    requires Inverse(forward, rel)
    ensures Inverse(after, rel - Links(keys, pk))
  {
    after := forward;
    ghost var left := rel;
    for i := 0 to |keys|
      invariant Inverse(after, left) && left == rel - Links(keys[..i], pk)
    {
      var key := keys[i];
      LinksSnoc(keys, i, pk);
      if key in after {
        UnlinkKey(after, left, key, pk);
        var pks := Without(after[key], pk);
        after := if pks == [] then after - {key} else after[key := pks];
        left := left - {(key, pk)};
      } else {
        assert (key, pk) !in left;
      }
    }
    assert keys[..|keys|] == keys;
  }

  /** Puts one more copy of each number in, whatever the list holds. */
  method LinkNumbers(list: seq<(real, bytes)>, pk: bytes, values: seq<real>) returns (after: seq<(real, bytes)>)
    requires Sorted(NUMBER_ORDER, list) && NoDup(values)
    ensures Sorted(NUMBER_ORDER, after)
    ensures forall e :: multiset(after)[e] == multiset(list)[e] + if e in Links(values, pk) then 1 else 0
  {
    hide Sorted;
    NumbersTotal();
    after := list;
    LinksNone<real>(values, pk);
    for i := 0 to |values|
      invariant Sorted(NUMBER_ORDER, after)
      invariant forall e :: multiset(after)[e] == multiset(list)[e] + if e in Links(values[..i], pk) then 1 else 0
    {
      LinksSnoc(values, i, pk);
      LinksHas(values[..i], pk, values[i]);
      InsertMultiset(NUMBER_ORDER, after, (values[i], pk));
      InsertIsSorted(NUMBER_ORDER, after, (values[i], pk));
      after := Insert(NUMBER_ORDER, after, (values[i], pk));
    }
    assert values[..|values|] == values;
  }

  lemma LinksNone<K>(vs: seq<K>, pk: bytes)
    ensures Links(vs[..0], pk) == {}
  {
  }

  /** Takes one copy of each number out. */
  method UnlinkNumbers(list: seq<(real, bytes)>, pk: bytes, values: seq<real>) returns (after: seq<(real, bytes)>)
    requires Sorted(NUMBER_ORDER, list) && NoDup(values) && forall v :: v in values ==> multiset(list)[(v, pk)] > 0
    ensures Sorted(NUMBER_ORDER, after)
    ensures forall e :: multiset(list)[e] == multiset(after)[e] + if e in Links(values, pk) then 1 else 0
  {
    hide Sorted;
    NumbersTotal();
    after := list;
    LinksNone<real>(values, pk);
    for i := 0 to |values|
      invariant Sorted(NUMBER_ORDER, after)
      invariant forall e :: multiset(list)[e] == multiset(after)[e] + if e in Links(values[..i], pk) then 1 else 0
    {
      LinksSnoc(values, i, pk);
      LinksHas(values[..i], pk, values[i]);
      RemoveMultiset(after, (values[i], pk));
      RemoveIsSorted(NUMBER_ORDER, after, (values[i], pk));
      after := Remove(after, (values[i], pk));
    }
    assert values[..|values|] == values;
  }

  /**
    Whether adding a document leaves nothing stale of an earlier one under the same key: an
    equality index forgets the earlier keys without unlinking them, a range index lists its
    numbers once more.
   */
  predicate AddsCleanly(x: Index, sk: Json -> string, docs: map<bytes, Json>, pk: bytes, doc: Json) {
    pk in docs ==>
      if x.Range? then NumbersOf(x.info, docs[pk]) == []
      else
        var was, next := KeysOf(x.info, sk, docs[pk]), KeysOf(x.info, sk, doc);
        was.Some? ==> next.Some? && forall v :: v in was.value ==> v in next.value
  }

  /** Adds a document.  The index then says what a fresh one would exactly if nothing stale is left. */
  method AddTo(x: Index, sk: Json -> string, pk: bytes, doc: Json, ghost docs: map<bytes, Json>) returns (y: Index)
    requires Reflects(x, sk, docs)
    ensures y.info == x.info && y.Equality? == x.Equality?
    ensures Reflects(y, sk, docs[pk := doc]) <==> AddsCleanly(x, sk, docs, pk, doc)
    ensures Keeps(y, sk, Overlaid(x, sk, docs, pk, doc))
  {
    hide Inverse, Shows, KeysOf, NumbersOf, KeyMap, NumberMap, Pairs, Links, Counts, Keeps, Overlaid;
    OverlaidIs(x, sk, docs, pk, doc);
    CleanReflects(x, sk, docs);
    match x {
      case Equality(info, forward, byPk) =>
        KeyMapSet(info, sk, docs, pk, doc);
        var keys := KeysOf(info, sk, doc);
        if keys.None? {
          return x;
        }
        var after := LinkKeys(forward, pk, keys.value, Pairs(byPk));
        y := Equality(info, after, byPk[pk := keys.value]);
        LinkedExact(after, byPk, pk, keys.value);
        LinkedOver(after, byPk, pk, keys.value, if pk in docs then KeysOrNone(info, sk, docs[pk]) else []);
        KeepsKeys(info, after, byPk[pk := keys.value], sk, Overlaid(x, sk, docs, pk, doc));
      case Range(info, list, byPk) =>
        NumberMapSet(info, docs, pk, doc);
        var values := NumbersOf(info, doc);
        if values == [] {
          return x;
        }
        NumbersNoDup(info, doc);
        ShowsSorted(list, Pairs(byPk));
        var after := LinkNumbers(list, pk, values);
        y := Range(info, after, byPk[pk := values]);
        ListedExact(list, after, byPk, pk, values);
        ListedOver(list, after, byPk, pk, values, if pk in docs then NumbersOf(info, docs[pk]) else []);
        KeepsNumbers(info, after, byPk[pk := values], sk, Overlaid(x, sk, docs, pk, doc));
    }
  }

  lemma OverlaidIs(x: Index, sk: Json -> string, docs: map<bytes, Json>, pk: bytes, doc: Json)
    ensures var c := Overlaid(x, sk, docs, pk, doc);
      && (!TakesIn(x, sk, doc) ==> c == Clean(docs))
      && (TakesIn(x, sk, doc) ==>
            && c.docs == docs[pk := doc]
            && (x.Equality? ==> c.stale == Links(if pk in docs then KeysOrNone(x.info, sk, docs[pk]) else [], pk))
            && (x.Range? ==> c.doubled == multiset(Links(if pk in docs then NumbersOf(x.info, docs[pk]) else [], pk))))
  {
    hide KeysOf, NumbersOf;
    assert Links<string>([], pk) == {} && Links<real>([], pk) == {};
  }

  lemma KeepsKeys(info: IndexInfo, forward: map<string, seq<bytes>>, byPk: map<bytes, seq<string>>, sk: Json -> string, c: Kept)
    ensures Keeps(Equality(info, forward, byPk), sk, c) <==> byPk == KeyMap(info, sk, c.docs) && Inverse(forward, Pairs(byPk) + c.stale)
  {
  }

  lemma KeepsNumbers(info: IndexInfo, list: seq<(real, bytes)>, keys: map<bytes, seq<real>>, sk: Json -> string, c: Kept)
    ensures Keeps(Range(info, list, keys), sk, c) <==> keys == NumberMap(info, c.docs) && Counts(list, Pairs(keys), c.doubled)
  {
  }

  /** The old keys of a document that is overwritten stay listed beside the new ones. */
  lemma LinkedOver(after: map<string, seq<bytes>>, byPk: map<bytes, seq<string>>, pk: bytes, keys: seq<string>, was: seq<string>)
    requires Inverse(after, Pairs(byPk) + Links(keys, pk)) && was == if pk in byPk then byPk[pk] else []
    ensures Inverse(after, Pairs(byPk[pk := keys]) + Links(was, pk))
  {
    hide Pairs, Links, Inverse;
    PairsSet(byPk, pk, keys);
    forall e
      ensures e in Pairs(byPk) + Links(keys, pk) <==> e in Pairs(byPk[pk := keys]) + Links(was, pk)
    {
      LinksAre(keys, pk, e.0, e.1);
      LinksAre(was, pk, e.0, e.1);
      assert e == (e.0, e.1);
    }
    assert Pairs(byPk) + Links(keys, pk) == Pairs(byPk[pk := keys]) + Links(was, pk);
  }

  /** The old numbers too, so a number of both is listed twice. */
  lemma ListedOver(list: seq<(real, bytes)>, after: seq<(real, bytes)>, byPk: map<bytes, seq<real>>, pk: bytes, values: seq<real>, was: seq<real>)
    requires Shows(NUMBER_ORDER, list, Pairs(byPk)) && Sorted(NUMBER_ORDER, after) && was == if pk in byPk then byPk[pk] else []
    requires forall e :: multiset(after)[e] == multiset(list)[e] + if e in Links(values, pk) then 1 else 0
    ensures Counts(after, Pairs(byPk[pk := values]), multiset(Links(was, pk)))
  {
    hide Pairs, Links, Sorted;
    PairsSet(byPk, pk, values);
    forall e
      ensures multiset(after)[e] == (if e in Pairs(byPk[pk := values]) then 1 else 0) + multiset(Links(was, pk))[e]
    {
      LinksAre(values, pk, e.0, e.1);
      LinksAre(was, pk, e.0, e.1);
      assert e == (e.0, e.1);
    }
  }

  lemma ShowsSorted(list: seq<(real, bytes)>, rel: set<(real, bytes)>)
    requires Shows(NUMBER_ORDER, list, rel)
    ensures Sorted(NUMBER_ORDER, list)
  {
  }

  lemma KeyMapSet(info: IndexInfo, sk: Json -> string, docs: map<bytes, Json>, pk: bytes, doc: Json)
    ensures KeyMap(info, sk, docs[pk := doc]) ==
      if KeysOf(info, sk, doc).Some? then KeyMap(info, sk, docs)[pk := KeysOf(info, sk, doc).value] else KeyMap(info, sk, docs) - {pk}
    ensures pk in KeyMap(info, sk, docs) <==> pk in docs && KeysOf(info, sk, docs[pk]).Some?
    ensures pk in KeyMap(info, sk, docs) ==> KeyMap(info, sk, docs)[pk] == KeysOf(info, sk, docs[pk]).value
  {
    hide KeysOf;
  }

  lemma NumberMapSet(info: IndexInfo, docs: map<bytes, Json>, pk: bytes, doc: Json)
    ensures NumberMap(info, docs[pk := doc]) ==
      if NumbersOf(info, doc) != [] then NumberMap(info, docs)[pk := NumbersOf(info, doc)] else NumberMap(info, docs) - {pk}
    ensures pk in NumberMap(info, docs) <==> pk in docs && NumbersOf(info, docs[pk]) != []
    ensures pk in NumberMap(info, docs) ==> NumberMap(info, docs)[pk] == NumbersOf(info, docs[pk])
  {
    hide NumbersOf;
  }

  lemma PairsSet<K(!new)>(m: map<bytes, seq<K>>, pk: bytes, vs: seq<K>)
    ensures forall v, q :: (v, q) in Pairs(m[pk := vs]) <==> if q == pk then v in vs else (v, q) in Pairs(m)
    ensures forall v :: (v, pk) in Pairs(m) <==> pk in m && v in m[pk]
  {
  }

  lemma LinkedExact(after: map<string, seq<bytes>>, byPk: map<bytes, seq<string>>, pk: bytes, keys: seq<string>)
    requires Inverse(after, Pairs(byPk) + Links(keys, pk))
    ensures Inverse(after, Pairs(byPk[pk := keys])) <==> (pk in byPk ==> forall v :: v in byPk[pk] ==> v in keys)
  {
    hide Pairs, Links, NoDup;
    var rel, next := Pairs(byPk) + Links(keys, pk), Pairs(byPk[pk := keys]);
    PairsSet(byPk, pk, keys);
    forall v, q
      ensures (v, q) in rel <==> (v, q) in Pairs(byPk) || (q == pk && v in keys)
    {
      LinksAre(keys, pk, v, q);
    }
    InverseExact(after, rel, next);
    if rel == next && pk in byPk {
      forall v | v in byPk[pk]
        ensures v in keys
      {
        assert (v, pk) in rel && (v, pk) in next;
      }
    }
    if pk in byPk ==> forall v :: v in byPk[pk] ==> v in keys {
      forall e
        ensures e in rel <==> e in next
      {
        assert e == (e.0, e.1);
      }
      assert rel == next;
    }
  }

  lemma LinksAre<K(!new)>(vs: seq<K>, pk: bytes, v: K, q: bytes)
    ensures (v, q) in Links(vs, pk) <==> q == pk && v in vs
  {
  }

  lemma InverseExact(forward: map<string, seq<bytes>>, p: set<(string, bytes)>, q: set<(string, bytes)>)
    requires Inverse(forward, p)
    ensures Inverse(forward, q) <==> p == q
  {
    hide NoDup;
    if Inverse(forward, q) {
      forall e
        ensures e in p <==> e in q
      {
        assert e == (e.0, e.1);
        assert (e.0, e.1) in p <==> e.0 in forward && e.1 in forward[e.0];
      }
    }
  }

  lemma ListedExact(list: seq<(real, bytes)>, after: seq<(real, bytes)>, byPk: map<bytes, seq<real>>, pk: bytes, values: seq<real>)
    requires Shows(NUMBER_ORDER, list, Pairs(byPk)) && Sorted(NUMBER_ORDER, after) && (pk in byPk ==> byPk[pk] != [])
    requires forall e :: multiset(after)[e] == multiset(list)[e] + if e in Links(values, pk) then 1 else 0
    ensures Shows(NUMBER_ORDER, after, Pairs(byPk[pk := values])) <==> pk !in byPk
  {
    hide Pairs, Links, Sorted;
    var next := Pairs(byPk[pk := values]);
    PairsSet(byPk, pk, values);
    forall v, q
      ensures (v, q) in Links(values, pk) <==> q == pk && v in values
    {
      LinksAre(values, pk, v, q);
    }
    if pk in byPk {
      var e := (byPk[pk][0], pk);
      assert e in Pairs(byPk) && multiset(list)[e] == 1;
      assert multiset(after)[e] != if e in next then 1 else 0;
    } else {
      forall e
        ensures multiset(after)[e] == if e in next then 1 else 0
      {
        assert e == (e.0, e.1);
      }
    }
  }

  lemma NumbersNoDup(info: IndexInfo, doc: Json)
    ensures NoDup(NumbersOf(info, doc))
  {
  }

  /** Takes a key out, as far as the index still knows what it has under it. */
  method RemoveFrom(x: Index, sk: Json -> string, pk: bytes, ghost c: Kept) returns (y: Index)
    requires Keeps(x, sk, c)
    ensures y.info == x.info && y.Equality? == x.Equality? && Keeps(y, sk, Pruned(x.info, sk, c, {pk}))
  {
    hide Inverse, Counts, KeysOf, NumbersOf, KeyMap, NumberMap, Pairs, Links, Unlinked;
    UnlinkedOne(x.info, sk, c.docs, pk);
    match x {
      case Equality(info, forward, byPk) =>
        KeyMapDrop(info, sk, c.docs, pk);
        KeyMapSet(info, sk, c.docs, pk, Null);
        if pk !in byPk {
          assert byPk - {pk} == byPk && c.stale - {} == c.stale;
          return x;
        }
        PairsDrop(byPk, pk);
        var after := UnlinkKeys(forward, pk, byPk[pk], Pairs(byPk) + c.stale);
        assert Pairs(byPk) + c.stale - Links(byPk[pk], pk) == Pairs(byPk - {pk}) + (c.stale - Links(byPk[pk], pk));
        y := Equality(info, after, byPk - {pk});
      case Range(info, list, byPk) =>
        NumberMapDrop(info, c.docs, pk);
        NumberMapSet(info, c.docs, pk, Null);
        if pk !in byPk {
          assert byPk - {pk} == byPk;
          return x;
        }
        NumbersNoDup(info, c.docs[pk]);
        CountsListed(list, byPk, c.doubled, pk);
        var after := UnlinkNumbers(list, pk, byPk[pk]);
        CountsLess(list, after, byPk, c.doubled, pk);
        y := Range(info, after, byPk - {pk});
    }
  }

  lemma UnlinkedOne(info: IndexInfo, sk: Json -> string, docs: map<bytes, Json>, pk: bytes)
    ensures Unlinked(info, sk, docs, {pk}) == Links(if pk in docs then KeysOrNone(info, sk, docs[pk]) else [], pk)
    ensures pk in docs && KeysOf(info, sk, docs[pk]).None? ==> Unlinked(info, sk, docs, {pk}) == {}
    ensures pk !in docs ==> Unlinked(info, sk, docs, {pk}) == {}
  {
    hide KeysOf;
  }

  lemma CountsListed(list: seq<(real, bytes)>, keys: map<bytes, seq<real>>, more: multiset<(real, bytes)>, pk: bytes)
    requires Counts(list, Pairs(keys), more) && pk in keys
    ensures Sorted(NUMBER_ORDER, list) && forall v :: v in keys[pk] ==> multiset(list)[(v, pk)] > 0
  {
    hide Sorted;
    forall v | v in keys[pk]
      ensures multiset(list)[(v, pk)] > 0
    {
      assert (v, pk) in Pairs(keys);
    }
  }

  lemma CountsLess(list: seq<(real, bytes)>, after: seq<(real, bytes)>, keys: map<bytes, seq<real>>, more: multiset<(real, bytes)>, pk: bytes)
    requires Counts(list, Pairs(keys), more) && pk in keys && Sorted(NUMBER_ORDER, after)
    requires forall e :: multiset(list)[e] == multiset(after)[e] + if e in Links(keys[pk], pk) then 1 else 0
    ensures Counts(after, Pairs(keys - {pk}), more)
  {
    hide Sorted, Pairs, Links;
    PairsDrop(keys, pk);
    forall e
      ensures multiset(after)[e] == (if e in Pairs(keys - {pk}) then 1 else 0) + more[e]
    {
      LinksAre(keys[pk], pk, e.0, e.1);
      PairsSet(keys, pk, keys[pk]);
      assert e == (e.0, e.1);
    }
  }

  // --- two indexes of the same documents ----------------------------------------------------------

  /** The same answers: the same list, or the same keys under every value. */
  ghost predicate SameAnswers(x: Index, y: Index) {
    match (x, y)
    case (Equality(_, f, b), Equality(_, g, c)) =>
      b == c && f.Keys == g.Keys && forall key :: key in f ==> multiset(f[key]) == multiset(g[key])
    case (Range(_, l, b), Range(_, m, c)) => b == c && l == m
    case _ => false
  }

  lemma {:induction false} NoDupMultiset(a: seq<bytes>, b: seq<bytes>)
    requires NoDup(a) && NoDup(b) && forall x :: x in a <==> x in b
    ensures multiset(a) == multiset(b)
  {
    forall x
      ensures multiset(a)[x] == multiset(b)[x]
    {
      CountNoDup(a, x);
      CountNoDup(b, x);
    }
  }

  lemma {:induction false} CountNoDup(a: seq<bytes>, x: bytes)
    requires NoDup(a)
    ensures multiset(a)[x] == if x in a then 1 else 0
  {
    if a != [] {
      var n := |a| - 1;
      assert a == a[..n] + [a[n]];
      CountNoDup(a[..n], x);
      assert a[n] !in a[..n];
    }
  }

  /** However they came about, two indexes of the same definition and the same documents answer alike. */
  lemma ReflectsUnique(x: Index, y: Index, sk: Json -> string, docs: map<bytes, Json>)
    requires Reflects(x, sk, docs) && Reflects(y, sk, docs) && x.info == y.info && x.Equality? == y.Equality?
    ensures SameAnswers(x, y)
  {
    hide KeyMap, NumberMap, Shows, NoDup;
    match (x, y)
    case (Equality(_, f, b), Equality(_, g, c)) =>
      forall key
        ensures key in f <==> key in g
        ensures key in f && key in g ==> multiset(f[key]) == multiset(g[key])
      {
        SameForward(f, g, Pairs(b), key);
      }
    case (Range(_, l, _), Range(_, m, _)) =>
      NumbersTotal();
      ShowsUnique(NUMBER_ORDER, l, m, Pairs(x.keys));
  }

  lemma SameForward(f: map<string, seq<bytes>>, g: map<string, seq<bytes>>, rel: set<(string, bytes)>, key: string)
    requires Inverse(f, rel) && Inverse(g, rel)
    ensures key in f <==> key in g
    ensures key in f && key in g ==> multiset(f[key]) == multiset(g[key])
  {
    hide NoDup;
    if key in f {
      assert f[key][0] in f[key] && (key, f[key][0]) in rel;
    }
    if key in g {
      assert g[key][0] in g[key] && (key, g[key][0]) in rel;
    }
    if key in f && key in g {
      assert forall pk :: pk in f[key] <==> (key, pk) in rel;
      NoDupMultiset(f[key], g[key]);
    }
  }
}
