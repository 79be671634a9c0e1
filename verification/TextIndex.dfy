/** The text index of `text_index.rs`: memory-backed, or disk-backed behind a cache of the terms used last. */
module TextIndexes {
  import opened Wrappers
  import opened Bytes
  import opened Json
  import opened Postings
  import opened TextTables
  import opened TextSearch

  /** A list of postings as a map; later ones override. */
  function ToMap(list: seq<Posting>): map<nat, nat> {
    if list == [] then map[] else ToMap(list[..|list| - 1])[list[|list| - 1].0 := list[|list| - 1].1]
  }

  lemma ToMapSnoc(list: seq<Posting>, p: Posting)
    ensures ToMap(list + [p]) == ToMap(list)[p.0 := p.1] && ToMap([]) == map[]
  {
    assert (list + [p])[..|list|] == list;
  }

  /** The frequencies of a map as a list. */
  method ToList(m: map<nat, nat>) returns (list: seq<Posting>)
    requires forall x :: x in m ==> x < 0x1_0000_0000 && m[x] < 0x1_0000_0000
    ensures ToMap(list) == m && |list| == |m|
  {
    hide ToMap, Unlisted;
    list := [];
    var todo := m.Keys;
    NoList();
    AllUnlisted(m);
    while todo != {}
      invariant todo <= m.Keys && Unlisted(m, ToMap(list), todo) && |list| + |todo| == |m|
      decreases |todo|
    {
      var x :| x in todo;
      ToMapSnoc(list, (x, m[x]));
      ListedOne(m, ToMap(list), todo, x);
      list := list + [(x, m[x])];
      todo := todo - {x};
    }
    NoneUnlisted(m, ToMap(list));
  }

  /** The map holds all of m but what is still to do. */
  ghost predicate Unlisted(m: map<nat, nat>, done: map<nat, nat>, todo: set<nat>) {
    done.Keys == m.Keys - todo && forall x :: x in done ==> done[x] == m[x]
  }

  lemma AllUnlisted(m: map<nat, nat>)
    ensures Unlisted(m, map[], m.Keys) && |m.Keys| == |m|
  {
  }

  lemma ListedOne(m: map<nat, nat>, done: map<nat, nat>, todo: set<nat>, x: nat)
    requires Unlisted(m, done, todo) && x in todo && x in m
    ensures Unlisted(m, done[x := m[x]], todo - {x})
  {
  }

  lemma NoneUnlisted(m: map<nat, nat>, done: map<nat, nat>)
    requires Unlisted(m, done, {})
    ensures done == m
  {
  }

  // --- the base on disk -------------------------------------------------------------------------

  /** Every term of the base reads back from the file; the dictionary has no others. */
  ghost predicate DiskReads(dictionary: map<bytes, PostingEntry>, file: Option<bytes>, base: Lists) {
    forall term :: TermReads(dictionary, file, base, term)
  }

  ghost predicate TermReads(dictionary: map<bytes, PostingEntry>, file: Option<bytes>, base: Lists, term: bytes) {
    if term in dictionary then
      file.Some? && ReadEntry(file.value, dictionary[term]).Ok? && ToMap(ReadEntry(file.value, dictionary[term]).value) == At(base, term)
    else At(base, term) == map[]
  }

  /** The base is in memory, or on disk. */
  ghost predicate BaseOk(memory: Option<Lists>, dictionary: map<bytes, PostingEntry>, file: Option<bytes>, base: Lists) {
    if memory.Some? then memory.value == base else DiskReads(dictionary, file, base)
  }

  ghost predicate CacheReads(cache: map<bytes, seq<Posting>>, base: Lists) {
    forall term :: term in cache ==> ToMap(cache[term]) == At(base, term)
  }

  ghost predicate Once(order: seq<bytes>) {
    forall i, j :: 0 <= i < j < |order| ==> order[i] != order[j]
  }

  ghost predicate SameTerms(keys: set<bytes>, order: seq<bytes>) {
    forall term :: term in keys <==> term in order
  }

  /** The cache holds what the file says, at most so many terms, each once in the order of use. */
  ghost predicate CacheOk(cache: map<bytes, seq<Posting>>, order: seq<bytes>, most: nat, base: Lists) {
    CacheReads(cache, base) && SameTerms(cache.Keys, order) && Once(order) && |cache| <= most
  }

  lemma {:induction false} WithoutKeepsOnce(order: seq<bytes>, x: bytes)
    requires Once(order)
    ensures Once(Without(order, x))
  {
    if order != [] {
      var rest := Without(order[1..], x);
      WithoutKeepsOnce(order[1..], x);
      assert forall y :: y in order[1..] ==> y != order[0];
      assert forall j :: 0 <= j < |rest| ==> rest[j] in rest;
    }
  }

  lemma OnceMore(order: seq<bytes>, x: bytes)
    requires Once(order) && x !in order
    ensures Once(order + [x])
  {
  }

  lemma TouchKeeps(cache: map<bytes, seq<Posting>>, order: seq<bytes>, most: nat, base: Lists, term: bytes)
    requires CacheOk(cache, order, most, base) && term in cache
    ensures CacheOk(cache, Without(order, term) + [term], most, base)
  {
    hide CacheReads, Once;
    WithoutKeepsOnce(order, term);
    OnceMore(Without(order, term), term);
  }

  /** Adds a term; when there are too many, the one used longest ago goes. */
  method InsertCache(cache: map<bytes, seq<Posting>>, order: seq<bytes>, most: nat, term: bytes, list: seq<Posting>, ghost base: Lists)
    returns (after: map<bytes, seq<Posting>>, used: seq<bytes>)
    requires CacheOk(cache, order, most, base) && term !in cache && ToMap(list) == At(base, term) && most > 0
    ensures CacheOk(after, used, most, base)
    ensures if |cache| < most then after == cache[term := list] && used == order + [term]
            else order != [] && after == cache[term := list] - {order[0]} && used == order[1..] + [term]
  {
    hide CacheOk, ToMap;
    InsertKeeps(cache, order, most, term, list, base);
    after, used := cache[term := list], Without(order, term) + [term];
    if |after| > most {
      EvictKeeps(after, used, most, base);
      var oldest := used[0];
      used := used[1..];
      after := after - {oldest};
    }
  }

  lemma InsertKeeps(cache: map<bytes, seq<Posting>>, order: seq<bytes>, most: nat, term: bytes, list: seq<Posting>, base: Lists)
    requires CacheOk(cache, order, most, base) && term !in cache && ToMap(list) == At(base, term)
    ensures Without(order, term) == order && |order| == |cache| <= most && |cache[term := list]| == |cache| + 1
    ensures CacheOk(cache[term := list], order + [term], |cache| + 1, base)
    ensures |cache| < most ==> CacheOk(cache[term := list], order + [term], most, base)
  {
    hide ToMap, CacheReads, Once, SameTerms, Without, At;
    CacheReadsMore(cache, base, term, list);
    SameMore(cache.Keys, order, term);
    WithoutAbsent(order, term);
    OrderSize(cache.Keys, order);
    OnceMore(order, term);
    assert cache[term := list].Keys == cache.Keys + {term};
  }

  lemma SameMore(keys: set<bytes>, order: seq<bytes>, term: bytes)
    requires SameTerms(keys, order)
    ensures SameTerms(keys + {term}, order + [term]) && (term !in keys ==> term !in order)
  {
  }

  lemma CacheReadsMore(cache: map<bytes, seq<Posting>>, base: Lists, term: bytes, list: seq<Posting>)
    requires CacheReads(cache, base) && ToMap(list) == At(base, term)
    ensures CacheReads(cache[term := list], base)
  {
    hide ToMap;
  }

  lemma EvictKeeps(cache: map<bytes, seq<Posting>>, order: seq<bytes>, most: nat, base: Lists)
    requires CacheOk(cache, order, most + 1, base) && |cache| == most + 1
    ensures order != [] && CacheOk(cache - {order[0]}, order[1..], most, base)
  {
    hide ToMap, CacheReads, Once, At;
    OrderSize(cache.Keys, order);
    OldestOut(cache.Keys, order);
    CacheReadsLess(cache, base, order[0]);
    assert (cache - {order[0]}).Keys == cache.Keys - {order[0]};
  }

  lemma CacheReadsLess(cache: map<bytes, seq<Posting>>, base: Lists, term: bytes)
    requires CacheReads(cache, base)
    ensures CacheReads(cache - {term}, base)
  {
    hide ToMap;
  }

  lemma OldestOut(keys: set<bytes>, order: seq<bytes>)
    requires SameTerms(keys, order) && Once(order) && order != []
    ensures SameTerms(keys - {order[0]}, order[1..]) && Once(order[1..])
  {
    assert order == [order[0]] + order[1..];
    assert order[0] !in order[1..];
  }

  lemma {:induction false} WithoutAbsent(order: seq<bytes>, x: bytes)
    requires x !in order
    ensures Without(order, x) == order
  {
    if order != [] {
      WithoutAbsent(order[1..], x);
      assert order == [order[0]] + order[1..];
    }
  }

  lemma {:induction false} OrderSize(keys: set<bytes>, order: seq<bytes>)
    requires SameTerms(keys, order) && Once(order)
    ensures |keys| == |order|
  {
    if order == [] {
      assert keys == {};
    } else {
      var n := |order| - 1;
      assert order[n] in keys;
      OrderSize(keys - {order[n]}, order[..n]);
    }
  }

  // --- building -----------------------------------------------------------------------------

  function TokensOf(tokens: Json -> seq<bytes>, entries: seq<(bytes, Json)>): map<bytes, seq<bytes>> {
    if entries == [] then map[]
    else TokensOf(tokens, entries[..|entries| - 1])[entries[|entries| - 1].0 := tokens(entries[|entries| - 1].1)]
  }

  /** Short enough for 32-bit ids and frequencies. */
  predicate Fits32(tokens: Json -> seq<bytes>, entries: seq<(bytes, Json)>) {
    |entries| < 0x1_0000_0000 && forall e :: e in entries ==> |tokens(e.1)| < 0x1_0000_0000
  }

  ghost predicate Small(lists: Lists) {
    forall term, x :: x in At(lists, term) ==> x < 0x1_0000_0000 && At(lists, term)[x] < 0x1_0000_0000
  }

  lemma NotYet(tokens: Json -> seq<bytes>, entries: seq<(bytes, Json)>, k: bytes)
    requires forall e :: e in entries ==> e.0 != k
    ensures k !in TokensOf(tokens, entries)
  {
    if entries != [] {
      NotYet(tokens, entries[..|entries| - 1], k);
    }
  }

  /** The lists of all documents, with ids in the order of the entries. */
  method Aggregate(tokens: Json -> seq<bytes>, entries: seq<(bytes, Json)>) returns (lists: Lists, ids: Ids)
    requires Fits32(tokens, entries) && forall i, j :: 0 <= i < j < |entries| ==> entries[i].0 != entries[j].0
    ensures TablesOk(lists, map[], ids, TokensOf(tokens, entries)) && Small(lists) && |ids.keys| == |entries|
  {
    hide TablesOk, Count, Raw;
    lists, ids := map[], Ids([], map[], map[], {}, 0);
    EmptyTables();
    assert entries[..0] == [];
    for i := 0 to |entries|
      invariant |ids.keys| == i && Small(lists) && TablesOk(lists, map[], ids, TokensOf(tokens, entries[..i]))
    {
      var e := entries[i];
      ghost var docs := TokensOf(tokens, entries[..i]);
      assert entries[..i + 1][..i] == entries[..i] && e in entries;
      NotYet(tokens, entries[..i], e.0);
      forall term
        ensures i !in At(lists, term)
      {
        FreshId(lists, map[], ids, docs, term);
        RawOfBase(lists, term, i);
      }
      var words := tokens(e.1);
      var after := Enter(lists, i, words);
      forall term, id: nat
        ensures Raw(after, map[], term, id) == if id == i then CountOf(words, term) else Raw(lists, map[], term, id)
      {
        RawOfBase(after, term, id);
        RawOfBase(lists, term, id);
        EnteredIs(lists, i, words, term, id);
      }
      GrowTables(lists, map[], after, map[], ids, docs, e.0, words);
      CountsSmall(lists, after, i, words);
      lists, ids := after, Grown(ids, e.0, |words|);
    }
    assert entries[..|entries|] == entries;
  }

  lemma RawOfBase(lists: Lists, term: bytes, id: nat)
    ensures Raw(lists, map[], term, id) == Lookup(At(lists, term), id)
  {
  }

  lemma EnteredIs(lists: Lists, id: nat, tokens: seq<bytes>, term: bytes, x: nat)
    requires id !in At(lists, term)
    ensures Lookup(EnteredAt(lists, id, tokens, term), x) == if x == id then CountOf(tokens, term) else Lookup(At(lists, term), x)
  {
  }

  lemma CountsSmall(lists: Lists, after: Lists, id: nat, tokens: seq<bytes>)
    requires Small(lists) && id < 0x1_0000_0000 && |tokens| < 0x1_0000_0000
    requires forall term :: At(after, term) == EnteredAt(lists, id, tokens, term)
    ensures Small(after)
  {
  }

  /** One list for each term, as the postings file takes them. */
  method Stage(lists: Lists) returns (staged: seq<(bytes, seq<Posting>)>)
    requires Small(lists)
    ensures forall term :: ToMap(ListOf(staged, term)) == At(lists, term)
    ensures forall term :: ListOf(staged, term) == [] <==> At(lists, term) == map[]
    ensures forall e :: e in staged ==> |e.1| == |At(lists, e.0)|
  {
    hide ToMap;
    staged := [];
    var todo := lists.Keys;
    NoList();
    while todo != {}
      invariant todo <= lists.Keys
      invariant forall term :: StagedOk(staged, lists, todo, term)
      invariant forall e :: e in staged ==> |e.1| == |At(lists, e.0)|
      decreases |todo|
    {
      var term :| term in todo;
      assert lists[term] == At(lists, term);
      var list := ToList(lists[term]);
      forall t
        ensures StagedOk(staged + [(term, list)], lists, todo - {term}, t)
      {
        StageOne(staged, term, list, lists, todo, t);
      }
      staged := staged + [(term, list)];
      todo := todo - {term};
    }
    forall term
      ensures ToMap(ListOf(staged, term)) == At(lists, term) && (ListOf(staged, term) == [] <==> At(lists, term) == map[])
    {
      assert StagedOk(staged, lists, {}, term);
    }
  }

  lemma StageOne(staged: seq<(bytes, seq<Posting>)>, term: bytes, list: seq<Posting>, lists: Lists, todo: set<bytes>, t: bytes)
    requires StagedOk(staged, lists, todo, t) && term in todo && ToMap(list) == At(lists, term) && |list| == |At(lists, term)|
    ensures StagedOk(staged + [(term, list)], lists, todo - {term}, t)
  {
    hide ToMap;
    NoList();
    assert (staged + [(term, list)])[..|staged|] == staged;
  }

  /** A term's list is staged once it has been handled, and not before. */
  ghost predicate StagedOk(staged: seq<(bytes, seq<Posting>)>, lists: Lists, todo: set<bytes>, term: bytes) {
    var l := ListOf(staged, term);
    if term in todo then l == [] else ToMap(l) == At(lists, term) && (l == [] <==> At(lists, term) == map[])
  }

  lemma NoList()
    ensures ToMap([]) == map[]
  {
  }

  // --- the index ----------------------------------------------------------------------------

  class TextIndex {
    const tokens: Json -> seq<bytes>
    const onDisk: bool
    const cacheTerms: nat
    var memory: Option<Lists>
    var dictionary: map<bytes, PostingEntry>
    var file: Option<bytes>
    var ids: Ids
    var delta: Lists
    var cache: map<bytes, seq<Posting>>
    var order: seq<bytes>
    /** The tokens of the indexed documents, and the base that memory or disk holds. */
    ghost var docs: map<bytes, seq<bytes>>
    ghost var base: Lists

    ghost predicate Valid()
      reads this
    {
      && memory.Some? == !onDisk
      && TablesOk(base, delta, ids, docs)
      && BaseOk(memory, dictionary, file, base)
      && CacheOk(cache, order, cacheTerms, base)
    }

    constructor (tokens: Json -> seq<bytes>, onDisk: bool, cacheTerms: nat)
      ensures Valid() && docs == map[] && this.tokens == tokens && this.onDisk == onDisk && this.cacheTerms == cacheTerms
    {
      this.tokens, this.onDisk, this.cacheTerms := tokens, onDisk, cacheTerms;
      memory := if onDisk then None else Some(map[]);
      dictionary, file, ids, delta, cache, order := map[], None, Ids([], map[], map[], {}, 0), map[], map[], [];
      docs, base := map[], map[];
      new;
      EmptyTables();
    }

    method DocumentCount() returns (n: nat)
      requires Valid()
      ensures n == |docs|
    {
      n := ids.count;
    }

    /** From scratch; when the postings file cannot be rebuilt nothing changes. */
    method Build(entries: seq<(bytes, Json)>) returns (r: Result<(), PostingsError>)
      requires Valid() && Fits32(tokens, entries) && forall i, j :: 0 <= i < j < |entries| ==> entries[i].0 != entries[j].0
      modifies this
      ensures Valid() && (!onDisk ==> r.Ok?)
      ensures docs == if r.Ok? then TokensOf(tokens, entries) else old(docs)
    {
      hide TablesOk, DiskReads, CacheOk, Small, TokensOf, Fits32;
      var lists, newIds := Aggregate(tokens, entries);
      if onDisk {
        var built := BuildFile(lists, tokens, entries, newIds);
        if built.Err? {
          return Err(built.error);
        }
        file, dictionary := Some(built.value.0), built.value.1;
      } else {
        memory := Some(lists);
      }
      base, docs := lists, TokensOf(tokens, entries);
      ids, delta, cache, order := newIds, map[], map[], [];
      NoCache(cacheTerms, base);
      r := Ok(());
    }

    /** A key that is there already is removed first; ids are never used twice. */
    method Add(key: bytes, document: Json)
      requires Valid()
      modifies this
      ensures Valid() && docs == old(docs)[key := tokens(document)]
    {
      hide TablesOk, BaseOk, CacheOk, Count, Raw;
      KeysAgree(base, delta, ids, docs);
      if key in ids.keyToId {
        Remove(key);
        assert old(docs)[key := tokens(document)] == docs[key := tokens(document)];
      }
      var words := tokens(document);
      var id := |ids.keys|;
      forall term
        ensures id !in At(delta, term)
      {
        FreshId(base, delta, ids, docs, term);
        RawParts(base, delta, term, id);
      }
      var after := Enter(delta, id, words);
      forall term, x: nat
        ensures Raw(base, after, term, x) == if x == id then CountOf(words, term) else Raw(base, delta, term, x)
      {
        EnteredIs(delta, id, words, term, x);
        FreshId(base, delta, ids, docs, term);
        RawParts(base, delta, term, x);
        RawParts(base, after, term, x);
        RawParts(base, delta, term, id);
      }
      GrowTables(base, delta, base, after, ids, docs, key, words);
      delta, ids := after, Grown(ids, key, |words|);
      docs := docs[key := words];
    }

    method Remove(key: bytes)
      requires Valid()
      modifies this
      ensures Valid() && docs == old(docs) - {key} && base == old(base) && file == old(file)
    {
      hide TablesOk, BaseOk, CacheOk, Count, Raw;
      KeysAgree(base, delta, ids, docs);
      if key !in ids.keyToId {
        assert docs - {key} == docs;
        return;
      }
      KeyAt(base, delta, ids, docs, key);
      var id := ids.keyToId[key];
      var after := Strike(delta, id);
      StruckOut(base, delta, after, id);
      DropTables(base, delta, after, ids, docs, key);
      delta, ids := after, Dropped(ids, key);
      docs := docs - {key};
    }

    /** The base list of a term, through the cache when it is on disk. */
    method ReadBase(term: bytes) returns (m: map<nat, nat>)
      requires Valid()
      modifies this`cache, this`order
      ensures Valid() && m == At(base, term)
    {
      hide TablesOk, CacheOk, ToMap;
      if memory.Some? {
        return At(memory.value, term);
      }
      CachedReads(cache, order, cacheTerms, base);
      if term in cache {
        TouchKeeps(cache, order, cacheTerms, base, term);
        order := Without(order, term) + [term];
        return ToMap(cache[term]);
      }
      var list := ReadTerm(dictionary, file, term, base);
      if cacheTerms > 0 {
        cache, order := InsertCache(cache, order, cacheTerms, term, list, base);
      }
      m := ToMap(list);
    }

    /** The live ids with a term and its frequencies: the base without what was removed, and the delta. */
    method Live(term: bytes) returns (m: map<nat, nat>)
      requires Valid()
      modifies this`cache, this`order
      ensures Valid() && LivePostings(m, ids, docs, term)
    {
      hide BaseOk, CacheOk, Count, Raw, TablesOk;
      var from := ReadBase(term);
      var later := At(delta, term);
      m := map id: nat | id in from.Keys + later.Keys && id !in ids.removed :: if id in later then later[id] else from[id];
      forall id: nat
        ensures Lookup(m, id) == CountOf(DocAt(ids, docs, id), term)
      {
        LiveIs(base, delta, ids, docs, term, id);
        RawParts(base, delta, term, id);
      }
    }

    /** The best hits of a query: those that the documents alone determine, best first, cut to the limit. */
    method Search(query: seq<bytes>, op: Operator, limit: nat, ln: real -> real) returns (hits: seq<Hit>, ghost all: seq<Hit>)
      requires Valid()
      modifies this`cache, this`order
      ensures Valid()
      ensures Ranked(all, Hits(docs, DistinctTerms(query), op, ln)) && hits == if limit < |all| then all[..limit] else all
      ensures forall i, j :: 0 <= i < j < |all| ==> all[i] != all[j] && all[i].score >= all[j].score
      ensures forall h :: h in all <==>
        && query != [] && h.key in docs
        && (if op.And? then forall t :: t in query ==> t in docs[h.key] else exists t :: t in query && t in docs[h.key])
        && h.score == Score(docs, DistinctTerms(query), h.key, ln) && h.score > 0.0
    {
      HitsSaid(docs, query, op, ln);
      hide Hits;
      hide BaseOk, CacheOk, Count, TablesOk, LivePostings, Score, Matches;
      var terms := DistinctTerms(query);
      if terms == [] {
        return [], [];
      }
      var maps: seq<map<nat, nat>> := [];
      for i := 0 to |terms|
        invariant Valid() && |maps| == i
        invariant forall j :: 0 <= j < i ==> LivePostings(maps[j], ids, docs, terms[j])
      {
        var m := Live(terms[i]);
        maps := maps + [m];
      }
      TablesParts(base, delta, ids, docs);
      var ranked := RankAll(maps, terms, op, ids, ln, docs);
      return Truncate(ranked, limit), ranked;
    }
  }

  /** A term's list as the file has it; a term the dictionary lacks has none. */
  method ReadTerm(dictionary: map<bytes, PostingEntry>, file: Option<bytes>, term: bytes, ghost base: Lists) returns (list: seq<Posting>)
    requires DiskReads(dictionary, file, base)
    ensures ToMap(list) == At(base, term)
  {
    hide ToMap, ReadEntry;
    assert TermReads(dictionary, file, base, term);
    NoList();
    if term in dictionary && file.Some? {
      var read := ReadFile(file.value, dictionary[term]);
      return read.value;
    }
    list := [];
  }

  lemma KeysAgree(base: Lists, delta: Lists, ids: Ids, docs: map<bytes, seq<bytes>>)
    requires TablesOk(base, delta, ids, docs)
    ensures ids.keyToId.Keys == docs.Keys && ids.count == |docs|
  {
  }

  lemma KeyAt(base: Lists, delta: Lists, ids: Ids, docs: map<bytes, seq<bytes>>, key: bytes)
    requires TablesOk(base, delta, ids, docs) && key in ids.keyToId
    ensures KeyOk(ids, key)
  {
  }

  lemma StruckOut(base: Lists, delta: Lists, after: Lists, id: nat)
    requires forall term :: At(after, term) == At(delta, term) - {id}
    ensures forall term, x: nat :: x != id ==> Raw(base, after, term, x) == Raw(base, delta, term, x)
    ensures forall term, x: nat :: Raw(base, after, term, x).Some? ==> Raw(base, delta, term, x).Some?
  {
    hide Raw;
    forall term, x: nat
      ensures x != id ==> Raw(base, after, term, x) == Raw(base, delta, term, x)
      ensures Raw(base, after, term, x).Some? ==> Raw(base, delta, term, x).Some?
    {
      RawParts(base, delta, term, x);
      RawParts(base, after, term, x);
    }
  }

  lemma RawParts(base: Lists, delta: Lists, term: bytes, id: nat)
    ensures Raw(base, delta, term, id) ==
      if id in At(delta, term) then Some(At(delta, term)[id])
      else if id in At(base, term) then Some(At(base, term)[id])
      else None
  {
  }

  lemma LiveIs(base: Lists, delta: Lists, ids: Ids, docs: map<bytes, seq<bytes>>, term: bytes, id: nat)
    requires TablesOk(base, delta, ids, docs)
    ensures CountOf(DocAt(ids, docs, id), term) == if id in ids.removed then None else Raw(base, delta, term, id)
  {
    TablesAt(base, delta, ids, docs, term, id);
    hide Count, Raw;
    NoTokens(term);
  }

  lemma NoCache(most: nat, base: Lists)
    ensures CacheOk(map[], [], most, base)
  {
  }

  lemma CachedReads(cache: map<bytes, seq<Posting>>, order: seq<bytes>, most: nat, base: Lists)
    requires CacheOk(cache, order, most, base)
    ensures forall term :: term in cache ==> ToMap(cache[term]) == At(base, term)
  {
  }

  /** The postings file of freshly aggregated lists. */
  method BuildFile(lists: Lists, ghost tokens: Json -> seq<bytes>, ghost entries: seq<(bytes, Json)>, ghost ids: Ids)
    returns (r: Result<(bytes, map<bytes, PostingEntry>), PostingsError>)
    requires Small(lists) && Fits32(tokens, entries) && TablesOk(lists, map[], ids, TokensOf(tokens, entries)) && |ids.keys| == |entries|
    ensures r.Ok? ==> DiskReads(r.value.1, Some(r.value.0), lists)
  {
    hide ToMap, TablesOk, TokensOf, DictionaryReads;
    var staged := Stage(lists);
    forall e | e in staged
      ensures |e.1| < 0x1_0000_0000
    {
      ListsShort(lists, ids, tokens, entries, e.0);
    }
    r := Rebuild(staged);
    if r.Ok? {
      forall term
        ensures TermReads(r.value.1, Some(r.value.0), lists, term)
      {
        DictionaryAt(r.value.0, r.value.1, staged, term);
      }
    }
  }

  lemma DictionaryAt(file: bytes, dictionary: map<bytes, PostingEntry>, entries: seq<(bytes, seq<Posting>)>, term: bytes)
    requires DictionaryReads(file, dictionary, entries)
    ensures term in dictionary <==> ListOf(entries, term) != []
    ensures term in dictionary ==> ReadEntry(file, dictionary[term]) == Ok(ListOf(entries, term))
  {
  }

  /** No list is longer than there are documents. */
  lemma ListsShort(lists: Lists, ids: Ids, tokens: Json -> seq<bytes>, entries: seq<(bytes, Json)>, term: bytes)
    requires TablesOk(lists, map[], ids, TokensOf(tokens, entries)) && |ids.keys| == |entries| && Fits32(tokens, entries)
    ensures |At(lists, term)| < 0x1_0000_0000
  {
    hide TablesOk, Raw;
    forall id | id in At(lists, term)
      ensures id < |ids.keys|
    {
      TablesAt(lists, map[], ids, TokensOf(tokens, entries), term, id);
      RawOfBase(lists, term, id);
    }
    BelowSize(At(lists, term).Keys, |ids.keys|);
  }

  lemma {:induction false} BelowSize(s: set<nat>, n: nat)
    requires forall x :: x in s ==> x < n
    ensures |s| <= n
  {
    if n == 0 {
      assert s == {};
    } else {
      BelowSize(s - {n - 1}, n - 1);
      assert s <= s - {n - 1} + {n - 1};
    }
  }
}
