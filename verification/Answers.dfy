/** When two derived states answer alike: an index of some documents against one of fewer of them. */
module Answers {
  import opened Wrappers
  import opened Bytes
  import opened SortedPairs
  import opened Json
  import opened DateTimes
  import opened DerivedState
  import opened Indexes
  import IndexManagers
  import CompoundIndexes

  /** `docs` with some documents left out. */
  ghost predicate Fewer<T(!new)>(fewer: map<bytes, T>, docs: map<bytes, T>) {
    forall k :: k in fewer ==> k in docs && docs[k] == fewer[k]
  }

  // --- equality and range indexes -------------------------------------------------------------

  /** The same keys under every value, or the same list of numbers. */
  ghost predicate SameFound(x: Index, y: Index) {
    match (x, y)
    case (Equality(_, f, _), Equality(_, g, _)) => f.Keys == g.Keys && forall key :: key in f ==> multiset(f[key]) == multiset(g[key])
    case (Range(_, l, _), Range(_, m, _)) => l == m
    case _ => false
  }

  /** The index takes some key from the document: not if it is sparse and the path leads nowhere, nor from an empty array. */
  predicate Takes(x: Index, sk: Json -> string, doc: Json) {
    if x.Equality? then KeysOf(x.info, sk, doc).Some? && KeysOf(x.info, sk, doc).value != []
    else NumbersOf(x.info, doc) != []
  }

  /** Two forward maps agree exactly if they list the same pairs. */
  lemma ForwardExact(f: map<string, seq<bytes>>, g: map<string, seq<bytes>>, p: set<(string, bytes)>, q: set<(string, bytes)>)
    requires Inverse(f, p) && Inverse(g, q)
    ensures (f.Keys == g.Keys && forall key :: key in f ==> multiset(f[key]) == multiset(g[key])) <==> p == q
  {
    hide NoDup;
    if p == q {
      forall key
        ensures key in f <==> key in g
        ensures key in f && key in g ==> multiset(f[key]) == multiset(g[key])
      {
        SameForward(f, g, p, key);
      }
    }
    if f.Keys == g.Keys && forall key :: key in f ==> multiset(f[key]) == multiset(g[key]) {
      forall e
        ensures e in p <==> e in q
      {
        assert e.0 in f ==> (e.1 in f[e.0] <==> e.1 in multiset(f[e.0])) && (e.1 in g[e.0] <==> e.1 in multiset(g[e.0]));
        assert e == (e.0, e.1);
      }
    }
  }

  lemma ListExact(l: seq<(real, bytes)>, m: seq<(real, bytes)>, p: set<(real, bytes)>, q: set<(real, bytes)>)
    requires Shows(NUMBER_ORDER, l, p) && Shows(NUMBER_ORDER, m, q)
    ensures l == m <==> p == q
  {
    hide Sorted;
    NumbersTotal();
    if p == q {
      ShowsUnique(NUMBER_ORDER, l, m, p);
    }
    if l == m {
      assert forall e :: e in p <==> multiset(l)[e] == 1;
    }
  }

  /** Leaving keys out changes the pairs exactly if one of them has some. */
  lemma PairsExact<K(!new)>(all: map<bytes, seq<K>>, some: map<bytes, seq<K>>)
    requires Fewer(some, all)
    ensures Pairs(all) == Pairs(some) <==> forall k :: k in all && k !in some ==> all[k] == []
  {
    forall k | k in all && k !in some
      ensures Pairs(all) == Pairs(some) ==> all[k] == []
    {
      assert forall v :: (v, k) !in Pairs(some);
      assert all[k] != [] ==> (all[k][0], k) in Pairs(all);
    }
    if forall k :: k in all && k !in some ==> all[k] == [] {
      forall e
        ensures e in Pairs(all) <==> e in Pairs(some)
      {
      }
    }
  }

  /** Leaving documents out changes an answer exactly if the index takes a key from one of them. */
  lemma FewerFoundExact(x: Index, y: Index, sk: Json -> string, docs: map<bytes, Json>, fewer: map<bytes, Json>)
    requires Reflects(x, sk, docs) && Reflects(y, sk, fewer) && Fewer(fewer, docs)
    requires x.info == y.info && x.Equality? == y.Equality?
    ensures SameFound(x, y) <==> forall k :: k in docs && k !in fewer ==> !Takes(x, sk, docs[k])
  {
    hide KeysOf, NumbersOf, Shows, Inverse, Pairs;
    match (x, y)
    case (Equality(info, f, b), Equality(_, g, c)) =>
      ForwardExact(f, g, Pairs(b), Pairs(c));
      PairsExact(b, c);
      assert forall k :: k in b && k !in c ==> k in docs && k !in fewer;
      assert forall k :: k in docs && k !in fewer ==> (Takes(x, sk, docs[k]) <==> k in b && k !in c && b[k] != []);
    case (Range(info, l, b), Range(_, m, c)) =>
      ListExact(l, m, Pairs(b), Pairs(c));
      PairsExact(b, c);
      assert forall k :: k in b && k !in c ==> k in docs && k !in fewer && b[k] != [];
      assert forall k :: k in docs && k !in fewer ==> (Takes(x, sk, docs[k]) <==> k in b && k !in c);
  }

  // --- datetime columns -----------------------------------------------------------------------

  /** Leaving keys out changes the columns exactly if there are any to leave out: every key listed has a time. */
  lemma FewerTimesExact(a: map<string, Column>, b: map<string, Column>, byKey: map<bytes, Stamps>, fewer: map<bytes, Stamps>)
    requires IndexOk(a, byKey) && IndexOk(b, fewer) && Fewer(fewer, byKey)
    ensures a == b <==> forall k :: k in byKey ==> k in fewer
  {
    hide ColumnsOk, ColumnOk;
    if forall k :: k in byKey ==> k in fewer {
      assert byKey == fewer;
      IndexesAgree(a, b, byKey);
    }
    forall k | k in byKey
      ensures a == b ==> k in fewer
    {
      var n :| n in byKey[k];
      assert TimeAt(a, n, k) == StampAt(byKey, n, k) && TimeAt(b, n, k) == StampAt(fewer, n, k);
    }
  }

  // --- compound groups ------------------------------------------------------------------------

  /** The same members in every group. */
  ghost predicate SameGroups(x: CompoundIndexes.Compound, y: CompoundIndexes.Compound) {
    forall g :: CompoundIndexes.GroupAt(x.groups, g) == CompoundIndexes.GroupAt(y.groups, g)
  }

  /** Leaving documents out changes a group exactly if one of them is placed. */
  lemma FewerPlacedExact(x: CompoundIndexes.Compound, y: CompoundIndexes.Compound, canon: Json -> string,
                         docs: map<bytes, CompoundIndexes.Document>, fewer: map<bytes, CompoundIndexes.Document>)
    requires CompoundIndexes.Reflects(x, canon, docs) && CompoundIndexes.Reflects(y, canon, fewer)
    requires x.info == y.info && Fewer(fewer, docs)
    ensures SameGroups(x, y) <==> forall k :: k in docs && k !in fewer ==> CompoundIndexes.Placement(x.info, canon, docs[k]).None?
  {
    hide CompoundIndexes.Placement, CompoundIndexes.GroupAt, Shows, CompoundIndexes.Members;
    CompoundIndexes.GroupsTotal();
    forall k | k in docs && k !in fewer
      ensures SameGroups(x, y) ==> CompoundIndexes.Placement(x.info, canon, docs[k]).None?
    {
      if k in x.byPk {
        var (g, v) := x.byPk[k];
        MembersHas(x.byPk, k);
        MembersLack(y.byPk, k, g, v);
        assert Shows(CompoundIndexes.GROUP_ORDER, CompoundIndexes.GroupAt(x.groups, g), CompoundIndexes.Members(x.byPk, g));
        assert Shows(CompoundIndexes.GROUP_ORDER, CompoundIndexes.GroupAt(y.groups, g), CompoundIndexes.Members(y.byPk, g));
        ShowsTells(CompoundIndexes.GroupAt(x.groups, g), CompoundIndexes.Members(x.byPk, g), (v, k));
        ShowsTells(CompoundIndexes.GroupAt(y.groups, g), CompoundIndexes.Members(y.byPk, g), (v, k));
      }
    }
    if forall k :: k in docs && k !in fewer ==> CompoundIndexes.Placement(x.info, canon, docs[k]).None? {
      assert x.byPk == y.byPk;
      forall g
        ensures CompoundIndexes.GroupAt(x.groups, g) == CompoundIndexes.GroupAt(y.groups, g)
      {
        ShowsUnique(CompoundIndexes.GROUP_ORDER, CompoundIndexes.GroupAt(x.groups, g), CompoundIndexes.GroupAt(y.groups, g), CompoundIndexes.Members(x.byPk, g));
      }
    }
  }

  lemma MembersHas(byPk: map<bytes, (string, CompoundIndexes.OrderValue)>, k: bytes)
    requires k in byPk
    ensures (byPk[k].1, k) in CompoundIndexes.Members(byPk, byPk[k].0)
  {
  }

  lemma MembersLack(byPk: map<bytes, (string, CompoundIndexes.OrderValue)>, k: bytes, g: string, v: CompoundIndexes.OrderValue)
    requires k !in byPk
    ensures (v, k) !in CompoundIndexes.Members(byPk, g)
  {
  }

  lemma ShowsTells(list: seq<(CompoundIndexes.OrderValue, bytes)>, members: set<(CompoundIndexes.OrderValue, bytes)>, e: (CompoundIndexes.OrderValue, bytes))
    requires Shows(CompoundIndexes.GROUP_ORDER, list, members)
    ensures e in members <==> multiset(list)[e] > 0
  {
  }

  // --- all indexes together -------------------------------------------------------------------

  /** What all indexes answer from. */
  datatype Tables = Tables(plain: IndexManagers.Family, columns: map<string, Column>, groups: CompoundIndexes.Compounds)

  /** Tables that came from these documents and datetimes, whatever happened on the way. */
  ghost predicate TablesOf(t: Tables, sk: Json -> string, canon: Json -> string, v: View) {
    IndexManagers.AllReflect(t.plain, sk, v.plain) && IndexOk(t.columns, v.stamps) && CompoundIndexes.AllReflect(t.groups, canon, v.placed)
  }

  ghost predicate SameDefinitions(s: Tables, t: Tables) {
    IndexManagers.SameShape(s.plain, t.plain) && CompoundIndexes.SameShape(s.groups, t.groups)
  }

  /** Every value, range, column and group has the same answer. */
  ghost predicate AnswerAlike(s: Tables, t: Tables) {
    && s.plain.Keys == t.plain.Keys && (forall name :: name in s.plain ==> SameFound(s.plain[name], t.plain[name]))
    && s.columns == t.columns
    && s.groups.Keys == t.groups.Keys && forall name :: name in s.groups ==> SameGroups(s.groups[name], t.groups[name])
  }

  ghost function TablesIn(d: Derived): Tables
    reads d, d.parts
    requires d.Sound()
  {
    Tables(d.indexes.indexes, d.datetimes.columns, d.compound.indexes)
  }

  /** The definitions alone. */
  ghost function Defined(d: Derived): Tables {
    Tables(d.plainShape, map[], d.compoundShape)
  }

  lemma TablesFrom(d: Derived)
    requires d.Valid()
    ensures TablesOf(TablesIn(d), d.indexes.scalarKey, d.compound.canon, d.Shares())
    ensures SameDefinitions(TablesIn(d), Defined(d))
  {
    hide IndexOk;
  }

  lemma DefinitionsStay(s: Tables, t: Tables, defined: Tables)
    requires SameDefinitions(s, defined) && SameDefinitions(t, defined)
    ensures SameDefinitions(s, t)
  {
  }

  /** The same shares give the same answers, through the uniqueness of each kind of index. */
  lemma SharesDecide(s: Tables, t: Tables, sk: Json -> string, canon: Json -> string, v: View)
    requires TablesOf(s, sk, canon, v) && TablesOf(t, sk, canon, v) && SameDefinitions(s, t)
    ensures AnswerAlike(s, t)
  {
    hide Indexes.Reflects, CompoundIndexes.Reflects, IndexOk, CompoundIndexes.GroupAt, SameAnswers, SameFound;
    forall name | name in s.plain
      ensures SameFound(s.plain[name], t.plain[name])
    {
      IndexManagers.ManagersAgree(s.plain, t.plain, sk, v.plain, name);
      FoundIsAnswer(s.plain[name], t.plain[name]);
    }
    IndexesAgree(s.columns, t.columns, v.stamps);
    assert s.columns == t.columns;
    forall name, g | name in s.groups
      ensures CompoundIndexes.GroupAt(s.groups[name].groups, g) == CompoundIndexes.GroupAt(t.groups[name].groups, g)
    {
      CompoundIndexes.ReflectsUnique(s.groups[name], t.groups[name], canon, v.placed, g);
    }
  }

  lemma FoundIsAnswer(x: Index, y: Index)
    requires SameAnswers(x, y)
    ensures SameFound(x, y)
  {
  }

  /** Shares that agree for every key are the same. */
  lemma SameAtEveryKey(v: View, w: View)
    requires forall k :: At(v, k) == At(w, k)
    ensures v == w
  {
    LookupsDecide(v.plain, w.plain) by { assert forall k :: Lookup(v.plain, k) == At(v, k).plain == At(w, k).plain; }
    LookupsDecide(v.stamps, w.stamps) by { assert forall k :: Lookup(v.stamps, k) == At(v, k).stamps == At(w, k).stamps; }
    LookupsDecide(v.placed, w.placed) by { assert forall k :: Lookup(v.placed, k) == At(v, k).placed == At(w, k).placed; }
    LookupsDecide(v.words, w.words) by { assert forall k :: Lookup(v.words, k) == At(v, k).words == At(w, k).words; }
  }

  lemma LookupsDecide<T(!new)>(m: map<bytes, T>, n: map<bytes, T>)
    requires forall k :: Lookup(m, k) == Lookup(n, k)
    ensures m == n
  {
    forall k
      ensures k in m <==> k in n
      ensures k in m && k in n ==> m[k] == n[k]
    {
      assert Lookup(m, k) == Lookup(n, k);
    }
  }
}
