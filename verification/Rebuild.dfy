/** Building the indexes anew from the store (`rebuild_derived` of `minidb.rs`), and when that changes an answer. */
module Rebuilding {
  import opened Wrappers
  import opened Bytes
  import opened Json
  import opened Records
  import opened Stores
  import opened DateTimes
  import opened DerivedState
  import opened Rollback
  import opened Answers
  import CompoundIndexes
  import Indexes
  import IndexManagers
  import Postings
  import TextIndexes

  // --- the entries that are documents -----------------------------------------------------------

  datatype Read = Read(key: bytes, json: Json, stamps: Option<Stamps>)

  function DocumentsIn(rd: Readers, entries: seq<Entry>): seq<Read> {
    if entries == [] then []
    else
      var n := |entries| - 1;
      var doc := rd.document(entries[n].value);
      DocumentsIn(rd, entries[..n]) + if doc.Some? then [Read(entries[n].key, doc.value, StampsOf(rd, entries[n].meta))] else []
  }

  method CollectDocuments(rd: Readers, entries: seq<Entry>) returns (documents: seq<Read>)
    ensures documents == DocumentsIn(rd, entries)
  {
    documents := [];
    for i := 0 to |entries|
      invariant documents == DocumentsIn(rd, entries[..i])
    {
      assert entries[..i + 1][..i] == entries[..i];
      var doc := rd.document(entries[i].value);
      if doc.Some? {
        documents := documents + [Read(entries[i].key, doc.value, StampsOf(rd, entries[i].meta))];
      }
    }
    assert entries[..|entries|] == entries;
  }

  function Plain(documents: seq<Read>): (r: seq<(bytes, Json)>)
    ensures |r| == |documents| && forall i :: 0 <= i < |r| ==> r[i] == (documents[i].key, documents[i].json)
  {
    if documents == [] then []
    else Plain(documents[..|documents| - 1]) + [(documents[|documents| - 1].key, documents[|documents| - 1].json)]
  }

  function Placed(documents: seq<Read>): (r: seq<(bytes, CompoundIndexes.Document)>)
    ensures |r| == |documents| && forall i :: 0 <= i < |r| ==> r[i] == (documents[i].key, CompoundIndexes.Document(documents[i].json, documents[i].stamps))
  {
    if documents == [] then []
    else
      var d := documents[|documents| - 1];
      Placed(documents[..|documents| - 1]) + [(d.key, CompoundIndexes.Document(d.json, d.stamps))]
  }

  function Times(rd: Readers, entries: seq<Entry>): (r: seq<(bytes, Option<Stamps>)>)
    ensures |r| == |entries| && forall i :: 0 <= i < |r| ==> r[i] == (entries[i].key, StampsOf(rd, entries[i].meta))
  {
    if entries == [] then []
    else Times(rd, entries[..|entries| - 1]) + [(entries[|entries| - 1].key, StampsOf(rd, entries[|entries| - 1].meta))]
  }

  // --- what rebuilding gives every key ----------------------------------------------------------

  /** The share of a record in rebuilt indexes: the index manager passes over documents that are not objects. */
  function FreshShare(doc: Option<Json>, stamps: Option<Stamps>, tokens: Json -> seq<bytes>): KeyView {
    ShareOf(doc, stamps, tokens).(plain := if doc.Some? && doc.value.Object? then doc else None)
  }

  ghost function FreshView(rd: Readers, entries: seq<Entry>): View {
    var documents := DocumentsIn(rd, entries);
    View(IndexManagers.ObjectsOf(Plain(documents)), AllStamps(Times(rd, entries)),
         CompoundIndexes.DocumentsOf(Placed(documents)), TextIndexes.TokensOf(rd.tokens, Plain(documents)))
  }

  function EntryShare(rd: Readers, e: Entry): KeyView {
    FreshShare(rd.document(e.value), StampsOf(rd, e.meta), rd.tokens)
  }

  lemma ViewSnoc(rd: Readers, entries: seq<Entry>, k: bytes)
    requires entries != []
    ensures var n := |entries| - 1;
      var before, e := At(FreshView(rd, entries[..n]), k), entries[n];
      && (k != e.key ==> At(FreshView(rd, entries), k) == before)
      && (k == e.key && before == NOTHING ==> At(FreshView(rd, entries), k) == EntryShare(rd, e))
  {
    var n := |entries| - 1;
    var documents, earlier := DocumentsIn(rd, entries), DocumentsIn(rd, entries[..n]);
    var doc := rd.document(entries[n].value);
    assert Times(rd, entries)[..n] == Times(rd, entries[..n]);
    if doc.Some? {
      var d := documents[|documents| - 1];
      assert documents[..|documents| - 1] == earlier;
      assert Plain(documents)[..|earlier|] == Plain(earlier) && Placed(documents)[..|earlier|] == Placed(earlier);
    } else {
      assert documents == earlier;
    }
  }

  lemma {:induction false} FreshNone(rd: Readers, entries: seq<Entry>, k: bytes)
    requires forall i :: 0 <= i < |entries| ==> entries[i].key != k
    ensures At(FreshView(rd, entries), k) == NOTHING
    decreases |entries|
  {
    if entries != [] {
      hide FreshView, At;
      ViewSnoc(rd, entries, k);
      FreshNone(rd, entries[..|entries| - 1], k);
    }
  }

  lemma {:induction false} FreshAt(rd: Readers, entries: seq<Entry>, i: nat)
    requires i < |entries| && forall j, k :: 0 <= j < k < |entries| ==> entries[j].key != entries[k].key
    ensures At(FreshView(rd, entries), entries[i].key) == EntryShare(rd, entries[i])
    decreases |entries|
  {
    hide FreshView, At, EntryShare;
    var n := |entries| - 1;
    ViewSnoc(rd, entries, entries[i].key);
    if i < n {
      FreshAt(rd, entries[..n], i);
    } else {
      FreshNone(rd, entries[..n], entries[n].key);
    }
  }

  /** Rebuilt indexes: the live records have their shares and nothing else has one. */
  ghost predicate Rebuilt(rd: Readers, m: map<bytes, Record>, w: View, now: i64) {
    forall k :: At(w, k) == if Lives(m, k, now) then FreshShare(rd.document(ValueOf(rd, m[k].ref)), StampsOf(rd, m[k].meta), rd.tokens) else NOTHING
  }

  ghost predicate RebuiltBesideText(rd: Readers, m: map<bytes, Record>, w: View, now: i64) {
    forall k :: At(w, k).(words := None) ==
      if Lives(m, k, now) then FreshShare(rd.document(ValueOf(rd, m[k].ref)), StampsOf(rd, m[k].meta), rd.tokens).(words := None) else NOTHING
  }

  lemma BesideText(rd: Readers, m: map<bytes, Record>, w: View, x: View, now: i64)
    requires Rebuilt(rd, m, w, now) && x == w.(words := x.words)
    ensures RebuiltBesideText(rd, m, x, now)
  {
    hide Lives;
    forall k
      ensures At(x, k).(words := None) == At(w, k).(words := None)
    {
    }
  }

  /** What `Entries` yields, whatever its order. */
  ghost predicate Listed(rd: Readers, m: map<bytes, Record>, entries: seq<Entry>, now: i64) {
    && (forall i, j :: 0 <= i < j < |entries| ==> entries[i].key != entries[j].key)
    && (forall k :: Lives(m, k, now) <==> HasEntry(entries, k))
    && forall e :: e in entries ==> IsEntry(m, e, Reader(rd))
  }

  function Reader(rd: Readers): ValueReader {
    (l: ValueLoc) => Ok(rd.read(l))
  }

  lemma FreshIsRebuilt(rd: Readers, m: map<bytes, Record>, entries: seq<Entry>, now: i64)
    requires Listed(rd, m, entries, now)
    ensures Rebuilt(rd, m, FreshView(rd, entries), now)
  {
    hide FreshView, At, FreshShare;
    forall k
      ensures At(FreshView(rd, entries), k) ==
        if Lives(m, k, now) then FreshShare(rd.document(ValueOf(rd, m[k].ref)), StampsOf(rd, m[k].meta), rd.tokens) else NOTHING
    {
      assert Lives(m, k, now) <==> HasEntry(entries, k);
      if HasEntry(entries, k) {
        var i :| 0 <= i < |entries| && entries[i].key == k;
        FreshAt(rd, entries, i);
        assert entries[i] in entries && IsEntry(m, entries[i], Reader(rd));
      } else {
        FreshNone(rd, entries, k);
      }
    }
  }

  // --- against the indexes that runs of sets and deletes kept up ----------------------------------

  predicate IsDocument(rd: Readers, r: Record) {
    rd.document(ValueOf(rd, r.ref)).Some?
  }

  /** What rebuilding leaves out: of the plain indexes what is no object or not live, elsewhere what is not live. */
  ghost predicate LeavesOut(v: View, w: View, m: map<bytes, Record>, now: i64) {
    && Fewer(w.plain, v.plain) && (forall k :: k in w.plain <==> k in v.plain && Lives(m, k, now) && v.plain[k].Object?)
    && Fewer(w.stamps, v.stamps) && (forall k :: k in w.stamps <==> k in v.stamps && Lives(m, k, now))
    && Fewer(w.placed, v.placed) && (forall k :: k in w.placed <==> k in v.placed && Lives(m, k, now))
    && Fewer(w.words, v.words) && (forall k :: k in w.words <==> k in v.words && Lives(m, k, now))
  }

  lemma RebuiltLeavesOut(rd: Readers, m: map<bytes, Record>, waiting: set<bytes>, v: View, w: View, now: i64)
    requires Consistent(rd, m, waiting, v) && Rebuilt(rd, m, w, now)
    ensures LeavesOut(v, w, m, now)
  {
    hide Lives, Consistent, Rebuilt, Within, Fewer;
    forall k
      ensures k in w.plain <==> k in v.plain && Lives(m, k, now) && v.plain[k].Object?
      ensures k in w.stamps <==> k in v.stamps && Lives(m, k, now)
      ensures k in w.placed <==> k in v.placed && Lives(m, k, now)
      ensures k in w.words <==> k in v.words && Lives(m, k, now)
      ensures Within(v, w, k)
    {
      RebuiltAt(rd, m, waiting, v, w, now, k);
    }
    AllWithin(v, w);
  }

  lemma AllWithin(v: View, w: View)
    requires forall k :: Within(v, w, k)
    ensures Fewer(w.plain, v.plain) && Fewer(w.stamps, v.stamps) && Fewer(w.placed, v.placed) && Fewer(w.words, v.words)
  {
    forall k
      ensures k in w.plain ==> k in v.plain && v.plain[k] == w.plain[k]
      ensures k in w.stamps ==> k in v.stamps && v.stamps[k] == w.stamps[k]
      ensures k in w.placed ==> k in v.placed && v.placed[k] == w.placed[k]
      ensures k in w.words ==> k in v.words && v.words[k] == w.words[k]
    {
      assert Within(v, w, k);
    }
  }

  /** What the one has for a key the other has too, and the same. */
  ghost predicate Within(v: View, w: View, k: bytes) {
    && (k in w.plain ==> k in v.plain && v.plain[k] == w.plain[k])
    && (k in w.stamps ==> k in v.stamps && v.stamps[k] == w.stamps[k])
    && (k in w.placed ==> k in v.placed && v.placed[k] == w.placed[k])
    && (k in w.words ==> k in v.words && v.words[k] == w.words[k])
  }

  lemma RebuiltAt(rd: Readers, m: map<bytes, Record>, waiting: set<bytes>, v: View, w: View, now: i64, k: bytes)
    requires Consistent(rd, m, waiting, v) && Rebuilt(rd, m, w, now)
    ensures k in w.plain <==> k in v.plain && Lives(m, k, now) && v.plain[k].Object?
    ensures k in w.stamps <==> k in v.stamps && Lives(m, k, now)
    ensures k in w.placed <==> k in v.placed && Lives(m, k, now)
    ensures k in w.words <==> k in v.words && Lives(m, k, now)
    ensures Within(v, w, k)
  {
    hide Expired;
    assert At(w, k) == if Lives(m, k, now) then FreshShare(rd.document(ValueOf(rd, m[k].ref)), StampsOf(rd, m[k].meta), rd.tokens) else NOTHING;
  }

  /** For every index: the answers before and after rebuilding are the same exactly if what is left out shows nowhere. */
  ghost predicate AnswersExact(s: Tables, t: Tables, sk: Json -> string, canon: Json -> string, v: View, m: map<bytes, Record>, now: i64) {
    && s.plain.Keys == t.plain.Keys && s.groups.Keys == t.groups.Keys
    && (forall name :: name in s.plain ==>
          (SameFound(s.plain[name], t.plain[name]) <==>
           forall k :: k in v.plain && !(Lives(m, k, now) && v.plain[k].Object?) ==> !Takes(s.plain[name], sk, v.plain[k])))
    && (s.columns == t.columns <==> forall k :: k in v.stamps ==> Lives(m, k, now))
    && (forall name :: name in s.groups ==>
          (SameGroups(s.groups[name], t.groups[name]) <==>
           forall k :: k in v.placed && !Lives(m, k, now) ==> CompoundIndexes.Placement(s.groups[name].info, canon, v.placed[k]).None?))
  }

  lemma LeftOutDecides(s: Tables, t: Tables, sk: Json -> string, canon: Json -> string, v: View, w: View, m: map<bytes, Record>, now: i64)
    requires TablesOf(s, sk, canon, v) && TablesOf(t, sk, canon, w) && SameDefinitions(s, t) && LeavesOut(v, w, m, now)
    ensures AnswersExact(s, t, sk, canon, v, m, now)
  {
    hide Indexes.Reflects, CompoundIndexes.Reflects, IndexOk, SameFound, SameGroups, Takes, CompoundIndexes.Placement, Lives, Fewer;
    forall name | name in s.plain
      ensures SameFound(s.plain[name], t.plain[name]) <==>
        forall k :: k in v.plain && !(Lives(m, k, now) && v.plain[k].Object?) ==> !Takes(s.plain[name], sk, v.plain[k])
    {
      PlainDecides(s.plain[name], t.plain[name], sk, v, w, m, now);
    }
    FewerTimesExact(s.columns, t.columns, v.stamps, w.stamps);
    forall name | name in s.groups
      ensures SameGroups(s.groups[name], t.groups[name]) <==>
        forall k :: k in v.placed && !Lives(m, k, now) ==> CompoundIndexes.Placement(s.groups[name].info, canon, v.placed[k]).None?
    {
      PlacedDecides(s.groups[name], t.groups[name], canon, v, w, m, now);
    }
  }

  lemma PlainDecides(x: Indexes.Index, y: Indexes.Index, sk: Json -> string, v: View, w: View, m: map<bytes, Record>, now: i64)
    requires Indexes.Reflects(x, sk, v.plain) && Indexes.Reflects(y, sk, w.plain) && x.info == y.info && x.Equality? == y.Equality?
    requires LeavesOut(v, w, m, now)
    ensures SameFound(x, y) <==> forall k :: k in v.plain && !(Lives(m, k, now) && v.plain[k].Object?) ==> !Takes(x, sk, v.plain[k])
  {
    hide Indexes.Reflects, SameFound, Takes, Lives, Fewer;
    FewerFoundExact(x, y, sk, v.plain, w.plain);
  }

  lemma PlacedDecides(x: CompoundIndexes.Compound, y: CompoundIndexes.Compound, canon: Json -> string, v: View, w: View, m: map<bytes, Record>, now: i64)
    requires CompoundIndexes.Reflects(x, canon, v.placed) && CompoundIndexes.Reflects(y, canon, w.placed) && x.info == y.info
    requires LeavesOut(v, w, m, now)
    ensures SameGroups(x, y) <==> forall k :: k in v.placed && !Lives(m, k, now) ==> CompoundIndexes.Placement(x.info, canon, v.placed[k]).None?
  {
    hide CompoundIndexes.Reflects, SameGroups, CompoundIndexes.Placement, Lives, Fewer;
    FewerPlacedExact(x, y, canon, v.placed, w.placed);
  }

  lemma WordsDecide(v: View, w: View, m: map<bytes, Record>, now: i64)
    requires LeavesOut(v, w, m, now)
    ensures w.words == v.words <==> forall k :: k in v.words ==> Lives(m, k, now)
  {
    hide Lives;
  }

  /** Some index takes a key from a document that rebuilding passes over. */
  ghost predicate PassesOver(rd: Readers, m: map<bytes, Record>, plain: IndexManagers.Family, sk: Json -> string) {
    exists k, name :: k in m && name in plain && IsDocument(rd, m[k]) && !rd.document(ValueOf(rd, m[k].ref)).value.Object?
                   && Takes(plain[name], sk, rd.document(ValueOf(rd, m[k].ref)).value)
  }

  /**
    While no record has run out, incremental and rebuilt indexes answer alike exactly if no
    index takes a key from a document that is not an object.
   */
  lemma RebuildExact(rd: Readers, m: map<bytes, Record>, v: View, s: Tables, t: Tables, sk: Json -> string, canon: Json -> string, now: i64)
    requires Consistent(rd, m, {}, v) && AnswersExact(s, t, sk, canon, v, m, now) && forall k :: k in m ==> Lives(m, k, now)
    ensures AnswerAlike(s, t) <==> !PassesOver(rd, m, s.plain, sk)
  {
    hide SameFound, SameGroups, Takes, CompoundIndexes.Placement, Expired;
    forall k
      ensures k in v.plain <==> k in m && IsDocument(rd, m[k])
      ensures k in v.plain ==> v.plain[k] == rd.document(ValueOf(rd, m[k].ref)).value
      ensures k in v.stamps ==> k in m
      ensures k in v.placed ==> k in m
    {
      SharesFollow(rd, m, v, k);
    }
  }

  lemma SharesFollow(rd: Readers, m: map<bytes, Record>, v: View, k: bytes)
    requires Consistent(rd, m, {}, v)
    ensures k in v.plain <==> k in m && IsDocument(rd, m[k])
    ensures k in v.plain ==> v.plain[k] == rd.document(ValueOf(rd, m[k].ref)).value
    ensures (k in v.stamps ==> k in m) && (k in v.placed ==> k in m)
  {
    assert At(v, k) == ShareOfKey(rd, m, k);
  }

  /** A sparse index on a field takes nothing from a document that is not an object. */
  lemma SparsePassesScalars(x: Indexes.Index, sk: Json -> string, doc: Json)
    requires x.info.sparse && x.info.field != [] && x.info.field[0].Key? && !doc.Object?
    ensures !Takes(x, sk, doc)
  {
  }

  /** Concrete input: an index of the documents themselves takes a number, and loses it when rebuilt. */
  lemma WholeDocumentTaken(sk: Json -> string, n: real)
    ensures var info := Indexes.IndexInfo([], false, true);
      && Takes(Indexes.Range(info, [], map[]), sk, Number(n))
      && Takes(Indexes.Equality(info, map[], map[]), sk, Number(n))
  {
    var items := [Number(n)];
    assert n in Indexes.DistinctNumbers(items) by { assert items[0] == Number(n); }
  }

  // --- the method -----------------------------------------------------------------------------

  /** Short enough for the 32-bit ids and frequencies of the text index. */
  ghost predicate Countable(rd: Readers, m: map<bytes, Record>) {
    |m| < 0x1_0000_0000 && forall k :: k in m && IsDocument(rd, m[k]) ==> |rd.tokens(rd.document(ValueOf(rd, m[k].ref)).value)| < 0x1_0000_0000
  }

  /**
    Reads the live entries, keeps those that are documents, and rebuilds every index; when the
    text index cannot be rebuilt it stays as it was.  If the indexes were consistent before,
    what they answer differs exactly where `AnswersExact` says.  If every record lives and no
    document is other than an object, the database is consistent afterwards.
   */
  method RebuildDerived(store: Store, derived: Derived, rd: Readers, now: i64) returns (r: Result<(), Postings.PostingsError>)
    requires store !in derived.parts && derived.text.tokens == rd.tokens && store.Valid() && derived.Valid()
    requires Countable(rd, store.records)
    modifies derived.parts
    ensures derived.Valid() && (!derived.text.onDisk ==> r.Ok?)
    ensures r.Ok? ==> Rebuilt(rd, store.records, derived.Shares(), now)
    ensures r.Err? ==> RebuiltBesideText(rd, store.records, derived.Shares(), now) && derived.Shares().words == old(derived.Shares()).words
    ensures old(Consistent(rd, store.records, Gone(store.expired), derived.Shares())) ==>
      AnswersExact(old(TablesIn(derived)), TablesIn(derived), derived.indexes.scalarKey, derived.compound.canon, old(derived.Shares()), store.records, now)
    ensures r.Ok? && old(Consistent(rd, store.records, Gone(store.expired), derived.Shares())) ==>
      (derived.text.docs == old(derived.text.docs) <==> forall k :: k in old(derived.text.docs) ==> Lives(store.records, k, now))
    ensures old(Consistent(rd, store.records, {}, derived.Shares())) && Gone(store.expired) == {} && (forall k :: k in store.records ==> Lives(store.records, k, now)) ==>
      (AnswerAlike(old(TablesIn(derived)), TablesIn(derived)) <==> !PassesOver(rd, store.records, old(derived.indexes.indexes), derived.indexes.scalarKey))
    ensures r.Ok? && AllObjects(rd, store.records, now) ==> Consistent(rd, store.records, {}, derived.Shares())
  {
    hide Consistent, Rebuilt, RebuiltBesideText, AnswerAlike, PassesOver, Gone, Lives, FreshView, AnswersExact, LeavesOut, TablesOf, SameDefinitions, Listed, Countable, Derived.Valid, TextIndexes.Fits32, Sound;
    ghost var m, waiting, v, s := store.records, Gone(store.expired), derived.Shares(), TablesIn(derived);
    ghost var sk, canon := derived.indexes.scalarKey, derived.compound.canon;
    TablesFrom(derived);
    var entries := ReadEntries(store, rd, now);
    var documents := CollectDocuments(rd, entries);
    ListedFits(rd, m, entries, now);
    r := derived.Rebuild(Plain(documents), Times(rd, entries), Placed(documents));
    ghost var w := FreshView(rd, entries);
    FreshIs(rd, entries);
    FreshIsRebuilt(rd, m, entries, now);
    TablesFrom(derived);
    BesideText(rd, m, w, derived.Shares(), now);
    SameTables(TablesIn(derived), sk, canon, derived.Shares(), w);
    DefinitionsStay(s, TablesIn(derived), Defined(derived));
    if Consistent(rd, m, waiting, v) {
      RebuiltLeavesOut(rd, m, waiting, v, w, now);
      LeftOutDecides(s, TablesIn(derived), sk, canon, v, w, m, now);
      WordsDecide(v, w, m, now);
      if waiting == {} && forall k :: k in m ==> Lives(m, k, now) {
        RebuildExact(rd, m, v, s, TablesIn(derived), sk, canon, now);
      }
    }
    if AllObjects(rd, m, now) {
      RebuiltConsistent(rd, m, w, now);
    }
  }

  method ReadEntries(store: Store, rd: Readers, now: i64) returns (entries: seq<Entry>)
    requires store.Valid()
    ensures Listed(rd, store.records, entries, now)
  {
    hide Sound, Lives;
    var got := store.Entries(now, Reader(rd));
    assert forall k :: k in store.records ==> Materialized(store.records[k].ref, Reader(rd)).Ok?;
    entries := got.value;
  }

  lemma FreshIs(rd: Readers, entries: seq<Entry>)
    ensures var documents := DocumentsIn(rd, entries);
      FreshView(rd, entries) == View(IndexManagers.ObjectsOf(Plain(documents)), AllStamps(Times(rd, entries)),
        CompoundIndexes.DocumentsOf(Placed(documents)), TextIndexes.TokensOf(rd.tokens, Plain(documents)))
  {
  }

  lemma SameTables(t: Tables, sk: Json -> string, canon: Json -> string, v: View, w: View)
    requires TablesOf(t, sk, canon, v) && v.plain == w.plain && v.stamps == w.stamps && v.placed == w.placed
    ensures TablesOf(t, sk, canon, w)
  {
  }

  /** Every record lives, and every document is an object. */
  ghost predicate AllObjects(rd: Readers, m: map<bytes, Record>, now: i64) {
    forall k :: k in m ==> Lives(m, k, now) && (IsDocument(rd, m[k]) ==> rd.document(ValueOf(rd, m[k].ref)).value.Object?)
  }

  lemma RebuiltConsistent(rd: Readers, m: map<bytes, Record>, w: View, now: i64)
    requires Rebuilt(rd, m, w, now) && AllObjects(rd, m, now)
    ensures Consistent(rd, m, {}, w)
  {
    hide Expired;
    forall k
      ensures At(w, k) == ShareOfKey(rd, m, k)
    {
      assert At(w, k) == if Lives(m, k, now) then FreshShare(rd.document(ValueOf(rd, m[k].ref)), StampsOf(rd, m[k].meta), rd.tokens) else NOTHING;
    }
  }

  /** A document comes from an entry, each from its own. */
  lemma {:induction false} DocumentsFrom(rd: Readers, entries: seq<Entry>)
    requires forall i, j :: 0 <= i < j < |entries| ==> entries[i].key != entries[j].key
    ensures var ds := DocumentsIn(rd, entries);
      && |ds| <= |entries|
      && (forall d :: d in ds ==> HasEntry(entries, d.key) && exists e :: e in entries && e.key == d.key && rd.document(e.value) == Some(d.json))
      && forall i, j :: 0 <= i < j < |ds| ==> ds[i].key != ds[j].key
    decreases |entries|
  {
    if entries != [] {
      var n := |entries| - 1;
      DocumentsFrom(rd, entries[..n]);
      var ds, before := DocumentsIn(rd, entries), DocumentsIn(rd, entries[..n]);
      forall d | d in ds
        ensures HasEntry(entries, d.key) && exists e :: e in entries && e.key == d.key && rd.document(e.value) == Some(d.json)
      {
        if d in before {
          var i :| 0 <= i < n && entries[..n][i].key == d.key;
          assert entries[i].key == d.key;
        } else {
          assert entries[n] in entries && entries[n].key == d.key;
        }
      }
      forall i, j | 0 <= i < j < |ds|
        ensures ds[i].key != ds[j].key
      {
        if j == |before| {
          assert ds[i] in before && ds[j].key == entries[n].key;
          var k :| 0 <= k < n && entries[..n][k].key == ds[i].key;
          assert entries[k].key == ds[i].key;
        }
      }
    }
  }

  lemma EntriesCount(entries: seq<Entry>, m: map<bytes, Record>, now: i64)
    requires forall i, j :: 0 <= i < j < |entries| ==> entries[i].key != entries[j].key
    requires forall k :: HasEntry(entries, k) ==> k in m
    ensures |entries| <= |m|
  {
    var keys := set i | 0 <= i < |entries| :: entries[i].key;
    KeysCount(entries);
    assert keys <= m.Keys by {
      forall i | 0 <= i < |entries|
        ensures entries[i].key in m
      {
        assert HasEntry(entries, entries[i].key);
      }
    }
    SubsetSize(keys, m.Keys);
  }

  lemma {:induction false} KeysCount(entries: seq<Entry>)
    requires forall i, j :: 0 <= i < j < |entries| ==> entries[i].key != entries[j].key
    ensures |set i | 0 <= i < |entries| :: entries[i].key| == |entries|
    decreases |entries|
  {
    var keys := set i | 0 <= i < |entries| :: entries[i].key;
    if entries == [] {
      assert keys == {};
    } else {
      var n := |entries| - 1;
      KeysCount(entries[..n]);
      var before := set i | 0 <= i < |entries[..n]| :: entries[..n][i].key;
      assert keys == before + {entries[n].key};
    }
  }

  lemma ListedFits(rd: Readers, m: map<bytes, Record>, entries: seq<Entry>, now: i64)
    requires Listed(rd, m, entries, now) && Countable(rd, m)
    ensures var plain := Plain(DocumentsIn(rd, entries));
      && TextIndexes.Fits32(rd.tokens, plain)
      && forall i, j :: 0 <= i < j < |plain| ==> plain[i].0 != plain[j].0
  {
    hide Lives, HasEntry;
    DocumentsFrom(rd, entries);
    ListedLive(rd, m, entries, now);
    EntriesCount(entries, m, now);
    var ds := DocumentsIn(rd, entries);
    var plain := Plain(ds);
    forall e | e in plain
      ensures |rd.tokens(e.1)| < 0x1_0000_0000
    {
      var i :| 0 <= i < |plain| && plain[i] == e;
      assert ds[i] in ds;
      var f :| f in entries && f.key == ds[i].key && rd.document(f.value) == Some(ds[i].json);
      assert IsEntry(m, f, Reader(rd));
    }
  }

  lemma ListedLive(rd: Readers, m: map<bytes, Record>, entries: seq<Entry>, now: i64)
    requires Listed(rd, m, entries, now)
    ensures forall k :: HasEntry(entries, k) ==> k in m
  {
  }
}
