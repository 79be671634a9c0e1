/** The derived state of `minidb.rs`: all indexes together, and what they hold for each key. */
module DerivedState {
  import opened Wrappers
  import opened Bytes
  import opened Json
  import opened DateTimes
  import opened CompoundIndexes
  import IndexManagers
  import Postings
  import TextIndexes

  /** What the indexes hold, each as a function of keys. */
  datatype View = View(plain: map<bytes, Json>, stamps: map<bytes, Stamps>, placed: map<bytes, Document>, words: map<bytes, seq<bytes>>)

  /** The share of one key. */
  datatype KeyView = KeyView(plain: Option<Json>, stamps: Option<Stamps>, placed: Option<Document>, words: Option<seq<bytes>>)

  const NOTHING: KeyView := KeyView(None, None, None, None)

  function At(v: View, k: bytes): KeyView {
    KeyView(Lookup(v.plain, k), Lookup(v.stamps, k), Lookup(v.placed, k), Lookup(v.words, k))
  }

  /** What a document and its datetimes leave in the indexes. */
  function ShareOf(doc: Option<Json>, datetimes: Option<Stamps>, tokens: Json -> seq<bytes>): KeyView {
    KeyView(
      doc,
      if StampsOr(datetimes) == map[] then None else datetimes,
      if doc.Some? then Some(Document(doc.value, datetimes)) else None,
      if doc.Some? then Some(tokens(doc.value)) else None)
  }

  /** One key's share is replaced, all others stay. */
  ghost predicate OnlyAt(v: View, w: View, k: bytes, share: KeyView) {
    forall x :: At(w, x) == if x == k then share else At(v, x)
  }

  class Derived {
    const indexes: IndexManagers.IndexManager
    const datetimes: DateTimeIndex
    const compound: CompoundIndexManager
    const text: TextIndexes.TextIndex
    ghost const parts: set<object>
    /** The definitions of the indexes, which no write changes. */
    ghost const plainShape: IndexManagers.Family
    ghost const compoundShape: Compounds

    /** The equality and range indexes may have forgotten or doubled something; what they are left with is known. */
    ghost predicate Sound()
      reads this, parts
    {
      && indexes in parts && datetimes in parts && compound in parts && text in parts
      && indexes.Sound() && datetimes.Valid() && compound.Valid() && text.Valid()
      && IndexManagers.SameShape(indexes.indexes, plainShape) && CompoundIndexes.SameShape(compound.indexes, compoundShape)
    }

    ghost predicate Valid()
      reads this, parts
      ensures Valid() ==> Sound()
    {
      Sound() && indexes.Valid()
    }

    ghost function Shares(): View
      reads this, parts
      requires Sound()
    {
      View(indexes.docs, datetimes.byKey, compound.docs, text.docs)
    }

    constructor (indexes: IndexManagers.IndexManager, datetimes: DateTimeIndex, compound: CompoundIndexManager, text: TextIndexes.TextIndex)
      requires indexes.Valid() && datetimes.Valid() && compound.Valid() && text.Valid()
      ensures Valid() && Shares() == View(indexes.docs, datetimes.byKey, compound.docs, text.docs)
      ensures this.indexes == indexes && this.datetimes == datetimes && this.compound == compound && this.text == text
      ensures parts == {indexes, datetimes, compound, text} && plainShape == indexes.indexes
    {
      this.indexes, this.datetimes, this.compound, this.text := indexes, datetimes, compound, text;
      parts := {indexes, datetimes, compound, text};
      plainShape, compoundShape := indexes.indexes, compound.indexes;
    }

    /**
      `apply_derived_set`: `had` says whether the key's old value was a document; only then is
      the old document taken out of the equality and range indexes first.  Without that they
      keep it if there is no new one, and are written over if there is.
     */
    method ApplySet(key: bytes, had: bool, doc: Option<Json>, stamps: Option<Stamps>)
      requires Valid()
      modifies parts
      ensures Sound()
      ensures OnlyAt(old(Shares()), Shares(), key, ShareOf(doc, stamps, text.tokens).(plain := if had || doc.Some? then doc else At(old(Shares()), key).plain))
      ensures datetimes.byKey == if stamps.Some? && stamps.value != map[] then old(datetimes.byKey)[key := stamps.value] else old(datetimes.byKey) - {key}
      ensures compound.docs == if doc.Some? then old(compound.docs)[key := Document(doc.value, stamps)] else old(compound.docs) - {key}
      ensures text.docs == if doc.Some? then old(text.docs)[key := text.tokens(doc.value)] else old(text.docs) - {key}
      ensures had || doc.None? || At(old(Shares()), key).plain.None? ==> Valid()
      ensures !had && doc.Some? && At(old(Shares()), key).plain.Some? ==>
        indexes.kept == IndexManagers.AllOverlaid(old(indexes.indexes), indexes.scalarKey, old(Shares()).plain, key, doc.value)
    {
      hide IndexManagers.IndexManager.Valid, IndexManagers.IndexManager.Sound, DateTimeIndex.Valid, CompoundIndexManager.Valid, TextIndexes.TextIndex.Valid, IndexManagers.SameShape, CompoundIndexes.SameShape, OnlyAt, ShareOf, WithStamps, Changed, IndexManagers.AllOverlaid;
      ghost var before := Shares();
      SetStamps(key, stamps);
      SetPlain(key, had, doc);
      SetPlaced(key, doc, stamps);
      SetWords(key, doc);
      ChangedSaid(before, key, doc, stamps, text.tokens);
      ShareSet(before, key, if had || doc.Some? then doc else Lookup(before.plain, key), doc, stamps, text.tokens);
    }

    /** `apply_derived_delete`. */
    method ApplyDelete(key: bytes)
      requires Sound()
      modifies parts
      ensures Sound() && OnlyAt(old(Shares()), Shares(), key, NOTHING)
      ensures indexes.kept == IndexManagers.AllPruned(old(indexes.indexes), indexes.scalarKey, old(indexes.kept), {key})
      ensures old(Valid()) ==> Valid()
    {
      hide IndexManagers.IndexManager.Valid, IndexManagers.IndexManager.Sound, DateTimeIndex.Valid, CompoundIndexManager.Valid, TextIndexes.TextIndex.Valid, IndexManagers.SameShape, CompoundIndexes.SameShape, OnlyAt, ShareOf, WithStamps, Changed, IndexManagers.AllPruned;
      ghost var before := Shares();
      DropStamps(key);
      SetPlaced(key, None, None);
      DropPlain(key);
      SetWords(key, None);
      ShareSet(before, key, None, None, None, text.tokens);
      NoShare(text.tokens);
    }

    /** The four rebuilds, one after the other; when the text index fails it stays as it was. */
    method Rebuild(plain: seq<(bytes, Json)>, stamps: seq<(bytes, Option<Stamps>)>, placed: seq<(bytes, Document)>)
      returns (r: Result<(), Postings.PostingsError>)
      requires Valid() && TextIndexes.Fits32(text.tokens, plain)
      requires forall i, j :: 0 <= i < j < |plain| ==> plain[i].0 != plain[j].0
      modifies parts
      ensures Valid() && (!text.onDisk ==> r.Ok?)
      ensures Shares() == View(IndexManagers.ObjectsOf(plain), AllStamps(stamps), DocumentsOf(placed),
                               if r.Ok? then TextIndexes.TokensOf(text.tokens, plain) else old(Shares()).words)
    {
      hide IndexManagers.IndexManager.Valid, IndexManagers.IndexManager.Sound, DateTimeIndex.Valid, CompoundIndexManager.Valid, TextIndexes.TextIndex.Valid, IndexManagers.SameShape, CompoundIndexes.SameShape, TextIndexes.TokensOf, IndexManagers.ObjectsOf, AllStamps, DocumentsOf;
      ghost var family, compounds := indexes.indexes, compound.indexes;
      indexes.Rebuild(plain);
      IndexManagers.ShapeChain(plainShape, family, indexes.indexes);
      datetimes.Rebuild(stamps);
      compound.Rebuild(placed);
      CompoundIndexes.ShapeChain(compoundShape, compounds, compound.indexes);
      r := text.Build(plain);
    }

    method SetStamps(key: bytes, stamps: Option<Stamps>)
      requires Sound()
      modifies datetimes
      ensures Sound() && Shares() == old(Shares()).(stamps := WithStamps(old(Shares()).stamps, key, stamps))
    {
      hide IndexManagers.IndexManager.Valid, IndexManagers.IndexManager.Sound, DateTimeIndex.Valid, CompoundIndexManager.Valid, TextIndexes.TextIndex.Valid, IndexManagers.SameShape, CompoundIndexes.SameShape, WithStamps;
      datetimes.Set(key, stamps);
    }

    method DropStamps(key: bytes)
      requires Sound()
      modifies datetimes
      ensures Sound() && Shares() == old(Shares()).(stamps := WithStamps(old(Shares()).stamps, key, None))
    {
      hide IndexManagers.IndexManager.Valid, IndexManagers.IndexManager.Sound, DateTimeIndex.Valid, CompoundIndexManager.Valid, TextIndexes.TextIndex.Valid, IndexManagers.SameShape, CompoundIndexes.SameShape;
      datetimes.Delete(key);
    }

    method DropPlain(key: bytes)
      requires Sound()
      modifies indexes
      ensures Sound() && Shares() == old(Shares()).(plain := Changed(old(Shares()).plain, key, None))
      ensures indexes.kept == IndexManagers.AllPruned(old(indexes.indexes), indexes.scalarKey, old(indexes.kept), {key})
      ensures old(indexes.Valid()) ==> indexes.Valid()
    {
      hide IndexManagers.IndexManager.Valid, IndexManagers.IndexManager.Sound, DateTimeIndex.Valid, CompoundIndexManager.Valid, TextIndexes.TextIndex.Valid, IndexManagers.SameShape, CompoundIndexes.SameShape, IndexManagers.AllPruned;
      ghost var before := indexes.indexes;
      indexes.Remove(key);
      IndexManagers.ShapeChain(plainShape, before, indexes.indexes);
    }

    method SetPlain(key: bytes, had: bool, doc: Option<Json>)
      requires Sound() && indexes.Valid()
      modifies indexes
      ensures Sound()
      ensures Shares() == old(Shares()).(plain := Changed(old(Shares()).plain, key, if had || doc.Some? then doc else Lookup(old(Shares()).plain, key)))
      ensures had || doc.None? || key !in old(Shares()).plain ==> indexes.Valid()
      ensures !had && doc.Some? && key in old(Shares()).plain ==>
        indexes.kept == IndexManagers.AllOverlaid(old(indexes.indexes), indexes.scalarKey, old(Shares()).plain, key, doc.value)
    {
      hide IndexManagers.IndexManager.Valid, IndexManagers.IndexManager.Sound, DateTimeIndex.Valid, CompoundIndexManager.Valid, TextIndexes.TextIndex.Valid, IndexManagers.SameShape, CompoundIndexes.SameShape, IndexManagers.AllPruned, IndexManagers.AllOverlaid;
      ghost var plain := Shares().plain;
      if had {
        DropPlain(key);
      }
      if doc.Some? {
        ghost var before := indexes.indexes;
        indexes.Add(key, doc.value);
        IndexManagers.ShapeChain(plainShape, before, indexes.indexes);
      }
      assert had && doc.Some? ==> (plain - {key})[key := doc.value] == plain[key := doc.value];
      assert !had && doc.None? ==> Changed(plain, key, Lookup(plain, key)) == plain;
    }

    method SetPlaced(key: bytes, doc: Option<Json>, stamps: Option<Stamps>)
      requires Sound()
      modifies compound
      ensures Sound() && Shares() == old(Shares()).(placed := Changed(old(Shares()).placed, key, if doc.Some? then Some(Document(doc.value, stamps)) else None))
    {
      hide IndexManagers.IndexManager.Valid, IndexManagers.IndexManager.Sound, DateTimeIndex.Valid, CompoundIndexManager.Valid, TextIndexes.TextIndex.Valid, IndexManagers.SameShape, CompoundIndexes.SameShape;
      ghost var before := compound.indexes;
      if doc.Some? {
        compound.Add(key, Document(doc.value, stamps));
      } else {
        compound.Remove(key);
      }
      CompoundIndexes.ShapeChain(compoundShape, before, compound.indexes);
    }

    method SetWords(key: bytes, doc: Option<Json>)
      requires Sound()
      modifies text
      ensures Sound() && Shares() == old(Shares()).(words := Changed(old(Shares()).words, key, if doc.Some? then Some(text.tokens(doc.value)) else None))
    {
      hide IndexManagers.IndexManager.Valid, IndexManagers.IndexManager.Sound, DateTimeIndex.Valid, CompoundIndexManager.Valid, TextIndexes.TextIndex.Valid, IndexManagers.SameShape, CompoundIndexes.SameShape;
      if doc.Some? {
        text.Add(key, doc.value);
      } else {
        text.Remove(key);
      }
    }
  }

  lemma NoShare(tokens: Json -> seq<bytes>)
    ensures ShareOf(None, None, tokens) == NOTHING
  {
  }

  lemma WholeShare(doc: Option<Json>, stamps: Option<Stamps>, tokens: Json -> seq<bytes>)
    ensures ShareOf(doc, stamps, tokens).(plain := doc) == ShareOf(doc, stamps, tokens)
  {
  }

  function Changed<T>(m: map<bytes, T>, k: bytes, v: Option<T>): map<bytes, T> {
    if v.Some? then m[k := v.value] else m - {k}
  }

  /** All shares of a key replaced by those of a document, the plain one apart. */
  function WithShare(v: View, k: bytes, plain: Option<Json>, doc: Option<Json>, stamps: Option<Stamps>, tokens: Json -> seq<bytes>): View {
    View(
      Changed(v.plain, k, plain), WithStamps(v.stamps, k, stamps),
      Changed(v.placed, k, if doc.Some? then Some(Document(doc.value, stamps)) else None),
      Changed(v.words, k, if doc.Some? then Some(tokens(doc.value)) else None))
  }

  lemma ChangedSaid(v: View, k: bytes, doc: Option<Json>, stamps: Option<Stamps>, tokens: Json -> seq<bytes>)
    ensures WithStamps(v.stamps, k, stamps) == if stamps.Some? && stamps.value != map[] then v.stamps[k := stamps.value] else v.stamps - {k}
    ensures Changed(v.placed, k, if doc.Some? then Some(Document(doc.value, stamps)) else None) == if doc.Some? then v.placed[k := Document(doc.value, stamps)] else v.placed - {k}
    ensures Changed(v.words, k, if doc.Some? then Some(tokens(doc.value)) else None) == if doc.Some? then v.words[k := tokens(doc.value)] else v.words - {k}
  {
  }

  lemma ShareSet(v: View, k: bytes, plain: Option<Json>, doc: Option<Json>, stamps: Option<Stamps>, tokens: Json -> seq<bytes>)
    ensures OnlyAt(v, WithShare(v, k, plain, doc, stamps, tokens), k, ShareOf(doc, stamps, tokens).(plain := plain))
  {
  }
}
