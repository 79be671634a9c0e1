/** The tables of a text index (`text_index.rs`) and what they say about the documents. */
module TextTables {
  import opened Wrappers
  import opened Bytes
  import opened Postings

  /** Frequencies by document id, by term. */
  type Lists = map<bytes, map<nat, nat>>

  function Count(tokens: seq<bytes>, term: bytes): (n: nat)
    ensures n <= |tokens|
    ensures n > 0 <==> term in tokens
  {
    if tokens == [] then 0
    else Count(tokens[..|tokens| - 1], term) + if tokens[|tokens| - 1] == term then 1 else 0
  }

  /** The number of times the term occurs. */
  lemma {:induction false} CountOccurrences(tokens: seq<bytes>, term: bytes)
    ensures Count(tokens, term) == multiset(tokens)[term]
  {
    if tokens != [] {
      var n := |tokens| - 1;
      CountOccurrences(tokens[..n], term);
      assert tokens == tokens[..n] + [tokens[n]];
    }
  }

  function At(lists: Lists, term: bytes): map<nat, nat> {
    if term in lists then lists[term] else map[]
  }

  /** Ids are handed out in order; a removed or replaced document leaves its id behind. */
  datatype Ids = Ids(keys: seq<Option<bytes>>, keyToId: map<bytes, nat>, lengths: map<nat, nat>, removed: set<nat>, count: nat)

  predicate LiveId(ids: Ids, id: nat) {
    id < |ids.keys| && ids.keys[id].Some?
  }

  /** A key and its id lead to each other. */
  predicate KeyOk(ids: Ids, k: bytes) {
    k in ids.keyToId ==> ids.keyToId[k] < |ids.keys| && ids.keys[ids.keyToId[k]] == Some(k)
  }

  /** An id is live, with its document's key and length, or removed, or not yet handed out. */
  predicate SlotOk(ids: Ids, docs: map<bytes, seq<bytes>>, i: nat) {
    if i >= |ids.keys| then i !in ids.removed && i !in ids.lengths
    else match ids.keys[i]
      case None => i in ids.removed && i !in ids.lengths
      case Some(k) =>
        && k in docs && k in ids.keyToId && ids.keyToId[k] == i
        && i !in ids.removed && i in ids.lengths && ids.lengths[i] == |docs[k]|
  }

  ghost predicate IdsOk(ids: Ids, docs: map<bytes, seq<bytes>>) {
    && ids.keyToId.Keys == docs.Keys && ids.count == |docs|
    && (forall k :: k in ids.keyToId ==> KeyOk(ids, k))
    && forall i: nat :: SlotOk(ids, docs, i)
  }

  /** The tokens of the document with a live id. */
  function DocAt(ids: Ids, docs: map<bytes, seq<bytes>>, id: nat): seq<bytes> {
    if LiveId(ids, id) && ids.keys[id].value in docs then docs[ids.keys[id].value] else []
  }

  function Raw(base: Lists, delta: Lists, term: bytes, id: nat): Option<nat> {
    if id in At(delta, term) then Some(At(delta, term)[id])
    else if id in At(base, term) then Some(At(base, term)[id])
    else None
  }

  function CountOf(tokens: seq<bytes>, term: bytes): Option<nat> {
    if Count(tokens, term) > 0 then Some(Count(tokens, term)) else None
  }

  /** A live id has its document's frequency; no list has an id that was never handed out. */
  predicate PostingOk(raw: Option<nat>, ids: Ids, docs: map<bytes, seq<bytes>>, term: bytes, id: nat) {
    if LiveId(ids, id) then raw == CountOf(DocAt(ids, docs, id), term) else raw.Some? ==> id < |ids.keys|
  }

  ghost predicate ListsOk(base: Lists, delta: Lists, ids: Ids, docs: map<bytes, seq<bytes>>) {
    forall term, id: nat {:trigger Raw(base, delta, term, id)} :: PostingOk(Raw(base, delta, term, id), ids, docs, term, id)
  }

  ghost predicate TablesOk(base: Lists, delta: Lists, ids: Ids, docs: map<bytes, seq<bytes>>) {
    IdsOk(ids, docs) && ListsOk(base, delta, ids, docs)
  }

  lemma EmptyTables()
    ensures TablesOk(map[], map[], Ids([], map[], map[], {}, 0), map[])
  {
    forall term, id: nat
      ensures PostingOk(Raw(map[], map[], term, id), Ids([], map[], map[], {}, 0), map[], term, id)
    {
      assert Raw(map[], map[], term, id) == None;
    }
  }

  // --- removing -----------------------------------------------------------------------------

  function Dropped(ids: Ids, key: bytes): Ids
    requires key in ids.keyToId && ids.keyToId[key] < |ids.keys|
  {
    var id := ids.keyToId[key];
    Ids(ids.keys[id := None], ids.keyToId - {key}, ids.lengths - {id}, ids.removed + {id}, if ids.count > 0 then ids.count - 1 else 0)
  }

  lemma DropIds(ids: Ids, docs: map<bytes, seq<bytes>>, key: bytes)
    requires IdsOk(ids, docs) && key in docs
    ensures KeyOk(ids, key) && IdsOk(Dropped(ids, key), docs - {key})
  {
    assert KeyOk(ids, key);
    assert (docs - {key}).Keys == docs.Keys - {key};
    var dropped := Dropped(ids, key);
    forall k | k in dropped.keyToId
      ensures KeyOk(dropped, k)
    {
      assert KeyOk(ids, k);
    }
    forall i: nat
      ensures SlotOk(dropped, docs - {key}, i)
    {
      assert SlotOk(ids, docs, i);
    }
  }

  lemma DropTables(base: Lists, delta: Lists, after: Lists, ids: Ids, docs: map<bytes, seq<bytes>>, key: bytes)
    requires TablesOk(base, delta, ids, docs) && key in docs && KeyOk(ids, key)
    requires forall term, id: nat :: id != ids.keyToId[key] ==> Raw(base, after, term, id) == Raw(base, delta, term, id)
    requires forall term, id: nat :: Raw(base, after, term, id).Some? ==> Raw(base, delta, term, id).Some?
    ensures TablesOk(base, after, Dropped(ids, key), docs - {key})
  {
    hide *;
    TablesParts(base, delta, ids, docs);
    DropIds(ids, docs, key);
    var dropped, left := Dropped(ids, key), docs - {key};
    forall term, id: nat
      ensures PostingOk(Raw(base, after, term, id), dropped, left, term, id)
    {
      TablesAt(base, delta, ids, docs, term, id);
      DropPosting(Raw(base, delta, term, id), Raw(base, after, term, id), ids, docs, key, term, id);
    }
    TablesFrom(base, after, dropped, left);
  }

  lemma DropPosting(raw: Option<nat>, after: Option<nat>, ids: Ids, docs: map<bytes, seq<bytes>>, key: bytes, term: bytes, id: nat)
    requires key in docs && key in ids.keyToId && KeyOk(ids, key) && SlotOk(ids, docs, id) && PostingOk(raw, ids, docs, term, id)
    requires id != ids.keyToId[key] ==> after == raw
    requires after.Some? ==> raw.Some?
    ensures PostingOk(after, Dropped(ids, key), docs - {key}, term, id)
  {
    hide Count;
  }

  lemma TablesParts(base: Lists, delta: Lists, ids: Ids, docs: map<bytes, seq<bytes>>)
    requires TablesOk(base, delta, ids, docs)
    ensures IdsOk(ids, docs) && ids.keyToId.Keys == docs.Keys
  {
  }

  lemma TablesAt(base: Lists, delta: Lists, ids: Ids, docs: map<bytes, seq<bytes>>, term: bytes, id: nat)
    requires TablesOk(base, delta, ids, docs)
    ensures SlotOk(ids, docs, id) && PostingOk(Raw(base, delta, term, id), ids, docs, term, id)
  {
    hide Raw, SlotOk, PostingOk;
  }

  lemma TablesFrom(base: Lists, delta: Lists, ids: Ids, docs: map<bytes, seq<bytes>>)
    requires IdsOk(ids, docs) && forall term, id: nat :: PostingOk(Raw(base, delta, term, id), ids, docs, term, id)
    ensures TablesOk(base, delta, ids, docs)
  {
    hide Raw, PostingOk, IdsOk;
  }

  // --- adding -------------------------------------------------------------------------------

  function Grown(ids: Ids, key: bytes, length: nat): Ids {
    var id := |ids.keys|;
    Ids(ids.keys + [Some(key)], ids.keyToId[key := id], ids.lengths[id := length], ids.removed, ids.count + 1)
  }

  lemma GrowIds(ids: Ids, docs: map<bytes, seq<bytes>>, key: bytes, tokens: seq<bytes>)
    requires IdsOk(ids, docs) && key !in docs
    ensures IdsOk(Grown(ids, key, |tokens|), docs[key := tokens])
  {
    hide KeyOk, SlotOk;
    var grown, more := Grown(ids, key, |tokens|), docs[key := tokens];
    assert more.Keys == docs.Keys + {key};
    forall k | k in grown.keyToId
      ensures KeyOk(grown, k)
    {
      GrowKey(ids, key, |tokens|, k);
    }
    forall i: nat
      ensures SlotOk(grown, more, i)
    {
      GrowSlot(ids, docs, key, tokens, i);
    }
  }

  lemma GrowKey(ids: Ids, key: bytes, length: nat, k: bytes)
    requires KeyOk(ids, k)
    ensures KeyOk(Grown(ids, key, length), k)
  {
  }

  lemma GrowSlot(ids: Ids, docs: map<bytes, seq<bytes>>, key: bytes, tokens: seq<bytes>, i: nat)
    requires SlotOk(ids, docs, i) && key !in docs
    ensures SlotOk(Grown(ids, key, |tokens|), docs[key := tokens], i)
  {
  }

  lemma GrowTables(base: Lists, delta: Lists, newBase: Lists, after: Lists, ids: Ids, docs: map<bytes, seq<bytes>>, key: bytes, tokens: seq<bytes>)
    requires TablesOk(base, delta, ids, docs) && key !in docs
    requires forall term, id: nat :: Raw(newBase, after, term, id) == if id == |ids.keys| then CountOf(tokens, term) else Raw(base, delta, term, id)
    ensures TablesOk(newBase, after, Grown(ids, key, |tokens|), docs[key := tokens])
  {
    hide *;
    TablesParts(base, delta, ids, docs);
    GrowIds(ids, docs, key, tokens);
    var grown, more := Grown(ids, key, |tokens|), docs[key := tokens];
    forall term, id: nat
      ensures PostingOk(Raw(newBase, after, term, id), grown, more, term, id)
    {
      TablesAt(base, delta, ids, docs, term, id);
      GrowPosting(Raw(base, delta, term, id), Raw(newBase, after, term, id), ids, docs, key, tokens, term, id);
    }
    TablesFrom(newBase, after, grown, more);
  }

  lemma GrowPosting(raw: Option<nat>, after: Option<nat>, ids: Ids, docs: map<bytes, seq<bytes>>, key: bytes, tokens: seq<bytes>, term: bytes, id: nat)
    requires key !in docs && SlotOk(ids, docs, id) && PostingOk(raw, ids, docs, term, id)
    requires after == if id == |ids.keys| then CountOf(tokens, term) else raw
    ensures PostingOk(after, Grown(ids, key, |tokens|), docs[key := tokens], term, id)
  {
    hide Count;
  }

  /** Ids that were never handed out are in no list. */
  lemma FreshId(base: Lists, delta: Lists, ids: Ids, docs: map<bytes, seq<bytes>>, term: bytes)
    requires TablesOk(base, delta, ids, docs)
    ensures Raw(base, delta, term, |ids.keys|) == None
  {
    hide Raw;
    assert PostingOk(Raw(base, delta, term, |ids.keys|), ids, docs, term, |ids.keys|);
  }

  /** How often each term occurs. */
  method CountTokens(tokens: seq<bytes>) returns (counts: map<bytes, nat>)
    ensures forall term :: term in counts <==> Count(tokens, term) > 0
    ensures forall term :: term in counts ==> counts[term] == Count(tokens, term)
  {
    counts := map[];
    assert tokens[..0] == [];
    for i := 0 to |tokens|
      invariant forall term :: term in counts <==> Count(tokens[..i], term) > 0
      invariant forall term :: term in counts ==> counts[term] == Count(tokens[..i], term)
    {
      assert tokens[..i + 1][..i] == tokens[..i];
      var term := tokens[i];
      counts := counts[term := (if term in counts then counts[term] else 0) + 1];
    }
    assert tokens[..|tokens|] == tokens;
  }

  /** A term's list with one document entered, if it has the term. */
  function EnteredAt(lists: Lists, id: nat, tokens: seq<bytes>, term: bytes): map<nat, nat> {
    if Count(tokens, term) > 0 then At(lists, term)[id := Count(tokens, term)] else At(lists, term)
  }

  lemma EnterTerm(lists: Lists, term: bytes, list: map<nat, nat>, t: bytes)
    ensures At(lists[term := list], t) == if t == term then list else At(lists, t)
  {
  }

  /** Enters the frequencies of one document. */
  method Enter(lists: Lists, id: nat, tokens: seq<bytes>) returns (after: Lists)
    ensures forall term :: At(after, term) == EnteredAt(lists, id, tokens, term)
  {
    hide Count, At;
    var counts := CountTokens(tokens);
    after := lists;
    var todo := counts.Keys;
    while todo != {}
      invariant todo <= counts.Keys
      invariant forall t :: At(after, t) == if t in todo then At(lists, t) else EnteredAt(lists, id, tokens, t)
      decreases |todo|
    {
      var term :| term in todo;
      var list := At(after, term)[id := counts[term]];
      forall t
        ensures At(after[term := list], t) == if t == term then list else At(after, t)
      {
        EnterTerm(after, term, list, t);
      }
      after := after[term := list];
      todo := todo - {term};
    }
  }

  /** Takes an id out of every list. */
  method Strike(lists: Lists, id: nat) returns (after: Lists)
    ensures forall term :: At(after, term) == At(lists, term) - {id}
  {
    hide At;
    after := lists;
    var todo := lists.Keys;
    while todo != {}
      invariant todo <= lists.Keys
      invariant forall t :: At(after, t) == if t in todo then At(lists, t) else if t in lists then At(lists, t) - {id} else At(lists, t)
      decreases |todo|
    {
      var term :| term in todo;
      var list := At(after, term) - {id};
      forall t
        ensures At(after[term := list], t) == if t == term then list else At(after, t)
      {
        EnterTerm(after, term, list, t);
      }
      after := after[term := list];
      todo := todo - {term};
    }
    forall t
      ensures At(after, t) == At(lists, t) - {id}
    {
      AbsentTerm(lists, id, t);
    }
  }

  lemma AbsentTerm(lists: Lists, id: nat, t: bytes)
    ensures t !in lists ==> At(lists, t) - {id} == At(lists, t)
  {
  }

  // --- live postings --------------------------------------------------------------------------

  /** The live ids with a term, and its frequency in each. */
  ghost predicate LivePostings(m: map<nat, nat>, ids: Ids, docs: map<bytes, seq<bytes>>, term: bytes) {
    forall id: nat :: Lookup(m, id) == CountOf(DocAt(ids, docs, id), term)
  }

  ghost function KeysWith(docs: map<bytes, seq<bytes>>, term: bytes): set<bytes> {
    set k | k in docs && Count(docs[k], term) > 0
  }

  /** As many live ids as keys have the term. */
  lemma LiveSize(m: map<nat, nat>, ids: Ids, docs: map<bytes, seq<bytes>>, term: bytes)
    requires IdsOk(ids, docs) && LivePostings(m, ids, docs, term)
    ensures |m| == |KeysWith(docs, term)|
  {
    hide Count;
    NoTokens(term);
    forall i | i in m.Keys
      ensures i < |ids.keys| && ids.keys[i].Some? && ids.keys[i].value in KeysWith(docs, term) && ids.keys[i].value in ids.keyToId && ids.keyToId[ids.keys[i].value] == i
    {
      assert Lookup(m, i) == CountOf(DocAt(ids, docs, i), term);
      assert SlotOk(ids, docs, i);
    }
    forall k | k in KeysWith(docs, term)
      ensures ids.keyToId[k] in m.Keys && KeyOk(ids, k)
    {
      assert KeyOk(ids, k);
      assert Lookup(m, ids.keyToId[k]) == CountOf(DocAt(ids, docs, ids.keyToId[k]), term);
    }
    SameSize(m.Keys, KeysWith(docs, term), ids.keys, ids.keyToId);
  }

  lemma NoTokens(term: bytes)
    ensures Count([], term) == 0
  {
  }

  lemma {:induction false} SameSize(a: set<nat>, b: set<bytes>, keys: seq<Option<bytes>>, keyToId: map<bytes, nat>)
    requires forall i :: i in a ==> i < |keys| && keys[i].Some? && keys[i].value in b && keys[i].value in keyToId && keyToId[keys[i].value] == i
    requires forall k :: k in b ==> k in keyToId && keyToId[k] in a && keys[keyToId[k]] == Some(k)
    ensures |a| == |b|
    decreases |a|
  {
    if a == {} {
      assert forall k :: k !in b;
      assert b == {};
    } else {
      var i :| i in a;
      SameSize(a - {i}, b - {keys[i].value}, keys, keyToId);
    }
  }
}
