/** Searching a text index: what a search means over the documents, and how it is computed from live postings. */
module TextSearch {
  import opened Wrappers
  import opened Bytes
  import opened TextTables

  datatype Operator = And | Or

  datatype Hit = Hit(key: bytes, score: real)

  /** The terms of a query, each once, in order of appearance. */
  function DistinctTerms(tokens: seq<bytes>): (r: seq<bytes>)
    ensures forall t :: t in r <==> t in tokens
    ensures forall i, j :: 0 <= i < j < |r| ==> r[i] != r[j]
  {
    if tokens == [] then []
    else
      var rest := DistinctTerms(tokens[..|tokens| - 1]);
      if tokens[|tokens| - 1] in rest then rest else rest + [tokens[|tokens| - 1]]
  }

  // --- what a search means ----------------------------------------------------------------------

  function AtLeastOne(n: nat): nat {
    if n == 0 then 1 else n
  }

  /** The weight of a term in a document of a length, by how common it is; the logarithm is given. */
  function Weighed(frequency: nat, length: nat, documents: nat, having: nat, ln: real -> real): real {
    if frequency == 0 then 0.0
    else (frequency as real / AtLeastOne(length) as real) * ln(1.0 + documents as real / AtLeastOne(having) as real)
  }

  ghost function TermScore(docs: map<bytes, seq<bytes>>, term: bytes, k: bytes, ln: real -> real): real
    requires k in docs
  {
    Weighed(Count(docs[k], term), |docs[k]|, |docs|, |KeysWith(docs, term)|, ln)
  }

  ghost function Score(docs: map<bytes, seq<bytes>>, terms: seq<bytes>, k: bytes, ln: real -> real): real
    requires k in docs
  {
    if terms == [] then 0.0
    else Score(docs, terms[..|terms| - 1], k, ln) + TermScore(docs, terms[|terms| - 1], k, ln)
  }

  /** A document matches if it has any of the terms, or all of them. */
  ghost predicate Matches(tokens: seq<bytes>, terms: seq<bytes>, op: Operator) {
    if op.Or? then exists i :: 0 <= i < |terms| && terms[i] in tokens
    else forall i :: 0 <= i < |terms| ==> terms[i] in tokens
  }

  /** The hits of a search: a function of the documents alone. */
  ghost function Hits(docs: map<bytes, seq<bytes>>, terms: seq<bytes>, op: Operator, ln: real -> real): set<Hit> {
    if terms == [] then {}
    else set k | k in docs && Matches(docs[k], terms, op) && Score(docs, terms, k, ln) > 0.0 :: Hit(k, Score(docs, terms, k, ln))
  }

  // --- the same, said of the documents -------------------------------------------------------------

  /** A document has all words of a query, or one of them. */
  predicate HasWords(tokens: seq<bytes>, query: seq<bytes>, all: bool) {
    if all then forall t :: t in query ==> t in tokens else exists t :: t in query && t in tokens
  }

  /** An AND search finds the documents with every word of the query, an OR search those with one, if they score at all. */
  lemma HitsSaid(docs: map<bytes, seq<bytes>>, query: seq<bytes>, op: Operator, ln: real -> real)
    ensures forall h :: h in Hits(docs, DistinctTerms(query), op, ln) <==>
      && query != [] && h.key in docs && HasWords(docs[h.key], query, op.And?)
      && h.score == Score(docs, DistinctTerms(query), h.key, ln) && h.score > 0.0
  {
    hide Score;
    var terms := DistinctTerms(query);
    assert query != [] ==> query[0] in terms;
    forall k | k in docs
      ensures Matches(docs[k], terms, op) <==> HasWords(docs[k], query, op.And?)
    {
      if op.And? && Matches(docs[k], terms, op) {
        forall t | t in query
          ensures t in docs[k]
        {
          var i :| 0 <= i < |terms| && terms[i] == t;
        }
      }
      if op.Or? && HasWords(docs[k], query, false) {
        var t :| t in query && t in docs[k];
        var i :| 0 <= i < |terms| && terms[i] == t;
      }
    }
  }

  /** What an AND search finds, an OR search finds too, with the same score. */
  lemma AndWithinOr(docs: map<bytes, seq<bytes>>, query: seq<bytes>, ln: real -> real)
    ensures Hits(docs, DistinctTerms(query), And, ln) <= Hits(docs, DistinctTerms(query), Or, ln)
  {
    hide Hits, Score;
    HitsSaid(docs, query, And, ln);
    HitsSaid(docs, query, Or, ln);
    forall h | h in Hits(docs, DistinctTerms(query), And, ln)
      ensures h in Hits(docs, DistinctTerms(query), Or, ln)
    {
      assert query[0] in query && query[0] in docs[h.key];
    }
  }

  /** A term's share in the words of the document, times the logarithm of one plus how many documents there are for each that has it. */
  lemma TermScoreSaid(docs: map<bytes, seq<bytes>>, term: bytes, k: bytes, ln: real -> real)
    requires k in docs
    ensures term !in docs[k] ==> TermScore(docs, term, k, ln) == 0.0
    ensures term in docs[k] ==>
      var having := set x | x in docs && term in docs[x];
      && |having| > 0
      && TermScore(docs, term, k, ln) == multiset(docs[k])[term] as real / |docs[k]| as real * ln(1.0 + |docs| as real / |having| as real)
  {
    CountOccurrences(docs[k], term);
    if term in docs[k] {
      var having := set x | x in docs && term in docs[x];
      assert k in having;
      assert KeysWith(docs, term) == having;
    }
  }

  /** The score of a query is the sum over its terms. */
  lemma {:induction false} ScoreSum(docs: map<bytes, seq<bytes>>, a: seq<bytes>, b: seq<bytes>, k: bytes, ln: real -> real)
    requires k in docs
    ensures Score(docs, a + b, k, ln) == Score(docs, a, k, ln) + Score(docs, b, k, ln)
    ensures |b| == 1 ==> Score(docs, b, k, ln) == TermScore(docs, b[0], k, ln)
    decreases |b|
  {
    hide TermScore;
    if b == [] {
      assert a + b == a;
    } else {
      var n := |b| - 1;
      assert (a + b)[..|a + b| - 1] == a + b[..n];
      ScoreSum(docs, a, b[..n], k, ln);
    }
  }

  /** All hits, each once, best first. */
  ghost predicate Ranked(all: seq<Hit>, hits: set<Hit>) {
    && (forall h :: h in all <==> h in hits)
    && (forall i, j :: 0 <= i < j < |all| ==> all[i] != all[j] && all[i].score >= all[j].score)
  }

  // --- how it is computed -----------------------------------------------------------------------

  ghost predicate MapsOk(maps: seq<map<nat, nat>>, terms: seq<bytes>, ids: Ids, docs: map<bytes, seq<bytes>>) {
    |maps| == |terms| && forall i :: 0 <= i < |maps| ==> LivePostings(maps[i], ids, docs, terms[i])
  }

  lemma InMap(m: map<nat, nat>, ids: Ids, docs: map<bytes, seq<bytes>>, term: bytes, id: nat)
    requires IdsOk(ids, docs) && LivePostings(m, ids, docs, term)
    ensures id in m <==> LiveId(ids, id) && term in DocAt(ids, docs, id)
    ensures id in m ==> m[id] == Count(DocAt(ids, docs, id), term)
    ensures LiveId(ids, id) ==> ids.keys[id].value in docs && id in ids.lengths && ids.lengths[id] == |DocAt(ids, docs, id)|
  {
    assert Lookup(m, id) == CountOf(DocAt(ids, docs, id), term);
    assert SlotOk(ids, docs, id);
  }

  /** The ids of documents that match. */
  method Candidates(maps: seq<map<nat, nat>>, terms: seq<bytes>, op: Operator, ids: Ids, ghost docs: map<bytes, seq<bytes>>) returns (c: set<nat>)
    requires IdsOk(ids, docs) && MapsOk(maps, terms, ids, docs) && terms != []
    ensures forall id: nat :: id in c <==> LiveId(ids, id) && Matches(DocAt(ids, docs, id), terms, op)
  {
    hide LivePostings, IdsOk, DocAt;
    if op.Or? {
      c := {};
      for i := 0 to |maps|
        invariant forall id: nat :: id in c <==> exists j :: 0 <= j < i && id in maps[j]
      {
        c := c + maps[i].Keys;
      }
    } else {
      var least := 0;
      for i := 1 to |maps|
        invariant 0 <= least < i
      {
        if |maps[i]| < |maps[least]| {
          least := i;
        }
      }
      c := maps[least].Keys;
      for i := 0 to |maps|
        invariant forall id: nat :: id in c <==> id in maps[least] && forall j :: 0 <= j < i ==> id in maps[j]
      {
        c := set id | id in c && id in maps[i];
      }
    }
    forall id: nat
      ensures id in c <==> LiveId(ids, id) && Matches(DocAt(ids, docs, id), terms, op)
    {
      forall j | 0 <= j < |maps|
        ensures id in maps[j] <==> LiveId(ids, id) && terms[j] in DocAt(ids, docs, id)
      {
        InMap(maps[j], ids, docs, terms[j], id);
      }
      if op.And? {
        assert id in c <==> forall j :: 0 <= j < |maps| ==> id in maps[j];
        assert 0 < |maps|;
      }
    }
  }

  method ScoreOf(maps: seq<map<nat, nat>>, terms: seq<bytes>, ids: Ids, id: nat, ln: real -> real, ghost docs: map<bytes, seq<bytes>>) returns (score: real)
    requires IdsOk(ids, docs) && MapsOk(maps, terms, ids, docs) && LiveId(ids, id) && terms != []
    ensures ids.keys[id].value in docs && score == Score(docs, terms, ids.keys[id].value, ln)
  {
    hide LivePostings, IdsOk, DocAt, Weighed, Count;
    InMap(maps[0], ids, docs, terms[0], id);
    var length := if id in ids.lengths then ids.lengths[id] else 1;
    ghost var k := ids.keys[id].value;
    DocAtKey(ids, docs, id);
    score := 0.0;
    assert terms[..0] == [];
    for i := 0 to |terms|
      invariant score == Score(docs, terms[..i], k, ln)
    {
      assert terms[..i + 1][..i] == terms[..i];
      InMap(maps[i], ids, docs, terms[i], id);
      LiveSize(maps[i], ids, docs, terms[i]);
      CountIs(ids, docs);
      CountZero(docs[k], terms[i]);
      var frequency := if id in maps[i] then maps[i][id] else 0;
      score := score + Weighed(frequency, length, ids.count, |maps[i]|, ln);
    }
    assert terms[..|terms|] == terms;
  }

  lemma DocAtKey(ids: Ids, docs: map<bytes, seq<bytes>>, id: nat)
    requires LiveId(ids, id) && ids.keys[id].value in docs
    ensures DocAt(ids, docs, id) == docs[ids.keys[id].value]
  {
  }

  lemma CountIs(ids: Ids, docs: map<bytes, seq<bytes>>)
    requires IdsOk(ids, docs)
    ensures ids.count == |docs|
  {
  }

  lemma CountZero(tokens: seq<bytes>, term: bytes)
    ensures term !in tokens ==> Count(tokens, term) == 0
  {
  }

  /** Behind every hit that is as good. */
  function PlaceHit(all: seq<Hit>, h: Hit): seq<Hit> {
    if all == [] || all[0].score < h.score then [h] + all else [all[0]] + PlaceHit(all[1..], h)
  }

  lemma {:induction false} PlaceKeeps(all: seq<Hit>, h: Hit)
    ensures multiset(PlaceHit(all, h)) == multiset(all) + multiset{h}
  {
    if all != [] {
      assert all == [all[0]] + all[1..];
      PlaceKeeps(all[1..], h);
    }
  }

  ghost predicate Descending(all: seq<Hit>) {
    forall i, j :: 0 <= i < j < |all| ==> all[i].score >= all[j].score
  }

  lemma {:induction false} PlaceDescends(all: seq<Hit>, h: Hit)
    requires Descending(all)
    ensures Descending(PlaceHit(all, h))
  {
    if all != [] && all[0].score >= h.score {
      var rest := PlaceHit(all[1..], h);
      PlaceDescends(all[1..], h);
      PlaceKeeps(all[1..], h);
      forall j | 0 <= j < |rest|
        ensures all[0].score >= rest[j].score
      {
        assert rest[j] in multiset(rest);
        assert rest[j] == h || rest[j] in all[1..];
      }
    }
  }

  lemma RankedFrom(all: seq<Hit>, hits: set<Hit>)
    requires Descending(all) && forall h :: multiset(all)[h] == if h in hits then 1 else 0
    ensures Ranked(all, hits)
  {
    forall h
      ensures h in all <==> h in hits
    {
      assert h in all <==> h in multiset(all);
    }
    forall i, j | 0 <= i < j < |all|
      ensures all[i] != all[j]
    {
      assert all == all[..j] + [all[j]] + all[j + 1..];
      assert multiset(all)[all[j]] <= 1;
      assert all[j] !in all[..j] && all[i] == all[..j][i];
    }
  }

  /** Scores the candidates, keeps what scores above zero, and sorts. */
  method RankAll(maps: seq<map<nat, nat>>, terms: seq<bytes>, op: Operator, ids: Ids, ln: real -> real, ghost docs: map<bytes, seq<bytes>>) returns (all: seq<Hit>)
    requires IdsOk(ids, docs) && MapsOk(maps, terms, ids, docs) && terms != []
    ensures Ranked(all, Hits(docs, terms, op, ln))
  {
    hide IdsOk, MapsOk, Score, Matches, DocAt, FromDone, Hits, Descending, PlaceHit;
    NothingPlaced();
    NoneDone(ids, docs, terms, ln);
    var c := Candidates(maps, terms, op, ids, docs);
    all := [];
    var todo := c;
    ghost var hits: set<Hit> := {};
    assert c - todo == {};
    while todo != {}
      invariant todo <= c && Descending(all)
      invariant forall h :: multiset(all)[h] == if h in hits then 1 else 0
      invariant forall h :: h in hits <==> FromDone(h, c - todo, ids, docs, terms, ln)
      decreases |todo|
    {
      var id :| id in todo;
      var score := ScoreOf(maps, terms, ids, id, ln, docs);
      assert c - (todo - {id}) == c - todo + {id};
      AllMoreDone(c - todo, ids, docs, terms, ln, id);
      if score > 0.0 && id < |ids.keys| && ids.keys[id].Some? {
        var h := Hit(ids.keys[id].value, score);
        NotDone(h, c - todo, ids, docs, terms, ln, id);
        PlaceKeeps(all, h);
        PlaceDescends(all, h);
        all := PlaceHit(all, h);
        hits := hits + {h};
      }
      todo := todo - {id};
    }
    assert c - todo == c;
    AllDone(hits, c, ids, docs, terms, op, ln);
    RankedFrom(all, hits);
  }

  lemma NothingPlaced()
    ensures Descending([])
  {
  }

  lemma AllDone(hits: set<Hit>, c: set<nat>, ids: Ids, docs: map<bytes, seq<bytes>>, terms: seq<bytes>, op: Operator, ln: real -> real)
    requires IdsOk(ids, docs) && terms != []
    requires forall id: nat :: id in c <==> LiveId(ids, id) && Matches(DocAt(ids, docs, id), terms, op)
    requires forall h :: h in hits <==> FromDone(h, c, ids, docs, terms, ln)
    ensures hits == Hits(docs, terms, op, ln)
  {
    hide IdsOk, FromDone, Hits, Matches, DocAt;
    forall h
      ensures h in hits <==> h in Hits(docs, terms, op, ln)
    {
      DoneIsHit(h, c, ids, docs, terms, op, ln);
    }
  }

  /** A hit comes from one of these ids. */
  ghost predicate FromDone(h: Hit, done: set<nat>, ids: Ids, docs: map<bytes, seq<bytes>>, terms: seq<bytes>, ln: real -> real) {
    && h.key in ids.keyToId && ids.keyToId[h.key] in done
    && h.key in docs && h.score == Score(docs, terms, h.key, ln) && h.score > 0.0
  }

  lemma NoneDone(ids: Ids, docs: map<bytes, seq<bytes>>, terms: seq<bytes>, ln: real -> real)
    ensures forall h :: !FromDone(h, {}, ids, docs, terms, ln)
  {
  }

  lemma NotDone(h: Hit, done: set<nat>, ids: Ids, docs: map<bytes, seq<bytes>>, terms: seq<bytes>, ln: real -> real, id: nat)
    requires IdsOk(ids, docs) && LiveId(ids, id) && h.key == ids.keys[id].value && id !in done
    ensures h.key in ids.keyToId && ids.keyToId[h.key] == id && !FromDone(h, done, ids, docs, terms, ln)
  {
    assert SlotOk(ids, docs, id);
  }

  lemma AllMoreDone(done: set<nat>, ids: Ids, docs: map<bytes, seq<bytes>>, terms: seq<bytes>, ln: real -> real, id: nat)
    requires IdsOk(ids, docs) && LiveId(ids, id) && ids.keys[id].value in docs
    ensures var score := Score(docs, terms, ids.keys[id].value, ln);
      forall h :: FromDone(h, done + {id}, ids, docs, terms, ln)
             <==> FromDone(h, done, ids, docs, terms, ln) || (score > 0.0 && h == Hit(ids.keys[id].value, score))
  {
    hide IdsOk, Score, FromDone;
    forall h
      ensures FromDone(h, done + {id}, ids, docs, terms, ln)
         <==> FromDone(h, done, ids, docs, terms, ln) || (Score(docs, terms, ids.keys[id].value, ln) > 0.0 && h == Hit(ids.keys[id].value, Score(docs, terms, ids.keys[id].value, ln)))
    {
      OneMoreDone(h, done, ids, docs, terms, ln, id);
    }
  }

  lemma OneMoreDone(h: Hit, done: set<nat>, ids: Ids, docs: map<bytes, seq<bytes>>, terms: seq<bytes>, ln: real -> real, id: nat)
    requires IdsOk(ids, docs) && LiveId(ids, id) && ids.keys[id].value in docs
    ensures var score := Score(docs, terms, ids.keys[id].value, ln);
      FromDone(h, done + {id}, ids, docs, terms, ln)
      <==> FromDone(h, done, ids, docs, terms, ln) || (score > 0.0 && h == Hit(ids.keys[id].value, score))
  {
    hide Score;
    assert SlotOk(ids, docs, id);
    assert KeyOk(ids, h.key);
  }

  lemma DoneIsHit(h: Hit, c: set<nat>, ids: Ids, docs: map<bytes, seq<bytes>>, terms: seq<bytes>, op: Operator, ln: real -> real)
    requires IdsOk(ids, docs) && terms != []
    requires forall id: nat :: id in c <==> LiveId(ids, id) && Matches(DocAt(ids, docs, id), terms, op)
    ensures FromDone(h, c, ids, docs, terms, ln) <==> h in Hits(docs, terms, op, ln)
  {
    hide Matches, Score;
    if h.key in docs {
      assert KeyOk(ids, h.key);
      DocAtKey(ids, docs, ids.keyToId[h.key]);
    }
  }

  function Truncate(all: seq<Hit>, limit: nat): seq<Hit> {
    if limit < |all| then all[..limit] else all
  }

  // --- rankings of the same hits ------------------------------------------------------------------

  function SetOf(s: seq<Hit>): set<Hit> {
    set h | h in s
  }

  lemma {:induction false} SetSize(s: seq<Hit>)
    ensures |SetOf(s)| <= |s|
    ensures (forall i, j :: 0 <= i < j < |s| ==> s[i] != s[j]) ==> |SetOf(s)| == |s|
  {
    if s != [] {
      var n := |s| - 1;
      SetSize(s[..n]);
      assert s == s[..n] + [s[n]];
      assert SetOf(s) == SetOf(s[..n]) + {s[n]};
    }
  }

  /** Of the first i + 1 hits of one ranking one is not among the first i of another. */
  lemma OneOutside(first: seq<Hit>, before: seq<Hit>) returns (k: nat)
    requires |first| > |before| && forall i, j :: 0 <= i < j < |first| ==> first[i] != first[j]
    ensures k < |first| && first[k] !in before
  {
    SetSize(first);
    SetSize(before);
    SubsetSize(SetOf(first), SetOf(before));
    var x :| x in first && x !in before;
    k :| 0 <= k < |first| && first[k] == x;
  }

  lemma NoBetter(a: seq<Hit>, b: seq<Hit>, hits: set<Hit>, i: nat)
    requires Ranked(a, hits) && Ranked(b, hits) && |a| == |b| && i < |a|
    ensures a[i].score <= b[i].score
  {
    var k := OneOutside(a[..i + 1], b[..i]);
    assert a[..i + 1][k] == a[k] && a[k] in a;
    assert b == b[..i] + b[i..];
    var j :| 0 <= j < |b[i..]| && b[i..][j] == a[k];
    assert b[i..][j] == b[i + j];
  }

  /**
    Two indexes of the same documents, however each came to hold them, rank the same hits, and
    a limit cuts them to the same scores.
   */
  lemma RankingsAgree(a: seq<Hit>, b: seq<Hit>, hits: set<Hit>, limit: nat)
    requires Ranked(a, hits) && Ranked(b, hits)
    ensures |a| == |b| && SetOf(a) == SetOf(b)
    ensures var s, t := Truncate(a, limit), Truncate(b, limit);
      |s| == |t| && forall i :: 0 <= i < |s| ==> s[i].score == t[i].score
  {
    SetSize(a);
    SetSize(b);
    assert SetOf(a) == hits == SetOf(b);
    forall i | 0 <= i < |a|
      ensures a[i].score == b[i].score
    {
      NoBetter(a, b, hits, i);
      NoBetter(b, a, hits, i);
    }
  }
}
