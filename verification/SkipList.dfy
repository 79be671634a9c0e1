/** The skip list of `skiplist.rs`: the arena, its in-place updates, and the sorted pairs it stands for. */
module SkipLists {
  import opened Wrappers
  import opened SkipLinks
  import opened SortedPairs
  import opened RangeSpec

  datatype Node<K, V> = Node(key: Option<K>, value: Option<V>, backward: Option<nat>, levels: seq<Level>)

  function SetLevel<K, V>(nodes: seq<Node<K, V>>, i: nat, l: nat, lv: Level): seq<Node<K, V>>
    requires i < |nodes| && l < |nodes[i].levels|
  {
    nodes[i := nodes[i].(levels := nodes[i].levels[l := lv])]
  }

  function SetBackward<K, V>(nodes: seq<Node<K, V>>, i: nat, back: Option<nat>): seq<Node<K, V>>
    requires i < |nodes|
  {
    nodes[i := nodes[i].(backward := back)]
  }

  /** `towers` are the level vectors of the arena. */
  ghost predicate TowersOf<K, V>(nodes: seq<Node<K, V>>, towers: seq<seq<Level>>) {
    |towers| == |nodes| && forall i :: 0 <= i < |nodes| ==> towers[i] == nodes[i].levels
  }

  /** The first n nodes keep key, value and backward pointer. */
  ghost predicate SamePayload<K, V>(a: seq<Node<K, V>>, b: seq<Node<K, V>>) {
    |a| <= |b| && forall i :: 0 <= i < |a| ==>
      b[i].key == a[i].key && b[i].value == a[i].value && b[i].backward == a[i].backward
  }

  /** The node at rank r carries the r-th pair. */
  ghost predicate Carries<K, V>(nodes: seq<Node<K, V>>, idx: seq<nat>, contents: seq<(K, V)>) {
    && |idx| == |contents| + 1
    && forall r {:trigger idx[r]} :: 1 <= r < |idx| ==>
         && idx[r] < |nodes|
         && nodes[idx[r]].key == Some(contents[r - 1].0) && nodes[idx[r]].value == Some(contents[r - 1].1)
  }

  /** Backward pointers and the tail mirror the list order. */
  ghost predicate Mirrored<K, V>(nodes: seq<Node<K, V>>, idx: seq<nat>, tail: Option<nat>) {
    && 1 <= |idx|
    && (forall r :: 0 <= r < |idx| ==> idx[r] < |nodes|)
    && (forall r: nat | 1 <= r < |idx| :: BackAt(nodes, idx, r))
    && tail == if |idx| == 1 then None else Some(idx[|idx| - 1])
  }

  ghost predicate BackAt<K, V>(nodes: seq<Node<K, V>>, idx: seq<nat>, r: nat)
    requires 1 <= r < |idx|
  {
    idx[r] < |nodes| && nodes[idx[r]].backward == if r == 1 then None else Some(idx[r - 1])
  }

  // --- the relinking loops ---------------------------------------------------------------

  lemma SpliceStep(a: seq<seq<Level>>, b: seq<seq<Level>>, b': seq<seq<Level>>, level: nat, q: nat, update: seq<nat>, rank: seq<nat>, m: nat)
    requires Spliced(a, b, level, q, update, rank, m) && m < level
    requires |b'| == |b| && SameHeights(b, b')
    requires forall i: nat, l: nat | i < |b| && (l != m || (i != update[m] && i != |a|)) :: Kept(b, b', i, l)
    requires Relinked(a, b', q, update[m], rank[m], m)
    ensures Spliced(a, b', level, q, update, rank, m + 1)
  {
    forall l: nat | l < m + 1
      ensures Relinked(a, b', q, update[l], rank[l], l)
    {
      if l < m {
        assert Relinked(a, b, q, update[l], rank[l], l);
        assert Kept(b, b', update[l], l) && Kept(b, b', |a|, l);
      }
    }
    forall i: nat, l: nat | i < |a| && (m + 1 <= l || i != update[l])
      ensures Kept(a, b', i, l)
    {
      assert Kept(a, b, i, l) && Kept(b, b', i, l);
    }
  }

  /** Pushes the new node and relinks every level around it. */
  method SpliceIn<K, V>(nodes: seq<Node<K, V>>, key: K, value: V, height: nat, level: nat, update: seq<nat>, rank: seq<nat>,
                        ghost towers: seq<seq<Level>>)
    returns (out: seq<Node<K, V>>, ghost after: seq<seq<Level>>)
    requires TowersOf(nodes, towers) && 1 <= height <= level <= MAX_LEVEL == |update| == |rank|
    requires forall l :: 0 <= l < level ==> update[l] < |towers| && l < |towers[update[l]]| && rank[l] <= rank[0]
    ensures TowersOf(out, after) && Spliced(towers, after, level, rank[0], update, rank, level)
    ensures |after[|towers|]| == height
    ensures SamePayload(nodes, out) && out[|nodes|].key == Some(key) && out[|nodes|].value == Some(value)
  {
    var slot := |nodes|;
    out := nodes + [Node(Some(key), Some(value), None, seq(height, _ => Level(None, 0)))];
    after := towers + [seq(height, _ => Level(None, 0))];
    for l := 0 to height
      invariant TowersOf(out, after) && |out| == slot + 1 && |after[slot]| == height
      invariant Spliced(towers, after, level, rank[0], update, rank, l)
      invariant SamePayload(nodes, out) && out[slot].key == Some(key) && out[slot].value == Some(value)
    {
      var previous := update[l];
      assert Kept(towers, after, previous, l);
      var lv := out[previous].levels[l];
      out := SetLevel(out, slot, l, NewLink(lv, rank[0] - rank[l]));
      out := SetLevel(out, previous, l, Level(Some(slot), rank[0] - rank[l] + 1));
      ghost var next := after[slot := after[slot][l := NewLink(lv, rank[0] - rank[l])]];
      next := next[previous := next[previous][l := Level(Some(slot), rank[0] - rank[l] + 1)]];
      SpliceStep(towers, after, next, level, rank[0], update, rank, l);
      after := next;
    }
    for l := height to level
      invariant TowersOf(out, after) && |out| == slot + 1 && |after[slot]| == height
      invariant Spliced(towers, after, level, rank[0], update, rank, l)
      invariant SamePayload(nodes, out) && out[slot].key == Some(key) && out[slot].value == Some(value)
    {
      var previous := update[l];
      assert Kept(towers, after, previous, l);
      var lv := out[previous].levels[l];
      out := SetLevel(out, previous, l, lv.(span := lv.span + 1));
      ghost var next := after[previous := after[previous][l := lv.(span := lv.span + 1)]];
      SpliceStep(towers, after, next, level, rank[0], update, rank, l);
      after := next;
    }
  }

  /** New top levels start at the header, with spans to the end of the list. */
  method RaiseHeader<K, V>(nodes: seq<Node<K, V>>, level: nat, height: nat, len: nat, update: seq<nat>, rank: seq<nat>,
                           ghost towers: seq<seq<Level>>)
    returns (out: seq<Node<K, V>>, update': seq<nat>, rank': seq<nat>, ghost after: seq<seq<Level>>)
    requires TowersOf(nodes, towers) && level <= height <= MAX_LEVEL == |update| == |rank|
    requires nodes != [] && |nodes[0].levels| == MAX_LEVEL
    ensures TowersOf(out, after) && |out| == |nodes| && SamePayload(nodes, out)
    ensures |update'| == |rank'| == MAX_LEVEL
    ensures forall l :: 0 <= l < height ==>
      update'[l] == (if l < level then update[l] else 0) && rank'[l] == (if l < level then rank[l] else 0)
    ensures (forall i :: 1 <= i < |towers| ==> towers[i] == after[i]) && |after[0]| == MAX_LEVEL
    ensures forall l :: 0 <= l < MAX_LEVEL ==>
      after[0][l] == if level <= l < height then Level(towers[0][l].forward, len) else towers[0][l]
  {
    out, update', rank', after := nodes, update, rank, towers;
    for k := level to height
      invariant TowersOf(out, after) && |out| == |nodes| && SamePayload(nodes, out)
      invariant |update'| == |rank'| == MAX_LEVEL
      invariant forall l :: 0 <= l < k ==>
        update'[l] == (if l < level then update[l] else 0) && rank'[l] == (if l < level then rank[l] else 0)
      invariant (forall i :: 1 <= i < |towers| ==> towers[i] == after[i]) && |after[0]| == MAX_LEVEL
      invariant forall l :: 0 <= l < MAX_LEVEL ==>
        after[0][l] == if level <= l < k then Level(towers[0][l].forward, len) else towers[0][l]
    {
      rank' := rank'[k := 0];
      update' := update'[k := 0];
      after := after[0 := after[0][k := after[0][k].(span := len)]];
      out := SetLevel(out, 0, k, out[0].levels[k].(span := len));
    }
  }

  lemma UnspliceStep(a: seq<seq<Level>>, b: seq<seq<Level>>, b': seq<seq<Level>>, level: nat, target: nat, update: seq<nat>, m: nat)
    requires Unspliced(a, b, level, target, update, m) && m < level
    requires |b'| == |b| && SameHeights(b, b')
    requires forall i: nat, l: nat | i < |b| && (l != m || i != update[m]) :: Kept(b, b', i, l)
    requires Unlinked(a, b', target, update[m], m)
    ensures Unspliced(a, b', level, target, update, m + 1)
  {
    forall l: nat | l < m + 1
      ensures Unlinked(a, b', target, update[l], l)
    {
      if l < m {
        assert Unlinked(a, b, target, update[l], l);
        assert Kept(b, b', update[l], l);
      }
    }
    forall i: nat, l: nat | i < |a| && (m + 1 <= l || i != update[l])
      ensures Kept(a, b', i, l)
    {
      assert Kept(a, b, i, l) && Kept(b, b', i, l);
    }
  }

  /** Relinks every level past the target. */
  method SpliceOut<K, V>(nodes: seq<Node<K, V>>, target: nat, level: nat, update: seq<nat>, ghost towers: seq<seq<Level>>)
    returns (out: seq<Node<K, V>>, ghost after: seq<seq<Level>>)
    requires TowersOf(nodes, towers) && target < |nodes| && level <= MAX_LEVEL == |update|
    requires forall l :: 0 <= l < level ==> update[l] < |towers| && l < |towers[update[l]]| && update[l] != target
    ensures TowersOf(out, after) && Unspliced(towers, after, level, target, update, level)
    ensures SamePayload(nodes, out)
  {
    out, after := nodes, towers;
    for l := 0 to level
      invariant TowersOf(out, after) && |out| == |nodes|
      invariant Unspliced(towers, after, level, target, update, l)
      invariant after[target] == towers[target]
      invariant SamePayload(nodes, out)
    {
      var previous := update[l];
      assert Kept(towers, after, previous, l);
      var lv := out[previous].levels[l];
      var next;
      if lv.forward == Some(target) {
        var targetSpan := if l < |out[target].levels| then out[target].levels[l].span else 0;
        var forward := if l < |out[target].levels| then out[target].levels[l].forward else None;
        next := Level(forward, SatSub(lv.span + targetSpan, 1));
      } else {
        next := lv.(span := SatSub(lv.span, 1));
      }
      out := SetLevel(out, previous, l, next);
      ghost var after' := after[previous := after[previous][l := next]];
      UnspliceStep(towers, after, after', level, target, update, l);
      after := after';
    }
  }

  // --- splitting the contents at a rank -----------------------------------------------------

  /** Along the list, `goes` holds up to some point and never again. */
  ghost predicate Closed<T>(contents: seq<T>, goes: T -> bool) {
    forall i, j :: 0 <= i < j < |contents| && goes(contents[j]) ==> goes(contents[i])
  }

  /** Ranks above r that are on level l do not go. */
  ghost predicate Stops<T>(hs: seq<nat>, contents: seq<T>, goes: T -> bool, l: nat, r: nat)
    requires |hs| == |contents| + 1
  {
    forall j {:trigger hs[j]} :: r < j < |hs| && l < hs[j] ==> !goes(contents[j - 1])
  }

  ghost predicate Splits<T>(contents: seq<T>, goes: T -> bool, q: nat) {
    && q <= |contents|
    && (forall i :: 0 <= i < q ==> goes(contents[i]))
    && (forall i :: q <= i < |contents| ==> !goes(contents[i]))
  }

  lemma StopHere<T>(hs: seq<nat>, idx: seq<nat>, contents: seq<T>, goes: T -> bool, l: nat, r: nat, lv: Level)
    requires |hs| == |contents| + 1 == |idx| && Closed(contents, goes) && r < |idx| && LinkOk(hs, idx, l, r, lv)
    requires lv.forward.Some? ==> !goes(contents[r + lv.span - 1])
    ensures Stops(hs, contents, goes, l, r)
  {
  }

  lemma StopsGap<T>(hs: seq<nat>, contents: seq<T>, goes: T -> bool, l: nat, r: nat, q: nat)
    requires |hs| == |contents| + 1 && q < |hs| && Closed(contents, goes)
    requires Stops(hs, contents, goes, l, r) && (q == 0 || goes(contents[q - 1]))
    ensures Gap(hs, l, r, q + 1)
  {
  }

  lemma PrecedesCloses<K(!new), V(!new)>(o: Order<K, V>, contents: seq<(K, V)>, e: (K, V), goes: ((K, V)) -> bool)
    requires o.Total() && Sorted(o, contents) && forall x :: goes(x) == o.Precedes(x, e)
    ensures Closed(contents, goes)
  {
    forall i, j | 0 <= i < j < |contents| && goes(contents[j])
      ensures goes(contents[i])
    {
      assert InOrder(o, contents, i, j);
      PrecedesTotal(o, contents[i], contents[j], e);
    }
  }

  // --- the pairs and the backward pointers under insertion and deletion ------------------------

  lemma InsertedSeq<T>(s: seq<T>, i: nat, x: T)
    requires i <= |s|
    ensures Inserted(s, s[..i] + [x] + s[i..], i, x)
  {
  }

  lemma RemovedSeq<T>(s: seq<T>, i: nat)
    requires i < |s|
    ensures Removed(s, s[..i] + s[i + 1..], i)
  {
  }

  lemma InsertSplit<K(!new), V(!new)>(o: Order<K, V>, c: seq<(K, V)>, e: (K, V), q: nat) returns (c': seq<(K, V)>)
    requires o.Total() && Sorted(o, c) && q <= |c|
    requires forall i :: 0 <= i < |c| ==> (o.Precedes(c[i], e) <==> i < q)
    ensures c' == SortedPairs.Insert(o, c, e) && Inserted(c, c', q, e) && Sorted(o, c')
  {
    c' := SortedPairs.Insert(o, c, e);
    InsertAtSplit(o, c, e, q);
    InsertIsSorted(o, c, e);
    InsertedSeq(c, q, e);
  }

  /** Raising the list to `height` levels leaves the header as predecessor on the new ones. */
  lemma RaisedPreds(idx: seq<nat>, hs: seq<nat>, level: nat, height: nat, q: nat, update: seq<nat>, rank: seq<nat>, update': seq<nat>, rank': seq<nat>)
    requires Preds(idx, hs, level, q, update, rank) && level <= height <= MAX_LEVEL == |update'| == |rank'|
    requires idx[0] == 0 && hs[0] == MAX_LEVEL && forall r :: 1 <= r < |hs| ==> hs[r] <= level
    requires forall l :: 0 <= l < height ==>
      update'[l] == (if l < level then update[l] else 0) && rank'[l] == (if l < level then rank[l] else 0)
    ensures Preds(idx, hs, height, q, update', rank')
  {
    forall l: nat | l < height
      ensures PredAt(idx, hs, q, update'[l], rank'[l], l)
    {
      if l < level {
        assert PredAt(idx, hs, q, update[l], rank[l], l);
      }
    }
  }

  lemma InsertedPairs<K, V>(a: seq<Node<K, V>>, b: seq<Node<K, V>>, idx: seq<nat>, idx': seq<nat>, c: seq<(K, V)>, c': seq<(K, V)>,
                            q: nat, e: (K, V))
    requires Carries(a, idx, c) && q < |idx| && |b| == |a| + 1
    requires forall i :: 0 <= i < |a| ==> b[i].key == a[i].key && b[i].value == a[i].value
    requires b[|a|].key == Some(e.0) && b[|a|].value == Some(e.1)
    requires Inserted(idx, idx', q + 1, |a|) && Inserted(c, c', q, e)
    ensures Carries(b, idx', c')
  {
    forall r | 1 <= r < |idx'|
      ensures idx'[r] < |b| && b[idx'[r]].key == Some(c'[r - 1].0) && b[idx'[r]].value == Some(c'[r - 1].1)
    {
      if r <= q {
        assert idx'[r] == idx[r] && c'[r - 1] == c[r - 1];
      } else if r > q + 1 {
        assert idx'[r] == idx[r - 1] && c'[r - 1] == c[r - 2];
      }
    }
  }

  lemma RemovedPairs<K, V>(a: seq<Node<K, V>>, b: seq<Node<K, V>>, idx: seq<nat>, idx': seq<nat>, c: seq<(K, V)>, c': seq<(K, V)>, q: nat)
    requires Carries(a, idx, c) && q + 1 < |idx| && |b| == |a|
    requires forall i :: 0 <= i < |a| ==> b[i].key == a[i].key && b[i].value == a[i].value
    requires Removed(idx, idx', q + 1) && Removed(c, c', q)
    ensures Carries(b, idx', c')
  {
    forall r | 1 <= r < |idx'|
      ensures idx'[r] < |b| && b[idx'[r]].key == Some(c'[r - 1].0) && b[idx'[r]].value == Some(c'[r - 1].1)
    {
      if r <= q {
        assert idx'[r] == idx[r] && c'[r - 1] == c[r - 1];
      } else {
        assert idx'[r] == idx[r + 1] && c'[r - 1] == c[r];
      }
    }
  }

  lemma InsertedMirror<K, V>(a: seq<Node<K, V>>, b: seq<Node<K, V>>, idx: seq<nat>, idx': seq<nat>, tail: Option<nat>, tail': Option<nat>, q: nat)
    requires Mirrored(a, idx, tail) && Distinct(idx) && q < |idx| && |b| == |a| + 1
    requires Inserted(idx, idx', q + 1, |a|)
    requires b[|a|].backward == if q == 0 then None else Some(idx[q])
    requires q + 1 < |idx| ==> b[idx[q + 1]].backward == Some(|a|) && tail' == tail
    requires q + 1 == |idx| ==> tail' == Some(|a|)
    requires forall i :: 0 <= i < |a| && (q + 1 < |idx| ==> i != idx[q + 1]) ==> b[i].backward == a[i].backward
    ensures Mirrored(b, idx', tail')
  {
    forall r: nat | 1 <= r < |idx'|
      ensures BackAt(b, idx', r)
    {
      if r <= q {
        assert BackAt(a, idx, r) && idx'[r] == idx[r] && idx'[r - 1] == idx[r - 1];
        if q + 1 < |idx| {
          assert Differ(idx, r, q + 1);
        }
      } else if r == q + 1 {
        assert idx'[r] == |a| && idx'[q] == idx[q];
      } else {
        assert BackAt(a, idx, r - 1) && idx'[r] == idx[r - 1] && idx'[r - 1] == if r == q + 2 then |a| else idx[r - 2];
        if r > q + 2 {
          assert Differ(idx, r - 1, q + 1);
        }
      }
    }
  }

  lemma RemovedMirror<K, V>(a: seq<Node<K, V>>, b: seq<Node<K, V>>, idx: seq<nat>, idx': seq<nat>, tail: Option<nat>, tail': Option<nat>, q: nat)
    requires Mirrored(a, idx, tail) && Distinct(idx) && q + 1 < |idx| && |b| == |a|
    requires Removed(idx, idx', q + 1)
    requires q + 2 < |idx| ==> b[idx[q + 2]].backward == a[idx[q + 1]].backward && tail' == tail
    requires q + 2 == |idx| ==> tail' == a[idx[q + 1]].backward
    requires forall i :: 0 <= i < |a| && (q + 2 < |idx| ==> i != idx[q + 2]) ==> b[i].backward == a[i].backward
    ensures Mirrored(b, idx', tail')
  {
    assert BackAt(a, idx, q + 1);
    forall r: nat | 1 <= r < |idx'|
      ensures BackAt(b, idx', r)
    {
      if r <= q {
        assert BackAt(a, idx, r) && idx'[r] == idx[r] && idx'[r - 1] == idx[r - 1];
        if q + 2 < |idx| {
          assert Differ(idx, r, q + 2);
        }
      } else {
        assert BackAt(a, idx, r + 1) && idx'[r] == idx[r + 1] && idx'[r - 1] == if r == q + 1 then idx[q] else idx[r];
        if r > q + 1 {
          assert Differ(idx, r + 1, q + 2);
        }
      }
    }
  }

  /** After a splice the top level is in use if it was before, or if the new node reaches it. */
  lemma Tops(a: seq<seq<Level>>, b: seq<seq<Level>>, idx: seq<nat>, hs: seq<nat>, level: nat, q: nat, update: seq<nat>, rank: seq<nat>)
    requires Linked(a, idx, hs, level) && Preds(idx, hs, level, q, update, rank) && Spliced(a, b, level, q, update, rank, level)
    requires |b[|a|]| == level || a[0][level - 1].forward.Some? || level == 1
    ensures 1 < level ==> b[0][level - 1].forward.Some?
  {
    var l := level - 1;
    assert PredAt(idx, hs, q, update[l], rank[l], l) && Relinked(a, b, q, update[l], rank[l], l);
    if update[l] != 0 {
      assert Kept(a, b, 0, l);
      assert LinkAt(a, idx, hs, 0, l);
    }
  }

  lemma PredsInRange(a: seq<seq<Level>>, idx: seq<nat>, hs: seq<nat>, level: nat, q: nat, update: seq<nat>, rank: seq<nat>)
    requires Shape(a, idx, hs) && Preds(idx, hs, level, q, update, rank)
    ensures forall l :: 0 <= l < level ==> update[l] < |a| && l < |a[update[l]]| && rank[l] <= q
  {
    forall l | 0 <= l < level
      ensures update[l] < |a| && l < |a[update[l]]| && rank[l] <= q
    {
      assert PredAt(idx, hs, q, update[l], rank[l], l);
    }
  }

  /** On level 0 every link goes to the next rank. */
  lemma BottomLink(a: seq<seq<Level>>, idx: seq<nat>, hs: seq<nat>, level: nat, r: nat)
    requires Linked(a, idx, hs, level) && r < |idx|
    ensures a[idx[r]][0].forward == if r + 1 < |idx| then Some(idx[r + 1]) else None
    ensures r + 1 < |idx| ==> a[idx[r]][0].span == 1
  {
    assert LinkAt(a, idx, hs, r, 0);
    if r + 1 < |idx| {
      assert hs[r + 1] >= 1;
    }
  }

  /** The structure after a splice, with the bottom links of the new node. */
  lemma Placed(a: seq<seq<Level>>, b: seq<seq<Level>>, idx: seq<nat>, hs: seq<nat>, level: nat, q: nat, update: seq<nat>, rank: seq<nat>)
    returns (idx': seq<nat>, hs': seq<nat>)
    requires Linked(a, idx, hs, level) && Distinct(idx) && Preds(idx, hs, level, q, update, rank) && rank[0] == q
    requires Spliced(a, b, level, q, update, rank, level)
    requires |b[|a|]| == level || a[0][level - 1].forward.Some? || level == 1
    ensures Inserted(idx, idx', q + 1, |a|)
    ensures Linked(b, idx', hs', level) && Distinct(idx')
    ensures 1 < level ==> b[0][level - 1].forward.Some?
    ensures b[|a|][0].forward == if q + 1 < |idx| then Some(idx[q + 1]) else None
    ensures update[0] == idx[q]
  {
    idx', hs' := idx[..q + 1] + [|a|] + idx[q + 1..], hs[..q + 1] + [|b[|a|]|] + hs[q + 1..];
    InsertedSeq(idx, q + 1, |a|);
    InsertedSeq(hs, q + 1, |b[|a|]|);
    InsertedLinked(a, b, idx, hs, idx', hs', level, q, update, rank);
    Tops(a, b, idx, hs, level, q, update, rank);
    assert PredAt(idx, hs, q, update[0], rank[0], 0) && Relinked(a, b, q, update[0], rank[0], 0);
    BottomLink(a, idx, hs, level, q);
  }

  /** Sets the backward pointers of the new node and of its successor, or the tail. */
  method LinkBack<K, V>(nodes: seq<Node<K, V>>, spliced: seq<Node<K, V>>, ghost idx: seq<nat>, ghost idx': seq<nat>,
                        ghost q: nat, previous: nat, tail: Option<nat>)
    returns (out: seq<Node<K, V>>, tail': Option<nat>)
    requires Mirrored(nodes, idx, tail) && Distinct(idx) && q < |idx| && idx[0] == 0
    requires |spliced| == |nodes| + 1 && SamePayload(nodes, spliced) && spliced[|nodes|].levels != []
    requires Inserted(idx, idx', q + 1, |nodes|) && previous == idx[q]
    requires spliced[|nodes|].levels[0].forward == if q + 1 < |idx| then Some(idx[q + 1]) else None
    ensures |out| == |spliced| && Mirrored(out, idx', tail')
    ensures forall i :: 0 <= i < |out| ==>
      out[i].key == spliced[i].key && out[i].value == spliced[i].value && out[i].levels == spliced[i].levels
  {
    var slot := |nodes|;
    if q != 0 {
      assert Differ(idx, 0, q);
    }
    out := SetBackward(spliced, slot, if previous != 0 then Some(previous) else None);
    tail' := tail;
    var forward := out[slot].levels[0].forward;
    if forward.Some? {
      out := SetBackward(out, forward.value, Some(slot));
    } else {
      tail' := Some(slot);
    }
    InsertedMirror(nodes, out, idx, idx', tail, tail', q);
  }

  /** Level vectors by arena slot, arena slots by rank with the header first, and heights by rank. */
  datatype Layout = Layout(towers: seq<seq<Level>>, idx: seq<nat>, hs: seq<nat>)

  /** The arena is linked as laid out and carries the pairs. */
  ghost predicate Threaded<K, V>(nodes: seq<Node<K, V>>, level: nat, lay: Layout, contents: seq<(K, V)>) {
    TowersOf(nodes, lay.towers) && Linked(lay.towers, lay.idx, lay.hs, level) && Carries(nodes, lay.idx, contents)
  }

  /** The way back mirrors the way forward, and the top level is in use. */
  ghost predicate Doubled<K, V>(nodes: seq<Node<K, V>>, tail: Option<nat>, level: nat, lay: Layout) {
    && Distinct(lay.idx) && Mirrored(nodes, lay.idx, tail)
    && (1 < level <= MAX_LEVEL && lay.towers != [] && |lay.towers[0]| == MAX_LEVEL ==> lay.towers[0][level - 1].forward.Some?)
  }

  /** Brings the list up to `height` levels. */
  method RaiseNodes<K, V>(nodes: seq<Node<K, V>>, level: nat, height: nat, len: nat, update: seq<nat>, rank: seq<nat>,
                          ghost lay: Layout, ghost tail: Option<nat>, ghost contents: seq<(K, V)>)
    returns (out: seq<Node<K, V>>, update': seq<nat>, rank': seq<nat>, ghost lay': Layout)
    requires Threaded(nodes, level, lay, contents) && Distinct(lay.idx) && Mirrored(nodes, lay.idx, tail) && len == |contents|
    requires level < height <= MAX_LEVEL == |update| == |rank| && Preds(lay.idx, lay.hs, level, rank[0], update, rank)
    ensures lay'.idx == lay.idx && lay'.hs == lay.hs && |update'| == |rank'| == MAX_LEVEL && rank'[0] == rank[0]
    ensures Preds(lay.idx, lay.hs, height, rank'[0], update', rank')
    ensures Threaded(out, height, lay', contents) && Mirrored(out, lay.idx, tail)
  {
    ghost var after;
    out, update', rank', after := RaiseHeader(nodes, level, height, len, update, rank, lay.towers);
    lay' := lay.(towers := after);
    RaisedLinked(lay.towers, after, lay.idx, lay.hs, level, height);
    RaisedPreds(lay.idx, lay.hs, level, height, rank[0], update, rank, update', rank');
    assert forall r: nat | 1 <= r < |lay.idx| :: BackAt(nodes, lay.idx, r) ==> BackAt(out, lay.idx, r);
  }

  /** The new node goes in after rank `rank[0]`: splice, then backward pointers. */
  method PlaceNode<K, V>(nodes: seq<Node<K, V>>, tail: Option<nat>, level: nat, update: seq<nat>, rank: seq<nat>,
                         key: K, value: V, height: nat, ghost lay: Layout, ghost c: seq<(K, V)>, ghost c': seq<(K, V)>)
    returns (out: seq<Node<K, V>>, tail': Option<nat>, ghost lay': Layout)
    requires Threaded(nodes, level, lay, c) && Distinct(lay.idx) && Mirrored(nodes, lay.idx, tail)
    requires 1 <= height <= level && |update| == |rank| == MAX_LEVEL && Preds(lay.idx, lay.hs, level, rank[0], update, rank)
    requires level == height || lay.towers[0][level - 1].forward.Some? || level == 1
    requires Inserted(c, c', rank[0], (key, value))
    ensures Threaded(out, level, lay', c') && Doubled(out, tail', level, lay')
  {
    PredsInRange(lay.towers, lay.idx, lay.hs, level, rank[0], update, rank);
    var spliced;
    ghost var after;
    spliced, after := SpliceIn(nodes, key, value, height, level, update, rank, lay.towers);
    ghost var idx', hs' := Placed(lay.towers, after, lay.idx, lay.hs, level, rank[0], update, rank);
    out, tail' := LinkBack(nodes, spliced, lay.idx, idx', rank[0], update[0], tail);
    InsertedPairs(nodes, out, lay.idx, idx', c, c', rank[0], (key, value));
    lay' := Layout(after, idx', hs');
  }

  /** Insertion on the arena: raise the list if needed, then place the node. */
  method InsertNode<K, V>(nodes: seq<Node<K, V>>, tail: Option<nat>, len: nat, level: nat, update: seq<nat>, rank: seq<nat>,
                          key: K, value: V, height: nat, ghost lay: Layout, ghost c: seq<(K, V)>, ghost c': seq<(K, V)>)
    returns (out: seq<Node<K, V>>, tail': Option<nat>, level': nat, ghost lay': Layout)
    requires Threaded(nodes, level, lay, c) && Doubled(nodes, tail, level, lay) && len == |c|
    requires 1 <= height <= MAX_LEVEL == |update| == |rank| && Preds(lay.idx, lay.hs, level, rank[0], update, rank)
    requires Inserted(c, c', rank[0], (key, value))
    ensures Threaded(out, level', lay', c') && Doubled(out, tail', level', lay')
  {
    level' := level;
    if height > level {
      var raised, update', rank';
      ghost var up;
      raised, update', rank', up := RaiseNodes(nodes, level, height, len, update, rank, lay, tail, c);
      level' := height;
      out, tail', lay' := PlaceNode(raised, tail, height, update', rank', key, value, height, up, c, c');
    } else {
      out, tail', lay' := PlaceNode(nodes, tail, level, update, rank, key, value, height, lay, c, c');
    }
  }

  /** Drops top levels that have become empty. */
  method Lower<K, V>(nodes: seq<Node<K, V>>, level: nat, ghost lay: Layout) returns (level': nat)
    requires TowersOf(nodes, lay.towers) && Linked(lay.towers, lay.idx, lay.hs, level)
    ensures Linked(lay.towers, lay.idx, lay.hs, level')
    ensures 1 < level' ==> lay.towers[0][level' - 1].forward.Some?
  {
    level' := level;
    while level' > 1 && nodes[0].levels[level' - 1].forward.None?
      invariant Linked(lay.towers, lay.idx, lay.hs, level')
    {
      LoweredLinked(lay.towers, lay.idx, lay.hs, level');
      level' := level' - 1;
    }
  }

  /** The predecessors of rank q + 1 are other nodes. */
  lemma PredsNotTarget(idx: seq<nat>, hs: seq<nat>, level: nat, q: nat, update: seq<nat>, rank: seq<nat>)
    requires Preds(idx, hs, level, q, update, rank) && Distinct(idx) && q + 1 < |idx|
    ensures forall l :: 0 <= l < level ==> update[l] != idx[q + 1]
  {
    forall l | 0 <= l < level
      ensures update[l] != idx[q + 1]
    {
      assert PredAt(idx, hs, q, update[l], rank[l], l);
      assert Differ(idx, rank[l], q + 1);
    }
  }

  /** Resets the backward pointer of the target's successor, or the tail. */
  method UnlinkBack<K, V>(nodes: seq<Node<K, V>>, spliced: seq<Node<K, V>>, ghost idx: seq<nat>, ghost idx': seq<nat>,
                          ghost q: nat, target: nat, tail: Option<nat>)
    returns (out: seq<Node<K, V>>, tail': Option<nat>)
    requires Mirrored(nodes, idx, tail) && Distinct(idx) && q + 1 < |idx| && target == idx[q + 1]
    requires |spliced| == |nodes| && SamePayload(nodes, spliced) && Removed(idx, idx', q + 1)
    requires spliced[target].levels != [] && spliced[target].levels[0].forward == if q + 2 < |idx| then Some(idx[q + 2]) else None
    ensures |out| == |spliced| && Mirrored(out, idx', tail')
    ensures forall i :: 0 <= i < |out| ==>
      out[i].key == spliced[i].key && out[i].value == spliced[i].value && out[i].levels == spliced[i].levels
  {
    out, tail' := spliced, tail;
    var forward := spliced[target].levels[0].forward;
    if forward.Some? {
      out := SetBackward(out, forward.value, spliced[target].backward);
    } else {
      tail' := spliced[target].backward;
    }
    RemovedMirror(nodes, out, idx, idx', tail, tail', q);
  }

  /** Deletion on the arena: relink past the target, fix the way back, drop empty levels. */
  method RemoveNode<K, V>(nodes: seq<Node<K, V>>, tail: Option<nat>, level: nat, target: nat, update: seq<nat>,
                          ghost rank: seq<nat>, ghost q: nat, ghost lay: Layout, ghost c: seq<(K, V)>, ghost c': seq<(K, V)>)
    returns (out: seq<Node<K, V>>, tail': Option<nat>, level': nat, ghost lay': Layout)
    requires Threaded(nodes, level, lay, c) && Doubled(nodes, tail, level, lay)
    requires |update| == |rank| == MAX_LEVEL && Preds(lay.idx, lay.hs, level, q, update, rank)
    requires q + 1 < |lay.idx| && target == lay.idx[q + 1] && Removed(c, c', q)
    ensures Threaded(out, level', lay', c') && Doubled(out, tail', level', lay')
  {
    PredsInRange(lay.towers, lay.idx, lay.hs, level, q, update, rank);
    PredsNotTarget(lay.idx, lay.hs, level, q, update, rank);
    BottomLink(lay.towers, lay.idx, lay.hs, level, q + 1);
    var spliced;
    ghost var after;
    spliced, after := SpliceOut(nodes, target, level, update, lay.towers);
    ghost var idx', hs' := lay.idx[..q + 1] + lay.idx[q + 2..], lay.hs[..q + 1] + lay.hs[q + 2..];
    RemovedSeq(lay.idx, q + 1);
    RemovedSeq(lay.hs, q + 1);
    RemovedLinked(lay.towers, after, lay.idx, lay.hs, idx', hs', level, q, update, rank);
    assert Kept(lay.towers, after, target, 0);
    out, tail' := UnlinkBack(nodes, spliced, lay.idx, idx', q, target, tail);
    RemovedPairs(nodes, out, lay.idx, idx', c, c', q);
    lay' := Layout(after, idx', hs');
    level' := Lower(out, level, lay');
  }

  /** The candidate at position q is the pair sought if and only if the pair is present at all. */
  lemma FoundAt<K(!new), V(!new)>(o: Order<K, V>, c: seq<(K, V)>, e: (K, V), q: nat)
    requires o.Total() && Sorted(o, c) && q <= |c|
    requires forall i :: 0 <= i < |c| ==> (o.Precedes(c[i], e) <==> i < q)
    ensures q < |c| && c[q] == e <==> e in c
    ensures q < |c| && c[q] == e ==>
      SortedPairs.Remove(c, e) == c[..q] + c[q + 1..] && Removed(c, SortedPairs.Remove(c, e), q)
  {
    PrecedesTotal(o, e, e, e);
    if e in c {
      var i :| 0 <= i < |c| && c[i] == e;
      assert q < i ==> InOrder(o, c, q, i);
      PrecedesTotal(o, e, c[q], e);
      assert c[q] == e;
    }
    if q < |c| && c[q] == e {
      assert e !in c[..q];
      RemoveAtSplit(c, e, q);
      RemovedSeq(c, q);
    }
  }

  /** Among the entries not above e, the last one is e if and only if e is present. */
  lemma LastEqual<K(!new), V(!new)>(o: Order<K, V>, c: seq<(K, V)>, e: (K, V), count: nat)
    requires o.Total() && Sorted(o, c) && Splits(c, x => !o.Precedes(e, x), count)
    ensures e in c <==> count > 0 && c[count - 1] == e
    ensures e !in c[count..]
  {
    PrecedesTotal(o, e, e, e);
    forall i | 0 <= i < |c|
      ensures i < count <==> !o.Precedes(e, c[i])
    {
      assert (x => !o.Precedes(e, x))(c[i]) <==> i < count;
    }
    if e in c {
      var i :| 0 <= i < |c| && c[i] == e;
      assert i < count - 1 ==> InOrder(o, c, i, count - 1);
      PrecedesTotal(o, c[count - 1], e, e);
    }
  }

  // --- range walks ----------------------------------------------------------------------------

  /** Keys up to a bound (or strictly below it) come first. */
  lemma BoundCloses<K(!new), V(!new)>(o: Order<K, V>, c: seq<(K, V)>, bound: K, strict: bool, goes: ((K, V)) -> bool)
    requires o.Total() && Sorted(o, c)
    requires forall e :: goes(e) <==> (o.key(e.0, bound).Less? || (strict && o.key(e.0, bound).Equal?))
    ensures Closed(c, goes)
  {
    forall i, j | 0 <= i < j < |c| && goes(c[j])
      ensures goes(c[i])
    {
      assert InOrder(o, c, i, j);
      assert Chains(o.key, c[i].0, c[j].0, bound);
    }
  }

  /** The split point of a closed predicate. */
  lemma {:induction false} SplitPoint<T>(c: seq<T>, goes: T -> bool) returns (q: nat)
    requires Closed(c, goes)
    ensures Splits(c, goes, q)
  {
    q := 0;
    while q < |c| && goes(c[q])
      invariant q <= |c| && forall i :: 0 <= i < q ==> goes(c[i])
    {
      q := q + 1;
    }
  }

  lemma KeysInOrder<K(!new)>(compare: (K, K) -> Ordering, o: RangeOptions<K>, a: K, b: K)
    requires TotalOrder(compare) && !compare(b, a).Less?
    ensures AboveLower(compare, o, a) ==> AboveLower(compare, o, b)
    ensures BelowUpper(compare, o, b) ==> BelowUpper(compare, o, a)
  {
    assert o.gte.Some? ==> Chains(compare, b, o.gte.value, a) && Chains(compare, a, b, o.gte.value);
    assert o.gt.Some? ==> Chains(compare, o.gt.value, a, b);
    assert o.lte.Some? ==> Chains(compare, o.lte.value, a, b);
    assert o.lt.Some? ==> Chains(compare, a, b, o.lt.value);
  }

  /** The entries in bounds are a slice of the list: from the lower split to the upper one. */
  lemma BoundsSlice<K(!new), V(!new)>(ord: Order<K, V>, c: seq<(K, V)>, o: RangeOptions<K>) returns (lo: nat, hi: nat)
    requires ord.Total() && Sorted(ord, c)
    ensures lo <= |c| && hi <= |c|
    ensures forall i :: 0 <= i < |c| ==> (AboveLower(ord.key, o, c[i].0) <==> lo <= i)
    ensures forall i :: 0 <= i < |c| ==> (BelowUpper(ord.key, o, c[i].0) <==> i < hi)
  {
    var below := (e: (K, V)) => !AboveLower(ord.key, o, e.0);
    var upper := (e: (K, V)) => BelowUpper(ord.key, o, e.0);
    forall i, j | 0 <= i < j < |c|
      ensures (below(c[j]) ==> below(c[i])) && (upper(c[j]) ==> upper(c[i]))
    {
      assert InOrder(ord, c, i, j);
      KeysInOrder(ord.key, o, c[i].0, c[j].0);
    }
    lo := SplitPoint(c, below);
    hi := SplitPoint(c, upper);
    forall i | 0 <= i < |c|
      ensures (AboveLower(ord.key, o, c[i].0) <==> lo <= i) && (BelowUpper(ord.key, o, c[i].0) <==> i < hi)
    {
      assert below(c[i]) <==> i < lo;
      assert upper(c[i]) <==> i < hi;
    }
  }

  lemma LowerPoint<K, V>(compare: (K, K) -> Ordering, o: RangeOptions<K>, c: seq<(K, V)>, q: nat, lo: nat)
    requires q <= |c| && lo <= |c|
    requires forall i :: 0 <= i < |c| ==> (AboveLower(compare, o, c[i].0) <==> q <= i)
    requires forall i :: 0 <= i < |c| ==> (AboveLower(compare, o, c[i].0) <==> lo <= i)
    ensures q == lo
  {
    var i := if q <= lo then q else lo;
    if i < |c| {
      assert AboveLower(compare, o, c[i].0);
    }
  }

  lemma UpperPoint<K, V>(compare: (K, K) -> Ordering, o: RangeOptions<K>, c: seq<(K, V)>, q: nat, hi: nat)
    requires q <= |c| && hi <= |c|
    requires forall i :: 0 <= i < |c| ==> (BelowUpper(compare, o, c[i].0) <==> i < q)
    requires forall i :: 0 <= i < |c| ==> (BelowUpper(compare, o, c[i].0) <==> i < hi)
    ensures q == hi
  {
    var i := if q <= hi then q else hi;
    if i < |c| {
      assert !BelowUpper(compare, o, c[i].0);
    }
  }

  lemma ReverseSlice<T>(c: seq<T>, lo: nat, hi: nat)
    requires lo <= hi <= |c|
    ensures Reverse(c[..hi])[..hi - lo] == Reverse(c[lo..hi])
  {
    var a, b := Reverse(c[..hi])[..hi - lo], Reverse(c[lo..hi]);
    assert |a| == |b|;
    forall i | 0 <= i < hi - lo
      ensures a[i] == b[i]
    {
      assert a[i] == Reverse(c[..hi])[i] == c[..hi][hi - 1 - i];
      assert b[i] == c[lo..hi][hi - lo - 1 - i];
    }
  }

  lemma WalkPrefix<T>(c: seq<T>, reverse: bool, lo: nat, hi: nat, hits: seq<T>)
    requires lo <= |c| && hi <= |c| && hits == if lo <= hi then c[lo..hi] else []
    ensures |hits| <= |Walk(c, reverse, lo, hi)|
    ensures Walk(c, reverse, lo, hi)[..|hits|] == if reverse then Reverse(hits) else hits
  {
    if reverse && lo <= hi {
      ReverseSlice(c, lo, hi);
    }
  }

  /** The part of the walk up to the far bound is what the filter keeps, in walking order. */
  lemma WalkIsRange<K(!new), V(!new)>(compare: (K, K) -> Ordering, c: seq<(K, V)>, o: RangeOptions<K>, lo: nat, hi: nat, end: nat)
    requires lo <= |c| && hi <= |c| && end == (if lo <= hi then hi - lo else 0)
    requires forall i :: 0 <= i < |c| ==> (AboveLower(compare, o, c[i].0) <==> lo <= i)
    requires forall i :: 0 <= i < |c| ==> (BelowUpper(compare, o, c[i].0) <==> i < hi)
    ensures end <= |Walk(c, o.reverse, lo, hi)|
    ensures Wanted(compare, c, o) == Page(Walk(c, o.reverse, lo, hi)[..end], o.offset, o.count)
  {
    var keep := (e: (K, V)) => AboveLower(compare, o, e.0) && BelowUpper(compare, o, e.0);
    FilterSlice(c, keep, if lo <= hi then lo else 0, if lo <= hi then hi else 0);
    WalkPrefix(c, o.reverse, lo, hi, Filter(c, keep));
  }

  /** The entries a walk passes, from its start bound to the end of the list in its direction. */
  function Walk<T>(c: seq<T>, reverse: bool, lo: nat, hi: nat): seq<T>
    requires lo <= |c| && hi <= |c|
  {
    if reverse then Reverse(c[..hi]) else c[lo..]
  }

  function Onward<K, V>(node: Node<K, V>, reverse: bool): Option<nat> {
    if reverse then node.backward else if node.levels == [] then None else node.levels[0].forward
  }

  /** `slots` are the arena slots of the entries of a walk, each leading to the next. */
  ghost predicate Trail<K, V>(nodes: seq<Node<K, V>>, slots: seq<nat>, walk: seq<(K, V)>, reverse: bool) {
    && |slots| == |walk|
    && forall j: nat | j < |slots| :: TrailAt(nodes, slots, walk, reverse, j)
  }

  ghost predicate TrailAt<K, V>(nodes: seq<Node<K, V>>, slots: seq<nat>, walk: seq<(K, V)>, reverse: bool, j: nat)
    requires |slots| == |walk| && j < |slots|
  {
    && slots[j] < |nodes|
    && nodes[slots[j]].key == Some(walk[j].0) && nodes[slots[j]].value == Some(walk[j].1)
    && Onward(nodes[slots[j]], reverse) == if j + 1 < |slots| then Some(slots[j + 1]) else None
  }

  ghost predicate InFarBound<K, V>(compare: (K, K) -> Ordering, options: RangeOptions<K>, e: (K, V)) {
    if options.reverse then AboveLower(compare, options, e.0) else BelowUpper(compare, options, e.0)
  }

  /** Walks along a trail until the far bound or the count stops it. */
  method Collect<K, V>(nodes: seq<Node<K, V>>, start: Option<nat>, options: RangeOptions<K>, compare: (K, K) -> Ordering,
                       ghost slots: seq<nat>, ghost walk: seq<(K, V)>, ghost end: nat)
    returns (output: seq<(K, V)>)
    requires Trail(nodes, slots, walk, options.reverse) && end <= |walk|
    requires start == if walk != [] then Some(slots[0]) else None
    requires forall j :: 0 <= j < |walk| ==> (InFarBound(compare, options, walk[j]) <==> j < end)
    ensures output == Page(walk[..end], options.offset, options.count)
  {
    ghost var j := 0;
    var offset, remaining := options.offset, options.count;
    output := [];
    var current := start;
    while current.Some?
      invariant 0 <= j <= end
      invariant current == if j < |walk| then Some(slots[j]) else None
      invariant output == Page(walk[..j], options.offset, options.count)
      invariant offset == SatSub(options.offset, j)
      invariant options.count.None? <==> remaining.None?
      invariant remaining.Some? ==> remaining.value + |output| == options.count.value
      decreases |walk| - j
    {
      assert TrailAt(nodes, slots, walk, options.reverse, j);
      var node := nodes[current.value];
      var inBounds := if options.reverse then AboveLower(compare, options, node.key.value) else BelowUpper(compare, options, node.key.value);
      assert inBounds == InFarBound(compare, options, walk[j]);
      if !inBounds {
        break;
      }
      PageStep(walk, j, options.offset, options.count);
      if offset > 0 {
        offset := offset - 1;
      } else if remaining.None? || remaining.value > 0 {
        output := output + [(node.key.value, node.value.value)];
        remaining := if remaining.None? then None else Some(remaining.value - 1);
      } else {
        PageFull(walk, j, end, options.offset, options.count.value);
        break;
      }
      current := Onward(node, options.reverse);
      j := j + 1;
    }
  }

  lemma ForwardTrail<K, V>(nodes: seq<Node<K, V>>, level: nat, lay: Layout, c: seq<(K, V)>, lo: nat)
    requires Threaded(nodes, level, lay, c) && lo <= |c|
    ensures Trail(nodes, lay.idx[lo + 1..], c[lo..], false)
  {
    var slots, walk := lay.idx[lo + 1..], c[lo..];
    forall j: nat | j < |slots|
      ensures TrailAt(nodes, slots, walk, false, j)
    {
      assert slots[j] == lay.idx[lo + 1 + j] && walk[j] == c[lo + j];
      BottomLink(lay.towers, lay.idx, lay.hs, level, lo + 1 + j);
    }
  }

  lemma BackwardTrail<K, V>(nodes: seq<Node<K, V>>, tail: Option<nat>, idx: seq<nat>, c: seq<(K, V)>, hi: nat)
    requires Carries(nodes, idx, c) && Mirrored(nodes, idx, tail) && hi <= |c|
    ensures Trail(nodes, Reverse(idx[1..hi + 1]), Reverse(c[..hi]), true)
  {
    var slots, walk := Reverse(idx[1..hi + 1]), Reverse(c[..hi]);
    forall j: nat | j < |slots|
      ensures TrailAt(nodes, slots, walk, true, j)
    {
      assert BackAt(nodes, idx, hi - j);
      assert slots[j] == idx[1..hi + 1][hi - 1 - j] == idx[hi - j];
      assert walk[j] == c[..hi][hi - 1 - j] == c[hi - 1 - j];
      if j + 1 < hi {
        assert slots[j + 1] == idx[1..hi + 1][hi - 2 - j] == idx[hi - j - 1];
      }
    }
  }

  /** The slots of a walk through the list. */
  lemma WalkTrail<K, V>(nodes: seq<Node<K, V>>, tail: Option<nat>, level: nat, lay: Layout, c: seq<(K, V)>, reverse: bool, lo: nat, hi: nat)
    returns (slots: seq<nat>)
    requires Threaded(nodes, level, lay, c) && Mirrored(nodes, lay.idx, tail) && lo <= |c| && hi <= |c|
    ensures Trail(nodes, slots, Walk(c, reverse, lo, hi), reverse)
    ensures !reverse && lo < |c| ==> slots[0] == lay.idx[lo + 1]
    ensures reverse && 0 < hi ==> slots[0] == lay.idx[hi]
  {
    if reverse {
      slots := Reverse(lay.idx[1..hi + 1]);
      BackwardTrail(nodes, tail, lay.idx, c, hi);
    } else {
      slots := lay.idx[lo + 1..];
      ForwardTrail(nodes, level, lay, c, lo);
    }
  }

  /** Along the walk the far bound holds exactly for the first `end` entries. */
  lemma FarSplit<K, V>(compare: (K, K) -> Ordering, c: seq<(K, V)>, o: RangeOptions<K>, lo: nat, hi: nat, end: nat)
    requires lo <= |c| && hi <= |c| && end == if lo <= hi then hi - lo else 0
    requires forall i :: 0 <= i < |c| ==> (AboveLower(compare, Effective(o), c[i].0) <==> lo <= i)
    requires forall i :: 0 <= i < |c| ==> (BelowUpper(compare, Effective(o), c[i].0) <==> i < hi)
    ensures end <= |Walk(c, o.reverse, lo, hi)|
    ensures forall j :: 0 <= j < |Walk(c, o.reverse, lo, hi)| ==> (InFarBound(compare, o, Walk(c, o.reverse, lo, hi)[j]) <==> j < end)
  {
    var walk := Walk(c, o.reverse, lo, hi);
    forall j | 0 <= j < |walk|
      ensures InFarBound(compare, o, walk[j]) <==> j < end
    {
      var i := if o.reverse then hi - 1 - j else lo + j;
      assert walk[j] == c[i];
    }
  }

  /** A range query seen as a walk: its bounds as positions, its trail, and where the far bound ends it. */
  lemma RangePlan<K(!new), V(!new)>(ord: Order<K, V>, nodes: seq<Node<K, V>>, tail: Option<nat>, level: nat, lay: Layout, c: seq<(K, V)>, o: RangeOptions<K>)
    returns (lo: nat, hi: nat, walk: seq<(K, V)>, slots: seq<nat>, end: nat)
    requires ord.Total() && Sorted(ord, c) && Threaded(nodes, level, lay, c) && Mirrored(nodes, lay.idx, tail)
    ensures lo <= |c| && hi <= |c| && Trail(nodes, slots, walk, o.reverse) && end <= |walk|
    ensures forall i :: 0 <= i < |c| ==> (AboveLower(ord.key, Effective(o), c[i].0) <==> lo <= i)
    ensures forall i :: 0 <= i < |c| ==> (BelowUpper(ord.key, Effective(o), c[i].0) <==> i < hi)
    ensures !o.reverse ==> |walk| == |c| - lo && (lo < |c| ==> slots[0] == lay.idx[lo + 1])
    ensures o.reverse ==> |walk| == hi && (0 < hi ==> slots[0] == lay.idx[hi])
    ensures forall j :: 0 <= j < |walk| ==> (InFarBound(ord.key, o, walk[j]) <==> j < end)
    ensures Wanted(ord.key, c, Effective(o)) == Page(walk[..end], o.offset, o.count)
  {
    lo, hi := BoundsSlice(ord, c, Effective(o));
    end := if lo <= hi then hi - lo else 0;
    walk := Walk(c, o.reverse, lo, hi);
    slots := WalkTrail(nodes, tail, level, lay, c, o.reverse, lo, hi);
    FarSplit(ord.key, c, o, lo, hi, end);
    WalkIsRange(ord.key, c, Effective(o), lo, hi, end);
  }

  // --- the list ------------------------------------------------------------------------------

  class SkipList<K(!new), V(!new)> {
    const order: Order<K, V>
    var nodes: seq<Node<K, V>>
    var tail: Option<nat>
    var len: nat
    var level: nat

    ghost var contents: seq<(K, V)>       // the pairs in list order
    ghost var lay: Layout

    ghost predicate Valid()
      reads this
    {
      && Threaded(nodes, level, lay, contents) && Doubled(nodes, tail, level, lay)
      && len == |contents|
      && order.Total() && Sorted(order, contents)
    }

    constructor (order: Order<K, V>)
      requires order.Total()
      ensures Valid() && this.order == order && contents == []
    {
      this.order := order;
      var header := seq(MAX_LEVEL, _ => Level(None, 0));
      nodes := [Node(None, None, None, header)];
      tail, len, level := None, 0, 1;
      contents, lay := [], Layout([header], [0], [MAX_LEVEL]);
    }

    /** Whether the data node in an arena slot goes. */
    predicate Goes(slot: nat, goes: ((K, V)) -> bool)
      reads this
      requires slot < |nodes| && nodes[slot].key.Some? && nodes[slot].value.Some?
    {
      goes((nodes[slot].key.value, nodes[slot].value.value))
    }

    /** One level of a descent: from rank r forward along level l while the next node goes. */
    method Advance(goes: ((K, V)) -> bool, l: nat, from: nat, r: nat) returns (current: nat, rank: nat)
      requires Threaded(nodes, level, lay, contents) && Closed(contents, goes) && l < level
      requires r < |lay.idx| && from == lay.idx[r] && l < lay.hs[r] && (r == 0 || goes(contents[r - 1]))
      ensures r <= rank < |lay.idx| && current == lay.idx[rank] && l < lay.hs[rank] && (rank == 0 || goes(contents[rank - 1]))
      ensures Stops(lay.hs, contents, goes, l, rank)
    {
      current, rank := from, r;
      assert LinkAt(lay.towers, lay.idx, lay.hs, rank, l);
      while nodes[current].levels[l].forward.Some? && Goes(nodes[current].levels[l].forward.value, goes)
        invariant r <= rank < |lay.idx| && current == lay.idx[rank] && l < lay.hs[rank] && (rank == 0 || goes(contents[rank - 1]))
        invariant current < |nodes| && l < |nodes[current].levels| && LinkOk(lay.hs, lay.idx, l, rank, nodes[current].levels[l])
        decreases |lay.idx| - rank
      {
        var lv := nodes[current].levels[l];
        rank := rank + lv.span;
        current := lv.forward.value;
        assert LinkAt(lay.towers, lay.idx, lay.hs, rank, l);
      }
      StopHere(lay.hs, lay.idx, contents, goes, l, rank, nodes[current].levels[l]);
    }

    /**
      The descent that every operation starts with: level by level from the top, as long as
      the next node goes.  `rank[0]` counts the nodes that go.
     */
    method Descend(goes: ((K, V)) -> bool) returns (update: seq<nat>, rank: seq<nat>)
      requires Threaded(nodes, level, lay, contents) && Closed(contents, goes)
      ensures |update| == |rank| == MAX_LEVEL && Splits(contents, goes, rank[0])
      ensures Preds(lay.idx, lay.hs, level, rank[0], update, rank)
    {
      update, rank := seq(MAX_LEVEL, _ => 0), seq(MAX_LEVEL, _ => 0);
      var current: nat, r: nat := 0, 0;
      var l := level;
      while l > 0
        invariant 0 <= l <= level && |update| == |rank| == MAX_LEVEL
        invariant r < |lay.idx| && current == lay.idx[r] && l <= lay.hs[r] && (r == 0 || goes(contents[r - 1]))
        invariant forall k :: l <= k < level ==> rank[k] <= r && update[k] == lay.idx[rank[k]] && k < lay.hs[rank[k]]
        invariant forall k :: l <= k < level ==> Stops(lay.hs, contents, goes, k, rank[k])
        invariant l == 0 ==> rank[0] == r
      {
        l := l - 1;
        current, r := Advance(goes, l, current, r);
        rank := rank[l := r];
        update := update[l := current];
      }
      forall k: nat | k < level
        ensures PredAt(lay.idx, lay.hs, rank[0], update[k], rank[k], k)
      {
        StopsGap(lay.hs, contents, goes, k, rank[k], r);
      }
      forall i | 0 <= i < |contents|
        ensures goes(contents[i]) <==> i < rank[0]
      {
        if rank[0] <= i {
          assert 0 < lay.hs[i + 1];
        }
      }
    }

    /** Where a pair belongs: after everything that precedes it. */
    method Find(e: (K, V)) returns (update: seq<nat>, rank: seq<nat>)
      requires Valid()
      ensures |update| == |rank| == MAX_LEVEL && Preds(lay.idx, lay.hs, level, rank[0], update, rank)
      ensures rank[0] <= |contents|
      ensures forall i :: 0 <= i < |contents| ==> (order.Precedes(contents[i], e) <==> i < rank[0])
    {
      var o := order;
      var goes := x => o.Precedes(x, e);
      PrecedesCloses(o, contents, e, goes);
      update, rank := Descend(goes);
      assert forall i :: 0 <= i < |contents| ==> goes(contents[i]) == o.Precedes(contents[i], e);
    }

    /** Puts a pair in behind everything that precedes it; the height is the outcome of `random_level`. */
    method Insert(key: K, value: V, height: nat)
      requires Valid() && 1 <= height <= MAX_LEVEL
      modifies this
      ensures Valid() && contents == SortedPairs.Insert(order, old(contents), (key, value))
    {
      var update, rank := Find((key, value));
      ghost var c' := InsertSplit(order, contents, (key, value), rank[0]);
      var out, tail', level';
      ghost var lay';
      out, tail', level', lay' := InsertNode(nodes, tail, len, level, update, rank, key, value, height, lay, contents, c');
      nodes, tail, len, level := out, tail', len + 1, level';
      contents, lay := c', lay';
    }

    /** The node to delete: the one after the last smaller pair, if it carries an equal pair. */
    method Locate(key: K, value: V) returns (update: seq<nat>, rank: seq<nat>, target: Option<nat>)
      requires Valid()
      ensures |update| == |rank| == MAX_LEVEL && Preds(lay.idx, lay.hs, level, rank[0], update, rank)
      ensures target.Some? <==> (key, value) in contents
      ensures target.Some? ==> rank[0] + 1 < |lay.idx| && target.value == lay.idx[rank[0] + 1]
      ensures target.Some? ==> Removed(contents, SortedPairs.Remove(contents, (key, value)), rank[0])
    {
      update, rank := Find((key, value));
      FoundAt(order, contents, (key, value), rank[0]);
      assert PredAt(lay.idx, lay.hs, rank[0], update[0], rank[0], 0);
      BottomLink(lay.towers, lay.idx, lay.hs, level, rank[0]);
      target := nodes[update[0]].levels[0].forward;
      if target.Some? {
        var node := nodes[target.value];
        if !order.key(node.key.value, key).Equal? || !order.value(node.value.value, value).Equal? {
          target := None;
        }
      }
    }

    /** Takes out one copy of a pair if there is one, and says whether there was. */
    method Delete(key: K, value: V) returns (found: bool)
      requires Valid()
      modifies this
      ensures Valid() && found == ((key, value) in old(contents))
      ensures contents == SortedPairs.Remove(old(contents), (key, value))
    {
      var update, rank, target := Locate(key, value);
      if target.None? {
        RemoveAbsent(contents, (key, value));
        return false;
      }
      ghost var c' := SortedPairs.Remove(contents, (key, value));
      RemoveIsSorted(order, contents, (key, value));
      var out, tail', level';
      ghost var lay';
      out, tail', level', lay' := RemoveNode(nodes, tail, level, target.value, update, rank, rank[0], lay, contents, c');
      nodes, tail, len, level := out, tail', len - 1, level';
      contents, lay := c', lay';
      found := true;
    }

    /** The first entry at or above a bound, or strictly above it. */
    method LowerBoundIndex(bound: K, strict: bool) returns (slot: Option<nat>, ghost q: nat)
      requires Valid()
      ensures q <= |contents| && slot == if q < |contents| then Some(lay.idx[q + 1]) else None
      ensures forall i :: 0 <= i < |contents| ==>
        (i < q <==> (order.key(contents[i].0, bound).Less? || (strict && order.key(contents[i].0, bound).Equal?)))
    {
      var o := order;
      var goes := (e: (K, V)) => o.key(e.0, bound).Less? || (strict && o.key(e.0, bound).Equal?);
      BoundCloses(o, contents, bound, strict, goes);
      var update, rank := Descend(goes);
      q := rank[0];
      forall i | 0 <= i < |contents|
        ensures i < q <==> (o.key(contents[i].0, bound).Less? || (strict && o.key(contents[i].0, bound).Equal?))
      {
        assert goes(contents[i]) <==> i < q;
      }
      assert PredAt(lay.idx, lay.hs, q, update[0], rank[0], 0);
      BottomLink(lay.towers, lay.idx, lay.hs, level, q);
      slot := nodes[update[0]].levels[0].forward;
    }

    /** The position of the last entry equal to a pair. */
    method Rank(key: K, value: V) returns (rank: Option<nat>)
      requires Valid()
      ensures rank.Some? <==> (key, value) in contents
      ensures rank.Some? ==> rank.value < |contents| && contents[rank.value] == (key, value)
      ensures rank.Some? ==> (key, value) !in contents[rank.value + 1..]
    {
      var o, e := order, (key, value);
      var goes := x => !o.Precedes(e, x);
      forall i, j | 0 <= i < j < |contents| && goes(contents[j])
        ensures goes(contents[i])
      {
        assert InOrder(o, contents, i, j);
        PrecedesTotal(o, e, contents[i], contents[j]);
      }
      var update, ranks := Descend(goes);
      var count := ranks[0];
      LastEqual(o, contents, e, count);
      assert PredAt(lay.idx, lay.hs, count, update[0], count, 0);
      if count == 0 {
        return None;
      }
      var node := nodes[update[0]];
      if o.key(node.key.value, key).Equal? && o.value(node.value.value, value).Equal? {
        rank := Some(count - 1);
      } else {
        rank := None;
      }
    }

    /** The pair at a position, found by adding up spans. */
    method GetByRank(rank: nat) returns (entry: Option<(K, V)>)
      requires Valid()
      ensures entry == if rank < |contents| then Some(contents[rank]) else None
    {
      if rank >= len {
        return None;
      }
      var target := rank + 1;
      var current: nat, traversed: nat := 0, 0;
      var l := level;
      while l > 0
        invariant 0 <= l <= level && traversed < target < |lay.idx| && current == lay.idx[traversed] && l <= lay.hs[traversed]
        invariant l == 0 ==> traversed == target
      {
        l := l - 1;
        current, traversed := AdvanceTo(l, current, traversed, target);
        if traversed == target {
          return Some((nodes[current].key.value, nodes[current].value.value));
        }
      }
      return None;
    }

    method AdvanceTo(l: nat, from: nat, r: nat, target: nat) returns (current: nat, rank: nat)
      requires Threaded(nodes, level, lay, contents) && l < level
      requires r <= target < |lay.idx| && from == lay.idx[r] && l < lay.hs[r]
      ensures r <= rank <= target && current == lay.idx[rank] && l < lay.hs[rank]
      ensures l == 0 ==> rank == target
    {
      current, rank := from, r;
      assert LinkAt(lay.towers, lay.idx, lay.hs, rank, l);
      while nodes[current].levels[l].forward.Some? && rank + nodes[current].levels[l].span <= target
        invariant r <= rank <= target && current == lay.idx[rank] && l < lay.hs[rank]
        invariant current < |nodes| && l < |nodes[current].levels| && LinkOk(lay.hs, lay.idx, l, rank, nodes[current].levels[l])
        decreases |lay.idx| - rank
      {
        var lv := nodes[current].levels[l];
        rank := rank + lv.span;
        current := lv.forward.value;
        assert LinkAt(lay.towers, lay.idx, lay.hs, rank, l);
      }
      if l == 0 {
        BottomLink(lay.towers, lay.idx, lay.hs, level, rank);
      }
    }

    /** Where a range walk starts: ranks lo + 1 upward, or in reverse rank hi downward. */
    method RangeStart(options: RangeOptions<K>, ghost lo: nat, ghost hi: nat) returns (start: Option<nat>)
      requires Valid() && lo <= |contents| && hi <= |contents|
      requires forall i :: 0 <= i < |contents| ==> (AboveLower(order.key, Effective(options), contents[i].0) <==> lo <= i)
      requires forall i :: 0 <= i < |contents| ==> (BelowUpper(order.key, Effective(options), contents[i].0) <==> i < hi)
      ensures !options.reverse ==> start == if lo < |contents| then Some(lay.idx[lo + 1]) else None
      ensures options.reverse ==> start == if 0 < hi then Some(lay.idx[hi]) else None
    {
      if options.reverse {
        start := LastBelow(options, hi);
      } else {
        start := FirstAbove(options, lo);
      }
    }

    method FirstAbove(options: RangeOptions<K>, ghost lo: nat) returns (start: Option<nat>)
      requires Valid() && lo <= |contents| && !options.reverse
      requires forall i :: 0 <= i < |contents| ==> (AboveLower(order.key, Effective(options), contents[i].0) <==> lo <= i)
      ensures start == if lo < |contents| then Some(lay.idx[lo + 1]) else None
    {
      ghost var q;
      if options.gte.Some? {
        start, q := LowerBoundIndex(options.gte.value, false);
      } else if options.gt.Some? {
        start, q := LowerBoundIndex(options.gt.value, true);
      } else {
        BottomLink(lay.towers, lay.idx, lay.hs, level, 0);
        start, q := nodes[0].levels[0].forward, 0;
      }
      LowerPoint(order.key, Effective(options), contents, q, lo);
    }

    method LastBelow(options: RangeOptions<K>, ghost hi: nat) returns (start: Option<nat>)
      requires Valid() && hi <= |contents| && options.reverse
      requires forall i :: 0 <= i < |contents| ==> (BelowUpper(order.key, Effective(options), contents[i].0) <==> i < hi)
      ensures start == if 0 < hi then Some(lay.idx[hi]) else None
    {
      ghost var q;
      if options.lte.Some? {
        start, q := LowerBoundIndex(options.lte.value, true);
      } else if options.lt.Some? {
        start, q := LowerBoundIndex(options.lt.value, false);
      } else {
        UpperPoint(order.key, Effective(options), contents, |contents|, hi);
        return tail;
      }
      UpperPoint(order.key, Effective(options), contents, q, hi);
      if start.Some? {
        assert BackAt(nodes, lay.idx, q + 1);
        start := nodes[start.value].backward;
      } else {
        start := tail;
      }
    }

    /** What lies in the effective bounds, in the direction asked, dropping `offset` and taking `count`. */
    method Range(options: RangeOptions<K>) returns (output: seq<(K, V)>)
      requires Valid()
      ensures output == Wanted(order.key, contents, Effective(options))
      ensures forall e :: e in output ==>
        && e in contents
        && (options.gte.Some? ==> !order.key(e.0, options.gte.value).Less?)
        && (options.gt.Some? && (options.reverse || options.gte.None?) ==> order.key(e.0, options.gt.value).Greater?)
        && (options.lte.Some? ==> !order.key(e.0, options.lte.value).Greater?)
        && (options.lt.Some? && (!options.reverse || options.lte.None?) ==> order.key(e.0, options.lt.value).Less?)
      ensures options.offset == 0 && options.count.None? ==> forall e ::
        && e in contents
        && (options.gte.Some? ==> !order.key(e.0, options.gte.value).Less?)
        && (options.gt.Some? && (options.reverse || options.gte.None?) ==> order.key(e.0, options.gt.value).Greater?)
        && (options.lte.Some? ==> !order.key(e.0, options.lte.value).Greater?)
        && (options.lt.Some? && (!options.reverse || options.lte.None?) ==> order.key(e.0, options.lt.value).Less?)
        ==> multiset(output)[e] == multiset(contents)[e]
      ensures forall i, j :: 0 <= i < j < |output| ==>
        if options.reverse then !order.key(output[i].0, output[j].0).Less? else !order.key(output[i].0, output[j].0).Greater?
    {
      hide Wanted, Effective;
      ghost var lo, hi, walk, slots, end := RangePlan(order, nodes, tail, level, lay, contents, options);
      var start := RangeStart(options, lo, hi);
      output := Collect(nodes, start, options, order.key, slots, walk, end);
      RangeSaid(order, contents, options);
    }
  }

  // --- runs ------------------------------------------------------------------------------------

  datatype ListOp<K, V> = Put(key: K, value: V, height: nat) | Take(key: K, value: V)

  /** The pairs after a run, whatever heights the new nodes were given. */
  function Outcome<K(!new, ==), V(!new, ==)>(o: Order<K, V>, c: seq<(K, V)>, ops: seq<ListOp<K, V>>): seq<(K, V)> {
    if ops == [] then c else
    var before := Outcome(o, c, ops[..|ops| - 1]);
    match ops[|ops| - 1]
    case Put(k, v, _) => SortedPairs.Insert(o, before, (k, v))
    case Take(k, v) => SortedPairs.Remove(before, (k, v))
  }

  /** The multiset semantics of a run: every put adds a copy, every take removes one if there is one. */
  function Tally<K(==), V(==)>(m: multiset<(K, V)>, ops: seq<ListOp<K, V>>): multiset<(K, V)> {
    if ops == [] then m else
    var before := Tally(m, ops[..|ops| - 1]);
    match ops[|ops| - 1]
    case Put(k, v, _) => before + multiset{(k, v)}
    case Take(k, v) => before - multiset{(k, v)}
  }

  /** Any run keeps the pairs sorted, and as a multiset they are exactly what was put and not taken. */
  lemma {:induction false} OutcomeIsTally<K(!new), V(!new)>(o: Order<K, V>, c: seq<(K, V)>, ops: seq<ListOp<K, V>>)
    requires o.Total() && Sorted(o, c)
    ensures Sorted(o, Outcome(o, c, ops)) && multiset(Outcome(o, c, ops)) == Tally(multiset(c), ops)
  {
    if ops != [] {
      var before := Outcome(o, c, ops[..|ops| - 1]);
      OutcomeIsTally(o, c, ops[..|ops| - 1]);
      match ops[|ops| - 1]
      case Put(k, v, _) =>
        InsertIsSorted(o, before, (k, v));
        InsertMultiset(o, before, (k, v));
      case Take(k, v) =>
        RemoveIsSorted(o, before, (k, v));
        RemoveMultiset(before, (k, v));
    }
  }

  /** Every run of inserts and deletes, for any heights, keeps the whole structure valid. */
  method Perform<K(!new), V(!new)>(list: SkipList<K, V>, ops: seq<ListOp<K, V>>)
    requires list.Valid()
    requires forall i :: 0 <= i < |ops| && ops[i].Put? ==> 1 <= ops[i].height <= MAX_LEVEL
    modifies list
    ensures list.Valid() && list.contents == Outcome(list.order, old(list.contents), ops)
  {
    for i := 0 to |ops|
      invariant list.Valid() && list.contents == Outcome(list.order, old(list.contents), ops[..i])
    {
      assert ops[..i + 1][..i] == ops[..i];
      match ops[i]
      case Put(k, v, h) => list.Insert(k, v, h);
      case Take(k, v) => var _ := list.Delete(k, v);
    }
    assert ops[..|ops|] == ops;
  }
}
