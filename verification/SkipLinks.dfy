/**
  The link structure of `skiplist.rs` as a value: the level vectors of the node arena
  ("towers"), and the arena slots in list order.  Rank 0 is the header, rank r is the r-th
  data node.
 */
module SkipLinks {
  import opened Wrappers

  const MAX_LEVEL: nat := 32

  datatype Level = Level(forward: Option<nat>, span: nat)

  // --- one level, over the heights by rank ------------------------------------------

  /** No node strictly between ranks r and k is on level l. */
  ghost predicate Gap(hs: seq<nat>, l: nat, r: nat, k: nat)
    requires k <= |hs|
  {
    forall j :: r < j < k ==> hs[j] <= l
  }

  /**
    A level-l link of rank r goes to the next node on level l and its span is the distance
    to it; where there is none, the span is the distance to the last node.
   */
  ghost predicate LinkOk(hs: seq<nat>, idx: seq<nat>, l: nat, r: nat, lv: Level)
    requires |hs| == |idx| && r < |idx|
  {
    match lv.forward
    case Some(f) =>
      && 1 <= lv.span && r + lv.span < |idx|
      && idx[r + lv.span] == f && l < hs[r + lv.span]
      && Gap(hs, l, r, r + lv.span)
    case None =>
      && lv.span == |idx| - 1 - r
      && Gap(hs, l, r, |idx|)
  }

  /** t is s with x put in at position i. */
  ghost predicate Inserted<T>(s: seq<T>, t: seq<T>, i: nat, x: T) {
    && i <= |s| && |t| == |s| + 1
    && forall j {:trigger t[j]} :: 0 <= j < |t| ==> t[j] == if j < i then s[j] else if j == i then x else s[j - 1]
  }

  /** t is s without its element at position i. */
  ghost predicate Removed<T>(s: seq<T>, t: seq<T>, i: nat) {
    && i < |s| && |t| == |s| - 1
    && forall j {:trigger t[j]} :: 0 <= j < |t| ==> t[j] == if j < i then s[j] else s[j + 1]
  }

  /** The new node takes over the predecessor's link, shortened by the distance between them. */
  function NewLink(previous: Level, distance: nat): Level {
    Level(previous.forward, if distance <= previous.span then previous.span - distance else 0)
  }

  /** A node of height h > l goes in after rank q; r is the last rank up to q on level l. */
  lemma LinkAround(hs: seq<nat>, idx: seq<nat>, hs': seq<nat>, idx': seq<nat>, l: nat, r: nat, lv: Level, q: nat, slot: nat, h: nat)
    requires |hs| == |idx| && r <= q < |idx| && LinkOk(hs, idx, l, r, lv) && Gap(hs, l, r, q + 1) && l < h
    requires Inserted(hs, hs', q + 1, h) && Inserted(idx, idx', q + 1, slot)
    ensures q - r <= lv.span
    ensures LinkOk(hs', idx', l, q + 1, NewLink(lv, q - r))
    ensures LinkOk(hs', idx', l, r, Level(Some(slot), q - r + 1))
  {
  }

  /** A node not on level l goes in after rank q: the link over it grows by one. */
  lemma LinkOver(hs: seq<nat>, idx: seq<nat>, hs': seq<nat>, idx': seq<nat>, l: nat, r: nat, lv: Level, q: nat, slot: nat, h: nat)
    requires |hs| == |idx| && r <= q < |idx| && LinkOk(hs, idx, l, r, lv) && Gap(hs, l, r, q + 1) && h <= l
    requires Inserted(hs, hs', q + 1, h) && Inserted(idx, idx', q + 1, slot)
    ensures LinkOk(hs', idx', l, r, lv.(span := lv.span + 1))
  {
  }

  /** Links that end before the new node or start after it stay as they are. */
  lemma LinkElsewhere(hs: seq<nat>, idx: seq<nat>, hs': seq<nat>, idx': seq<nat>, l: nat, r: nat, lv: Level, q: nat, slot: nat, h: nat, p: nat)
    requires |hs| == |idx| && r < |idx| && q < |idx| && LinkOk(hs, idx, l, r, lv)
    requires p <= q && l < hs[p] && l < hs[r] && r != p && Gap(hs, l, p, q + 1)
    requires Inserted(hs, hs', q + 1, h) && Inserted(idx, idx', q + 1, slot)
    ensures LinkOk(hs', idx', l, if r <= q then r else r + 1, lv)
  {
    if r <= q {
      assert r < p;
    }
  }

  // --- the whole structure ------------------------------------------------------------

  ghost predicate Distinct(idx: seq<nat>) {
    forall r: nat, k: nat | r < |idx| && k < |idx| && r != k :: Differ(idx, r, k)
  }

  ghost predicate Differ(idx: seq<nat>, r: nat, k: nat)
    requires r < |idx| && k < |idx|
  {
    idx[r] != idx[k]
  }

  /** `idx` lists arena slots, header first, and `hs` their heights; the header has 32 levels, data nodes 1 to 32. */
  ghost predicate Shape(towers: seq<seq<Level>>, idx: seq<nat>, hs: seq<nat>) {
    && 1 <= |idx| == |hs| && idx[0] == 0 && hs[0] == MAX_LEVEL
    && (forall r :: 0 <= r < |idx| ==> idx[r] < |towers| && hs[r] == |towers[idx[r]]|)
    && (forall r :: 1 <= r < |idx| ==> 1 <= hs[r] <= MAX_LEVEL)
  }

  ghost predicate LinkAt(towers: seq<seq<Level>>, idx: seq<nat>, hs: seq<nat>, r: nat, l: nat)
    requires Shape(towers, idx, hs) && r < |idx|
  {
    l < hs[r] ==> LinkOk(hs, idx, l, r, towers[idx[r]][l])
  }

  /** Levels below `level` are linked as above; no data node is taller, and the header has nothing above. */
  ghost predicate Linked(towers: seq<seq<Level>>, idx: seq<nat>, hs: seq<nat>, level: nat) {
    && Shape(towers, idx, hs)
    && 1 <= level <= MAX_LEVEL
    && (forall r :: 1 <= r < |idx| ==> hs[r] <= level)
    && (forall l :: level <= l < MAX_LEVEL ==> towers[0][l].forward.None?)
    && (forall r: nat, l: nat | r < |idx| && l < level :: LinkAt(towers, idx, hs, r, l))
  }

  /**
    The outcome of a descent that stops after rank q: on each level l below `level`, `rank[l]`
    is the last rank up to q that is on level l, and `update[l]` is its arena slot.
   */
  ghost predicate Preds(idx: seq<nat>, hs: seq<nat>, level: nat, q: nat, update: seq<nat>, rank: seq<nat>) {
    && q < |idx| == |hs| && level <= MAX_LEVEL == |update| == |rank|
    && (forall l: nat | l < level :: PredAt(idx, hs, q, update[l], rank[l], l))
  }

  ghost predicate PredAt(idx: seq<nat>, hs: seq<nat>, q: nat, slot: nat, rank: nat, l: nat)
    requires q < |idx| == |hs|
  {
    rank <= q && slot == idx[rank] && l < hs[rank] && Gap(hs, l, rank, q + 1)
  }

  ghost predicate SameHeights(a: seq<seq<Level>>, b: seq<seq<Level>>) {
    |a| <= |b| && forall i :: 0 <= i < |a| ==> |a[i]| == |b[i]|
  }

  // --- insertion -------------------------------------------------------------------

  /** Levels below m have been relinked around the new node in the last arena slot; the others are as before. */
  ghost predicate Spliced(a: seq<seq<Level>>, b: seq<seq<Level>>, level: nat, q: nat, update: seq<nat>, rank: seq<nat>, m: nat)
  {
    && |b| == |a| + 1 && SameHeights(a, b) && 1 <= |b[|a|]| <= level
    && m <= level <= MAX_LEVEL == |update| == |rank|
    && (forall l: nat | l < m :: Relinked(a, b, q, update[l], rank[l], l))
    && (forall i: nat, l: nat | i < |a| && (m <= l || i != update[l]) :: Kept(a, b, i, l))
  }

  ghost predicate Relinked(a: seq<seq<Level>>, b: seq<seq<Level>>, q: nat, slot: nat, rank: nat, l: nat)
    requires |b| == |a| + 1
  {
    && slot < |a| && rank <= q && l < |a[slot]| && l < |b[slot]|
    && (l < |b[|a|]| ==>
          && b[|a|][l] == NewLink(a[slot][l], q - rank)
          && b[slot][l] == Level(Some(|a|), q - rank + 1))
    && (|b[|a|]| <= l ==> b[slot][l] == a[slot][l].(span := a[slot][l].span + 1))
  }

  ghost predicate Kept(a: seq<seq<Level>>, b: seq<seq<Level>>, i: nat, l: nat)
    requires i < |a| && i < |b|
  {
    l < |a[i]| && l < |b[i]| ==> b[i][l] == a[i][l]
  }

  lemma InsertedShape(a: seq<seq<Level>>, b: seq<seq<Level>>, idx: seq<nat>, hs: seq<nat>, idx': seq<nat>, hs': seq<nat>, q: nat)
    requires Shape(a, idx, hs) && q < |idx| && |b| == |a| + 1 && SameHeights(a, b) && 1 <= |b[|a|]| <= MAX_LEVEL
    requires Inserted(idx, idx', q + 1, |a|) && Inserted(hs, hs', q + 1, |b[|a|]|)
    ensures Shape(b, idx', hs')
  {
  }

  lemma InsertedLink(a: seq<seq<Level>>, b: seq<seq<Level>>, idx: seq<nat>, hs: seq<nat>, idx': seq<nat>, hs': seq<nat>,
                     level: nat, q: nat, update: seq<nat>, rank: seq<nat>, r': nat, l: nat)
    requires Linked(a, idx, hs, level) && Distinct(idx) && Preds(idx, hs, level, q, update, rank)
    requires Spliced(a, b, level, q, update, rank, level)
    requires Inserted(idx, idx', q + 1, |a|) && Inserted(hs, hs', q + 1, |b[|a|]|) && Shape(b, idx', hs')
    requires r' < |idx'| && l < level
    ensures LinkAt(b, idx', hs', r', l)
  {
    var h, p := |b[|a|]|, rank[l];
    assert PredAt(idx, hs, q, update[l], p, l) && Relinked(a, b, q, update[l], p, l) && LinkAt(a, idx, hs, p, l);
    var lv := a[idx[p]][l];
    assert idx'[p] == idx[p];
    if r' == q + 1 || (r' == p && l < h) {
      if l < h {
        LinkAround(hs, idx, hs', idx', l, p, lv, q, |a|, h);
      }
    } else if r' == p {
      LinkOver(hs, idx, hs', idx', l, p, lv, q, |a|, h);
    } else if l < hs'[r'] {
      var r := if r' <= q then r' else r' - 1;
      assert idx'[r'] == idx[r] && hs'[r'] == hs[r] && Differ(idx, r, p);
      assert Kept(a, b, idx[r], l) && LinkAt(a, idx, hs, r, l);
      LinkElsewhere(hs, idx, hs', idx', l, r, a[idx[r]][l], q, |a|, h, p);
    }
  }

  lemma InsertedDistinct(idx: seq<nat>, idx': seq<nat>, i: nat, slot: nat)
    requires Distinct(idx) && Inserted(idx, idx', i, slot) && forall r :: 0 <= r < |idx| ==> idx[r] < slot
    ensures Distinct(idx')
  {
    forall r: nat, k: nat | r < |idx'| && k < |idx'| && r != k
      ensures Differ(idx', r, k)
    {
      if r != i && k != i {
        assert Differ(idx, if r < i then r else r - 1, if k < i then k else k - 1);
      }
    }
  }

  /** The new node and its predecessor share out the old span, plus the one step added: nothing saturated. */
  ghost predicate SharedSpan(a: seq<seq<Level>>, b: seq<seq<Level>>, slot: nat, l: nat) {
    && |a| < |b| && slot < |a| && l < |a[slot]| && l < |b[slot]| && l < |b[|a|]|
    && b[|a|][l].span + b[slot][l].span == a[slot][l].span + 1
  }

  lemma SplicedShares(a: seq<seq<Level>>, b: seq<seq<Level>>, idx: seq<nat>, hs: seq<nat>, idx': seq<nat>, hs': seq<nat>,
                      level: nat, q: nat, update: seq<nat>, rank: seq<nat>, l: nat)
    requires Linked(a, idx, hs, level) && Distinct(idx) && Preds(idx, hs, level, q, update, rank)
    requires Spliced(a, b, level, q, update, rank, level) && l < level && l < |b[|a|]|
    requires Inserted(idx, idx', q + 1, |a|) && Inserted(hs, hs', q + 1, |b[|a|]|)
    ensures SharedSpan(a, b, update[l], l)
  {
    var p := rank[l];
    assert PredAt(idx, hs, q, update[l], p, l) && Relinked(a, b, q, update[l], p, l) && LinkAt(a, idx, hs, p, l);
    LinkAround(hs, idx, hs', idx', l, p, a[idx[p]][l], q, |a|, |b[|a|]|);
  }

  /** Splicing a node in after rank q keeps every level linked, and no subtraction of a span saturates. */
  lemma InsertedLinked(a: seq<seq<Level>>, b: seq<seq<Level>>, idx: seq<nat>, hs: seq<nat>, idx': seq<nat>, hs': seq<nat>,
                       level: nat, q: nat, update: seq<nat>, rank: seq<nat>)
    requires Linked(a, idx, hs, level) && Distinct(idx) && Preds(idx, hs, level, q, update, rank)
    requires Spliced(a, b, level, q, update, rank, level)
    requires Inserted(idx, idx', q + 1, |a|) && Inserted(hs, hs', q + 1, |b[|a|]|)
    ensures Linked(b, idx', hs', level) && Distinct(idx')
    ensures forall l: nat | l < |b[|a|]| :: SharedSpan(a, b, update[l], l)
  {
    forall l: nat | l < |b[|a|]|
      ensures SharedSpan(a, b, update[l], l)
    {
      SplicedShares(a, b, idx, hs, idx', hs', level, q, update, rank, l);
    }
    InsertedShape(a, b, idx, hs, idx', hs', q);
    InsertedDistinct(idx, idx', q + 1, |a|);
    forall r': nat, l: nat | r' < |idx'| && l < level
      ensures LinkAt(b, idx', hs', r', l)
    {
      InsertedLink(a, b, idx, hs, idx', hs', level, q, update, rank, r', l);
    }
    forall l | level <= l < MAX_LEVEL
      ensures b[0][l].forward.None?
    {
      assert Kept(a, b, 0, l);
    }
  }

  // --- deletion ----------------------------------------------------------------------

  /** The predecessor's link once the target, with tower `t`, is taken out. */
  function WithoutTarget(lv: Level, target: nat, t: seq<Level>, l: nat): Level {
    if lv.forward == Some(target)
    then Level(if l < |t| then t[l].forward else None, SatSub(lv.span + (if l < |t| then t[l].span else 0), 1))
    else lv.(span := SatSub(lv.span, 1))
  }

  /** Rank q + 1 goes; r is the last rank up to q on level l. */
  lemma UnlinkAround(hs: seq<nat>, idx: seq<nat>, hs': seq<nat>, idx': seq<nat>, l: nat, r: nat, lv: Level, q: nat, t: seq<Level>)
    requires |hs| == |idx| && r <= q && q + 1 < |idx| && LinkOk(hs, idx, l, r, lv) && Gap(hs, l, r, q + 1)
    requires hs[q + 1] == |t| && (l < |t| ==> LinkOk(hs, idx, l, q + 1, t[l])) && Distinct(idx)
    requires Removed(hs, hs', q + 1) && Removed(idx, idx', q + 1)
    ensures lv.forward == Some(idx[q + 1]) <==> l < |t|
    ensures 1 <= lv.span && LinkOk(hs', idx', l, r, WithoutTarget(lv, idx[q + 1], t, l))
  {
    if lv.forward.Some? && r + lv.span != q + 1 {
      assert Differ(idx, r + lv.span, q + 1);
    }
  }

  lemma UnlinkElsewhere(hs: seq<nat>, idx: seq<nat>, hs': seq<nat>, idx': seq<nat>, l: nat, r: nat, lv: Level, q: nat, p: nat)
    requires |hs| == |idx| && r < |idx| && q + 1 < |idx| && LinkOk(hs, idx, l, r, lv)
    requires p <= q && l < hs[p] && l < hs[r] && r != p && r != q + 1 && Gap(hs, l, p, q + 1)
    requires Removed(hs, hs', q + 1) && Removed(idx, idx', q + 1)
    ensures LinkOk(hs', idx', l, if r <= q then r else r - 1, lv)
  {
    if r <= q {
      assert r < p;
    }
  }

  /** Levels below m have been relinked past the target; the others are as before. */
  ghost predicate Unspliced(a: seq<seq<Level>>, b: seq<seq<Level>>, level: nat, target: nat, update: seq<nat>, m: nat) {
    && |b| == |a| && SameHeights(a, b) && target < |a|
    && m <= level <= MAX_LEVEL == |update|
    && (forall l: nat | l < m :: Unlinked(a, b, target, update[l], l))
    && (forall i: nat, l: nat | i < |a| && (m <= l || i != update[l]) :: Kept(a, b, i, l))
  }

  ghost predicate Unlinked(a: seq<seq<Level>>, b: seq<seq<Level>>, target: nat, slot: nat, l: nat)
    requires |b| == |a| && target < |a|
  {
    && slot < |a| && l < |a[slot]| && l < |b[slot]|
    && b[slot][l] == WithoutTarget(a[slot][l], target, a[target], l)
  }

  /** The span is what plain subtraction gives, written as a sum: nothing saturated. */
  ghost predicate ExactSpan(a: seq<seq<Level>>, b: seq<seq<Level>>, target: nat, slot: nat, l: nat) {
    && target < |a| && slot < |a| && slot < |b| && l < |a[slot]| && l < |b[slot]|
    && b[slot][l].span + 1
      == a[slot][l].span + (if a[slot][l].forward == Some(target) && l < |a[target]| then a[target][l].span else 0)
  }

  lemma RelinkedExact(a: seq<seq<Level>>, b: seq<seq<Level>>, idx: seq<nat>, hs: seq<nat>, idx': seq<nat>, hs': seq<nat>,
                      level: nat, q: nat, update: seq<nat>, rank: seq<nat>, l: nat)
    requires Linked(a, idx, hs, level) && Distinct(idx) && Preds(idx, hs, level, q, update, rank) && q + 1 < |idx|
    requires Unspliced(a, b, level, idx[q + 1], update, level) && l < level
    requires Removed(idx, idx', q + 1) && Removed(hs, hs', q + 1)
    ensures ExactSpan(a, b, idx[q + 1], update[l], l)
  {
    var p := rank[l];
    assert PredAt(idx, hs, q, update[l], p, l) && Unlinked(a, b, idx[q + 1], update[l], l);
    assert LinkAt(a, idx, hs, p, l) && LinkAt(a, idx, hs, q + 1, l);
    UnlinkAround(hs, idx, hs', idx', l, p, a[idx[p]][l], q, a[idx[q + 1]]);
  }

  lemma RemovedLink(a: seq<seq<Level>>, b: seq<seq<Level>>, idx: seq<nat>, hs: seq<nat>, idx': seq<nat>, hs': seq<nat>,
                    level: nat, q: nat, update: seq<nat>, rank: seq<nat>, r': nat, l: nat)
    requires Linked(a, idx, hs, level) && Distinct(idx) && Preds(idx, hs, level, q, update, rank) && q + 1 < |idx|
    requires Unspliced(a, b, level, idx[q + 1], update, level)
    requires Removed(idx, idx', q + 1) && Removed(hs, hs', q + 1) && Shape(b, idx', hs')
    requires r' < |idx'| && l < level
    ensures LinkAt(b, idx', hs', r', l)
  {
    var p := rank[l];
    assert PredAt(idx, hs, q, update[l], p, l) && Unlinked(a, b, idx[q + 1], update[l], l);
    assert LinkAt(a, idx, hs, p, l) && LinkAt(a, idx, hs, q + 1, l);
    if r' == p {
      assert idx'[p] == idx[p];
      UnlinkAround(hs, idx, hs', idx', l, p, a[idx[p]][l], q, a[idx[q + 1]]);
    } else if l < hs'[r'] {
      var r := if r' <= q then r' else r' + 1;
      assert idx'[r'] == idx[r] && hs'[r'] == hs[r] && Differ(idx, r, p);
      assert Kept(a, b, idx[r], l) && LinkAt(a, idx, hs, r, l);
      UnlinkElsewhere(hs, idx, hs', idx', l, r, a[idx[r]][l], q, p);
    }
  }

  lemma RemovedDistinct(idx: seq<nat>, idx': seq<nat>, i: nat)
    requires Distinct(idx) && Removed(idx, idx', i)
    ensures Distinct(idx')
  {
    forall r: nat, k: nat | r < |idx'| && k < |idx'| && r != k
      ensures Differ(idx', r, k)
    {
      assert Differ(idx, if r < i then r else r + 1, if k < i then k else k + 1);
    }
  }

  /** Taking the node after rank q out keeps every level linked, and no subtraction of a span saturates. */
  lemma RemovedLinked(a: seq<seq<Level>>, b: seq<seq<Level>>, idx: seq<nat>, hs: seq<nat>, idx': seq<nat>, hs': seq<nat>,
                      level: nat, q: nat, update: seq<nat>, rank: seq<nat>)
    requires Linked(a, idx, hs, level) && Distinct(idx) && Preds(idx, hs, level, q, update, rank) && q + 1 < |idx|
    requires Unspliced(a, b, level, idx[q + 1], update, level)
    requires Removed(idx, idx', q + 1) && Removed(hs, hs', q + 1)
    ensures Linked(b, idx', hs', level) && Distinct(idx')
    ensures forall l: nat | l < level :: ExactSpan(a, b, idx[q + 1], update[l], l)
  {
    forall l: nat | l < level
      ensures ExactSpan(a, b, idx[q + 1], update[l], l)
    {
      RelinkedExact(a, b, idx, hs, idx', hs', level, q, update, rank, l);
    }
    assert Shape(b, idx', hs');
    RemovedDistinct(idx, idx', q + 1);
    forall r': nat, l: nat | r' < |idx'| && l < level
      ensures LinkAt(b, idx', hs', r', l)
    {
      RemovedLink(a, b, idx, hs, idx', hs', level, q, update, rank, r', l);
    }
    forall l | level <= l < MAX_LEVEL
      ensures b[0][l].forward.None?
    {
      assert Kept(a, b, 0, l);
    }
  }

  /** An empty top level can be dropped. */
  lemma LoweredLinked(a: seq<seq<Level>>, idx: seq<nat>, hs: seq<nat>, level: nat)
    requires Linked(a, idx, hs, level) && 1 < level && a[0][level - 1].forward.None?
    ensures Linked(a, idx, hs, level - 1)
  {
    assert LinkAt(a, idx, hs, 0, level - 1);
  }

  /** Empty levels can be added on top, once the header's spans there reach the end of the list. */
  lemma RaisedLinked(a: seq<seq<Level>>, b: seq<seq<Level>>, idx: seq<nat>, hs: seq<nat>, level: nat, height: nat)
    requires Linked(a, idx, hs, level) && Distinct(idx) && level <= height <= MAX_LEVEL
    requires |a| == |b| && (forall i :: 1 <= i < |a| ==> a[i] == b[i]) && |b[0]| == MAX_LEVEL
    requires forall l :: 0 <= l < MAX_LEVEL ==>
      b[0][l] == if level <= l < height then Level(a[0][l].forward, |idx| - 1) else a[0][l]
    ensures Linked(b, idx, hs, height)
  {
    forall r: nat, l: nat | r < |idx| && l < height
      ensures LinkAt(b, idx, hs, r, l)
    {
      if r != 0 {
        assert Differ(idx, 0, r);
      }
      if l < level {
        assert LinkAt(a, idx, hs, r, l);
      }
    }
  }
}
