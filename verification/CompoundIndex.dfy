/** The compound indexes of `compound_index.rs`: documents grouped by one value and ordered by another. */
module CompoundIndexes {
  import opened Wrappers
  import opened Bytes
  import opened SortedPairs
  import opened ByteOrder
  import opened RangeSpec
  import opened Json
  import opened DateTimes

  datatype OrderType = ByNumber | ByText

  datatype OrderValue = NumberValue(n: real) | TextValue(codes: seq<nat>)

  /** The path to order by, and the same path as a datetime name. */
  datatype CompoundInfo = CompoundInfo(groupBy: seq<Token>, orderBy: seq<Token>, orderName: string, orderType: OrderType)

  datatype Compound = Compound(info: CompoundInfo, groups: map<string, seq<(OrderValue, bytes)>>, byPk: map<bytes, (string, OrderValue)>)

  datatype Document = Document(json: Json, datetimes: Option<Stamps>)

  datatype CompoundError = NotFound(name: string)

  function CompareOrder(a: OrderValue, b: OrderValue): Ordering {
    match (a, b)
    case (NumberValue(x), NumberValue(y)) => if x < y then Less else if x == y then Equal else Greater
    case (TextValue(x), TextValue(y)) => CompareCodes(x, y)
    case (NumberValue(_), TextValue(_)) => Less
    case (TextValue(_), NumberValue(_)) => Greater
  }

  const GROUP_ORDER: Order<OrderValue, bytes> := Order(CompareOrder, CompareBytes)

  lemma GroupsTotal()
    ensures GROUP_ORDER.Total()
  {
    BytesTotal();
    forall a: OrderValue, b: OrderValue
      ensures CompareOrder(a, b).Equal? <==> a == b
      ensures CompareOrder(a, b).Less? <==> CompareOrder(b, a).Greater?
    {
      if a.TextValue? && b.TextValue? {
        CompareEqual(a.codes, b.codes);
        CompareSwaps(a.codes, b.codes);
      }
    }
    forall a: OrderValue, b: OrderValue, c: OrderValue
      ensures Chains(CompareOrder, a, b, c)
    {
      if a.TextValue? && b.TextValue? && c.TextValue? {
        CompareChains(a.codes, b.codes, c.codes);
      }
    }
  }

  // --- where a document belongs -----------------------------------------------------------------

  function Codes(s: string): (r: seq<nat>)
    ensures |r| == |s| && forall i :: 0 <= i < |s| ==> r[i] == s[i] as nat
  {
    if s == [] then [] else [s[0] as nat] + Codes(s[1..])
  }

  function OrderValueOf(v: Json, t: OrderType): Option<OrderValue> {
    match t
    case ByNumber => if v.Number? then Some(NumberValue(v.n)) else None
    case ByText => if v.Text? then Some(TextValue(Codes(v.s))) else None
  }

  /** Datetimes take precedence over document fields, and count as numbers. */
  function OrderOf(info: CompoundInfo, d: Document): Option<OrderValue> {
    if d.datetimes.Some? && info.orderName in d.datetimes.value then Some(NumberValue(d.datetimes.value[info.orderName] as real))
    else
      var v := GetPath(d.json, info.orderBy);
      if v.Some? then OrderValueOf(v.value, info.orderType) else None
  }

  predicate ValidOrder(v: OrderValue, t: OrderType) {
    (v.NumberValue? && t.ByNumber?) || (v.TextValue? && t.ByText?)
  }

  /** The group and order value of a document, if it has both and the order value fits the index. */
  function Placement(info: CompoundInfo, canon: Json -> string, d: Document): Option<(string, OrderValue)> {
    var g := GetPath(d.json, info.groupBy);
    var o := OrderOf(info, d);
    if g.Some? && !g.value.Null? && o.Some? && ValidOrder(o.value, info.orderType) then Some((canon(g.value), o.value)) else None
  }

  /**
    Where a document belongs, said outright.  It needs a group that is not null.  A number order
    takes the datetime of that name if there is one, else a number in the document; a text order
    takes a text in the document, and nothing if there is such a datetime.
   */
  lemma PlacementSaid(info: CompoundInfo, canon: Json -> string, d: Document, g: string, o: OrderValue)
    ensures Placement(info, canon, d) == Some((g, o)) <==>
      && GetPath(d.json, info.groupBy).Some? && GetPath(d.json, info.groupBy).value != Null && g == canon(GetPath(d.json, info.groupBy).value)
      && if d.datetimes.Some? && info.orderName in d.datetimes.value
         then info.orderType.ByNumber? && o == NumberValue(d.datetimes.value[info.orderName] as real)
         else if info.orderType.ByNumber?
         then o.NumberValue? && GetPath(d.json, info.orderBy) == Some(Number(o.n))
         else exists s :: GetPath(d.json, info.orderBy) == Some(Text(s)) && o == TextValue(Codes(s))
  {
    var v := GetPath(d.json, info.orderBy);
    if v.Some? && v.value.Text? {
      assert v == Some(Text(v.value.s));
    }
  }

  /** Numbers before texts, numbers by size, texts lexicographically. */
  lemma OrderSaid(a: OrderValue, b: OrderValue)
    ensures CompareOrder(a, b).Less? <==>
      || (a.NumberValue? && b.TextValue?)
      || (a.NumberValue? && b.NumberValue? && a.n < b.n)
      || (a.TextValue? && b.TextValue? && exists i: nat :: DiffersAt(a.codes, b.codes, i) && i < |b.codes| && (i < |a.codes| ==> a.codes[i] < b.codes[i]))
  {
    if a.TextValue? && b.TextValue? {
      Lexicographic(a.codes, b.codes);
    }
  }

  ghost function Placements(info: CompoundInfo, canon: Json -> string, docs: map<bytes, Document>): map<bytes, (string, OrderValue)> {
    map pk | pk in docs && Placement(info, canon, docs[pk]).Some? :: Placement(info, canon, docs[pk]).value
  }

  // --- what an index says -----------------------------------------------------------------------

  ghost function Members(byPk: map<bytes, (string, OrderValue)>, g: string): set<(OrderValue, bytes)> {
    set pk | pk in byPk && byPk[pk].0 == g :: (byPk[pk].1, pk)
  }

  /** A group that is not there is an empty one; removal may also leave an empty one behind. */
  function GroupAt(groups: map<string, seq<(OrderValue, bytes)>>, g: string): seq<(OrderValue, bytes)> {
    if g in groups then groups[g] else []
  }

  ghost predicate GroupsShow(groups: map<string, seq<(OrderValue, bytes)>>, byPk: map<bytes, (string, OrderValue)>) {
    forall g :: Shows(GROUP_ORDER, GroupAt(groups, g), Members(byPk, g))
  }

  ghost predicate Reflects(x: Compound, canon: Json -> string, docs: map<bytes, Document>) {
    x.byPk == Placements(x.info, canon, docs) && GroupsShow(x.groups, x.byPk)
  }

  /** The same definition and documents give the same groups and so the same answers. */
  lemma ReflectsUnique(x: Compound, y: Compound, canon: Json -> string, docs: map<bytes, Document>, g: string)
    requires Reflects(x, canon, docs) && Reflects(y, canon, docs) && x.info == y.info
    ensures x.byPk == y.byPk && GroupAt(x.groups, g) == GroupAt(y.groups, g)
  {
    hide Shows, Placements, Members;
    GroupsTotal();
    ShowsUnique(GROUP_ORDER, GroupAt(x.groups, g), GroupAt(y.groups, g), Members(x.byPk, g));
  }

  lemma MembersSaid(info: CompoundInfo, canon: Json -> string, docs: map<bytes, Document>, g: string)
    ensures forall e :: e in Members(Placements(info, canon, docs), g) <==> e.1 in docs && Placement(info, canon, docs[e.1]) == Some((g, e.0))
  {
    hide Placement;
    var byPk := Placements(info, canon, docs);
    forall e
      ensures e in Members(byPk, g) <==> e.1 in byPk && byPk[e.1] == (g, e.0)
    {
    }
  }

  lemma MembersDrop(byPk: map<bytes, (string, OrderValue)>, pk: bytes, g: string)
    ensures pk in byPk && byPk[pk].0 == g ==> Members(byPk - {pk}, g) == Members(byPk, g) - {(byPk[pk].1, pk)}
    ensures !(pk in byPk && byPk[pk].0 == g) ==> Members(byPk - {pk}, g) == Members(byPk, g)
  {
    forall e
      ensures e in Members(byPk - {pk}, g) <==> e in Members(byPk, g) && e.1 != pk
    {
      assert e.1 in byPk - {pk} <==> e.1 in byPk && e.1 != pk;
    }
  }

  lemma MembersPut(byPk: map<bytes, (string, OrderValue)>, pk: bytes, p: (string, OrderValue), g: string)
    requires pk !in byPk
    ensures p.0 == g ==> Members(byPk[pk := p], g) == Members(byPk, g) + {(p.1, pk)} && (p.1, pk) !in Members(byPk, g)
    ensures p.0 != g ==> Members(byPk[pk := p], g) == Members(byPk, g)
  {
    forall e
      ensures e in Members(byPk[pk := p], g) <==> e in Members(byPk, g) || (p.0 == g && e == (p.1, pk))
    {
      assert e.1 in byPk[pk := p] <==> e.1 in byPk || e.1 == pk;
    }
  }

  /** Takes a placed key out of its group; an empty group goes only when asked to. */
  method TakeOut(groups: map<string, seq<(OrderValue, bytes)>>, byPk: map<bytes, (string, OrderValue)>, pk: bytes, dropEmpty: bool) returns (after: map<string, seq<(OrderValue, bytes)>>)
    requires GroupsShow(groups, byPk)
    ensures GroupsShow(after, byPk - {pk})
  {
    hide Shows, Members;
    GroupsTotal();
    after := groups;
    if pk in byPk && byPk[pk].0 in groups {
      var list := Remove(groups[byPk[pk].0], (byPk[pk].1, pk));
      after := if dropEmpty && list == [] then groups - {byPk[pk].0} else groups[byPk[pk].0 := list];
    }
    forall g
      ensures Shows(GROUP_ORDER, GroupAt(after, g), Members(byPk - {pk}, g))
    {
      assert Shows(GROUP_ORDER, GroupAt(groups, g), Members(byPk, g));
      MembersDrop(byPk, pk, g);
      if pk in byPk && byPk[pk].0 == g {
        ShowsRemove(GROUP_ORDER, GroupAt(groups, g), Members(byPk, g), (byPk[pk].1, pk));
        RemoveFromNone((byPk[pk].1, pk));
      }
    }
  }

  lemma RemoveFromNone(e: (OrderValue, bytes))
    ensures Remove([], e) == []
  {
  }

  method PutIn(groups: map<string, seq<(OrderValue, bytes)>>, byPk: map<bytes, (string, OrderValue)>, pk: bytes, p: (string, OrderValue)) returns (after: map<string, seq<(OrderValue, bytes)>>)
    requires GroupsShow(groups, byPk) && pk !in byPk
    ensures GroupsShow(after, byPk[pk := p])
  {
    hide Shows, Members, Insert;
    GroupsTotal();
    after := groups[p.0 := Insert(GROUP_ORDER, GroupAt(groups, p.0), (p.1, pk))];
    forall g
      ensures Shows(GROUP_ORDER, GroupAt(after, g), Members(byPk[pk := p], g))
    {
      assert Shows(GROUP_ORDER, GroupAt(groups, g), Members(byPk, g));
      MembersPut(byPk, pk, p, g);
      if p.0 == g {
        ShowsInsert(GROUP_ORDER, GroupAt(groups, g), Members(byPk, g), (p.1, pk));
      }
    }
  }

  /** Adds or replaces a document; an unchanged placement is left alone. */
  method AddTo(x: Compound, canon: Json -> string, pk: bytes, d: Document, ghost docs: map<bytes, Document>) returns (y: Compound)
    requires Reflects(x, canon, docs)
    ensures y.info == x.info && Reflects(y, canon, docs[pk := d])
  {
    hide GroupsShow, Placement, Members, GroupAt;
    var p := Placement(x.info, canon, d);
    if pk in x.byPk && p.Some? && x.byPk[pk] == p.value {
      assert Placements(x.info, canon, docs[pk := d]) == x.byPk;
      return x;
    }
    var groups := TakeOut(x.groups, x.byPk, pk, true);
    var byPk := x.byPk - {pk};
    if p.Some? {
      groups := PutIn(groups, byPk, pk, p.value);
      byPk := byPk[pk := p.value];
    }
    assert Placements(x.info, canon, docs[pk := d]) == byPk;
    y := Compound(x.info, groups, byPk);
  }

  method RemoveFrom(x: Compound, canon: Json -> string, pk: bytes, ghost docs: map<bytes, Document>) returns (y: Compound)
    requires Reflects(x, canon, docs)
    ensures y.info == x.info && Reflects(y, canon, docs - {pk})
  {
    hide GroupsShow, Placement, Members, GroupAt;
    var groups := TakeOut(x.groups, x.byPk, pk, false);
    assert Placements(x.info, canon, docs - {pk}) == x.byPk - {pk};
    y := Compound(x.info, groups, x.byPk - {pk});
  }

  // --- the manager ----------------------------------------------------------------------------

  type Compounds = map<string, Compound>

  ghost predicate AllReflect(f: Compounds, canon: Json -> string, docs: map<bytes, Document>) {
    forall name :: name in f ==> Reflects(f[name], canon, docs)
  }

  ghost predicate SameShape(f: Compounds, g: Compounds) {
    f.Keys == g.Keys && forall name :: name in f ==> f[name].info == g[name].info
  }

  lemma ShapeChain(f: Compounds, g: Compounds, h: Compounds)
    requires SameShape(g, f) && SameShape(h, g)
    ensures SameShape(h, f)
  {
  }

  method AddToAll(f: Compounds, canon: Json -> string, pk: bytes, d: Document, ghost docs: map<bytes, Document>) returns (g: Compounds)
    requires AllReflect(f, canon, docs)
    ensures AllReflect(g, canon, docs[pk := d]) && SameShape(g, f)
  {
    hide Reflects;
    g := map[];
    var todo := f.Keys;
    while todo != {}
      invariant todo <= f.Keys && g.Keys == f.Keys - todo && AllReflect(g, canon, docs[pk := d])
      invariant forall name :: name in g ==> g[name].info == f[name].info
      decreases |todo|
    {
      var name :| name in todo;
      var x := AddTo(f[name], canon, pk, d, docs);
      g := g[name := x];
      todo := todo - {name};
    }
  }

  method RemoveFromAll(f: Compounds, canon: Json -> string, pk: bytes, ghost docs: map<bytes, Document>) returns (g: Compounds)
    requires AllReflect(f, canon, docs)
    ensures AllReflect(g, canon, docs - {pk}) && SameShape(g, f)
  {
    hide Reflects;
    g := map[];
    var todo := f.Keys;
    while todo != {}
      invariant todo <= f.Keys && g.Keys == f.Keys - todo && AllReflect(g, canon, docs - {pk})
      invariant forall name :: name in g ==> g[name].info == f[name].info
      decreases |todo|
    {
      var name :| name in todo;
      var x := RemoveFrom(f[name], canon, pk, docs);
      g := g[name := x];
      todo := todo - {name};
    }
  }

  lemma EmptyReflects(x: Compound, canon: Json -> string)
    ensures Reflects(x.(groups := map[], byPk := map[]), canon, map[])
  {
    assert Placements(x.info, canon, map[]) == map[];
  }

  class CompoundIndexManager {
    var indexes: Compounds
    const canon: Json -> string
    ghost var docs: map<bytes, Document>

    ghost predicate Valid()
      reads this
    {
      AllReflect(indexes, canon, docs)
    }

    constructor (family: Compounds, canon: Json -> string)
      ensures Valid() && this.canon == canon && docs == map[] && SameShape(indexes, family)
    {
      this.canon := canon;
      indexes := map name | name in family :: family[name].(groups := map[], byPk := map[]);
      docs := map[];
      new;
      forall name | name in family
        ensures Reflects(indexes[name], canon, docs)
      {
        EmptyReflects(family[name], canon);
      }
    }

    method Add(pk: bytes, d: Document)
      requires Valid()
      modifies this
      ensures Valid() && docs == old(docs)[pk := d] && SameShape(indexes, old(indexes))
    {
      hide AllReflect, SameShape;
      indexes := AddToAll(indexes, canon, pk, d, docs);
      docs := docs[pk := d];
    }

    method Remove(pk: bytes)
      requires Valid()
      modifies this
      ensures Valid() && docs == old(docs) - {pk} && SameShape(indexes, old(indexes))
    {
      hide AllReflect, SameShape;
      indexes := RemoveFromAll(indexes, canon, pk, docs);
      docs := docs - {pk};
    }

    method Rebuild(entries: seq<(bytes, Document)>)
      modifies this
      ensures Valid() && docs == DocumentsOf(entries) && SameShape(indexes, old(indexes))
    {
      hide Reflects;
      forall name | name in indexes
        ensures Reflects(indexes[name].(groups := map[], byPk := map[]), canon, map[])
      {
        EmptyReflects(indexes[name], canon);
      }
      indexes := map name | name in indexes :: indexes[name].(groups := map[], byPk := map[]);
      docs := map[];
      assert entries[..0] == [];
      for i := 0 to |entries|
        invariant Valid() && docs == DocumentsOf(entries[..i]) && SameShape(indexes, old(indexes))
      {
        assert entries[..i + 1][..i] == entries[..i];
        Add(entries[i].0, entries[i].1);
      }
      assert entries[..|entries|] == entries;
    }

    /** The members of a group in a range, as filtering, reversing and paging the sorted group gives them. */
    method Range(name: string, group: Json, options: RangeOptions<OrderValue>) returns (r: Result<seq<(OrderValue, bytes)>, CompoundError>)
      requires Valid()
      ensures name !in indexes ==> r == Err(NotFound(name))
      ensures name in indexes ==>
        exists list :: Shows(GROUP_ORDER, list, Members(Placements(indexes[name].info, canon, docs), canon(group)))
                    && r == Ok(Wanted(CompareOrder, list, Effective(options)))
      ensures name in indexes ==> r.Ok? && Once(r.value) && forall i, j :: 0 <= i < j < |r.value| ==>
        if options.reverse then !CompareOrder(r.value[i].0, r.value[j].0).Less? else !CompareOrder(r.value[i].0, r.value[j].0).Greater?
      ensures name in indexes ==> forall e :: e in r.value ==>
        && e.1 in docs && Placement(indexes[name].info, canon, docs[e.1]) == Some((canon(group), e.0))
        && (options.gte.Some? ==> !CompareOrder(e.0, options.gte.value).Less?)
        && (options.gt.Some? && (options.reverse || options.gte.None?) ==> CompareOrder(e.0, options.gt.value).Greater?)
        && (options.lte.Some? ==> !CompareOrder(e.0, options.lte.value).Greater?)
        && (options.lt.Some? && (!options.reverse || options.lte.None?) ==> CompareOrder(e.0, options.lt.value).Less?)
      ensures name in indexes && options.offset == 0 && options.count.None? ==> forall e: (OrderValue, bytes) ::
        && e.1 in docs && Placement(indexes[name].info, canon, docs[e.1]) == Some((canon(group), e.0))
        && (options.gte.Some? ==> !CompareOrder(e.0, options.gte.value).Less?)
        && (options.gt.Some? && (options.reverse || options.gte.None?) ==> CompareOrder(e.0, options.gt.value).Greater?)
        && (options.lte.Some? ==> !CompareOrder(e.0, options.lte.value).Greater?)
        && (options.lt.Some? && (!options.reverse || options.lte.None?) ==> CompareOrder(e.0, options.lt.value).Less?)
        ==> e in r.value
    {
      hide Shows, Wanted, Effective, Placements, Members, Placement, CompareOrder, Once;
      GroupsTotal();
      if name !in indexes {
        return Err(NotFound(name));
      }
      var x := indexes[name];
      var g := canon(group);
      assert Reflects(x, canon, docs) && Shows(GROUP_ORDER, GroupAt(x.groups, g), Members(x.byPk, g));
      RangeOfSet(GROUP_ORDER, GroupAt(x.groups, g), Members(x.byPk, g), options);
      MembersSaid(x.info, canon, docs, g);
      if g !in x.groups {
        WantedNothing<OrderValue, bytes>(CompareOrder, Effective(options));
        return Ok([]);
      }
      r := Ok(Wanted(CompareOrder, x.groups[g], Effective(options)));
    }
  }

  function DocumentsOf(entries: seq<(bytes, Document)>): map<bytes, Document> {
    if entries == [] then map[]
    else DocumentsOf(entries[..|entries| - 1])[entries[|entries| - 1].0 := entries[|entries| - 1].1]
  }
}
