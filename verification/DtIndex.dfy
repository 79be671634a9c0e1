/** The datetime index of `dt_index.rs`: a sorted column for each datetime name. */
module DateTimes {
  import opened Wrappers
  import opened Bytes
  import opened SortedPairs
  import opened ByteOrder
  import opened RangeSpec

  datatype Column = Column(list: seq<(int, bytes)>, byKey: map<bytes, int>)

  type Stamps = map<string, int>

  function CompareInt(a: int, b: int): Ordering {
    if a < b then Less else if a == b then Equal else Greater
  }

  const TIME_ORDER: Order<int, bytes> := Order(CompareInt, CompareBytes)

  lemma TimesTotal()
    ensures TIME_ORDER.Total()
  {
    BytesTotal();
    assert forall a: int, b: int, c: int :: Chains(CompareInt, a, b, c);
  }

  ghost function TimePairs(m: map<bytes, int>): set<(int, bytes)> {
    set k | k in m :: (m[k], k)
  }

  /** A column lists what it holds by key, and is never empty. */
  ghost predicate ColumnOk(c: Column) {
    c.byKey != map[] && Shows(TIME_ORDER, c.list, TimePairs(c.byKey))
  }

  ghost predicate ColumnsOk(columns: map<string, Column>) {
    forall name :: name in columns ==> ColumnOk(columns[name])
  }

  /** The time a column holds for a key. */
  function TimeAt(columns: map<string, Column>, name: string, key: bytes): Option<int> {
    if name in columns && key in columns[name].byKey then Some(columns[name].byKey[key]) else None
  }

  function StampAt(byKey: map<bytes, Stamps>, name: string, key: bytes): Option<int> {
    if key in byKey && name in byKey[key] then Some(byKey[key][name]) else None
  }

  lemma TimePairsPut(m: map<bytes, int>, k: bytes, v: int)
    ensures k !in m ==> TimePairs(m[k := v]) == TimePairs(m) + {(v, k)} && (v, k) !in TimePairs(m)
    ensures k in m ==> TimePairs(m - {k}) == TimePairs(m) - {(m[k], k)}
  {
    if k !in m {
      assert forall x :: x in m[k := v] <==> x in m || x == k;
    }
    forall e
      ensures e in TimePairs(m - {k}) <==> e in TimePairs(m) && e.1 != k
    {
      assert e.1 in m - {k} <==> e.1 in m && e.1 != k;
    }
  }

  /** Takes a key's time out of a column; an empty column goes. */
  method DropTime(columns: map<string, Column>, name: string, value: int, key: bytes) returns (after: map<string, Column>)
    requires ColumnsOk(columns) && TimeAt(columns, name, key) == Some(value)
    ensures ColumnsOk(after)
    ensures forall n, k :: TimeAt(after, n, k) == if n == name && k == key then None else TimeAt(columns, n, k)
  {
    hide Shows, TimePairs;
    var c := columns[name];
    TimesTotal();
    assert ColumnOk(c);
    TimePairsPut(c.byKey, key, value);
    ShowsRemove(TIME_ORDER, c.list, TimePairs(c.byKey), (value, key));
    var d := Column(Remove(c.list, (value, key)), c.byKey - {key});
    after := if d.byKey == map[] then columns - {name} else columns[name := d];
    assert forall k :: k in c.byKey && k != key ==> k in d.byKey;
  }

  /** Puts a time under a key that the column does not have. */
  method PutTime(columns: map<string, Column>, name: string, value: int, key: bytes) returns (after: map<string, Column>)
    requires ColumnsOk(columns) && TimeAt(columns, name, key) == None
    ensures ColumnsOk(after)
    ensures forall n, k :: TimeAt(after, n, k) == if n == name && k == key then Some(value) else TimeAt(columns, n, k)
  {
    hide Shows;
    TimesTotal();
    NoTimes();
    var c := if name in columns then columns[name] else Column([], map[]);
    assert name in columns ==> ColumnOk(c);
    TimePairsPut(c.byKey, key, value);
    ShowsInsert(TIME_ORDER, c.list, TimePairs(c.byKey), (value, key));
    after := columns[name := Column(Insert(TIME_ORDER, c.list, (value, key)), c.byKey[key := value])];
  }

  lemma NoTimes()
    ensures Shows(TIME_ORDER, [], TimePairs(map[]))
  {
  }

  ghost predicate IndexOk(columns: map<string, Column>, byKey: map<bytes, Stamps>) {
    && ColumnsOk(columns)
    && (forall n, k :: TimeAt(columns, n, k) == StampAt(byKey, n, k))
    && forall k :: k in byKey ==> byKey[k] != map[]
  }

  /** The same datetimes give the same columns and so the same answers. */
  lemma IndexesAgree(a: map<string, Column>, b: map<string, Column>, byKey: map<bytes, Stamps>)
    requires IndexOk(a, byKey) && IndexOk(b, byKey)
    ensures a.Keys == b.Keys && forall n :: n in a ==> a[n] == b[n]
  {
    hide Shows, TimePairs;
    TimesTotal();
    forall n
      ensures n in a <==> n in b
      ensures n in a && n in b ==> a[n] == b[n]
    {
      if n in a {
        SameColumn(a, b, byKey, n);
      }
      if n in b {
        SameColumn(b, a, byKey, n);
      }
    }
  }

  lemma SameColumn(a: map<string, Column>, b: map<string, Column>, byKey: map<bytes, Stamps>, n: string)
    requires IndexOk(a, byKey) && IndexOk(b, byKey) && n in a
    ensures n in b && a[n] == b[n]
  {
    hide Shows, TimePairs;
    TimesTotal();
    assert ColumnOk(a[n]);
    var k :| k in a[n].byKey;
    assert TimeAt(a, n, k) == TimeAt(b, n, k) == StampAt(byKey, n, k);
    assert ColumnOk(b[n]);
    forall x
      ensures x in a[n].byKey <==> x in b[n].byKey
      ensures x in a[n].byKey ==> a[n].byKey[x] == b[n].byKey[x]
    {
      assert TimeAt(a, n, x) == TimeAt(b, n, x) == StampAt(byKey, n, x);
    }
    assert a[n].byKey == b[n].byKey;
    ShowsUnique(TIME_ORDER, a[n].list, b[n].list, TimePairs(a[n].byKey));
  }

  function StampsOr(d: Option<Stamps>): Stamps {
    if d.Some? then d.value else map[]
  }

  /** The datetimes by key after one is set; empty datetimes are none. */
  function WithStamps(byKey: map<bytes, Stamps>, key: bytes, d: Option<Stamps>): map<bytes, Stamps> {
    if StampsOr(d) == map[] then byKey - {key} else byKey[key := StampsOr(d)]
  }

  class DateTimeIndex {
    var columns: map<string, Column>
    var byKey: map<bytes, Stamps>

    ghost predicate Valid()
      reads this
    {
      IndexOk(columns, byKey)
    }

    constructor ()
      ensures Valid() && byKey == map[]
    {
      columns, byKey := map[], map[];
    }

    /** Only what changed is taken out and put in. */
    method Set(key: bytes, datetimes: Option<Stamps>)
      requires Valid()
      modifies this
      ensures Valid() && byKey == WithStamps(old(byKey), key, datetimes)
      ensures byKey == if datetimes.Some? && datetimes.value != map[] then old(byKey)[key := datetimes.value] else old(byKey) - {key}
    {
      var was := if key in byKey then byKey[key] else map[];
      var next := StampsOr(datetimes);
      var between := TakeOut(columns, byKey, key, was, next);
      columns := PutIn(between, byKey, key, was, next);
      byKey := WithStamps(byKey, key, datetimes);
    }

    method Delete(key: bytes)
      requires Valid()
      modifies this
      ensures Valid() && byKey == old(byKey) - {key}
    {
      if key !in byKey {
        assert byKey - {key} == byKey;
        return;
      }
      columns := TakeOut(columns, byKey, key, byKey[key], map[]);
      byKey := byKey - {key};
    }

    /** A column's times and keys in a range; an unknown column has none. */
    method Range(name: string, options: RangeOptions<int>) returns (r: seq<(int, bytes)>)
      requires Valid()
      ensures exists list :: Shows(TIME_ORDER, list, Stamped(byKey, name)) && r == Wanted(CompareInt, list, Effective(options))
      ensures Once(r) && forall i, j :: 0 <= i < j < |r| ==> if options.reverse then r[i].0 >= r[j].0 else r[i].0 <= r[j].0
      ensures forall time, key :: (time, key) in r ==>
        && key in byKey && name in byKey[key] && byKey[key][name] == time
        && (options.gte.Some? ==> time >= options.gte.value)
        && (options.gt.Some? && (options.reverse || options.gte.None?) ==> time > options.gt.value)
        && (options.lte.Some? ==> time <= options.lte.value)
        && (options.lt.Some? && (!options.reverse || options.lte.None?) ==> time < options.lt.value)
      ensures options.offset == 0 && options.count.None? ==> forall time, key ::
        && key in byKey && name in byKey[key] && byKey[key][name] == time
        && (options.gte.Some? ==> time >= options.gte.value)
        && (options.gt.Some? && (options.reverse || options.gte.None?) ==> time > options.gt.value)
        && (options.lte.Some? ==> time <= options.lte.value)
        && (options.lt.Some? && (!options.reverse || options.lte.None?) ==> time < options.lt.value)
        ==> (time, key) in r
    {
      hide Shows, Wanted, Effective, Once;
      TimesTotal();
      if name !in columns {
        NothingStamped(columns, byKey, name);
        NoTimes();
        WantedNothing<int, bytes>(CompareInt, Effective(options));
        RangeOfSet(TIME_ORDER, [], Stamped(byKey, name), options);
        return [];
      }
      StampedColumn(columns, byKey, name);
      r := Wanted(CompareInt, columns[name].list, Effective(options));
      RangeOfSet(TIME_ORDER, columns[name].list, Stamped(byKey, name), options);
    }

    method Rebuild(entries: seq<(bytes, Option<Stamps>)>)
      modifies this
      ensures Valid() && byKey == AllStamps(entries)
    {
      columns, byKey := map[], map[];
      assert entries[..0] == [];
      for i := 0 to |entries|
        invariant Valid() && byKey == AllStamps(entries[..i])
      {
        assert entries[..i + 1][..i] == entries[..i];
        Set(entries[i].0, entries[i].1);
      }
      assert entries[..|entries|] == entries;
    }
  }

  function AllStamps(entries: seq<(bytes, Option<Stamps>)>): map<bytes, Stamps> {
    if entries == [] then map[]
    else WithStamps(AllStamps(entries[..|entries| - 1]), entries[|entries| - 1].0, entries[|entries| - 1].1)
  }

  /** All times of a name with their keys. */
  ghost function Stamped(byKey: map<bytes, Stamps>, name: string): set<(int, bytes)> {
    set k | k in byKey && name in byKey[k] :: (byKey[k][name], k)
  }

  lemma StampedColumn(columns: map<string, Column>, byKey: map<bytes, Stamps>, name: string)
    requires IndexOk(columns, byKey) && name in columns
    ensures Shows(TIME_ORDER, columns[name].list, Stamped(byKey, name))
  {
    hide Shows;
    assert ColumnOk(columns[name]);
    forall e
      ensures e in TimePairs(columns[name].byKey) <==> e in Stamped(byKey, name)
    {
      assert TimeAt(columns, name, e.1) == StampAt(byKey, name, e.1);
    }
    assert TimePairs(columns[name].byKey) == Stamped(byKey, name);
  }

  lemma NothingStamped(columns: map<string, Column>, byKey: map<bytes, Stamps>, name: string)
    requires IndexOk(columns, byKey) && name !in columns
    ensures Stamped(byKey, name) == TimePairs(map[])
  {
    forall e
      ensures e !in Stamped(byKey, name)
    {
      assert TimeAt(columns, name, e.1) == StampAt(byKey, name, e.1);
    }
  }

  /** Whether a name's time is to be taken out when the datetimes change. */
  predicate Changes(was: Stamps, next: Stamps, name: string) {
    name in was && !(name in next && next[name] == was[name])
  }

  method TakeOut(columns: map<string, Column>, ghost byKey: map<bytes, Stamps>, key: bytes, was: Stamps, next: Stamps) returns (after: map<string, Column>)
    requires IndexOk(columns, byKey) && was == if key in byKey then byKey[key] else map[]
    ensures ColumnsOk(after)
    ensures forall n, k :: TimeAt(after, n, k) == if k == key && Changes(was, next, n) then None else StampAt(byKey, n, k)
  {
    hide ColumnsOk;
    after := columns;
    var todo := was.Keys;
    while todo != {}
      invariant todo <= was.Keys && ColumnsOk(after)
      invariant forall n, k :: TimeAt(after, n, k) == if k == key && n !in todo && Changes(was, next, n) then None else StampAt(byKey, n, k)
      decreases |todo|
    {
      var name :| name in todo;
      if Changes(was, next, name) && name in after {
        after := DropTime(after, name, was[name], key);
      }
      todo := todo - {name};
    }
  }

  /** The times while the new ones are being put in. */
  function Midway(byKey: map<bytes, Stamps>, key: bytes, was: Stamps, next: Stamps, todo: set<string>, n: string, k: bytes): Option<int> {
    if k == key && n in next && n !in todo then Some(next[n])
    else if k == key && Changes(was, next, n) then None
    else StampAt(byKey, n, k)
  }

  method PutIn(columns: map<string, Column>, ghost byKey: map<bytes, Stamps>, key: bytes, was: Stamps, next: Stamps) returns (after: map<string, Column>)
    requires ColumnsOk(columns) && was == if key in byKey then byKey[key] else map[]
    requires forall n, k :: TimeAt(columns, n, k) == if k == key && Changes(was, next, n) then None else StampAt(byKey, n, k)
    ensures ColumnsOk(after)
    ensures forall n, k :: TimeAt(after, n, k) == if k == key then (if n in next then Some(next[n]) else None) else StampAt(byKey, n, k)
  {
    hide ColumnsOk;
    after := columns;
    var todo := next.Keys;
    while todo != {}
      invariant todo <= next.Keys && ColumnsOk(after)
      invariant forall n, k :: TimeAt(after, n, k) == Midway(byKey, key, was, next, todo, n, k)
      decreases |todo|
    {
      var name :| name in todo;
      if !(name in was && was[name] == next[name]) {
        after := PutTime(after, name, next[name], key);
      }
      todo := todo - {name};
    }
  }
}
