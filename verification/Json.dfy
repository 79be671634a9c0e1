/** Documents as the indexes see them: JSON values, paths into them, and what an index takes from them. */
module Json {
  import opened Wrappers

  /** Numbers are an ordered type without NaN. */
  datatype Json =
    | Null
    | Bool(b: bool)
    | Number(n: real)
    | Text(s: string)
    | Array(items: seq<Json>)
    | Object(fields: map<string, Json>)

  datatype Token = Key(name: string) | Index(i: nat)

  /** The value a path leads to, if every step of it exists. */
  function GetPath(doc: Json, path: seq<Token>): Option<Json>
    decreases |path|
  {
    if path == [] then Some(doc)
    else match path[0]
      case Key(name) => if doc.Object? && name in doc.fields then GetPath(doc.fields[name], path[1..]) else None
      case Index(i) => if doc.Array? && i < |doc.items| then GetPath(doc.items[i], path[1..]) else None
  }

  /** One step of a path leads from a value to a member of it. */
  predicate Member(v: Json, step: Token, w: Json) {
    match step
    case Key(name) => v.Object? && name in v.fields && v.fields[name] == w
    case Index(i) => v.Array? && i < |v.items| && v.items[i] == w
  }

  /** The values one passes on a path, from the document to what the path leads to. */
  predicate Trail(doc: Json, path: seq<Token>, passed: seq<Json>) {
    && |passed| == |path| + 1 && passed[0] == doc
    && forall i :: 0 <= i < |path| ==> Member(passed[i], path[i], passed[i + 1])
  }

  /** A path leads to a value if and only if one can get there member by member. */
  lemma PathLeads(doc: Json, path: seq<Token>, v: Json)
    ensures GetPath(doc, path) == Some(v) <==> exists passed :: Trail(doc, path, passed) && passed[|path|] == v
  {
    if GetPath(doc, path) == Some(v) {
      var passed := Passed(doc, path, v);
    }
    forall passed | Trail(doc, path, passed)
      ensures GetPath(doc, path) == Some(passed[|path|])
    {
      TrailEnds(doc, path, passed);
    }
  }

  lemma {:induction false} Passed(doc: Json, path: seq<Token>, v: Json) returns (passed: seq<Json>)
    requires GetPath(doc, path) == Some(v)
    ensures Trail(doc, path, passed) && passed[|path|] == v
    decreases |path|
  {
    if path == [] {
      passed := [doc];
    } else {
      var next := match path[0] case Key(name) => doc.fields[name] case Index(i) => doc.items[i];
      var rest := Passed(next, path[1..], v);
      passed := [doc] + rest;
      assert forall i :: 0 < i < |path| ==> Member(rest[i - 1], path[1..][i - 1], rest[i]);
    }
  }

  lemma {:induction false} TrailEnds(doc: Json, path: seq<Token>, passed: seq<Json>)
    requires Trail(doc, path, passed)
    ensures GetPath(doc, path) == Some(passed[|path|])
    decreases |path|
  {
    if path != [] {
      assert Member(doc, path[0], passed[1]);
      forall i | 0 <= i < |path[1..]|
        ensures Member(passed[1..][i], path[1..][i], passed[1..][i + 1])
      {
        assert Member(passed[i + 1], path[i + 1], passed[i + 2]);
      }
      TrailEnds(passed[1], path[1..], passed[1..]);
    }
  }

  /** An array stands for its items, anything else for itself. */
  function ItemsOf(v: Json): seq<Json> {
    if v.Array? then v.items else [v]
  }

  function ValueOr(v: Option<Json>): Json {
    if v.Some? then v.value else Null
  }
}
