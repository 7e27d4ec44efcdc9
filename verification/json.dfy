/**
  The structured JSON values the emulator handles through `serde_json::Value`
  (the mediation map, a parsed payload), with the member-by-member path
  navigation that splitting uses.

  Numbers are integers only: the modelled code never computes with them.
*/
module JsonValue {
  import opened Wrappers

  datatype Json =
    | JNull
    | JBool(b: bool)
    | JNum(n: int)
    | JStr(s: string)
    | JArr(items: seq<Json>)
    | JObj(fields: map<string, Json>)

  /** A JSON object: `serde_json::Map<String, Value>`. */
  type Object = map<string, Json>

  /** `Value::get_mut(key)` with a string key: the member of an object, and
      nothing for every other kind of value (an array is not indexed by a
      string, even a numeric one). */
  function Member(v: Json, key: string): (r: Option<Json>)
    ensures r.Some? <==> v.JObj? && key in v.fields
    ensures r.Some? ==> r.value == v.fields[key]
  {
    if v.JObj? && key in v.fields then Some(v.fields[key]) else None
  }

  /** The value reached by following `path` member by member, if any. */
  function At(v: Json, path: seq<string>): Option<Json>
    decreases |path|
  {
    if |path| == 0 then Some(v)
    else
      match Member(v, path[0])
      case None => None
      case Some(c) => At(c, path[1..])
  }

  /** The value `v` with the value at `path` swapped for `x` (`*current = x`
      after walking `path`); every other part of `v` is kept. */
  function Replace(v: Json, path: seq<string>, x: Json): (r: Json)
    requires At(v, path).Some?
    ensures At(r, path) == Some(x)
    ensures |path| > 0 ==> r.JObj? && r.fields.Keys == v.fields.Keys
    ensures |path| > 0 ==> forall k :: k in v.fields && k != path[0] ==> r.fields[k] == v.fields[k]
    decreases |path|
  {
    if |path| == 0 then x
    else
      var child := Replace(v.fields[path[0]], path[1..], x);
      JObj(v.fields[path[0] := child])
  }

  /** Writing back what is already there changes nothing. */
  lemma {:induction false} ReplaceSame(v: Json, path: seq<string>)
    requires At(v, path).Some?
    ensures Replace(v, path, At(v, path).value) == v
    decreases |path|
  {
    if |path| > 0 {
      ReplaceSame(v.fields[path[0]], path[1..]);
      assert v.fields[path[0] := v.fields[path[0]]] == v.fields;
    }
  }

  /** Writing twice at the same place keeps only the second write. */
  lemma {:induction false} ReplaceTwice(v: Json, path: seq<string>, x: Json, y: Json)
    requires At(v, path).Some?
    ensures Replace(Replace(v, path, x), path, y) == Replace(v, path, y)
    decreases |path|
  {
    if |path| > 0 {
      ReplaceTwice(v.fields[path[0]], path[1..], x, y);
    }
  }

  /** Two member paths part ways: at some depth they name different members. */
  predicate Diverges(p: seq<string>, q: seq<string>)
    decreases |p|
  {
    |p| > 0 && |q| > 0 && (p[0] != q[0] || Diverges(p[1..], q[1..]))
  }

  /** The write touches nothing off its path: every place whose path parts
      ways with the written path, at any depth, holds what it held. */
  lemma {:induction false} ReplaceFrame(v: Json, path: seq<string>, x: Json, q: seq<string>)
    requires At(v, path).Some?
    requires Diverges(path, q)
    ensures At(Replace(v, path, x), q) == At(v, q)
    decreases |path|
  {
    var r := Replace(v, path, x);
    if path[0] != q[0] {
      assert Member(r, q[0]) == Member(v, q[0]);
    } else {
      ReplaceFrame(v.fields[path[0]], path[1..], x, q[1..]);
      assert Member(r, q[0]) == Some(Replace(v.fields[path[0]], path[1..], x));
    }
  }

  /** Every object along the written path keeps its set of members. */
  lemma {:induction false} ReplaceKeepsKeys(v: Json, path: seq<string>, x: Json, n: nat)
    requires At(v, path).Some?
    requires n < |path|
    ensures At(v, path[..n]).Some? && At(v, path[..n]).value.JObj?
    ensures At(Replace(v, path, x), path[..n]).Some? && At(Replace(v, path, x), path[..n]).value.JObj?
    ensures At(Replace(v, path, x), path[..n]).value.fields.Keys == At(v, path[..n]).value.fields.Keys
    decreases |path|
  {
    var r := Replace(v, path, x);
    if n == 0 {
      assert path[..0] == [];
    } else {
      ReplaceKeepsKeys(v.fields[path[0]], path[1..], x, n - 1);
      assert path[..n][0] == path[0] && path[..n][1..] == path[1..][..n - 1];
      assert Member(r, path[0]) == Some(Replace(v.fields[path[0]], path[1..], x));
    }
  }
}
