/**
 * The parsed form of untrusted import data: what `JSON.parse` hands to the
 * import validator. A property that is absent reads as `undefined`, modelled
 * as `None`.
 */
module JsonValues {
  import opened Wrappers

  datatype Json =
    | JNull
    | JBool(b: bool)
    | JNum(n: real)
    | JStr(s: string)
    | JArr(items: seq<Json>)
    | JObj(fields: seq<(string, Json)>)

  /**
   * `v.name` for a parsed JSON value. Only objects carry the named properties
   * the validator reads; `JSON.parse` keeps the last of duplicated keys.
   */
  function Prop(v: Json, name: string): (r: Option<Json>)
    ensures r.Some? ==> v.JObj? && (name, r.value) in v.fields
    ensures r.None? ==> !v.JObj? || forall i :: 0 <= i < |v.fields| ==> v.fields[i].0 != name
  {
    match v
    case JObj(fields) => Lookup(fields, name)
    case _ => None
  }

  function Lookup(fields: seq<(string, Json)>, name: string): (r: Option<Json>)
    ensures r.Some? ==> (name, r.value) in fields
    ensures r.None? ==> forall i :: 0 <= i < |fields| ==> fields[i].0 != name
  {
    if fields == [] then None
    else if fields[|fields| - 1].0 == name then Some(fields[|fields| - 1].1)
    else
      var r := Lookup(fields[..|fields| - 1], name);
      assert forall i :: 0 <= i < |fields| - 1 ==> fields[..|fields| - 1][i] == fields[i];
      r
  }

  /** A field added at the end shadows earlier ones of the same name. */
  lemma LookupLast(fields: seq<(string, Json)>, n: string, v: Json, name: string)
    ensures Lookup(fields + [(n, v)], name) == if n == name then Some(v) else Lookup(fields, name)
  {
    assert (fields + [(n, v)])[..|fields|] == fields;
  }

  /** `!!x` for a property value, `undefined` included. */
  predicate Truthy(v: Option<Json>)
  {
    match v
    case None => false
    case Some(JNull) => false
    case Some(JBool(b)) => b
    case Some(JNum(n)) => n != 0.0
    case Some(JStr(s)) => s != ""
    case Some(_) => true
  }

  /** `obj && typeof obj === "object"`: objects and arrays, but not `null`. */
  predicate IsObjectLike(v: Json)
  {
    v.JObj? || v.JArr?
  }
}
