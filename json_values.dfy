/** JSON documents as `json.loads` hands them to the editor. */
module JsonValues {

  /** A decoded JSON value. Objects keep their entries in insertion order,
      as a Python dict does; numbers are the two kinds `json` decodes to. */
  datatype Json =
    | Null
    | Bool(b: bool)
    | Int(i: int)
    | Float(f: real)
    | Str(s: string)
    | Arr(items: seq<Json>)
    | Obj(entries: seq<(string, Json)>)

  /** `type(x) == dict or type(x) == list`: the only values the walk enters. */
  predicate IsContainer(j: Json) {
    j.Obj? || j.Arr?
  }

  /** No object anywhere in the value has the same key twice (dict keys are unique). */
  ghost predicate UniqueKeys(j: Json)
    decreases j
  {
    match j
    case Obj(es) =>
      && (forall i, k :: 0 <= i < k < |es| ==> es[i].0 != es[k].0)
      && (forall i :: 0 <= i < |es| ==> UniqueKeys(es[i].1))
    case Arr(xs) => forall i :: 0 <= i < |xs| ==> UniqueKeys(xs[i])
    case _ => true
  }
}
