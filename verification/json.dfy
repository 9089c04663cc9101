/**
 * The dynamically typed value that `json.Unmarshal` produces into an
 * `interface{}`, as a tagged variant. A Go `map[string]interface{}` becomes
 * a sequence of members whose keys are distinct; the sequence order stands
 * for one particular iteration order of the Go map.
 */
module Json {
  import opened Outcomes

  datatype Value =
    | Object(members: seq<(string, Value)>)
    | Array(items: seq<Value>)
    | Bool(b: bool)
    /** JSON numbers, kept integral (Go decodes them as float64). */
    | Number(n: int)
    | String(s: string)
    | Null
    /** A dynamic value of any kind the tree walk's type switch does not list. */
    | Other(kind: string)

  /** The four kinds the walk writes as a single entry. */
  predicate IsScalar(v: Value) {
    v.Bool? || v.Number? || v.String? || v.Null?
  }

  predicate IsContainer(v: Value) {
    v.Object? || v.Array?
  }

  /** The member keys are pairwise distinct, as the keys of a Go map are. */
  predicate DistinctKeys(ms: seq<(string, Value)>) {
    forall i, j | 0 <= i < j < |ms| :: ms[i].0 != ms[j].0
  }

  /** Go's `m[k]` with its `exists` flag: the member stored under `k`, if any. */
  function Lookup(ms: seq<(string, Value)>, k: string): (r: Option<Value>)
    ensures r.None? <==> forall i | 0 <= i < |ms| :: ms[i].0 != k
    ensures r.Some? ==> exists i | 0 <= i < |ms| :: ms[i] == (k, r.value)
    decreases |ms|
  {
    if |ms| == 0 then None
    else if ms[0].0 == k then Some(ms[0].1)
    else
      var r := Lookup(ms[1..], k);
      assert forall i | 1 <= i < |ms| :: ms[i] == ms[1..][i - 1];
      r
  }

  /**
   * An array element that is an object with a "name" member has a string
   * there: the walk asserts `name.(string)`, which panics otherwise.
   */
  predicate NameIsString(item: Value) {
    item.Object? ==>
      match Lookup(item.members, "name")
      case None => true
      case Some(name) => name.String?
  }

  /**
   * What any value decoded into a Go `interface{}` satisfies, plus the
   * absence of the panic above: object keys are distinct at every level and
   * every named array element is named by a string.
   */
  predicate WellFormed(v: Value) {
    match v
    case Object(ms) =>
      DistinctKeys(ms) && forall i | 0 <= i < |ms| :: WellFormed(ms[i].1)
    case Array(items) =>
      forall i | 0 <= i < |items| :: NameIsString(items[i]) && WellFormed(items[i])
    case _ => true
  }
}
