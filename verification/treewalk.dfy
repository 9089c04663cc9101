/**
 * treeWalk: flattening a decoded JSON value into slash-joined paths.
 *
 * `Walk` threads the result map through the traversal the way the Go code
 * mutates its `vars` argument. `Writes` lists the same traversal as the
 * ordered log of assignments it performs; `WalkIsReplay` shows the two agree,
 * and the remaining lemmas read the walk's properties off the log.
 */
module TreeWalk {
  import opened Outcomes
  import opened Json
  import opened WriteLog
  import Strconv

  /** strings.Join([]string{root, seg}, "/"): no escaping of '/' inside seg. */
  function Join(root: string, seg: string): string {
    root + "/" + seg
  }

  /**
   * `path` lies below `root`: it extends `root + "/"`, and may equal it
   * (an empty key under `root` is stored at `root + "/"`).
   */
  predicate Below(path: string, root: string) {
    root + "/" <= path
  }

  predicate AtOrBelow(path: string, root: string) {
    path == root || Below(path, root)
  }

  /**
   * The path segment of array element `i`: the element's "name" member when
   * it is an object that has one, otherwise the decimal index.
   */
  function Segment(i: nat, item: Value): (seg: string)
    requires NameIsString(item)
    ensures if item.Object? && Lookup(item.members, "name").Some?
            then Lookup(item.members, "name") == Some(String(seg))
            else seg == Strconv.Itoa(i) && Strconv.ParseDecimal(seg) == Some(i)
  {
    Strconv.ItoaRoundTrip(i);
    if item.Object? then
      match Lookup(item.members, "name")
      case Some(name) => name.s
      case None => Strconv.Itoa(i)
    else Strconv.Itoa(i)
  }

  /**
   * Object keys and array segments contain no '/', and the segments of
   * sibling array elements are distinct (object keys already are). This is
   * enough for no two leaves of `v` to land on the same path
   * (`TreeWalkProps.WritesUnique`), but not necessary: a '/' can also be
   * harmless, as in a key "a/b" next to no key "a".
   */
  predicate NoCollisions(v: Value)
    requires WellFormed(v)
  {
    match v
    case Object(ms) =>
      forall i | 0 <= i < |ms| :: '/' !in ms[i].0 && NoCollisions(ms[i].1)
    case Array(items) =>
      && (forall i | 0 <= i < |items| :: '/' !in Segment(i, items[i]) && NoCollisions(items[i]))
      && (forall i, j | 0 <= i < j < |items| :: Segment(i, items[i]) != Segment(j, items[j]))
    case _ => true
  }

  /** The text a scalar leaf is stored as. */
  function ScalarText(v: Value): string
    requires IsScalar(v)
  {
    match v
    case Bool(b) => Strconv.FormatBool(b)
    case Number(n) => Strconv.Itoa(n)
    case String(s) => s
    case Null => "null"
  }

  /** The number of scalar leaves of `v`. */
  function LeafCount(v: Value): nat
    decreases v, 1, 0
  {
    match v
    case Object(ms) => MemberLeaves(v, 0)
    case Array(items) => ItemLeaves(v, 0)
    case Other(_) => 0
    case _ => 1
  }

  function MemberLeaves(v: Value, i: nat): nat
    requires v.Object? && i <= |v.members|
    decreases v, 0, |v.members| - i
  {
    if i == |v.members| then 0 else LeafCount(v.members[i].1) + MemberLeaves(v, i + 1)
  }

  function ItemLeaves(v: Value, i: nat): nat
    requires v.Array? && i <= |v.items|
    decreases v, 0, |v.items| - i
  {
    if i == |v.items| then 0 else LeafCount(v.items[i]) + ItemLeaves(v, i + 1)
  }

  // ---------------------------------------------------------------------
  // The walk
  // ---------------------------------------------------------------------

  /**
   * treeWalk(root, v, vars): objects recurse into every member under
   * root/key, arrays into every element under root/segment, scalars store
   * their text at root, and values of any other kind are skipped. The Go
   * function always returns nil, so only the map is modelled.
   */
  function Walk(root: string, v: Value, vars: map<string, string>): (r: map<string, string>)
    requires WellFormed(v)
    ensures vars.Keys <= r.Keys
    decreases v, 1, 0
  {
    match v
    case Object(_) => WalkMembers(root, v, 0, vars)
    case Array(_) => WalkItems(root, v, 0, vars)
    case Bool(b) => vars[root := Strconv.FormatBool(b)]
    case String(s) => vars[root := s]
    case Number(n) => vars[root := Strconv.Itoa(n)]
    case Null => vars[root := "null"]
    case Other(_) => vars
  }

  /** The loop over the members of object `v`, from member `i` on. */
  function WalkMembers(root: string, v: Value, i: nat, vars: map<string, string>): (r: map<string, string>)
    requires v.Object? && WellFormed(v) && i <= |v.members|
    ensures vars.Keys <= r.Keys
    decreases v, 0, |v.members| - i
  {
    if i == |v.members| then vars
    else
      var (k, child) := v.members[i];
      WalkMembers(root, v, i + 1, Walk(Join(root, k), child, vars))
  }

  /** The loop over the elements of array `v`, from element `i` on. */
  function WalkItems(root: string, v: Value, i: nat, vars: map<string, string>): (r: map<string, string>)
    requires v.Array? && WellFormed(v) && i <= |v.items|
    ensures vars.Keys <= r.Keys
    decreases v, 0, |v.items| - i
  {
    if i == |v.items| then vars
    else
      var item := v.items[i];
      WalkItems(root, v, i + 1, Walk(Join(root, Segment(i, item)), item, vars))
  }

  // ---------------------------------------------------------------------
  // The log of writes the walk performs
  // ---------------------------------------------------------------------

  /** The assignments the walk performs, in order: one per scalar leaf. */
  function Writes(root: string, v: Value): (r: seq<Write>)
    requires WellFormed(v)
    ensures |r| == LeafCount(v)
    ensures IsContainer(v) ==> forall j | 0 <= j < |r| :: Below(r[j].0, root)
    decreases v, 1, 0
  {
    if IsScalar(v) then [(root, ScalarText(v))]
    else match v
      case Object(_) => MemberWrites(root, v, 0)
      case Array(_) => ItemWrites(root, v, 0)
      case _ => []
  }

  function MemberWrites(root: string, v: Value, i: nat): (r: seq<Write>)
    requires v.Object? && WellFormed(v) && i <= |v.members|
    ensures |r| == MemberLeaves(v, i)
    ensures forall j | 0 <= j < |r| :: Below(r[j].0, root)
    decreases v, 0, |v.members| - i
  {
    if i == |v.members| then []
    else
      var (k, child) := v.members[i];
      var head := Writes(Join(root, k), child);
      WritesBelowBranch(root, k, head);
      head + MemberWrites(root, v, i + 1)
  }

  function ItemWrites(root: string, v: Value, i: nat): (r: seq<Write>)
    requires v.Array? && WellFormed(v) && i <= |v.items|
    ensures |r| == ItemLeaves(v, i)
    ensures forall j | 0 <= j < |r| :: Below(r[j].0, root)
    decreases v, 0, |v.items| - i
  {
    if i == |v.items| then []
    else
      var item := v.items[i];
      var head := Writes(Join(root, Segment(i, item)), item);
      WritesBelowBranch(root, Segment(i, item), head);
      head + ItemWrites(root, v, i + 1)
  }

  /** A path at or below root/seg extends `root + "/"`. */
  lemma BelowJoin(root: string, seg: string, path: string)
    requires AtOrBelow(path, Join(root, seg))
    ensures Below(path, root)
  {
    assert (root + "/" + seg)[..|root| + 1] == root + "/";
    if path != Join(root, seg) {
      assert path[..|Join(root, seg)|] == Join(root, seg);
      assert path[..|root| + 1] == Join(root, seg)[..|root| + 1];
    }
  }

  /** Writes made at or below root/seg all extend `root + "/"`. */
  lemma WritesBelowBranch(root: string, seg: string, w: seq<Write>)
    requires forall j | 0 <= j < |w| :: AtOrBelow(w[j].0, Join(root, seg))
    ensures forall j | 0 <= j < |w| :: Below(w[j].0, root)
  {
    forall j | 0 <= j < |w| ensures Below(w[j].0, root) {
      BelowJoin(root, seg, w[j].0);
    }
  }
}
