/** What the tree walk guarantees, read off its log of writes. */
module TreeWalkProps {
  import opened Outcomes
  import opened Json
  import opened WriteLog
  import opened TreeWalk
  import Strconv

  /** The walk performs exactly the writes of its log, in order. */
  lemma {:induction false} WalkIsReplay(root: string, v: Value, vars: map<string, string>)
    requires WellFormed(v)
    ensures Walk(root, v, vars) == Replay(vars, Writes(root, v))
    decreases v, 1, 0
  {
    match v
    case Object(_) => MembersAreReplay(root, v, 0, vars);
    case Array(_) => ItemsAreReplay(root, v, 0, vars);
    case _ =>
  }

  lemma {:induction false} MembersAreReplay(root: string, v: Value, i: nat, vars: map<string, string>)
    requires v.Object? && WellFormed(v) && i <= |v.members|
    ensures WalkMembers(root, v, i, vars) == Replay(vars, MemberWrites(root, v, i))
    decreases v, 0, |v.members| - i
  {
    if i < |v.members| {
      var (k, child) := v.members[i];
      WalkIsReplay(Join(root, k), child, vars);
      MembersAreReplay(root, v, i + 1, Walk(Join(root, k), child, vars));
      ReplayAppend(vars, Writes(Join(root, k), child), MemberWrites(root, v, i + 1));
    }
  }

  lemma {:induction false} ItemsAreReplay(root: string, v: Value, i: nat, vars: map<string, string>)
    requires v.Array? && WellFormed(v) && i <= |v.items|
    ensures WalkItems(root, v, i, vars) == Replay(vars, ItemWrites(root, v, i))
    decreases v, 0, |v.items| - i
  {
    if i < |v.items| {
      var item := v.items[i];
      var seg := Segment(i, item);
      WalkIsReplay(Join(root, seg), item, vars);
      ItemsAreReplay(root, v, i + 1, Walk(Join(root, seg), item, vars));
      ReplayAppend(vars, Writes(Join(root, seg), item), ItemWrites(root, v, i + 1));
    }
  }

  /** Every write lands at `root` or below it; a container's writes all extend `root + "/"`. */
  lemma WritesAtOrBelow(root: string, v: Value)
    requires WellFormed(v)
    ensures forall x | x in Writes(root, v) :: AtOrBelow(x.0, root)
    ensures IsContainer(v) ==> forall x | x in Writes(root, v) :: Below(x.0, root)
  {
  }

  lemma {:induction false} MemberWritesAreBranchWrites(root: string, v: Value, i: nat, x: Write)
    requires v.Object? && WellFormed(v) && i <= |v.members|
    ensures x in MemberWrites(root, v, i) <==>
      exists m | i <= m < |v.members| :: x in Writes(Join(root, v.members[m].0), v.members[m].1)
    decreases |v.members| - i
  {
    if i < |v.members| {
      MemberWritesAreBranchWrites(root, v, i + 1, x);
    }
  }

  /** `x` is among the writes of element `m` of array `v`. */
  predicate InItem(root: string, v: Value, m: nat, x: Write)
    requires v.Array? && WellFormed(v) && m < |v.items|
  {
    x in Writes(Join(root, Segment(m, v.items[m])), v.items[m])
  }

  lemma {:induction false} ItemWritesAreBranchWrites(root: string, v: Value, i: nat, x: Write)
    requires v.Array? && WellFormed(v) && i <= |v.items|
    ensures x in ItemWrites(root, v, i) <==> exists m | i <= m < |v.items| :: InItem(root, v, m, x)
    decreases |v.items| - i
  {
    if i < |v.items| {
      var head := Writes(Join(root, Segment(i, v.items[i])), v.items[i]);
      var tail := ItemWrites(root, v, i + 1);
      assert ItemWrites(root, v, i) == head + tail;
      ItemWritesAreBranchWrites(root, v, i + 1, x);
      if x in head + tail {
        if x in head {
          assert InItem(root, v, i, x);
        } else {
          var m :| i + 1 <= m < |v.items| && InItem(root, v, m, x);
          assert i <= m;
        }
      }
      if exists m | i <= m < |v.items| :: InItem(root, v, m, x) {
        var m :| i <= m < |v.items| && InItem(root, v, m, x);
        if m == i {
          assert x in head;
        } else {
          assert x in tail;
        }
      }
    }
  }

  /** An object's writes are those of its members, each walked under root/key. */
  lemma ObjectWrites(root: string, ms: seq<(string, Value)>, x: Write)
    requires WellFormed(Object(ms))
    ensures x in Writes(root, Object(ms)) <==>
      exists m | 0 <= m < |ms| :: x in Writes(Join(root, ms[m].0), ms[m].1)
  {
    MemberWritesAreBranchWrites(root, Object(ms), 0, x);
  }

  /**
   * An array's writes are those of its elements, element `m` walked under
   * root/Segment(m, element): its "name" if it is a named object, else `m`.
   */
  lemma ArrayWrites(root: string, items: seq<Value>, x: Write)
    requires WellFormed(Array(items))
    ensures x in Writes(root, Array(items)) <==>
      exists m | 0 <= m < |items| :: x in Writes(Join(root, Segment(m, items[m])), items[m])
  {
    ItemWritesAreBranchWrites(root, Array(items), 0, x);
    if x in Writes(root, Array(items)) {
      var m :| 0 <= m < |items| && InItem(root, Array(items), m, x);
      assert x in Writes(Join(root, Segment(m, items[m])), items[m]);
    }
    if exists m | 0 <= m < |items| :: x in Writes(Join(root, Segment(m, items[m])), items[m]) {
      var m :| 0 <= m < |items| && x in Writes(Join(root, Segment(m, items[m])), items[m]);
      assert InItem(root, Array(items), m, x);
    }
  }

  /** Where a path at or below root/seg continues after root/seg. */
  lemma BranchShape(root: string, seg: string, path: string)
    requires AtOrBelow(path, Join(root, seg))
    ensures |path| >= |root| + 1 + |seg|
    ensures path[|root| + 1..|root| + 1 + |seg|] == seg
    ensures |path| > |root| + 1 + |seg| ==> path[|root| + 1 + |seg|] == '/'
  {
    var j := Join(root, seg);
    assert j[|root| + 1..] == seg;
    if path != j {
      assert path[..|j| + 1] == j + "/";
      assert path[..|j|] == j;
    }
  }

  /**
   * Two different segments without '/' lead to disjoint parts of the path
   * space: no path is at or below both root/a and root/b.
   */
  lemma DisjointBranches(root: string, a: string, b: string, path: string)
    requires '/' !in a && '/' !in b && a != b
    requires AtOrBelow(path, Join(root, a))
    ensures !AtOrBelow(path, Join(root, b))
  {
    BranchShape(root, a, path);
    if AtOrBelow(path, Join(root, b)) {
      BranchShape(root, b, path);
    }
  }

  /** Without collisions no path is written twice. */
  lemma {:induction false} WritesUnique(root: string, v: Value)
    requires WellFormed(v) && NoCollisions(v)
    ensures UniquePaths(Writes(root, v))
    decreases v, 1, 0
  {
    match v
    case Object(_) => MemberWritesUnique(root, v, 0);
    case Array(_) => ItemWritesUnique(root, v, 0);
    case _ =>
  }

  lemma {:induction false} MemberWritesUnique(root: string, v: Value, i: nat)
    requires v.Object? && WellFormed(v) && NoCollisions(v) && i <= |v.members|
    ensures UniquePaths(MemberWrites(root, v, i))
    decreases v, 0, |v.members| - i
  {
    if i < |v.members| {
      var (k, child) := v.members[i];
      var a := Writes(Join(root, k), child);
      var b := MemberWrites(root, v, i + 1);
      WritesUnique(Join(root, k), child);
      MemberWritesUnique(root, v, i + 1);
      forall x, y | 0 <= x < |a| && 0 <= y < |b|
        ensures a[x].0 != b[y].0
      {
        MemberApart(root, v, i, a[x], b[y]);
      }
      UniqueConcat(a, b);
    }
  }

  /** A write of member `i` and a write of a later member never share a path. */
  lemma MemberApart(root: string, v: Value, i: nat, x: Write, y: Write)
    requires v.Object? && WellFormed(v) && NoCollisions(v) && i < |v.members|
    requires x in Writes(Join(root, v.members[i].0), v.members[i].1)
    requires y in MemberWrites(root, v, i + 1)
    ensures x.0 != y.0
  {
    var ms := v.members;
    MemberWritesAreBranchWrites(root, v, i + 1, y);
    var m :| i + 1 <= m < |ms| && y in Writes(Join(root, ms[m].0), ms[m].1);
    WritesAtOrBelow(Join(root, ms[m].0), ms[m].1);
    WritesAtOrBelow(Join(root, ms[i].0), ms[i].1);
    DisjointBranches(root, ms[m].0, ms[i].0, y.0);
  }

  lemma {:induction false} ItemWritesUnique(root: string, v: Value, i: nat)
    requires v.Array? && WellFormed(v) && NoCollisions(v) && i <= |v.items|
    ensures UniquePaths(ItemWrites(root, v, i))
    decreases v, 0, |v.items| - i
  {
    if i < |v.items| {
      var seg := Segment(i, v.items[i]);
      var a := Writes(Join(root, seg), v.items[i]);
      var b := ItemWrites(root, v, i + 1);
      WritesUnique(Join(root, seg), v.items[i]);
      ItemWritesUnique(root, v, i + 1);
      forall x, y | 0 <= x < |a| && 0 <= y < |b|
        ensures a[x].0 != b[y].0
      {
        ItemApart(root, v, i, a[x], b[y]);
      }
      UniqueConcat(a, b);
    }
  }

  /** A write of element `i` and a write of a later element never share a path. */
  lemma ItemApart(root: string, v: Value, i: nat, x: Write, y: Write)
    requires v.Array? && WellFormed(v) && NoCollisions(v) && i < |v.items|
    requires InItem(root, v, i, x)
    requires y in ItemWrites(root, v, i + 1)
    ensures x.0 != y.0
  {
    var items := v.items;
    ItemWritesAreBranchWrites(root, v, i + 1, y);
    var m :| i + 1 <= m < |items| && InItem(root, v, m, y);
    var sm, si := Segment(m, items[m]), Segment(i, items[i]);
    WritesAtOrBelow(Join(root, sm), items[m]);
    WritesAtOrBelow(Join(root, si), items[i]);
    DisjointBranches(root, sm, si, y.0);
  }

  /**
   * The walk adds exactly the paths its log writes and removes nothing: the
   * result's keys are the old keys plus the written paths.
   */
  lemma WalkDomain(root: string, v: Value, vars: map<string, string>)
    requires WellFormed(v)
    ensures Walk(root, v, vars).Keys == vars.Keys + Paths(Writes(root, v))
  {
    WalkIsReplay(root, v, vars);
    ReplayDomain(vars, Writes(root, v));
  }

  /**
   * A scalar leaf writes exactly one entry, at `root` itself: a bool as
   * "true" or "false", a string verbatim, a number in decimal and null as
   * "null". Every other entry is unchanged.
   */
  lemma ScalarLeaf(root: string, v: Value, vars: map<string, string>)
    requires IsScalar(v)
    ensures Walk(root, v, vars).Keys == vars.Keys + {root}
    ensures Walk(root, v, vars)[root] == ScalarText(v)
    ensures forall k | k in vars && k != root :: Walk(root, v, vars)[k] == vars[k]
    ensures v.Bool? ==> ScalarText(v) == (if v.b then "true" else "false")
    ensures v.String? ==> ScalarText(v) == v.s
    ensures v.Null? ==> ScalarText(v) == "null"
    ensures v.Number? ==> Strconv.ParseDecimal(ScalarText(v)) == Some(v.n)
  {
    if v.Number? {
      Strconv.ItoaRoundTrip(v.n);
    }
  }

  /**
   * The walk touches only `root` and the paths below it, and a container
   * does not touch `root` itself: any other entry keeps its presence and value.
   */
  lemma WalkFrame(root: string, v: Value, vars: map<string, string>, path: string)
    requires WellFormed(v)
    requires !Below(path, root)
    requires path == root ==> !IsScalar(v)
    ensures path in Walk(root, v, vars) <==> path in vars
    ensures path in vars ==> Walk(root, v, vars)[path] == vars[path]
  {
    WalkIsReplay(root, v, vars);
    WritesAtOrBelow(root, v);
    var w := Writes(root, v);
    assert forall i | 0 <= i < |w| :: w[i] in w && w[i].0 != path;
    ReplayFrame(vars, Writes(root, v), path);
  }

  /** An empty object or an empty array writes nothing. */
  lemma EmptyContainers(root: string, vars: map<string, string>)
    ensures Walk(root, Object([]), vars) == vars
    ensures Walk(root, Array([]), vars) == vars
  {
  }

  /**
   * Walking into an empty map yields at most one entry per scalar leaf, and
   * exactly one when no two leaves share a path; each leaf's text is then
   * stored at its path.
   */
  lemma EntryCount(root: string, v: Value)
    requires WellFormed(v)
    ensures |Walk(root, v, map[])| <= LeafCount(v)
    ensures |Walk(root, v, map[])| == LeafCount(v) <==> UniquePaths(Writes(root, v))
    ensures NoCollisions(v) ==> UniquePaths(Writes(root, v))
    ensures UniquePaths(Writes(root, v)) ==>
      forall x | x in Writes(root, v) :: x.0 in Walk(root, v, map[]) && Walk(root, v, map[])[x.0] == x.1
  {
    WalkIsReplay(root, v, map[]);
    ReplaySize(map[], Writes(root, v));
    ReplayCountsDistinct(Writes(root, v));
    if NoCollisions(v) {
      WritesUnique(root, v);
    }
    if UniquePaths(Writes(root, v)) {
      ReplayUnique(Writes(root, v));
    }
  }

  /**
   * The order in which an object's members are visited (Go's map order is
   * random) does not change the result when no two leaves share a path.
   */
  lemma MemberOrderIrrelevant(root: string, ms: seq<(string, Value)>, ms': seq<(string, Value)>,
                              vars: map<string, string>)
    requires WellFormed(Object(ms)) && WellFormed(Object(ms'))
    requires NoCollisions(Object(ms))
    requires multiset(ms) == multiset(ms')
    ensures Walk(root, Object(ms), vars) == Walk(root, Object(ms'), vars)
  {
    forall i | 0 <= i < |ms'|
      ensures '/' !in ms'[i].0 && NoCollisions(ms'[i].1)
    {
      assert ms'[i] in multiset(ms);
      var j :| 0 <= j < |ms| && ms[j] == ms'[i];
    }
    assert NoCollisions(Object(ms'));
    WritesUnique(root, Object(ms));
    WritesUnique(root, Object(ms'));
    forall x
      ensures x in Writes(root, Object(ms)) <==> x in Writes(root, Object(ms'))
    {
      ObjectWrites(root, ms, x);
      ObjectWrites(root, ms', x);
      if x in Writes(root, Object(ms)) {
        var m :| 0 <= m < |ms| && x in Writes(Join(root, ms[m].0), ms[m].1);
        assert ms[m] in multiset(ms');
        var m' :| 0 <= m' < |ms'| && ms'[m'] == ms[m];
      }
      if x in Writes(root, Object(ms')) {
        var m' :| 0 <= m' < |ms'| && x in Writes(Join(root, ms'[m'].0), ms'[m'].1);
        assert ms'[m'] in multiset(ms);
        var m :| 0 <= m < |ms| && ms[m] == ms'[m'];
      }
    }
    ReplaySameWrites(vars, Writes(root, Object(ms)), Writes(root, Object(ms')));
    WalkIsReplay(root, Object(ms), vars);
    WalkIsReplay(root, Object(ms'), vars);
  }
}
