/**
 * Go decodes every JSON object into a map, and ranging over a map visits
 * its members in an unspecified order, at every depth of the document.
 * This module states when that order cannot show in the flattened result.
 */
module TreeWalkReorder {
  import opened Json
  import opened WriteLog
  import opened TreeWalk
  import opened TreeWalkProps

  /**
   * `u` and `v` are the same document up to the order of the members of
   * every object, at any depth: each member of one has a member under the
   * same key in the other whose values are again the same up to order.
   * Arrays keep their order; scalars are equal.
   */
  predicate SameUpToOrder(u: Value, v: Value)
    decreases u, 1
  {
    match u
    case Object(ms) =>
      && v.Object?
      && (forall i | 0 <= i < |ms| :: MatchedIn(u, i, v.members))
      && (forall j | 0 <= j < |v.members| :: MatchedFrom(u, v.members, j))
    case Array(items) =>
      && v.Array?
      && |items| == |v.items|
      && forall i | 0 <= i < |items| :: SameUpToOrder(items[i], v.items[i])
    case _ => u == v
  }

  /** Member `i` of object `u` has a member of `ns` under its key whose value is the same up to order. */
  predicate MatchedIn(u: Value, i: nat, ns: seq<(string, Value)>)
    requires u.Object? && i < |u.members|
    decreases u, 0
  {
    exists j | 0 <= j < |ns| :: ns[j].0 == u.members[i].0 && SameUpToOrder(u.members[i].1, ns[j].1)
  }

  /** Member `j` of `ns` has a member of object `u` under its key whose value is the same up to order. */
  predicate MatchedFrom(u: Value, ns: seq<(string, Value)>, j: nat)
    requires u.Object? && j < |ns|
    decreases u, 0
  {
    exists i | 0 <= i < |u.members| :: u.members[i].0 == ns[j].0 && SameUpToOrder(u.members[i].1, ns[j].1)
  }

  /** Every document is the same as itself up to order. */
  lemma {:induction false} SameUpToOrderReflexive(u: Value)
    ensures SameUpToOrder(u, u)
    decreases u
  {
    match u
    case Object(ms) =>
      forall i | 0 <= i < |ms|
        ensures MatchedIn(u, i, ms) && MatchedFrom(u, ms, i)
      {
        SameUpToOrderReflexive(ms[i].1);
        assert ms[i].0 == u.members[i].0 && SameUpToOrder(u.members[i].1, ms[i].1);
      }
    case Array(items) =>
      forall i | 0 <= i < |items|
        ensures SameUpToOrder(items[i], items[i])
      {
        SameUpToOrderReflexive(items[i]);
      }
    case _ =>
  }

  /** Permuting the members of one object gives the same document up to order. */
  lemma PermutedMembers(ms: seq<(string, Value)>, ms': seq<(string, Value)>)
    requires multiset(ms) == multiset(ms')
    ensures SameUpToOrder(Object(ms), Object(ms'))
  {
    var u := Object(ms);
    forall i | 0 <= i < |ms|
      ensures MatchedIn(u, i, ms')
    {
      assert ms[i] in multiset(ms');
      var j :| 0 <= j < |ms'| && ms'[j] == ms[i];
      SameUpToOrderReflexive(ms[i].1);
      assert ms'[j].0 == u.members[i].0 && SameUpToOrder(u.members[i].1, ms'[j].1);
    }
    forall j | 0 <= j < |ms'|
      ensures MatchedFrom(u, ms', j)
    {
      assert ms'[j] in multiset(ms);
      var i :| 0 <= i < |ms| && ms[i] == ms'[j];
      SameUpToOrderReflexive(ms'[j].1);
      assert u.members[i].0 == ms'[j].0 && SameUpToOrder(u.members[i].1, ms'[j].1);
    }
  }

  /** Reordering members does not change the path segment of an array element. */
  lemma SegmentSame(i: nat, a: Value, b: Value)
    requires WellFormed(a) && WellFormed(b) && NameIsString(a) && NameIsString(b)
    requires SameUpToOrder(a, b)
    ensures Segment(i, a) == Segment(i, b)
  {
    if a.Object? {
      var ms, ns := a.members, b.members;
      match Lookup(ms, "name")
      case Some(name) =>
        var k :| 0 <= k < |ms| && ms[k] == ("name", name);
        assert MatchedIn(a, k, ns);
        var j :| 0 <= j < |ns| && ns[j].0 == ms[k].0 && SameUpToOrder(ms[k].1, ns[j].1);
        assert ns[j].1 == name;
        var r := Lookup(ns, "name");
        var j' :| 0 <= j' < |ns| && ns[j'] == ("name", r.value);
        assert j' == j;
      case None =>
        forall j | 0 <= j < |ns|
          ensures ns[j].0 != "name"
        {
          assert MatchedFrom(a, ns, j);
        }
    }
  }

  /** Reordering members keeps a document free of collisions. */
  lemma {:induction false} NoCollisionsSame(u: Value, v: Value)
    requires WellFormed(u) && WellFormed(v) && SameUpToOrder(u, v)
    requires NoCollisions(u)
    ensures NoCollisions(v)
    decreases u
  {
    match u
    case Object(ms) =>
      var ns := v.members;
      forall j | 0 <= j < |ns|
        ensures '/' !in ns[j].0 && NoCollisions(ns[j].1)
      {
        assert MatchedFrom(u, ns, j);
        var i :| 0 <= i < |ms| && ms[i].0 == ns[j].0 && SameUpToOrder(ms[i].1, ns[j].1);
        NoCollisionsSame(ms[i].1, ns[j].1);
      }
    case Array(items) =>
      var its := v.items;
      forall i | 0 <= i < |its|
        ensures Segment(i, its[i]) == Segment(i, items[i]) && NoCollisions(its[i])
      {
        SegmentSame(i, items[i], its[i]);
        NoCollisionsSame(items[i], its[i]);
      }
    case _ =>
  }

  /** Two documents that are the same up to order perform the same writes. */
  lemma {:induction false} WritesSame(root: string, u: Value, v: Value, x: Write)
    requires WellFormed(u) && WellFormed(v) && SameUpToOrder(u, v)
    ensures x in Writes(root, u) <==> x in Writes(root, v)
    decreases u
  {
    match u
    case Object(ms) =>
      var ns := v.members;
      ObjectWrites(root, ms, x);
      ObjectWrites(root, ns, x);
      if x in Writes(root, u) {
        var m :| 0 <= m < |ms| && x in Writes(Join(root, ms[m].0), ms[m].1);
        assert MatchedIn(u, m, ns);
        var j :| 0 <= j < |ns| && ns[j].0 == ms[m].0 && SameUpToOrder(ms[m].1, ns[j].1);
        WritesSame(Join(root, ms[m].0), ms[m].1, ns[j].1, x);
      }
      if x in Writes(root, v) {
        var j :| 0 <= j < |ns| && x in Writes(Join(root, ns[j].0), ns[j].1);
        assert MatchedFrom(u, ns, j);
        var m :| 0 <= m < |ms| && ms[m].0 == ns[j].0 && SameUpToOrder(ms[m].1, ns[j].1);
        WritesSame(Join(root, ms[m].0), ms[m].1, ns[j].1, x);
      }
    case Array(items) =>
      var its := v.items;
      ArrayWrites(root, items, x);
      ArrayWrites(root, its, x);
      if x in Writes(root, u) {
        var m :| 0 <= m < |items| && x in Writes(Join(root, Segment(m, items[m])), items[m]);
        SegmentSame(m, items[m], its[m]);
        WritesSame(Join(root, Segment(m, items[m])), items[m], its[m], x);
      }
      if x in Writes(root, v) {
        var m :| 0 <= m < |its| && x in Writes(Join(root, Segment(m, its[m])), its[m]);
        SegmentSame(m, items[m], its[m]);
        WritesSame(Join(root, Segment(m, items[m])), items[m], its[m], x);
      }
    case _ =>
  }

  /**
   * Without collisions, the order in which the members of every object are
   * visited, at any depth, does not change the flattened map.
   */
  lemma NestedOrderIrrelevant(root: string, u: Value, v: Value, vars: map<string, string>)
    requires WellFormed(u) && WellFormed(v) && SameUpToOrder(u, v)
    requires NoCollisions(u)
    ensures Walk(root, u, vars) == Walk(root, v, vars)
  {
    NoCollisionsSame(u, v);
    WritesUnique(root, u);
    WritesUnique(root, v);
    forall x
      ensures x in Writes(root, u) <==> x in Writes(root, v)
    {
      WritesSame(root, u, v, x);
    }
    ReplaySameWrites(vars, Writes(root, u), Writes(root, v));
    WalkIsReplay(root, u, vars);
    WalkIsReplay(root, v, vars);
  }
}
