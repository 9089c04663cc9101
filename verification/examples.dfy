/** Worked instances of the tree walk on small documents. */
module WalkExamples {
  import opened Outcomes
  import opened Json
  import opened TreeWalk
  import Strconv

  /** An object {"name": nm, "v": k} walked under `root`. */
  lemma NamedObject(root: string, nm: string, k: int, m: map<string, string>)
    ensures Walk(root, Object([("name", String(nm)), ("v", Number(k))]), m) ==
      m[root + "/name" := nm][root + "/v" := Strconv.Itoa(k)]
  {
    var o := Object([("name", String(nm)), ("v", Number(k))]);
    assert Join(root, "name") == root + "/name";
    assert Join(root, "v") == root + "/v";
    var m1 := Walk(Join(root, "name"), String(nm), m);
    var m2 := Walk(Join(root, "v"), Number(k), m1);
    assert WalkMembers(root, o, 2, m2) == m2;
    assert WalkMembers(root, o, 1, m1) == m2;
    assert WalkMembers(root, o, 0, m) == m2;
  }

  /** Array elements named by a "name" member are keyed by that name, not by their index. */
  lemma NamedElements()
    ensures
      var a := Object([("name", String("a")), ("v", Number(1))]);
      var b := Object([("name", String("b")), ("v", Number(2))]);
      Walk("x", Object([("items", Array([a, b]))]), map[]) ==
        map["x/items/a/name" := "a", "x/items/a/v" := "1",
            "x/items/b/name" := "b", "x/items/b/v" := "2"]
  {
    var a := Object([("name", String("a")), ("v", Number(1))]);
    var b := Object([("name", String("b")), ("v", Number(2))]);
    var items := Array([a, b]);
    var doc := Object([("items", items)]);
    assert Strconv.Itoa(1) == "1";
    assert Strconv.Itoa(2) == "2";
    assert Lookup(a.members, "name") == Some(String("a"));
    assert Lookup(b.members, "name") == Some(String("b"));
    assert Segment(0, a) == "a";
    assert Segment(1, b) == "b";
    assert Join("x", "items") == "x/items";
    assert Join("x/items", "a") == "x/items/a";
    assert Join("x/items", "b") == "x/items/b";
    assert "x/items/a" + "/name" == "x/items/a/name";
    assert "x/items/a" + "/v" == "x/items/a/v";
    assert "x/items/b" + "/name" == "x/items/b/name";
    assert "x/items/b" + "/v" == "x/items/b/v";
    var m0: map<string, string> := map[];
    var m2 := m0["x/items/a/name" := "a"]["x/items/a/v" := "1"];
    var m4 := m2["x/items/b/name" := "b"]["x/items/b/v" := "2"];
    NamedObject("x/items/a", "a", 1, m0);
    NamedObject("x/items/b", "b", 2, m2);
    assert WalkItems("x/items", items, 2, m4) == m4;
    assert WalkItems("x/items", items, 1, m2) == m4;
    assert WalkItems("x/items", items, 0, m0) == m4;
    assert WalkMembers("x", doc, 1, m4) == m4;
    assert WalkMembers("x", doc, 0, m0) == m4;
  }

  /** Unnamed array elements are keyed by their decimal index. */
  lemma IndexedElements()
    ensures Walk("y", Array([Number(10), Number(20)]), map[]) == map["y/0" := "10", "y/1" := "20"]
  {
    var v := Array([Number(10), Number(20)]);
    assert Strconv.Itoa(10) == "10";
    assert Strconv.Itoa(20) == "20";
    assert Segment(0, Number(10)) == "0";
    assert Segment(1, Number(20)) == "1";
    assert Join("y", "0") == "y/0";
    assert Join("y", "1") == "y/1";
    var m1 := Walk("y/0", Number(10), map[]);
    var m2 := Walk("y/1", Number(20), m1);
    assert WalkItems("y", v, 2, m2) == m2;
    assert WalkItems("y", v, 1, m1) == m2;
    assert WalkItems("y", v, 0, map[]) == m2;
  }

  /**
   * A '/' inside an object key merges with the path hierarchy: here two
   * leaves land on "r/a/b", only one entry remains, and which one depends on
   * the order the members are visited in.
   */
  lemma SlashInKeyCollides()
    ensures
      var slashed := ("a/b", String("1"));
      var nested := ("a", Object([("b", String("2"))]));
      && LeafCount(Object([slashed, nested])) == 2
      && Walk("r", Object([slashed, nested]), map[]) == map["r/a/b" := "2"]
      && Walk("r", Object([nested, slashed]), map[]) == map["r/a/b" := "1"]
  {
    var slashed := ("a/b", String("1"));
    var inner := Object([("b", String("2"))]);
    var nested := ("a", inner);
    var one := Object([slashed, nested]);
    var two := Object([nested, slashed]);
    assert LeafCount(inner) == 1 by {
      assert MemberLeaves(inner, 1) == 0;
      assert MemberLeaves(inner, 0) == 1;
    }
    assert MemberLeaves(one, 2) == 0;
    assert MemberLeaves(one, 1) == 1;
    assert MemberLeaves(one, 0) == 2;
    assert Join("r", "a/b") == "r/a/b";
    assert Join("r", "a") == "r/a";
    assert Join("r/a", "b") == "r/a/b";
    var m0: map<string, string> := map[];
    // slashed member first, nested second
    var m1 := Walk("r/a/b", String("1"), m0);
    var m2 := Walk("r/a/b", String("2"), m1);
    assert WalkMembers("r/a", inner, 1, m2) == m2;
    assert WalkMembers("r/a", inner, 0, m1) == m2;
    assert WalkMembers("r", one, 2, m2) == m2;
    assert WalkMembers("r", one, 1, m1) == m2;
    assert WalkMembers("r", one, 0, m0) == m2;
    // nested member first, slashed second
    var n1 := Walk("r/a/b", String("2"), m0);
    var n2 := Walk("r/a/b", String("1"), n1);
    assert WalkMembers("r/a", inner, 1, n1) == n1;
    assert WalkMembers("r/a", inner, 0, m0) == n1;
    assert WalkMembers("r", two, 2, n2) == n2;
    assert WalkMembers("r", two, 1, n1) == n2;
    assert WalkMembers("r", two, 0, m0) == n2;
  }
}
