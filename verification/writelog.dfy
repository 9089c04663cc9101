/**
 * A flat result map (`map[string]string` in Go) and the ordered list of
 * assignments `vars[path] = text` that produces it. Replaying a log applies
 * its writes in order, so a later write to a path overwrites an earlier one.
 */
module WriteLog {
  import opened Outcomes

  /** One assignment `vars[path] = text`. */
  type Write = (string, string)

  /** The paths a log writes. */
  function Paths(w: seq<Write>): set<string> {
    set i | 0 <= i < |w| :: w[i].0
  }

  /** No path is written twice. */
  predicate UniquePaths(w: seq<Write>) {
    forall i, j | 0 <= i < j < |w| :: w[i].0 != w[j].0
  }

  /** `vars` after performing the writes of `w`, first to last. */
  function Replay(vars: map<string, string>, w: seq<Write>): map<string, string>
    decreases |w|
  {
    if |w| == 0 then vars
    else
      var last := w[|w| - 1];
      Replay(vars, w[..|w| - 1])[last.0 := last.1]
  }

  /** The text of the last write to `path` in `w`, if there is one. */
  function LastWrite(w: seq<Write>, path: string): (r: Option<string>)
    ensures r.None? <==> path !in Paths(w)
    ensures r.Some? ==> exists i | 0 <= i < |w| :: w[i] == (path, r.value)
    decreases |w|
  {
    if |w| == 0 then None
    else if w[|w| - 1].0 == path then Some(w[|w| - 1].1)
    else
      var r := LastWrite(w[..|w| - 1], path);
      assert Paths(w) == Paths(w[..|w| - 1]) + {w[|w| - 1].0};
      r
  }

  /** Replaying two logs one after the other is replaying their concatenation. */
  lemma {:induction false} ReplayAppend(vars: map<string, string>, a: seq<Write>, b: seq<Write>)
    ensures Replay(vars, a + b) == Replay(Replay(vars, a), b)
    decreases |b|
  {
    if |b| > 0 {
      assert (a + b)[..|a + b| - 1] == a + b[..|b| - 1];
      ReplayAppend(vars, a, b[..|b| - 1]);
    } else {
      assert a + b == a;
    }
  }

  /**
   * The replayed map holds a path exactly when it was already present or is
   * written; a written path holds the text of its last write and any other
   * path keeps its old value.
   */
  lemma {:induction false} ReplayLastWins(vars: map<string, string>, w: seq<Write>, path: string)
    ensures path in Replay(vars, w) <==> path in vars || path in Paths(w)
    ensures path in Replay(vars, w) ==>
      Replay(vars, w)[path] == match LastWrite(w, path) { case Some(t) => t case None => vars[path] }
    decreases |w|
  {
    if |w| > 0 {
      assert Paths(w) == Paths(w[..|w| - 1]) + {w[|w| - 1].0};
      ReplayLastWins(vars, w[..|w| - 1], path);
    }
  }

  /** The domain of the replayed map. */
  lemma ReplayDomain(vars: map<string, string>, w: seq<Write>)
    ensures Replay(vars, w).Keys == vars.Keys + Paths(w)
  {
    forall path | path in vars.Keys + Paths(w)
      ensures path in Replay(vars, w)
    {
      ReplayLastWins(vars, w, path);
    }
    forall path | path in Replay(vars, w)
      ensures path in vars.Keys + Paths(w)
    {
      ReplayLastWins(vars, w, path);
    }
  }

  /** A path the log does not write is left exactly as it was. */
  lemma ReplayFrame(vars: map<string, string>, w: seq<Write>, path: string)
    requires path !in Paths(w)
    ensures path in Replay(vars, w) <==> path in vars
    ensures path in vars ==> Replay(vars, w)[path] == vars[path]
  {
    ReplayLastWins(vars, w, path);
  }

  /** A log of n writes adds at most n entries. */
  lemma {:induction false} ReplaySize(vars: map<string, string>, w: seq<Write>)
    ensures |Replay(vars, w)| <= |vars| + |w|
    decreases |w|
  {
    if |w| > 0 {
      ReplaySize(vars, w[..|w| - 1]);
    }
  }

  /**
   * Without repeated paths, replaying onto an empty map yields exactly one
   * entry per write, holding that write's text.
   */
  lemma {:induction false} ReplayUnique(w: seq<Write>)
    requires UniquePaths(w)
    ensures |Replay(map[], w)| == |w|
    ensures forall i | 0 <= i < |w| :: w[i].0 in Replay(map[], w) && Replay(map[], w)[w[i].0] == w[i].1
    decreases |w|
  {
    if |w| > 0 {
      var init := w[..|w| - 1];
      var last := w[|w| - 1];
      ReplayUnique(init);
      assert last.0 !in Paths(init);
      ReplayFrame(map[], init, last.0);
      forall i | 0 <= i < |w|
        ensures w[i].0 in Replay(map[], w) && Replay(map[], w)[w[i].0] == w[i].1
      {
        if i < |w| - 1 {
          assert w[i] == init[i];
        }
      }
    }
  }

  /** A log that writes some path twice adds fewer entries than it has writes. */
  lemma {:induction false} ReplayRepeated(vars: map<string, string>, w: seq<Write>)
    requires !UniquePaths(w)
    ensures |Replay(vars, w)| < |vars| + |w|
    decreases |w|
  {
    var init := w[..|w| - 1];
    var last := w[|w| - 1];
    if last.0 in Paths(init) {
      ReplayDomain(vars, init);
      ReplaySize(vars, init);
    } else {
      var i, j :| 0 <= i < j < |w| && w[i].0 == w[j].0;
      assert init[i].0 in Paths(init);
      assert init[i].0 == init[j].0;
      ReplayRepeated(vars, init);
    }
  }

  /** Replaying onto an empty map yields one entry per write exactly when no path repeats. */
  lemma ReplayCountsDistinct(w: seq<Write>)
    ensures |Replay(map[], w)| == |w| <==> UniquePaths(w)
  {
    if UniquePaths(w) {
      ReplayUnique(w);
    } else {
      ReplayRepeated(map[], w);
    }
  }

  /** Concatenating two logs whose paths are unique and disjoint keeps paths unique. */
  lemma UniqueConcat(a: seq<Write>, b: seq<Write>)
    requires UniquePaths(a) && UniquePaths(b)
    requires forall x, y | 0 <= x < |a| && 0 <= y < |b| :: a[x].0 != b[y].0
    ensures UniquePaths(a + b)
  {
    forall i, j | 0 <= i < j < |a + b|
      ensures (a + b)[i].0 != (a + b)[j].0
    {
      if j < |a| {
      } else if i >= |a| {
        assert (a + b)[i] == b[i - |a|] && (a + b)[j] == b[j - |a|];
      } else {
        assert (a + b)[j] == b[j - |a|];
      }
    }
  }

  /**
   * Without repeated paths the replayed map depends only on which writes the
   * log holds, not on their order.
   */
  lemma ReplaySameWrites(vars: map<string, string>, a: seq<Write>, b: seq<Write>)
    requires UniquePaths(a) && UniquePaths(b)
    requires forall x :: x in a <==> x in b
    ensures Replay(vars, a) == Replay(vars, b)
  {
    forall path
      ensures path in Replay(vars, a) <==> path in Replay(vars, b)
      ensures path in Replay(vars, a) ==> Replay(vars, a)[path] == Replay(vars, b)[path]
    {
      ReplayLastWins(vars, a, path);
      ReplayLastWins(vars, b, path);
      assert path in Paths(a) <==> path in Paths(b) by {
        if path in Paths(a) {
          var i :| 0 <= i < |a| && a[i].0 == path;
          assert a[i] in b;
        }
        if path in Paths(b) {
          var i :| 0 <= i < |b| && b[i].0 == path;
          assert b[i] in a;
        }
      }
      match LastWrite(a, path) {
        case None =>
        case Some(t) =>
          var i :| 0 <= i < |a| && a[i] == (path, t);
          assert a[i] in b;
          var j :| 0 <= j < |b| && b[j] == (path, t);
          var u := LastWrite(b, path).value;
          var j' :| 0 <= j' < |b| && b[j'] == (path, u);
          assert j == j';
      }
    }
  }

  /** The last write to a path in `a + b` is its last write in `b`, if `b` writes it at all. */
  lemma {:induction false} LastWriteAppend(a: seq<Write>, b: seq<Write>, path: string)
    ensures LastWrite(a + b, path) == if path in Paths(b) then LastWrite(b, path) else LastWrite(a, path)
    decreases |b|
  {
    if |b| == 0 {
      assert a + b == a;
    } else {
      assert (a + b)[..|a + b| - 1] == a + b[..|b| - 1];
      assert Paths(b) == Paths(b[..|b| - 1]) + {b[|b| - 1].0};
      LastWriteAppend(a, b[..|b| - 1], path);
    }
  }

  lemma PathsConcat(a: seq<Write>, b: seq<Write>)
    ensures Paths(a + b) == Paths(a) + Paths(b)
  {
    assert forall x | 0 <= x < |a + b| :: (a + b)[x] == if x < |a| then a[x] else b[x - |a|];
    assert forall x | 0 <= x < |b| :: (a + b)[|a| + x] == b[x];
  }
}
