/**
 * The Rancher metadata client: the choice of base URL, the bootstrap
 * connectivity probe with its backoff schedule, and GetValues, which walks
 * the response for every requested key into one shared map.
 *
 * Nothing here performs I/O: the outcome of every probe request and of
 * every fetch-and-decode of a key is an input, and the probe's sleeps are
 * returned as a list of durations in seconds.
 */
module Client {
  import opened Outcomes
  import opened Json
  import opened WriteLog
  import opened TreeWalk
  import TreeWalkProps

  /** The metadata endpoint used when no backend node is configured. */
  const MetaDataUrl: string := "http://rancher-metadata"

  /** The probe keeps retrying while its backoff is below this many seconds. */
  const MaxTime: nat := 20

  /** A client keeps only its base URL; the HTTP transport is not modelled. */
  datatype Client = Client(url: string)

  /** NewRancherClient's URL: the first backend node if any, else the default endpoint. */
  function BaseUrl(backendNodes: seq<string>): (url: string)
    ensures "http://" <= url
  {
    if |backendNodes| > 0 then "http://" + backendNodes[0] else MetaDataUrl
  }

  /** The host a base URL names: what follows "http://". */
  function Host(url: string): string
    requires "http://" <= url
  {
    url[|"http://"|..]
  }

  /** The URL names the first backend node, or "rancher-metadata" when there is none. */
  lemma BaseUrlHost(backendNodes: seq<string>)
    ensures Host(BaseUrl(backendNodes)) ==
      if |backendNodes| > 0 then backendNodes[0] else "rancher-metadata"
  {
  }

  /** Backend nodes after the first are ignored. */
  lemma BaseUrlIgnoresLaterNodes(backendNodes: seq<string>, more: seq<string>)
    requires |backendNodes| > 0
    ensures BaseUrl(backendNodes + more) == BaseUrl(backendNodes)
    ensures BaseUrl(backendNodes) == BaseUrl([backendNodes[0]])
  {
    assert (backendNodes + more)[0] == backendNodes[0];
  }

  // ---------------------------------------------------------------------
  // Bootstrap probe
  // ---------------------------------------------------------------------

  /** The backoffs the probe loop takes from `i` on: i, 2i, 4i, ... while below MaxTime. */
  function BackoffsFrom(i: nat): seq<nat>
    requires i >= 1
    decreases MaxTime - i
  {
    if i < MaxTime then [i] + BackoffsFrom(2 * i) else []
  }

  /** The whole schedule, starting from one second. */
  function Backoffs(): seq<nat> {
    BackoffsFrom(1)
  }

  function Sum(s: seq<nat>): nat {
    if |s| == 0 then 0 else Sum(s[..|s| - 1]) + s[|s| - 1]
  }

  /** Five attempts at most, backing off 1, 2, 4, 8 and 16 seconds: 31 seconds in all. */
  lemma BackoffSchedule()
    ensures Backoffs() == [1, 2, 4, 8, 16]
    ensures Sum(Backoffs()) == 31
  {
    assert BackoffsFrom(32) == [];
    assert BackoffsFrom(16) == [16];
    assert BackoffsFrom(8) == [8, 16];
    assert BackoffsFrom(4) == [4, 8, 16];
    assert BackoffsFrom(2) == [2, 4, 8, 16];
    var b := [1, 2, 4, 8, 16];
    assert b[..4] == [1, 2, 4, 8] && b[..3] == [1, 2, 4] && b[..2] == [1, 2] && b[..1] == [1];
    assert [1][..0] == [] && [1, 2][..1] == [1] && [1, 2, 4][..2] == [1, 2];
    assert [1, 2, 4, 8][..3] == [1, 2, 4];
    assert Sum([1, 2, 4, 8]) == 15;
  }

  /** The index of the first successful attempt (`None` is success), or |attempts|. */
  function FirstSuccess(attempts: seq<Option<Error>>): (k: nat)
    ensures k <= |attempts|
    ensures forall j | 0 <= j < k :: attempts[j].Some?
    ensures k < |attempts| ==> attempts[k].None?
    decreases |attempts|
  {
    if |attempts| == 0 || attempts[0].None? then 0
    else
      var k := FirstSuccess(attempts[1..]);
      assert forall j | 1 <= j < |attempts| :: attempts[j] == attempts[1..][j - 1];
      1 + k
  }

  /**
   * testConnection: probe the root path, and after each failure sleep the
   * current backoff (the last one included) before doubling it; return nil
   * on the first success, else the last error once the backoff reaches
   * MaxTime. `attempts[j]` is the outcome of the j-th request.
   */
  method TestConnection(attempts: seq<Option<Error>>) returns (err: Option<Error>, sleeps: seq<nat>)
    requires |attempts| >= |Backoffs()|
    ensures var k := FirstSuccess(attempts[..|Backoffs()|]);
      && sleeps == Backoffs()[..k]
      && (k < |Backoffs()| ==> err.None?)
      && (k == |Backoffs()| ==> 0 < k && err == attempts[k - 1] && err.Some?)
  {
    BackoffSchedule();
    ghost var tries := attempts[..|Backoffs()|];
    err := None;
    sleeps := [];
    var i: nat := 1;
    var k: nat := 0;
    while i < MaxTime
      invariant i >= 1 && k <= |Backoffs()|
      invariant BackoffsFrom(i) == Backoffs()[k..]
      invariant sleeps == Backoffs()[..k]
      invariant forall j | 0 <= j < k :: tries[j].Some?
      invariant err == if k == 0 then None else attempts[k - 1]
      decreases MaxTime - i
    {
      assert BackoffsFrom(i) == [i] + BackoffsFrom(2 * i);
      assert Backoffs()[k] == i && Backoffs()[k + 1..] == BackoffsFrom(2 * i);
      err := attempts[k];
      if err.Some? {
        sleeps := sleeps + [i];
        assert sleeps == Backoffs()[..k + 1];
      } else {
        assert tries[k].None?;
        return;
      }
      i := i * 2;
      k := k + 1;
    }
  }

  /**
   * NewRancherClient: pick the base URL, then run the probe. Like the Go
   * code, the client is returned even when the probe fails.
   */
  method NewRancherClient(backendNodes: seq<string>, attempts: seq<Option<Error>>)
    returns (client: Client, err: Option<Error>, sleeps: seq<nat>)
    requires |attempts| >= |Backoffs()|
    ensures client.url == BaseUrl(backendNodes)
    ensures var k := FirstSuccess(attempts[..|Backoffs()|]);
      && sleeps == Backoffs()[..k]
      && (k < |Backoffs()| ==> err.None?)
      && (k == |Backoffs()| ==> 0 < k && err == attempts[k - 1] && err.Some?)
  {
    client := Client(BaseUrl(backendNodes));
    err, sleeps := TestConnection(attempts);
  }

  // ---------------------------------------------------------------------
  // GetValues
  // ---------------------------------------------------------------------

  /** The index of the first failed fetch or decode, or |responses|. */
  function FirstFailure(responses: seq<Result<Value>>): (n: nat)
    ensures n <= |responses|
    ensures forall i | 0 <= i < n :: responses[i].Ok?
    ensures n < |responses| ==> responses[n].Err?
    decreases |responses|
  {
    if |responses| == 0 || responses[0].Err? then 0
    else
      var n := FirstFailure(responses[1..]);
      assert forall i | 1 <= i < |responses| :: responses[i] == responses[1..][i - 1];
      1 + n
  }

  /**
   * Every response the loop walks (those before the first failure) is a
   * well-formed value; responses after a failure are never looked at.
   */
  predicate Decoded(responses: seq<Result<Value>>) {
    forall i | 0 <= i < FirstFailure(responses) :: WellFormed(responses[i].value)
  }

  /** The writes of walking the first `n` responses, each under its key, in key order. */
  function KeyWrites(keys: seq<string>, responses: seq<Result<Value>>, n: nat): seq<Write>
    requires |keys| == |responses| && Decoded(responses)
    requires n <= FirstFailure(responses)
    decreases n
  {
    if n == 0 then []
    else KeyWrites(keys, responses, n - 1) + Writes(keys[n - 1], responses[n - 1].value)
  }

  /**
   * The map GetValues builds: the writes of every key processed before the
   * first failure, replayed in key order onto an empty map.
   */
  function Flattened(keys: seq<string>, responses: seq<Result<Value>>): map<string, string>
    requires |keys| == |responses| && Decoded(responses)
  {
    Replay(map[], KeyWrites(keys, responses, FirstFailure(responses)))
  }

  /**
   * GetValues: for each key in order, take its fetched and decoded value
   * (`responses[i]`) and walk it into the shared map with the key as root.
   * The first failure stops the loop and returns the map built so far
   * together with the error.
   */
  method GetValues(keys: seq<string>, responses: seq<Result<Value>>)
    returns (vars: map<string, string>, err: Option<Error>)
    requires |keys| == |responses| && Decoded(responses)
    ensures err.None? <==> FirstFailure(responses) == |keys|
    ensures FirstFailure(responses) < |keys| ==> err == Some(responses[FirstFailure(responses)].error)
    ensures vars == Flattened(keys, responses)
  {
    vars := map[];
    var i := 0;
    while i < |keys|
      invariant i <= FirstFailure(responses)
      invariant vars == Replay(map[], KeyWrites(keys, responses, i))
    {
      match responses[i]
      case Err(e) =>
        return vars, Some(e);
      case Ok(v) =>
        TreeWalkProps.WalkIsReplay(keys[i], v, vars);
        ReplayAppend(map[], KeyWrites(keys, responses, i), Writes(keys[i], v));
        vars := Walk(keys[i], v, vars);
        i := i + 1;
    }
    err := None;
  }

  /** Walking into an empty map holds exactly the paths the walk's log writes. */
  lemma WalkFreshPaths(root: string, v: Value)
    requires WellFormed(v)
    ensures Walk(root, v, map[]).Keys == Paths(Writes(root, v))
  {
    TreeWalkProps.WalkDomain(root, v, map[]);
  }

  lemma {:induction false} KeyWritesPaths(keys: seq<string>, responses: seq<Result<Value>>, n: nat, path: string)
    requires |keys| == |responses| && Decoded(responses) && n <= FirstFailure(responses)
    ensures path in Paths(KeyWrites(keys, responses, n)) <==>
      exists i | 0 <= i < n :: path in Paths(Writes(keys[i], responses[i].value))
    decreases n
  {
    if n > 0 {
      var prev := KeyWrites(keys, responses, n - 1);
      var last := Writes(keys[n - 1], responses[n - 1].value);
      assert KeyWrites(keys, responses, n) == prev + last;
      KeyWritesPaths(keys, responses, n - 1, path);
      PathsConcat(prev, last);
      if path in Paths(last) {
        assert path in Paths(Writes(keys[n - 1], responses[n - 1].value));
      } else if path in Paths(prev) {
        var i :| 0 <= i < n - 1 && path in Paths(Writes(keys[i], responses[i].value));
        assert 0 <= i < n;
      }
    }
  }

  /**
   * GetValues' map holds a path exactly when walking some processed key's
   * value on its own produces it, and each key whose walk produces it has
   * the path at or below that key.
   */
  lemma MergedPaths(keys: seq<string>, responses: seq<Result<Value>>, n: nat, path: string)
    requires |keys| == |responses| && Decoded(responses) && n <= FirstFailure(responses)
    ensures path in Replay(map[], KeyWrites(keys, responses, n)) <==>
      exists i | 0 <= i < n :: path in Walk(keys[i], responses[i].value, map[])
    ensures forall i | 0 <= i < n && path in Walk(keys[i], responses[i].value, map[]) ::
      AtOrBelow(path, keys[i])
  {
    ReplayDomain(map[], KeyWrites(keys, responses, n));
    KeyWritesPaths(keys, responses, n, path);
    forall i | 0 <= i < n
      ensures path in Walk(keys[i], responses[i].value, map[]) <==> path in Paths(Writes(keys[i], responses[i].value))
      ensures path in Walk(keys[i], responses[i].value, map[]) ==> AtOrBelow(path, keys[i])
    {
      var w := Writes(keys[i], responses[i].value);
      WalkFreshPaths(keys[i], responses[i].value);
      TreeWalkProps.WritesAtOrBelow(keys[i], responses[i].value);
      assert forall x | 0 <= x < |w| :: w[x] in w;
    }
  }

  /**
   * Later keys win: a path that key `j` writes and no later processed key
   * writes holds, in GetValues' map, the text that key `j`'s walk stored.
   */
  lemma {:induction false} LaterKeyWins(keys: seq<string>, responses: seq<Result<Value>>, n: nat, j: nat, path: string)
    requires |keys| == |responses| && Decoded(responses) && n <= FirstFailure(responses)
    requires j < n
    requires path in Walk(keys[j], responses[j].value, map[])
    requires forall i | j < i < n :: path !in Walk(keys[i], responses[i].value, map[])
    ensures path in Replay(map[], KeyWrites(keys, responses, n))
    ensures Replay(map[], KeyWrites(keys, responses, n))[path] == Walk(keys[j], responses[j].value, map[])[path]
  {
    var wj := Writes(keys[j], responses[j].value);
    WalkFreshPaths(keys[j], responses[j].value);
    LastWriteFrom(keys, responses, n, j, path);
    TreeWalkProps.WalkIsReplay(keys[j], responses[j].value, map[]);
    ReplayLastWins(map[], wj, path);
    ReplayLastWins(map[], KeyWrites(keys, responses, n), path);
  }

  lemma {:induction false} LastWriteFrom(keys: seq<string>, responses: seq<Result<Value>>, n: nat, j: nat, path: string)
    requires |keys| == |responses| && Decoded(responses) && n <= FirstFailure(responses)
    requires j < n
    requires path in Paths(Writes(keys[j], responses[j].value))
    requires forall i | j < i < n :: path !in Walk(keys[i], responses[i].value, map[])
    ensures LastWrite(KeyWrites(keys, responses, n), path) == LastWrite(Writes(keys[j], responses[j].value), path)
    decreases n
  {
    var v := responses[n - 1].value;
    LastWriteAppend(KeyWrites(keys, responses, n - 1), Writes(keys[n - 1], v), path);
    if n - 1 > j {
      WalkFreshPaths(keys[n - 1], v);
      LastWriteFrom(keys, responses, n - 1, j, path);
    }
  }
}
