# Rancher metadata backend of confd, modelled in Dafny

This project models the Rancher metadata backend of confd
(`backends/rancher/client.go`). The backend fetches JSON subtrees from the
Rancher metadata service, one per requested key, and flattens each subtree
into one `map[string]string`. Each entry maps a slash-joined path to a
scalar's text. The model covers four parts of the client:

- **treeWalk** (`TreeWalk.Walk`). The walk threads the result map through a
  tagged `Json.Value`:
  - An object member goes under `root/key`.
  - An array element goes under `root/<name>` when it is an object with a
    `"name"` member, and under `root/<index>` otherwise.
  - A bool, number, string or null is stored at `root`.
  - A value of any other kind is skipped.

  `TreeWalk.Writes` lists the same traversal as an ordered log of
  assignments. `WriteLog.Replay` applies such a log to a map. The lemma
  `TreeWalkProps.WalkIsReplay` proves that the walk is exactly the replay
  of its log. The other properties are read off the log: leaf counts,
  prefixes, the frame, collisions and order independence.
- **GetValues** (`Client.GetValues`). A loop over the keys that walks each
  key's decoded response into one shared map. At the first failure it stops
  and returns the partial map together with the error.
- **testConnection** (`Client.TestConnection`). The bootstrap probe loop.
  The backoff starts at 1 s and doubles while it stays below 20 s. Every
  failed attempt sleeps the current backoff, including the last one.
- **NewRancherClient** (`Client.BaseUrl`, `Client.NewRancherClient`). The
  base URL is `"http://" + backendNodes[0]` when at least one backend node
  is given, otherwise `http://rancher-metadata`. Then the probe runs.

Nothing performs I/O. The outcome of every probe request is an input
(`seq<Option<Error>>`, where `None` means success). So is the fetch-and-decode
outcome of every key (`seq<Result<Value>>`). The probe returns its sleeps as
a list of durations in seconds.

Files: `outcomes.dfy` (Option, Error, Result), `strconv.dfy` (FormatBool,
Itoa and its partner ParseDecimal), `json.dfy` (the decoded value), `writelog.dfy`
(maps as replayed write logs), `treewalk.dfy` and `treewalk_props.dfy` (the
walk and its properties), `client.dfy` (URL, probe, GetValues),
`reorder.dfy` (member order at any depth), `examples.dfy` (worked
documents).

Two behaviours of the code worth stating:
- The probe sleeps after every failed attempt, the fifth included
  (client.go:144-151). The sleeps are 1, 2, 4, 8 and 16 s, 31 s in all,
  before the last error is returned.
- On a fetch or decode failure GetValues returns the map accumulated so far
  together with the error, not an empty map (client.go:52, 58).

## Model

| member | source | states |
|---|---|---|
| Json.Lookup | src/github.com/kelseyhightower/confd/backends/rancher/client.go:88 | `i["name"]` with its exists flag: absent exactly when no member has the key, otherwise the value of a member stored under that key |
| Strconv.FormatBool | src/github.com/kelseyhightower/confd/backends/rancher/client.go:96 | a bool is stored as "true" exactly when it is true and as "false" exactly when it is false |
| Strconv.Itoa | src/github.com/kelseyhightower/confd/backends/rancher/client.go:86 | an index's decimal text never contains '/', it is a plain digit string exactly when the number is non-negative, and it is canonical: "0", or digits without a leading zero, optionally after '-' |
| Strconv.Digits | src/github.com/kelseyhightower/confd/backends/rancher/client.go:86 | the decimal digits of a natural number form a non-empty digit string with no leading zero |
| Strconv.ItoaRoundTrip | src/github.com/kelseyhightower/confd/backends/rancher/client.go:86 | reading back an index's decimal text gives the index again |
| Strconv.CanonicalRoundTrip | src/github.com/kelseyhightower/confd/backends/rancher/client.go:86 | canonical decimal text denoting n is exactly the text Itoa renders for n, so Itoa's output is fixed character for character |
| Strconv.DigitsOfValue | src/github.com/kelseyhightower/confd/backends/rancher/client.go:86 | a digit string without a leading zero is the rendering of its own value |
| Strconv.ItoaInjective | src/github.com/kelseyhightower/confd/backends/rancher/client.go:86 | distinct array indices get distinct path segments |
| TreeWalk.Segment | src/github.com/kelseyhightower/confd/backends/rancher/client.go:85-91 | an element that is an object with a "name" member is keyed by that name (a string); any other element is keyed by `Itoa` of its index, which parses back to the index |
| TreeWalk.Walk | src/github.com/kelseyhightower/confd/backends/rancher/client.go:78-107 | the walk never removes an entry from `vars` |
| TreeWalk.WalkMembers | src/github.com/kelseyhightower/confd/backends/rancher/client.go:80-83 | the loop over an object's members never removes an entry |
| TreeWalk.WalkItems | src/github.com/kelseyhightower/confd/backends/rancher/client.go:84-94 | the loop over an array's elements never removes an entry |
| TreeWalk.Writes | src/github.com/kelseyhightower/confd/backends/rancher/client.go:78-107 | the walk performs one assignment per scalar leaf, and an object or array only assigns paths that extend `root + "/"` |
| TreeWalk.MemberWrites | src/github.com/kelseyhightower/confd/backends/rancher/client.go:80-83 | the members' assignments number the members' leaves and all extend `root + "/"` |
| TreeWalk.ItemWrites | src/github.com/kelseyhightower/confd/backends/rancher/client.go:84-94 | the elements' assignments number the elements' leaves and all extend `root + "/"` |
| TreeWalkProps.WalkIsReplay | src/github.com/kelseyhightower/confd/backends/rancher/client.go:78-107 | the map-threading walk equals replaying its assignment log onto `vars`, in traversal order |
| TreeWalkProps.WalkDomain | src/github.com/kelseyhightower/confd/backends/rancher/client.go:78-107 | after the walk, the keys are the old keys plus exactly the paths the walk assigns |
| TreeWalkProps.ScalarLeaf | src/github.com/kelseyhightower/confd/backends/rancher/client.go:95-102 | a scalar adds exactly the key `root` and leaves every other entry alone; `root` holds "true"/"false" for a bool, the string verbatim, "null" for null, and a number's decimal text that parses back to it |
| TreeWalkProps.WalkFrame | src/github.com/kelseyhightower/confd/backends/rancher/client.go:78-107 | an entry whose path does not extend `root + "/"` keeps its presence and value; the same holds for `root` itself when the value is an object or array |
| TreeWalkProps.EmptyContainers | src/github.com/kelseyhightower/confd/backends/rancher/client.go:80-94 | an empty object or empty array leaves the map unchanged |
| TreeWalkProps.WritesAtOrBelow | src/github.com/kelseyhightower/confd/backends/rancher/client.go:78-107 | every assigned path is `root` or extends `root + "/"`, and extends `root + "/"` for a container |
| TreeWalkProps.ObjectWrites | src/github.com/kelseyhightower/confd/backends/rancher/client.go:80-83 | an object's assignments are exactly those of its members, each walked with root `root/key` |
| TreeWalkProps.ArrayWrites | src/github.com/kelseyhightower/confd/backends/rancher/client.go:84-94 | an array's assignments are exactly those of its elements, element `i` walked with root `root/Segment(i)` |
| TreeWalkProps.DisjointBranches | src/github.com/kelseyhightower/confd/backends/rancher/client.go:93 | two different segments without '/' lead to disjoint path subtrees |
| TreeWalkProps.WritesUnique | src/github.com/kelseyhightower/confd/backends/rancher/client.go:80-94 | when keys and segments hold no '/' and sibling segments differ, no path is assigned twice |
| TreeWalkProps.EntryCount | src/github.com/kelseyhightower/confd/backends/rancher/client.go:80-102 | from an empty map the walk yields at most one entry per scalar leaf, and exactly one exactly when no path is assigned twice; keys and segments free of '/' with distinct sibling segments are enough for that; then each leaf's text sits at its path |
| TreeWalkProps.MemberOrderIrrelevant | src/github.com/kelseyhightower/confd/backends/rancher/client.go:81-83 | without collisions, visiting an object's members in any order (Go map order is random) gives the same map |
| TreeWalkReorder.SameUpToOrderReflexive | src/github.com/kelseyhightower/confd/backends/rancher/client.go:81 | every document is the same as itself up to member order |
| TreeWalkReorder.PermutedMembers | src/github.com/kelseyhightower/confd/backends/rancher/client.go:81 | permuting an object's members gives the same document up to member order |
| TreeWalkReorder.SegmentSame | src/github.com/kelseyhightower/confd/backends/rancher/client.go:85-91 | reordering an element's members does not change its path segment |
| TreeWalkReorder.NoCollisionsSame | src/github.com/kelseyhightower/confd/backends/rancher/client.go:80-94 | reordering members at any depth keeps keys and segments free of '/' and sibling segments distinct |
| TreeWalkReorder.WritesSame | src/github.com/kelseyhightower/confd/backends/rancher/client.go:78-107 | documents that are the same up to member order, at any depth, perform the same set of assignments |
| TreeWalkReorder.NestedOrderIrrelevant | src/github.com/kelseyhightower/confd/backends/rancher/client.go:78-107 | without collisions, the order in which the members of every object, at any depth, are visited does not change the map |
| WriteLog.ReplayLastWins | src/github.com/kelseyhightower/confd/backends/rancher/client.go:96-102 | after a series of map assignments a path is present iff it was present or assigned, and holds its last assigned text |
| WriteLog.ReplayFrame | src/github.com/kelseyhightower/confd/backends/rancher/client.go:96-102 | a path that is never assigned keeps its presence and value |
| WriteLog.ReplaySize | src/github.com/kelseyhightower/confd/backends/rancher/client.go:96-102 | n assignments add at most n entries |
| WriteLog.ReplayUnique | src/github.com/kelseyhightower/confd/backends/rancher/client.go:96-102 | n assignments to distinct paths add exactly n entries, each holding its text |
| WriteLog.ReplayRepeated | src/github.com/kelseyhightower/confd/backends/rancher/client.go:96-102 | n assignments that repeat some path add fewer than n entries |
| WriteLog.ReplayCountsDistinct | src/github.com/kelseyhightower/confd/backends/rancher/client.go:96-102 | n assignments onto an empty map give n entries exactly when no path is assigned twice |
| WriteLog.ReplaySameWrites | src/github.com/kelseyhightower/confd/backends/rancher/client.go:81 | assignments to distinct paths give the same map in any order |
| Client.BaseUrl | src/github.com/kelseyhightower/confd/backends/rancher/client.go:26-30 | the base URL always starts with "http://" |
| Client.BaseUrlHost | src/github.com/kelseyhightower/confd/backends/rancher/client.go:16-30 | the URL names the first backend node, or "rancher-metadata" when none is given |
| Client.BaseUrlIgnoresLaterNodes | src/github.com/kelseyhightower/confd/backends/rancher/client.go:28-30 | backend nodes after the first do not affect the URL |
| Client.BackoffSchedule | src/github.com/kelseyhightower/confd/backends/rancher/client.go:142-146 | the loop header yields backoffs 1, 2, 4, 8 and 16 seconds, 31 in total |
| Client.FirstSuccess | src/github.com/kelseyhightower/confd/backends/rancher/client.go:145-148 | the index of the first successful attempt: every earlier attempt failed |
| Client.TestConnection | src/github.com/kelseyhightower/confd/backends/rancher/client.go:140-152 | with success at attempt k+1 (k < 5), returns nil after sleeping the first k backoffs; after five failures, returns the fifth error having slept all five backoffs |
| Client.NewRancherClient | src/github.com/kelseyhightower/confd/backends/rancher/client.go:25-41 | the client holds the chosen base URL, and the error and sleeps are the probe's |
| Client.FirstFailure | src/github.com/kelseyhightower/confd/backends/rancher/client.go:48-59 | the index of the first failed fetch or decode: every earlier key succeeded |
| Client.GetValues | src/github.com/kelseyhightower/confd/backends/rancher/client.go:43-76 | keys are walked in order into one map. The error is the first failure's, or none. The map is the replay of every processed key's assignments, including the partial map returned with an error |
| Client.WalkFreshPaths | src/github.com/kelseyhightower/confd/backends/rancher/client.go:61 | walking into an empty map yields exactly the paths the walk assigns |
| Client.KeyWritesPaths | src/github.com/kelseyhightower/confd/backends/rancher/client.go:48-65 | the merged log assigns a path iff some processed key's walk assigns it |
| Client.MergedPaths | src/github.com/kelseyhightower/confd/backends/rancher/client.go:48-65 | GetValues' map holds a path iff some processed key's walk produces it; every processed key whose walk produces it has the path at or below that key |
| Client.LaterKeyWins | src/github.com/kelseyhightower/confd/backends/rancher/client.go:48-65 | a path that key j writes and no later processed key writes holds key j's text |
| WalkExamples.NamedElements | src/github.com/kelseyhightower/confd/backends/rancher/client.go:84-94 | `{"items":[{"name":"a","v":1},{"name":"b","v":2}]}` under "x" flattens to x/items/a/name, x/items/a/v, x/items/b/name, x/items/b/v |
| WalkExamples.IndexedElements | src/github.com/kelseyhightower/confd/backends/rancher/client.go:84-94 | `[10,20]` under "y" flattens to y/0 = "10" and y/1 = "20" |
| WalkExamples.SlashInKeyCollides | src/github.com/kelseyhightower/confd/backends/rancher/client.go:82 | a '/' inside a key merges two leaves onto one path, and which survives depends on member order |

## Left out

- HTTP transport and `makeMetaDataRequest` (client.go:109-138). This is network I/O; every fetch-and-decode outcome is an input instead. As written it never returns a body without an error. When `ioutil.ReadAll` succeeds, the else branch calls `err.Error()` on a nil error (client.go:134) and panics. When the read fails, its error is overwritten by the `json.Unmarshal` result (client.go:123). If that result is nil, `err.Error()` at client.go:131 panics. Otherwise `json.MarshalIndent` at client.go:124 declares a new `err` that hides the outer one. When it succeeds (it does on the nil `jsonResponse` left by the failed unmarshal), client.go:128 calls `err.Error()` on that nil error and panics, so the unmarshal error is returned only if `MarshalIndent` fails. Without a panic the function returns only a transport error (client.go:115) or, in that last case, the unmarshal error. So testConnection (client.go:145) and GetValues (client.go:49) can never take their success paths. The model's `None` and `Ok` outcomes stand for a fetch that works as intended: a readable body is returned with a nil error. The logging branches are not modelled.
- `json.Unmarshal` and `json.MarshalIndent` (client.go:56, 67-72). These are foreign library code. The model starts from the decoded `Json.Value`, and the log of the indented map is dropped.
- Fetch errors and decode errors are one `Result` per key. GetValues treats both the same way.
- The treeWalk error branch in GetValues (client.go:61-64). treeWalk always returns nil, so this branch never runs, and `Walk` returns only the map.
- Numbers are floating point in Go, rendered by `strconv.FormatFloat(f, 'f', -1, 64)`. The model keeps them integral and renders them with `Itoa`.
- Go map iteration order (client.go:81) is random. Objects are member sequences with distinct keys, walked in sequence order.
- TreeWalkProps.MemberOrderIrrelevant: covers reordering the members of the walked object itself only; `TreeWalkReorder.NestedOrderIrrelevant` covers reordering at every depth.
- The panic of `name.(string)` (client.go:89) on a non-string name is excluded by the `WellFormed` precondition, not modelled as an outcome.
- `time.Sleep`: the probe returns the list of sleep durations instead.
- Client.TestConnection: requires an outcome for each of the five attempts the loop can make. It reads no outcome after the first success.
- `WatchPrefix` (client.go:154-158) only blocks on a channel and returns (0, nil). It has no data logic.
- All `log.*` calls are observational only.
- The `http.Client` inside `Client` is not modelled. The model keeps only the URL.
