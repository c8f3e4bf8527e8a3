# Shortest-path service: request handling

This project models the request handlers of a small shortest-path web service
(`server.py`). The service keeps one process-wide *active graph*. The upload
handler replaces that graph when a `.json` file builds into a graph. The query
handler answers `(start_node_id, end_node_id)` queries against the active graph.
It checks for errors in a fixed order. Then it runs Dijkstra's algorithm
from the start node, which rewrites each node's `dist` and `prev` in place.
Then it rebuilds the path by walking `prev` links back from the end node and
reversing the list.

Layout, one module per file:

- `wrappers.dfy` (`Wrappers`): `Option`, which stands for Python's `None`.
- `graphs.dfy` (`Graphs`): nodes with `id`, `dist` and `prev`; directed weighted edges; graphs.
  It also defines `WellFormed`, what a built graph guarantees.
  `IsWalk` is an independent definition of a walk and its cost, used to state optimality.
- `paths.dfy` (`Paths`): predecessor chains (`Rooted`, `Chain`) and their lemmas.
  It also holds the reconstruction loop `ReconstructPath`.
- `shortest_path.dfy` (`ShortestPath`): the contract of the shortest-path step (`IsEngine`, `IsShortestPathTree`).
  It also holds what follows from that contract: chains end at the source, the tree path is a walk, and the distances are optimal.
- `server.dfy` (`Server`): the response datatypes and the extension check.
  It holds the query dispatch `Solve` with its lemmas.
  It also holds the `Session` class, whose `active` field is `active_graph`, with its two handlers.

Modelling choices:

- Distances are `Finite(real) | Infinite`: exact reals, with `Infinite` for "not reached". They are not floats.
- `prev` is the id of the predecessor node, resolved through the node map. In the source it is an object reference.
  Path elements are node-map keys. `WellFormed` makes each key equal to the record's `id`, so these are the `cur.id` values the source appends.
- `dijkstra` (from `dijkstra.py`) is not part of this model. The query takes it as a parameter `engine`.
  `IsEngine` states that parameter's contract:
  - the engine keeps the graph's node ids and edges (`SameShape`);
  - the source gets distance 0 and no predecessor;
  - every `prev` link is an edge that accounts for the distance difference;
  - every reached node other than the source has a predecessor;
  - every predecessor chain ends within `|nodes|` steps, so chains have no cycle;
  - no edge can be relaxed any further;
  - the step resets every label first, so its result does not depend on the labels it is given (`ResetsLabels`).
- `create_graph_from_json` (from `utils`) is not part of this model either. The upload handler takes its outcome as a parameter `parsed`.
  `None` means the build raised. `Some(g)` means it returned `g`, which must be `WellFormed`.
- The query changes the active graph only through the shortest-path step's in-place relabelling. It never replaces the graph's ids or edges.
- A failed upload keeps the previous active graph. This is what the code does (server.py:23-29).
  Clearing the graph on a failed upload would be another possible policy. The model follows the code.
- The `global active_graph` line at server.py:35 is misindented. As written that is a Python syntax error.
  The model follows the evident intent: the query reads the module-level graph.

## Model

| member | source | states |
|---|---|---|
| Server.Session.constructor | server.py:11 | At startup there is no active graph and no upload has succeeded. |
| Server.Session.UploadGraph | server.py:19-29 | A name (or "" when absent) that fails the `.json` check gives "Invalid file type" and leaves the active graph unchanged. A failed build gives "Invalid JSON content" and also leaves it unchanged. A successful build replaces the active graph with the new graph and echoes the filename. |
| Server.FileNameOrEmpty | server.py:22 | The name used is empty exactly when the upload has no filename or an empty one; otherwise it is the upload's own filename. |
| Server.LowerChar | server.py:23 | Lower-casing a character never yields an upper-case ASCII letter; it leaves the character alone or moves an upper-case letter to its lower-case form. |
| Server.LowerIdempotent | server.py:23 | Lower-casing a lower-cased name changes nothing. |
| Server.EndsWithIff | server.py:23 | A name ends with a suffix exactly when it is some prefix followed by that suffix. |
| Server.JsonExtensionIgnoresCase | server.py:23 | A name passes the extension check exactly when its lower-cased form does. |
| Server.JsonExtensionCharacters | server.py:22-23 | The extension check accepts exactly the names whose last five characters are `.` then `j`, `s`, `o`, `n`, each in either case. |
| Server.UploadErrorMessagesDistinct | server.py:24-29 | The two upload errors are reported with different texts, "Invalid file type" and "Invalid JSON content". |
| Server.SolverErrorMessagesDistinct | server.py:37-40 | The two query errors are reported with different texts, the missing-graph one and the bad-id one. |
| Server.Solve | server.py:34-60 | No active graph gives "No active graph" whatever the ids. Otherwise a missing start or end id gives "Invalid start or end node ID". Only when both checks pass is a path answer given. The path and the total are null exactly when the end node's distance after the step is infinite. A non-null total is the end node's recorded distance. |
| Server.Session.SolveShortestPath | server.py:34-60 | The answer is `Solve` of the old active graph. With no successful upload so far the answer is "No active graph". An error leaves the active graph untouched. A path answer installs the step's relabelled graph, which has the same node ids and edges as before. |
| Server.ReachablePath | server.py:53-58 | For a reachable end node the path is non-empty. It starts at the start id and ends at the end id. Its first node has no predecessor. Each id is the recorded predecessor of the next one. No id repeats. |
| Server.ReachablePathIsShortest | server.py:46-60 | For a reachable end node the path is a walk along the uploaded edges whose weights add up to `total_distance`. No walk from start to end costs less. |
| Server.NullAnswerIffUnreachable | server.py:46-50 | The null answer is given exactly when no walk along the uploaded edges leads from the start to the end. |
| Server.RepeatedQuerySameAnswer | server.py:42-60 | The step rewrites the active graph's labels in place. Querying the relabelled graph again gives the identical answer, the path included, because the step resets every label before it runs. |
| Server.SameStartAndEnd | server.py:46-60 | A query from a node to itself gives the path `[s]` at distance 0. |
| Paths.ReconstructPath | server.py:53-58 | The loop terminates on an acyclic chain. The result is the reversed predecessor chain of the end node. It ends at the end node and starts at a node with no predecessor. Each element is the predecessor of the next. It has no repeated ids. |
| Paths.ChainShape | server.py:54-57 | The chain the loop collects starts at the end node and stays inside the node map. Each element's predecessor is the next element. It stops at a node without predecessor, after at most `fuel + 1` ids. |
| Paths.ChainDistinct | server.py:54-57 | An acyclic predecessor chain never repeats an id. |
| Paths.ChainSuffix | server.py:54-57 | From any of its elements, the rest of a chain is that element's own chain. |
| Paths.ChainFuel | server.py:54-57 | The chain does not depend on the step bound used to show it is acyclic. |
| Paths.PathShape | server.py:53-58 | The reversed chain ends at the target and starts at a node without predecessor. Each element is the predecessor of the next. No element repeats. |
| Paths.ReverseInvolution | server.py:58 | Reversing the collected list twice gives it back. |
| Paths.ReversePermutes | server.py:58 | Reversing keeps exactly the collected ids, each as often. |
| ShortestPath.EngineRunIsIdempotent | server.py:46 | The step keeps the graph well formed with the same ids and edges. Running it again from the same source on the graph it relabelled gives that graph back. |
| ShortestPath.ChainEndsAtSource | server.py:46-57 | After the step, the chain from a reached node passes only reached nodes and ends at the source. |
| ShortestPath.LinkedWalk | server.py:46-58 | A run of reached nodes, each the predecessor of the next, is a walk. Its cost is the difference between the distances at its two ends. |
| ShortestPath.TreePathIsWalk | server.py:46-60 | The rebuilt path of a reached node starts at the source. It is a walk whose cost is the node's distance. |
| ShortestPath.WalkNoShorter | server.py:46 | In a well-formed graph where the source has distance `Finite(0.0)` and no edge can be relaxed any further (`Relaxed`), any walk from the source ends at a reached node whose distance is at most the walk's cost. |
| ShortestPath.DistIsOptimal | server.py:46-60 | No walk from the source to a reached node costs less than the node's recorded distance. |
| ShortestPath.TreesAgreeOnDistance | server.py:46 | Two shortest-path trees from the same source over the same edges give every node the same distance, however ties were broken. |
| ShortestPath.UnreachedHasNoWalk | server.py:46-50 | No walk from the source ends at a node left at infinite distance. |

## Left out

- FastAPI routing, the async handler signatures, the welcome endpoint at `/`, and `uvicorn.run` (server.py:1-15, 63-65): HTTP and process plumbing.
  The responses are datatypes. `UploadErrorMessage` and `SolverErrorMessage` give their texts. Building JSON dictionaries is not modelled.
- `dijkstra` (dijkstra.py is not part of this model): only its contract is modelled, as `IsEngine`. Its algorithm is not.
- `create_graph_from_json` and the reading of the uploaded file (`utils` is not part of this model): modelled only as the outcome parameter `parsed`.
  That the built graph is `WellFormed` is taken as that builder's contract.
- Float distances, `np.isinf` and `float(...)` (server.py:49, 60): distances are exact reals or `Infinite`. Rounding is not modelled.
  Negative infinity cannot occur with non-negative weights, so it is not modelled either.
- HasJsonExtension: lower-cases ASCII letters only, where Python's `str.lower` also folds non-ASCII characters.
- The unreachable `raise NotImplementedError` lines after the returns (server.py:30, 61): dead code.
- Locking and concurrent requests: the source has none. Each handler is modelled as one atomic call on the session.
- `path.reverse()` (server.py:58) reverses the list in place. The model computes the reversed sequence as a new value (`Reverse`).
- Node objects and reference identity: nodes are values in a map, and `prev` is an id, so aliasing between node objects is not modelled.
