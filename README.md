# Dependency-ordered upload scheduler for a Nix closure

This project models the scheduler in `src/lib.rs` that decides in which order the
store paths of a Nix closure may be pushed to a binary cache. A store path may be
uploaded only after every store path it references.

- `from_exported_pathinfos` builds a directed graph. There is an edge `source -> target`
  whenever `target.references` holds `source.path` and the two paths differ. The graph is
  built from this edge list alone.
- `get_ready_paths` lists the graph's nodes whose incoming neighbours are all in the
  `uploaded` set.
- `mark_uploaded` adds a path to `uploaded` and removes its node and edges. It then sends
  every ready path of the new state on a channel.
- `paths_to_upload` takes the channel's receiver. It returns a stream that first yields
  the paths ready at call time, then whatever arrives on the channel.

Modules, one per component:

- `PathInfo` (`pathinfo.dfy`): the artifact record, reduced to `path` and `references`,
  and the dependency relation `DependsOn`.
- `Graph` (`graph.dfy`): the graph map as a node set and an edge set, with `add_edge`,
  `from_edges`, `neighbors_directed(_, Incoming)` and `remove_node`.
- `Builder` (`builder.dfy`): the edge pipeline of `from_exported_pathinfos`, written as
  functions.
- `Scheduler` (`scheduler.dfy`): the `ClosureGraph` class and the stream it hands out.
  `graph`, `uploaded`, the channel and the receiver slot are fields that the methods
  update.
- `Readiness` (`readiness.dfy`): what readiness means in every state the scheduler can
  reach. No path is ready before its dependencies are uploaded.
- `Progress` (`progress.dfy`): the code does not detect cycles. The paths of a cycle never
  become ready, and a stall with paths left means there is a cycle.
- `Findings` (`findings.dfy`): two defects of the code, each shown on an input and paired
  with a corrected definition.

The channel is the append-only sequence `outbox` of every path ever sent. The stream
reads it in FIFO order through its own `received` counter.

The `ClosureGraph` class has a ghost field `built`, the graph as it was constructed. Its
invariant is `graph == Without(built, uploaded)`. Every state-changing method keeps this
invariant, and the lemmas of `Readiness` and `Progress` reason from it.

Where the code departs from what a dependency-ordered uploader is expected to do, the
model follows the code:

- Self-references are dropped.
- References to paths outside the closure are ignored. No error is raised for them.
- Completing a path twice, or completing a path that is not a node, is not an error.
- There is no cycle detection.
- The whole graph is rechecked on every completion, so paths already sent are sent again.
- Paths with no edges never become nodes.

## Model

| member | source | states |
|---|---|---|
| `PathInfo.DependsOn` | src/lib.rs:107-108 | the edge test of the builder: the target references the source's path and the paths differ, so no record depends on itself |
| `Graph.AddEdge` | src/lib.rs:116 | `add_edge`: the edge and both endpoints are in the result, nothing already there is lost, and a well-formed graph stays well formed |
| `Graph.ExtendWithEdges` | src/lib.rs:116 | `extend_with_edges`: every listed edge ends up in the graph, no edge is lost, and a well-formed graph stays well formed |
| `Graph.FromEdges` | src/lib.rs:116 | `from_edges`: the result is well formed and holds every listed edge |
| `Graph.Incoming` | src/lib.rs:28 | `neighbors_directed(_, Incoming)`: only nodes are returned, and in a well-formed graph the source of every edge into the node is among them |
| `Graph.RemoveNode` | src/lib.rs:90 | `remove_node`: the node is gone, no remaining edge touches it, nothing is added, and a well-formed graph stays well formed |
| `Graph.ExtendWithEdgesShape` | src/lib.rs:116 | adding a list of edges one by one adds exactly those edges and their endpoints, and nothing else |
| `Graph.FromEdgesShape` | src/lib.rs:116 | a graph built from edges alone has the endpoints of its edges as its nodes, so it is well formed |
| `Graph.RemoveNodeOfWithout` | src/lib.rs:90 | removing one node from a graph that already lacks a set of nodes is the same as removing that set plus the node |
| `Graph.RemoveAbsentNode` | src/lib.rs:90 | removing a node the graph does not have leaves the graph unchanged |
| `Graph.WithoutNothing` | src/lib.rs:115-117 | removing no nodes leaves the graph as it was, so a fresh scheduler's graph is the built graph less its empty `uploaded` set |
| `Graph.WithoutKeeps` | src/lib.rs:90 | removing nodes keeps the graph well formed and free of self-loops; the incoming neighbours of a remaining node lose exactly the removed ones |
| `Builder.SourcesOf` | src/lib.rs:104-110 | the inner `filter`/`map`: at most one edge per record of the slice, each an edge `(s, target)` for a source `s` of the slice that `target` depends on |
| `Builder.EdgeList` | src/lib.rs:103-111 | the outer `flat_map`: every listed edge has a target from the targets, a source from the slice, and the target depends on the source |
| `Builder.SourcesOfMembers` | src/lib.rs:104-110 | the inner filter yields the edge `(s, target)` exactly for the artifacts `s` of the slice that `target` depends on |
| `Builder.EdgeListMembers` | src/lib.rs:103-111 | the flattened edge list holds `(s, t)` exactly when `t` is a target of the slice, `s` is in the slice and `t` depends on `s` |
| `Builder.Build` | src/lib.rs:96-121 | the built graph is well formed (every edge joins two nodes) and has no self-loops |
| `Builder.BuiltEdges` | src/lib.rs:103-116 | the edge set of the built graph is exactly the set of dependency pairs of the slice |
| `Builder.EdgeIff` | src/lib.rs:103-111 | an edge `s -> t` exists iff both come from the slice, their paths differ and `t.references` contains `s.path` |
| `Builder.NodeIff` | src/lib.rs:113-116 | a path is a node iff it is in the slice and has a dependency or a dependent in the slice; a path with no edges is not a node |
| `Builder.IncomingOfBuilt` | src/lib.rs:103-111 | a node's incoming neighbours are exactly the artifacts of the slice it depends on; a reference to a path outside the slice adds nothing and raises no error |
| `Builder.OrderIndependent` | src/lib.rs:103-116 | two slices holding the same artifacts, in any order or with any repetition, build the same graph |
| `Scheduler.IsReadyIff` | src/lib.rs:26-30 | the per-node `all`: a path is ready exactly when the source of every edge into it is uploaded, so a path without incoming edges is ready |
| `Scheduler.ReadySet` | src/lib.rs:19-33 | the ready set is a subset of the nodes, and every node with no incoming edge is in it |
| `Scheduler.GetReadyPaths` | src/lib.rs:19-33 | the collected list holds every ready node exactly once and nothing else |
| `Scheduler.ClosureGraph.FromExportedPathInfos` | src/lib.rs:96-121 | a new scheduler holds the built graph, has an empty `uploaded` set and an empty channel, keeps its receiver, and satisfies the invariant (graph is the built graph less `uploaded`; everything sent has its dependencies uploaded) |
| `Scheduler.ClosureGraph.MarkUploaded` | src/lib.rs:88-94 | `uploaded` gains the path; the graph loses that node and its edges, and nothing else; the channel keeps what it had and gains a duplicate-free listing of the whole new ready set; the invariant is kept, so every path ever sent has all its built dependencies uploaded |
| `Scheduler.ClosureGraph.PathsToUpload` | src/lib.rs:36-63 | the first call takes the receiver and returns a fresh, valid stream whose initial items list the ready set at call time, each with all its built dependencies uploaded; a second call panics (`None`); the graph, `uploaded` and channel are unchanged |
| `Scheduler.UploadStream.Delivered` | src/lib.rs:50-63 | what the stream has handed out is always a prefix of the initial ready list followed by the channel contents |
| `Scheduler.UploadStream.Chain` | src/lib.rs:50-63 | a new stream is valid and starts at the head of its initial list and of the channel |
| `Scheduler.UploadStream.Next` | src/lib.rs:50-63 | a poll yields the next initial item, or else the oldest unreceived item of the channel (FIFO), extending what was handed out by that one path; it gives nothing exactly when both are used up |
| `Readiness.ReadyInState` | src/lib.rs:19-33 | in any reachable state, the ready paths are exactly the built nodes not yet uploaded whose dependencies in the built graph are all uploaded |
| `Readiness.ReadyAreRoots` | src/lib.rs:24-30 | when `uploaded` is disjoint from the nodes, a node is ready iff no incoming edge remains |
| `Readiness.UploadedLeaveTheGraph` | src/lib.rs:88-90 | the scheduler's graph stays well formed and loop-free, and `uploaded` stays disjoint from its nodes |
| `Readiness.NoPrematureUpload` | src/lib.rs:19-33 | a path that is ready in any state reached from the closure has every artifact it depends on already uploaded |
| `Readiness.DeliveredAfterDependencies` | src/lib.rs:50-63 | no premature upload for what the stream yields: every path handed out, from the initial list or the channel, has every artifact of the closure it depends on already uploaded |
| `Readiness.ReadyStaysReady` | src/lib.rs:91-93 | a ready path other than the one marked stays ready after the mark, so `mark_uploaded` sends it again |
| `Readiness.MarkAbsentChangesNothing` | src/lib.rs:89-90 | marking a path that is already uploaded, or was never a node, leaves the graph and the ready set unchanged |
| `Progress.CycleNeverReady` | src/lib.rs:24-30 | no path on a dependency cycle is ever ready, so none is ever sent or yielded |
| `Progress.StalledMeansCycle` | src/lib.rs:19-33 | if paths remain in the graph but none is ready, the remaining graph contains a dependency cycle |
| `Findings.IsolatedPathNeverReady` | src/lib.rs:116 | as written: an artifact with no dependency or dependent in the slice is ready in no state |
| `Findings.SinglePathClosure` | src/lib.rs:113-116 | as written: a closure of one path without references has an empty ready set |
| `Findings.BuildAllNodes` | src/lib.rs:116 | corrected: every artifact of the slice is a node, and the graph stays well formed and free of self-loops |
| `Findings.EveryPathScheduled` | src/lib.rs:96-121 | corrected: in every state the ready set is exactly the artifacts not yet uploaded whose dependencies are all uploaded |
| `Findings.ResendExample` | src/lib.rs:91-93 | as written: with `b` and `c` depending on `a`, path `c` is in the ready set after `a` is marked and again after `b` is marked, so it is sent twice |
| `Findings.NewlyReady` | src/lib.rs:91-93 | corrected: only dependents of the marked path that have become ready are sent, never the marked path itself |
| `Findings.NewlyReadyExact` | src/lib.rs:91-93 | corrected: what is sent is disjoint from the previous ready set, and together with it forms the whole new ready set |

## Left out

- Locking and `async`: the read/write locks and the `await` points are not modelled.
  Each operation is one atomic step.
- Held read guards: the stream keeps the read guards taken at `src/lib.rs:48-49` until its
  initial items are used up. A `mark_uploaded` before then would block on the write lock.
  The sequential model does not capture this deadlock.
- Channel limits: the capacity of 10 and the blocking of `send` when the channel is full
  are not modelled. The channel is an unbounded FIFO sequence.
- Dropped receiver: a `send` panics when the receiver has been dropped. The model never
  drops the stream, so this panic is not modelled.
- Stream end: the sender is never dropped, so the stream never ends. `Next` reports
  `Pending` where the real stream would wait for more items.
- Scheduler.GetReadyPaths: the order of the list is not stated. It follows the graph's
  node iteration order, which is an implementation detail of the graph library.
- Scheduler.ClosureGraph.MarkUploaded: the order in which the ready paths are sent is
  not stated, for the same reason.
- Record fields: `ExportedPathInfo` fields other than `path` and `references` are dropped.
  Two records that differ only in those fields are one node in the model.
- Lifetimes and borrows: the Rust lifetimes and borrows are not modelled.
- Tests and dead code: the test module and the commented-out prototype code are not
  modelled.

## Findings

| source | as written | input that shows it | evidently intended | confidence | as-written member | corrected member |
|---|---|---|---|---|---|---|
| src/lib.rs:116 | the graph is built from the edge list alone, so an artifact without edges is never a node; it is never yielded, sent or uploaded | closure `[a]` where `a.references == []` | every artifact of the closure is a node, ready once its dependencies are uploaded | high, not executed | `Findings.IsolatedPathNeverReady` (instance: `Findings.SinglePathClosure`) | `Findings.BuildAllNodes` (property: `Findings.EveryPathScheduled`) |
| src/lib.rs:91-93 | every completion sends the whole ready set again, including paths already handed out and not yet marked | `a`, `b` referencing `a`, `c` referencing `a`: marking `a` sends `b` and `c`, then marking `b` sends `c` again | send only the dependents of the marked path that have just become ready, so each path is delivered once | medium, not executed | `Findings.ResendExample` | `Findings.NewlyReady` (property: `Findings.NewlyReadyExact`) |

The `ClosureGraph` class keeps the code's behaviour, because that behaviour is what this
project models. The corrected definitions are stated on graph values next to the class.
`EveryPathScheduled` holds for the corrected graph: every artifact is scheduled once its
dependencies are uploaded. `NewlyReadyExact` shows that each corrected notification
sends nothing that was already deliverable and misses nothing that has become ready.
