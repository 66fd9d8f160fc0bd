/**
 * What the ready set means in the states the scheduler passes through: after any
 * sequence of `mark_uploaded` calls the graph is the built graph less the uploaded
 * paths, and a path is ready exactly when all of its dependencies are uploaded.
 */
module Readiness {
  import opened PathInfo
  import opened Graph
  import opened Scheduler
  import Builder

  /** In a scheduler state, the ready paths are the built nodes not yet uploaded whose
      dependencies in the built graph are all uploaded. */
  lemma ReadyInState(built: DiGraph, uploaded: set<Node>)
    requires WellFormed(built)
    ensures ReadySet(Without(built, uploaded), uploaded)
              == set n | n in built.nodes && n !in uploaded && Incoming(built, n) <= uploaded
  {
    WithoutKeeps(built, uploaded);
  }

  /** With `uploaded` disjoint from the nodes, which the scheduler keeps, the check
      against `uploaded` comes down to "no incoming edge is left". */
  lemma ReadyAreRoots(g: DiGraph, uploaded: set<Node>)
    requires WellFormed(g)
    requires uploaded !! g.nodes
    ensures ReadySet(g, uploaded) == set n | n in g.nodes && Incoming(g, n) == {}
  {
    forall n | n in g.nodes && IsReady(g, uploaded, n) ensures Incoming(g, n) == {} {
      if s :| s in Incoming(g, n) {
        assert s in uploaded && s in g.nodes;
      }
    }
  }

  /** A scheduler keeps its graph well formed and free of uploaded paths. */
  lemma UploadedLeaveTheGraph(c: ClosureGraph)
    requires c.Valid()
    ensures WellFormed(c.graph) && NoSelfLoops(c.graph)
    ensures c.uploaded !! c.graph.nodes
  {
    WithoutKeeps(c.built, c.uploaded);
  }

  /** No premature upload: a path that is ready in any state reached from the graph of
      `infos` has every artifact of `infos` that it depends on already uploaded. */
  lemma NoPrematureUpload(infos: seq<Node>, uploaded: set<Node>, n: Node, s: Node)
    requires n in ReadySet(Without(Builder.Build(infos), uploaded), uploaded)
    requires s in infos && DependsOn(n, s)
    ensures s in uploaded
  {
    var built := Builder.Build(infos);
    ReadyInState(built, uploaded);
    Builder.NodeIff(infos, n);
    Builder.EdgeIff(infos, s, n);
    assert s in Incoming(built, n);
  }

  /** A path that was ready stays ready when another path is marked uploaded; this is
      why `mark_uploaded` sends it again. */
  lemma ReadyStaysReady(built: DiGraph, uploaded: set<Node>, p: Node, n: Node)
    requires WellFormed(built)
    requires n in ReadySet(Without(built, uploaded), uploaded) && n != p
    ensures n in ReadySet(Without(built, uploaded + {p}), uploaded + {p})
  {
    ReadyInState(built, uploaded);
    ReadyInState(built, uploaded + {p});
  }

  /** Marking a path that is no longer, or never was, a node leaves the graph and the
      ready set as they were. */
  lemma MarkAbsentChangesNothing(built: DiGraph, uploaded: set<Node>, p: Node)
    requires WellFormed(built)
    requires p !in Without(built, uploaded).nodes
    ensures Without(built, uploaded + {p}) == Without(built, uploaded)
    ensures ReadySet(Without(built, uploaded + {p}), uploaded + {p})
              == ReadySet(Without(built, uploaded), uploaded)
  {
    WithoutKeeps(built, uploaded);
    RemoveNodeOfWithout(built, uploaded, p);
    RemoveAbsentNode(Without(built, uploaded), p);
    ReadyInState(built, uploaded);
    ReadyInState(built, uploaded + {p});
  }

  /** No premature upload, for what the stream hands out: every path it has yielded,
      from the initial list or from the channel, has every artifact of `infos` that it
      depends on already uploaded. The initial list keeps this fact because `uploaded`
      only grows. */
  lemma DeliveredAfterDependencies(stream: UploadStream, infos: seq<Node>)
    requires stream.Valid() && stream.source.Valid()
    requires DependenciesFirst(stream.source.built, stream.source.uploaded, stream.initial)
    requires stream.source.built == Builder.Build(infos)
    ensures forall p, d :: p in stream.Delivered() && d in infos && DependsOn(p, d) ==>
              d in stream.source.uploaded
  {
    var c := stream.source;
    forall p, d | p in stream.Delivered() && d in infos && DependsOn(p, d)
      ensures d in c.uploaded
    {
      assert p in stream.initial || p in c.outbox;
      assert p in c.built.nodes && Incoming(c.built, p) <= c.uploaded;
      Builder.NodeIff(infos, p);
      Builder.EdgeIff(infos, d, p);
      assert d in Incoming(c.built, p);
    }
  }
}
