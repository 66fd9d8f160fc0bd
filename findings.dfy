/**
 * Two behaviours of the scheduler as written that contradict what it is for, each shown
 * on an input, next to the corrected definition and the property it was meant to have.
 */
module Findings {
  import opened PathInfo
  import opened Graph
  import opened Scheduler
  import Builder
  import Readiness

  // ---- 1. A path without dependencies or dependents is never scheduled ----

  /** As written: an artifact that neither depends on nor is depended on by another
      artifact of the slice is not a node, so it is ready in no state and is never
      yielded or sent. */
  lemma IsolatedPathNeverReady(infos: seq<Node>, a: Node, uploaded: set<Node>)
    requires a in infos
    requires forall m :: m in infos ==> !DependsOn(a, m) && !DependsOn(m, a)
    ensures a !in ReadySet(Without(Builder.Build(infos), uploaded), uploaded)
  {
    Builder.NodeIff(infos, a);
  }

  /** The smallest case: a closure of one path with no references schedules nothing. */
  lemma SinglePathClosure()
    ensures ReadySet(Builder.Build([ExportedPathInfo("a", [])]), {}) == {}
  {
    var a := ExportedPathInfo("a", []);
    forall n ensures n !in Builder.Build([a]).nodes {
      Builder.NodeIff([a], n);
    }
  }

  /** Corrected: every artifact of the slice is a node, with the same edges. */
  function BuildAllNodes(infos: seq<Node>): (g: DiGraph)
    ensures WellFormed(g) && NoSelfLoops(g)
    ensures forall a :: a in infos ==> a in g.nodes
  {
    var b := Builder.Build(infos);
    DiGraph(b.nodes + (set a | a in infos), b.edges)
  }

  /** The intended property: in every state, the ready paths are exactly the artifacts
      not yet uploaded whose dependencies in the slice are all uploaded; in particular
      an artifact without dependencies is ready from the start. */
  lemma EveryPathScheduled(infos: seq<Node>, uploaded: set<Node>)
    ensures ReadySet(Without(BuildAllNodes(infos), uploaded), uploaded)
              == set a | a in infos && a !in uploaded && DependenciesUploaded(infos, a, uploaded)
  {
    var g := BuildAllNodes(infos);
    Readiness.ReadyInState(g, uploaded);
    forall a | a in infos
      ensures Incoming(g, a) <= uploaded <==> DependenciesUploaded(infos, a, uploaded)
    {
      Builder.IncomingOfBuilt(infos, a);
      assert Incoming(g, a) == Incoming(Builder.Build(infos), a) by {
        forall s | s in Incoming(g, a) ensures s in Incoming(Builder.Build(infos), a) {
          Builder.EdgeIff(infos, s, a);
        }
      }
    }
    forall a | a in g.nodes ensures a in infos {
      if a in Builder.Build(infos).nodes {
        Builder.NodeIff(infos, a);
      }
    }
  }

  /** Every artifact of `infos` that `a` depends on is in `uploaded`. */
  ghost predicate DependenciesUploaded(infos: seq<Node>, a: Node, uploaded: set<Node>)
  {
    forall s :: s in infos && DependsOn(a, s) ==> s in uploaded
  }

  // ---- 2. Ready paths are sent again on every completion ----

  /** As written: with `b` and `c` both depending on `a`, marking `a` sends `b` and `c`;
      marking `b` then sends `c` a second time. */
  lemma ResendExample()
    ensures var a, b, c := ExportedPathInfo("a", []), ExportedPathInfo("b", ["a"]), ExportedPathInfo("c", ["a"]);
            var built := Builder.Build([a, b, c]);
            && c in ReadySet(Without(built, {a}), {a})
            && c in ReadySet(Without(built, {a, b}), {a, b})
  {
    var a, b, c := ExportedPathInfo("a", []), ExportedPathInfo("b", ["a"]), ExportedPathInfo("c", ["a"]);
    var infos := [a, b, c];
    var built := Builder.Build(infos);
    assert DependsOn(c, a);
    Builder.NodeIff(infos, c);
    Builder.IncomingOfBuilt(infos, c);
    assert Incoming(built, c) == {a} by {
      forall s | s in infos && DependsOn(c, s) ensures s == a {
      }
    }
    Readiness.ReadyInState(built, {a});
    Readiness.ReadyInState(built, {a, b});
  }

  /** Corrected: after `p` is marked, only its dependents are checked again, and those
      that have become ready are the ones sent. */
  function NewlyReady(g: DiGraph, uploaded: set<Node>, p: Node): (r: set<Node>)
    ensures p !in r
    ensures forall n :: n in r ==> p in Incoming(g, n) && IsReady(RemoveNode(g, p), uploaded + {p}, n)
  {
    var after := RemoveNode(g, p);
    set n | n in after.nodes && p in Incoming(g, n) && IsReady(after, uploaded + {p}, n)
  }

  /** The intended property: what is sent is disjoint from what was ready before (no
      path is sent twice), and together with what was ready before it makes up the
      whole ready set after the step (no path is missed). */
  lemma NewlyReadyExact(g: DiGraph, uploaded: set<Node>, p: Node)
    requires WellFormed(g) && uploaded !! g.nodes
    ensures NewlyReady(g, uploaded, p) !! ReadySet(g, uploaded)
    ensures ReadySet(RemoveNode(g, p), uploaded + {p})
              == (ReadySet(g, uploaded) - {p}) + NewlyReady(g, uploaded, p)
  {
    var after := RemoveNode(g, p);
    assert after == Without(g, {p}) by {
      WithoutNothing(g);
      RemoveNodeOfWithout(g, {}, p);
    }
    WithoutKeeps(g, {p});
    forall n | n in NewlyReady(g, uploaded, p) ensures n !in ReadySet(g, uploaded) {
      assert p in Incoming(g, n);
    }
    forall n | n in ReadySet(after, uploaded + {p})
      ensures n in (ReadySet(g, uploaded) - {p}) + NewlyReady(g, uploaded, p)
    {
      if p !in Incoming(g, n) {
        assert n in g.nodes && n !in {p};
        assert Incoming(after, n) == Incoming(g, n) - {p};
        assert IsReady(after, uploaded + {p}, n);
        assert Incoming(g, n) == Incoming(after, n);
        assert Incoming(after, n) <= uploaded;
      }
    }
  }
}
