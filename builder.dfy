/**
 * Building the dependency graph of a closure (`ClosureGraph::from_exported_pathinfos`):
 * for every target in the input slice, in order, every source of the slice that the
 * target depends on gives an edge `(source, target)`; the graph is then built from that
 * edge list alone.
 */
module Builder {
  import opened PathInfo
  import opened Graph

  /** The inner `filter`/`map` over the whole slice: the edges into `target`, in slice order. */
  function SourcesOf(all: seq<Node>, target: Node): (r: seq<Edge>)
    ensures |r| <= |all|
    ensures forall e :: e in r ==> e.1 == target && e.0 in all && DependsOn(target, e.0)
    decreases |all|
  {
    if all == [] then []
    else (if DependsOn(target, all[0]) then [(all[0], target)] else []) + SourcesOf(all[1..], target)
  }

  /** The outer `flat_map` over the targets. */
  function EdgeList(targets: seq<Node>, all: seq<Node>): (r: seq<Edge>)
    ensures forall e :: e in r ==> e.1 in targets && e.0 in all && DependsOn(e.1, e.0)
    decreases |targets|
  {
    if targets == [] then [] else SourcesOf(all, targets[0]) + EdgeList(targets[1..], all)
  }

  /** The graph of a closure: built from the edge list alone, so an artifact takes part
      only as an endpoint of some edge. */
  function Build(infos: seq<Node>): (g: DiGraph)
    ensures WellFormed(g) && NoSelfLoops(g)
  {
    BuiltEdges(infos);
    FromEdges(EdgeList(infos, infos))
  }

  lemma {:induction false} SourcesOfMembers(all: seq<Node>, target: Node, e: Edge)
    ensures e in SourcesOf(all, target) <==> e.1 == target && e.0 in all && DependsOn(target, e.0)
    decreases |all|
  {
    if all != [] {
      SourcesOfMembers(all[1..], target, e);
      assert all == [all[0]] + all[1..];
    }
  }

  lemma {:induction false} EdgeListMembers(targets: seq<Node>, all: seq<Node>, e: Edge)
    ensures e in EdgeList(targets, all) <==> e.1 in targets && e.0 in all && DependsOn(e.1, e.0)
    decreases |targets|
  {
    if targets != [] {
      SourcesOfMembers(all, targets[0], e);
      EdgeListMembers(targets[1..], all, e);
      assert targets == [targets[0]] + targets[1..];
    }
  }

  /** The edge list, seen as a set: exactly the dependency pairs of the slice. */
  lemma BuiltEdges(infos: seq<Node>)
    ensures FromEdges(EdgeList(infos, infos)).edges
              == set s, t | s in infos && t in infos && DependsOn(t, s) :: (s, t)
    ensures WellFormed(FromEdges(EdgeList(infos, infos)))
    ensures NoSelfLoops(FromEdges(EdgeList(infos, infos)))
  {
    var es := EdgeList(infos, infos);
    FromEdgesShape(es);
    forall e ensures e in es <==> e.0 in infos && e.1 in infos && DependsOn(e.1, e.0) {
      EdgeListMembers(infos, infos, e);
    }
  }

  /** An edge `s -> t` exists exactly when both come from the slice, their paths differ
      and `t` references the path of `s`. */
  lemma EdgeIff(infos: seq<Node>, s: Node, t: Node)
    ensures (s, t) in Build(infos).edges <==> s in infos && t in infos && DependsOn(t, s)
  {
    BuiltEdges(infos);
  }

  /** The nodes are exactly the artifacts that have a dependency or a dependent inside
      the slice; an artifact with neither is not a node. */
  lemma NodeIff(infos: seq<Node>, n: Node)
    ensures n in Build(infos).nodes <==>
              n in infos && exists m :: m in infos && (DependsOn(n, m) || DependsOn(m, n))
  {
    var es := EdgeList(infos, infos);
    FromEdgesShape(es);
    if n in Build(infos).nodes {
      var e :| e in es && (n == e.0 || n == e.1);
      EdgeListMembers(infos, infos, e);
    }
    if n in infos && exists m :: m in infos && (DependsOn(n, m) || DependsOn(m, n)) {
      var m :| m in infos && (DependsOn(n, m) || DependsOn(m, n));
      if DependsOn(n, m) {
        EdgeListMembers(infos, infos, (m, n));
        assert n == (m, n).1;
      } else {
        EdgeListMembers(infos, infos, (n, m));
        assert n == (n, m).0;
      }
    }
  }

  /** The dependencies of a node are the artifacts of the slice it depends on; a
      reference to a path that no artifact of the slice has contributes nothing. */
  lemma IncomingOfBuilt(infos: seq<Node>, t: Node)
    requires t in infos
    ensures Incoming(Build(infos), t) == set s | s in infos && DependsOn(t, s)
  {
    BuiltEdges(infos);
    forall s | s in infos && DependsOn(t, s) ensures s in Incoming(Build(infos), t) {
      EdgeIff(infos, s, t);
    }
  }

  /** The graph depends only on which artifacts the slice holds, not on their order
      or repetition. */
  lemma OrderIndependent(a: seq<Node>, b: seq<Node>)
    requires forall n :: n in a <==> n in b
    ensures Build(a) == Build(b)
  {
    BuiltEdges(a);
    BuiltEdges(b);
    forall n ensures n in Build(a).nodes <==> n in Build(b).nodes {
      NodeIff(a, n);
      NodeIff(b, n);
    }
  }
}
