/**
 * A directed graph map over artifacts with unit edge weights, as the scheduler uses
 * it: nodes are keys, an edge `(s, t)` runs from `s` to `t`, edges form a set
 * (adding an edge twice changes nothing), and removing a node removes every edge
 * that touches it.
 */
module Graph {
  import opened PathInfo

  type Node = ExportedPathInfo
  type Edge = (Node, Node)

  datatype DiGraph = DiGraph(nodes: set<Node>, edges: set<Edge>)

  const Empty: DiGraph := DiGraph({}, {})

  /** Every edge joins two nodes of the graph. */
  predicate WellFormed(g: DiGraph)
  {
    forall e :: e in g.edges ==> e.0 in g.nodes && e.1 in g.nodes
  }

  predicate NoSelfLoops(g: DiGraph)
  {
    forall e :: e in g.edges ==> e.0 != e.1
  }

  /** `add_edge`: inserts both endpoints if they are missing, then the edge. */
  function AddEdge(g: DiGraph, e: Edge): (r: DiGraph)
    ensures e in r.edges && e.0 in r.nodes && e.1 in r.nodes
    ensures g.nodes <= r.nodes && g.edges <= r.edges
    ensures WellFormed(g) ==> WellFormed(r)
  {
    DiGraph(g.nodes + {e.0, e.1}, g.edges + {e})
  }

  /** `extend_with_edges`: adds the edges one after the other, in order. */
  function ExtendWithEdges(g: DiGraph, es: seq<Edge>): (r: DiGraph)
    ensures g.edges <= r.edges && forall e :: e in es ==> e in r.edges
    ensures WellFormed(g) ==> WellFormed(r)
    decreases |es|
  {
    if es == [] then g else ExtendWithEdges(AddEdge(g, es[0]), es[1..])
  }

  /** `from_edges`: a graph built from an edge list alone. */
  function FromEdges(es: seq<Edge>): (r: DiGraph)
    ensures WellFormed(r)
    ensures forall e :: e in es ==> e in r.edges
  {
    ExtendWithEdges(Empty, es)
  }

  /** The nodes that occur at either end of some edge of `es`. */
  function Endpoints(es: seq<Edge>): set<Node>
  {
    (set e | e in es :: e.0) + (set e | e in es :: e.1)
  }

  /** `neighbors_directed(n, Incoming)`: the sources of the edges into `n`. */
  function Incoming(g: DiGraph, n: Node): (r: set<Node>)
    ensures r <= g.nodes
    ensures WellFormed(g) ==> forall s :: (s, n) in g.edges ==> s in r
  {
    set s | s in g.nodes && (s, n) in g.edges
  }

  /** `remove_node`: the node goes, and with it every edge it is an endpoint of. */
  function RemoveNode(g: DiGraph, n: Node): (r: DiGraph)
    ensures n !in r.nodes && r.nodes <= g.nodes && r.edges <= g.edges
    ensures forall e :: e in r.edges ==> e.0 != n && e.1 != n
    ensures WellFormed(g) ==> WellFormed(r)
  {
    DiGraph(g.nodes - {n}, set e | e in g.edges && e.0 != n && e.1 != n)
  }

  /** The graph left once every node of `gone` has been removed. */
  function Without(g: DiGraph, gone: set<Node>): DiGraph
  {
    DiGraph(g.nodes - gone, set e | e in g.edges && e.0 !in gone && e.1 !in gone)
  }

  /** Folding `add_edge` over a list adds exactly the list's edges and their endpoints. */
  lemma {:induction false} ExtendWithEdgesShape(g: DiGraph, es: seq<Edge>)
    ensures ExtendWithEdges(g, es).nodes == g.nodes + Endpoints(es)
    ensures ExtendWithEdges(g, es).edges == g.edges + set e | e in es
    decreases |es|
  {
    if es != [] {
      var g' := AddEdge(g, es[0]);
      ExtendWithEdgesShape(g', es[1..]);
      assert es == [es[0]] + es[1..];
      assert Endpoints(es) == {es[0].0, es[0].1} + Endpoints(es[1..]);
      assert (set e | e in es) == {es[0]} + set e | e in es[1..];
    }
  }

  /** A graph built from edges alone has the endpoints of its edges as nodes and
      nothing else, so it is well formed; a node without an edge cannot occur. */
  lemma FromEdgesShape(es: seq<Edge>)
    ensures FromEdges(es).nodes == Endpoints(es)
    ensures FromEdges(es).edges == set e | e in es
    ensures WellFormed(FromEdges(es))
  {
    ExtendWithEdgesShape(Empty, es);
  }

  /** Removing one more node from a graph that already lacks `gone` is the same as
      removing `gone` and that node together. */
  lemma RemoveNodeOfWithout(g: DiGraph, gone: set<Node>, n: Node)
    ensures RemoveNode(Without(g, gone), n) == Without(g, gone + {n})
  {
    var lhs := RemoveNode(Without(g, gone), n);
    var rhs := Without(g, gone + {n});
    assert lhs.nodes == rhs.nodes;
    assert lhs.edges == rhs.edges;
  }

  /** Removing a node that the graph lacks changes nothing. */
  lemma RemoveAbsentNode(g: DiGraph, n: Node)
    requires WellFormed(g)
    requires n !in g.nodes
    ensures RemoveNode(g, n) == g
  {
    assert RemoveNode(g, n).edges == g.edges;
  }

  /** Removing nothing leaves the graph as it was. */
  lemma WithoutNothing(g: DiGraph)
    ensures Without(g, {}) == g
  {
    assert Without(g, {}).edges == g.edges;
  }

  /** Removing nodes keeps a graph well formed and free of self-loops, and the edges
      into a remaining node are the old ones whose source was not removed. */
  lemma WithoutKeeps(g: DiGraph, gone: set<Node>)
    requires WellFormed(g)
    ensures WellFormed(Without(g, gone))
    ensures NoSelfLoops(g) ==> NoSelfLoops(Without(g, gone))
    ensures forall n :: n in g.nodes && n !in gone ==>
              Incoming(Without(g, gone), n) == Incoming(g, n) - gone
  {
    forall n | n in g.nodes && n !in gone
      ensures Incoming(Without(g, gone), n) == Incoming(g, n) - gone
    {
    }
  }
}
