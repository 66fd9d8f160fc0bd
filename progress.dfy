/**
 * Progress of the scheduler. Nothing in the scheduler detects a dependency cycle: the
 * paths of a cycle are simply never ready, and when the remaining graph has no ready
 * path left the only possible cause is a cycle.
 */
module Progress {
  import opened PathInfo
  import opened Graph
  import opened Scheduler

  /** `c` is a dependency cycle of `g`: each path of `c` depends on the next one, and the
      last depends on the first. */
  ghost predicate IsCycle(g: DiGraph, c: seq<Node>)
  {
    && |c| >= 1
    && (forall k :: 0 <= k < |c| ==> c[k] in g.nodes)
    && (forall k :: 0 <= k < |c| - 1 ==> (c[k + 1], c[k]) in g.edges)
    && (c[0], c[|c| - 1]) in g.edges
  }

  /** No path of a cycle is ever ready, so none is sent and none is yielded. */
  lemma CycleNeverReady(g: DiGraph, uploaded: set<Node>, c: seq<Node>, k: nat)
    requires WellFormed(g) && uploaded !! g.nodes
    requires IsCycle(g, c) && k < |c|
    ensures c[k] !in ReadySet(g, uploaded)
  {
    var before := if k < |c| - 1 then c[k + 1] else c[0];
    assert before in Incoming(g, c[k]);
    assert before !in uploaded;
  }

  /** With no ready path, a walk of any length can be followed backwards from a node,
      each step to a dependency that is still a node. */
  lemma {:induction false} BackWalk(g: DiGraph, uploaded: set<Node>, n: Node, len: nat)
    returns (w: seq<Node>)
    requires WellFormed(g) && uploaded !! g.nodes
    requires forall m :: m in g.nodes ==> !IsReady(g, uploaded, m)
    requires n in g.nodes
    ensures |w| == len + 1 && w[0] == n
    ensures forall t :: 0 <= t < |w| ==> w[t] in g.nodes
    ensures forall t :: 0 <= t < len ==> (w[t + 1], w[t]) in g.edges
  {
    if len == 0 {
      w := [n];
    } else {
      var w' := BackWalk(g, uploaded, n, len - 1);
      var last := w'[len - 1];
      assert !IsReady(g, uploaded, last);
      var s :| s in Incoming(g, last) && s !in uploaded;
      w := w' + [s];
      forall t | 0 <= t < len ensures (w[t + 1], w[t]) in g.edges {
        if t < len - 1 {
          assert w[t] == w'[t] && w[t + 1] == w'[t + 1];
        } else {
          assert w[t] == last && w[t + 1] == s;
        }
      }
    }
  }

  /** A sequence longer than the set its elements come from repeats an element. */
  lemma {:induction false} Repeat(w: seq<Node>, S: set<Node>) returns (i: nat, j: nat)
    requires forall t :: 0 <= t < |w| ==> w[t] in S
    requires |w| > |S|
    ensures i < j < |w| && w[i] == w[j]
    decreases |w|
  {
    if w[0] in w[1..] {
      var t :| 0 <= t < |w[1..]| && w[1..][t] == w[0];
      i, j := 0, t + 1;
    } else {
      var rest := S - {w[0]};
      forall t | 0 <= t < |w[1..]| ensures w[1..][t] in rest {
        assert w[1..][t] == w[t + 1];
        assert w[1..][t] in w[1..];
      }
      var i', j' := Repeat(w[1..], rest);
      i, j := i' + 1, j' + 1;
    }
  }

  /** A backward walk that meets the same node twice closes a cycle. */
  lemma CycleOfWalk(g: DiGraph, w: seq<Node>, i: nat, j: nat)
    requires forall t :: 0 <= t < |w| ==> w[t] in g.nodes
    requires forall t :: 0 <= t < |w| - 1 ==> (w[t + 1], w[t]) in g.edges
    requires i < j < |w| && w[i] == w[j]
    ensures IsCycle(g, w[i..j])
  {
    var c := w[i..j];
    forall k | 0 <= k < |c| - 1 ensures (c[k + 1], c[k]) in g.edges {
      assert c[k + 1] == w[i + k + 1] && c[k] == w[i + k];
    }
    assert c[0] == w[j] && c[|c| - 1] == w[j - 1];
  }

  /** If paths remain but none is ready, the remaining graph has a dependency cycle:
      this is the only way the stream can stall for good. */
  lemma StalledMeansCycle(g: DiGraph, uploaded: set<Node>)
    requires WellFormed(g) && uploaded !! g.nodes
    requires g.nodes != {} && ReadySet(g, uploaded) == {}
    ensures exists c :: IsCycle(g, c)
  {
    var n :| n in g.nodes;
    forall m | m in g.nodes ensures !IsReady(g, uploaded, m) {
      assert m !in ReadySet(g, uploaded);
    }
    var w := BackWalk(g, uploaded, n, |g.nodes|);
    var i, j := Repeat(w, g.nodes);
    CycleOfWalk(g, w, i, j);
  }
}
