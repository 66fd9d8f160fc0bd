/**
 * The upload scheduler of a closure (`ClosureGraph`): the dependency graph of the paths
 * still to upload, the set of uploaded paths, and the sending half of the channel that
 * announces ready paths, together with the stream handed to the uploader.
 *
 * Each operation is one atomic step; the locks around the graph and the uploaded set
 * are not modelled.
 */
module Scheduler {
  import opened PathInfo
  import opened Graph
  import Builder

  /** `path` may be uploaded: every path it still has an edge from is uploaded. */
  predicate IsReady(g: DiGraph, uploaded: set<Node>, path: Node)
  {
    Incoming(g, path) <= uploaded
  }

  /** The `all` over the incoming neighbours: `path` is ready exactly when the source
      of every edge into it is uploaded; a path without incoming edges is ready. */
  lemma IsReadyIff(g: DiGraph, uploaded: set<Node>, path: Node)
    ensures IsReady(g, uploaded, path) <==>
              forall s :: s in g.nodes && (s, path) in g.edges ==> s in uploaded
    ensures Incoming(g, path) == {} ==> IsReady(g, uploaded, path)
  {
    if !IsReady(g, uploaded, path) {
      var s :| s in Incoming(g, path) && s !in uploaded;
    }
  }

  /** `get_ready_paths`: the nodes of the graph whose incoming neighbours are all uploaded. */
  function ReadySet(g: DiGraph, uploaded: set<Node>): (r: set<Node>)
    ensures r <= g.nodes
    ensures forall n :: n in g.nodes && Incoming(g, n) == {} ==> n in r
  {
    set n | n in g.nodes && IsReady(g, uploaded, n)
  }

  /** `s` lists the members of `S`, each once, in some order. */
  ghost predicate IsListing(s: seq<Node>, S: set<Node>)
  {
    && (forall i, j :: 0 <= i < j < |s| ==> s[i] != s[j])
    && (forall n :: n in s <==> n in S)
  }

  /** Every path of `s` is a node of `built` whose dependencies in `built` are all in
      `uploaded`: handing it out does not upload anything before its dependencies. */
  ghost predicate DependenciesFirst(built: DiGraph, uploaded: set<Node>, s: seq<Node>)
  {
    forall p :: p in s ==> p in built.nodes && Incoming(built, p) <= uploaded
  }

  /** `get_ready_paths` as the scheduler runs it: the ready nodes collected into a list.
      The order of the graph's node iteration is not modelled. */
  method GetReadyPaths(g: DiGraph, uploaded: set<Node>) returns (paths: seq<Node>)
    ensures IsListing(paths, ReadySet(g, uploaded))
  {
    paths := [];
    var rest := g.nodes;
    while rest != {}
      invariant rest <= g.nodes
      invariant forall i, j :: 0 <= i < j < |paths| ==> paths[i] != paths[j]
      invariant forall n :: n in paths <==> n in g.nodes - rest && IsReady(g, uploaded, n)
      decreases rest
    {
      var n :| n in rest;
      if IsReady(g, uploaded, n) {
        paths := paths + [n];
      }
      rest := rest - {n};
    }
  }

  class ClosureGraph {
    /** The graph of the paths not yet uploaded. */
    var graph: DiGraph
    var uploaded: set<Node>
    /** Every path sent on the channel so far, in order of sending. */
    var outbox: seq<Node>
    /** The receiver has been taken out of its `Option`. */
    var rxTaken: bool
    /** The graph as `FromExportedPathInfos` built it. */
    ghost var built: DiGraph

    /** The graph is the built one less the uploaded paths, and every path sent so far
        has all its dependencies uploaded. */
    ghost predicate Valid()
      reads this
    {
      && WellFormed(built)
      && NoSelfLoops(built)
      && graph == Without(built, uploaded)
      && DependenciesFirst(built, uploaded, outbox)
    }

    /** `from_exported_pathinfos`: the dependency graph of the slice, nothing uploaded,
        nothing sent, and the receiver in place. */
    constructor FromExportedPathInfos(infos: seq<Node>)
      ensures Valid()
      ensures built == Builder.Build(infos) && graph == built
      ensures uploaded == {} && outbox == [] && !rxTaken
    {
      built := Builder.Build(infos);
      graph := Builder.Build(infos);
      uploaded := {};
      outbox := [];
      rxTaken := false;
      new;
      WithoutNothing(built);
    }

    /** `mark_uploaded`: records `path` as uploaded, removes its node and edges, then
        sends every path that is ready in the new state, whether or not it was sent
        before. Marking a path twice, or one that is not a node, is not an error. */
    method MarkUploaded(path: Node)
      requires Valid()
      modifies this
      ensures Valid()
      ensures built == old(built) && rxTaken == old(rxTaken)
      ensures uploaded == old(uploaded) + {path}
      ensures graph == RemoveNode(old(graph), path)
      ensures |old(outbox)| <= |outbox| && outbox[..|old(outbox)|] == old(outbox)
      ensures IsListing(outbox[|old(outbox)|..], ReadySet(graph, uploaded))
    {
      RemoveNodeOfWithout(built, uploaded, path);
      uploaded := uploaded + {path};
      graph := RemoveNode(graph, path);
      var ready := GetReadyPaths(graph, uploaded);
      for i := 0 to |ready|
        invariant outbox == old(outbox) + ready[..i]
        invariant graph == RemoveNode(old(graph), path) && uploaded == old(uploaded) + {path}
        invariant built == old(built) && rxTaken == old(rxTaken)
      {
        outbox := outbox + [ready[i]];
      }
      assert outbox[|old(outbox)|..] == ready;
      WithoutKeeps(built, uploaded);
      forall p | p in outbox ensures p in built.nodes && Incoming(built, p) <= uploaded {
        if p !in old(outbox) {
          assert p in ready && p in ReadySet(graph, uploaded);
        }
      }
    }

    /** `paths_to_upload`: takes the receiver and returns the stream that yields the
        paths ready now, then whatever arrives on the channel. A second call finds no
        receiver and panics, shown here as `None`. */
    method PathsToUpload() returns (stream: Option<UploadStream>)
      requires Valid()
      modifies this`rxTaken
      ensures Valid() && rxTaken
      ensures stream.None? <==> old(rxTaken)
      ensures stream.Some? ==>
                && fresh(stream.value)
                && stream.value.source == this
                && IsListing(stream.value.initial, ReadySet(graph, uploaded))
                && DependenciesFirst(built, uploaded, stream.value.initial)
                && stream.value.Valid()
                && stream.value.yielded == 0 && stream.value.received == 0
    {
      if rxTaken {
        return None;
      }
      rxTaken := true;
      var ready := GetReadyPaths(graph, uploaded);
      var s := new UploadStream.Chain(this, ready);
      stream := Some(s);
      WithoutKeeps(built, uploaded);
    }
  }

  datatype Option<T> = None | Some(value: T)

  /** What polling the stream gives: a path, or nothing available yet. The sender is
      never dropped, so the stream never ends. */
  datatype Poll = Yield(path: Node) | Pending

  /** The stream returned by `paths_to_upload`: the ready paths listed when it was made,
      chained with the receiving end of the channel. */
  class UploadStream {
    const source: ClosureGraph
    const initial: seq<Node>
    /** How many paths of `initial` have been yielded. */
    var yielded: nat
    /** How many paths of the channel have been received. */
    var received: nat

    /** The channel is read only after `initial` is used up, and only what was sent. */
    ghost predicate Valid()
      reads this, source
    {
      && yielded <= |initial|
      && received <= |source.outbox|
      && (received > 0 ==> yielded == |initial|)
    }

    /** The paths this stream has handed out, in order. */
    ghost function Delivered(): (d: seq<Node>)
      reads this, source
      requires Valid()
      ensures d == (initial + source.outbox)[..yielded + received]
    {
      initial[..yielded] + source.outbox[..received]
    }

    constructor Chain(source: ClosureGraph, initial: seq<Node>)
      ensures Valid()
      ensures this.source == source && this.initial == initial
      ensures yielded == 0 && received == 0
    {
      this.source := source;
      this.initial := initial;
      yielded := 0;
      received := 0;
    }

    /** Polls the stream once: the next path of `initial`, else the oldest path on the
        channel not yet received, else nothing for now. */
    method Next() returns (p: Poll)
      requires Valid()
      modifies this
      ensures Valid()
      ensures p.Pending? <==> old(yielded) == |initial| && old(received) == |source.outbox|
      ensures p.Pending? ==> yielded == old(yielded) && received == old(received)
      ensures p.Yield? ==> Delivered() == old(Delivered()) + [p.path]
    {
      if yielded < |initial| {
        p := Yield(initial[yielded]);
        yielded := yielded + 1;
      } else if received < |source.outbox| {
        p := Yield(source.outbox[received]);
        received := received + 1;
      } else {
        p := Pending;
      }
    }
  }
}
