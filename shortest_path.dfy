/**
  The contract of the shortest-path step (Dijkstra's algorithm over
  non-negative weights). Its code is not part of this model, so the step is a
  function parameter `engine` that the query calls; `IsEngine` is what such a
  step promises, and the lemmas below derive what the query relies on.
*/
module ShortestPath {
  import opened Wrappers
  import opened Graphs
  import opened Paths

  /** A node's label names predecessor `u` only when both are reached and an
      edge `u -> v` accounts for the whole difference in distance. */
  ghost predicate LinkRealized(h: Graph, u: NodeId, v: NodeId)
    requires v in h.nodes
  {
    && u in h.nodes
    && h.nodes[u].dist.Finite?
    && h.nodes[v].dist.Finite?
    && exists i :: 0 <= i < |h.edges| && h.edges[i].source == u && h.edges[i].target == v
                   && h.nodes[v].dist.value == h.nodes[u].dist.value + h.edges[i].weight
  }

  /** No edge out of a reached node can improve its target's distance. */
  ghost predicate Relaxed(h: Graph)
  {
    forall i :: 0 <= i < |h.edges| ==> EdgeRelaxed(h, h.edges[i])
  }

  ghost predicate EdgeRelaxed(h: Graph, e: Edge)
  {
    e.source in h.nodes && e.target in h.nodes && h.nodes[e.source].dist.Finite? ==>
      && h.nodes[e.target].dist.Finite?
      && h.nodes[e.target].dist.value <= h.nodes[e.source].dist.value + e.weight
  }

  /** Every predecessor link is realized by an edge. */
  ghost predicate LinksRealized(h: Graph)
  {
    forall v :: v in h.nodes && h.nodes[v].prev.Some? ==> LinkRealized(h, h.nodes[v].prev.value, v)
  }

  /** Every reached node other than the source has a predecessor. */
  ghost predicate ReachedHavePrev(h: Graph, s: NodeId)
  {
    forall v :: v in h.nodes && v != s && h.nodes[v].dist.Finite? ==> h.nodes[v].prev.Some?
  }

  /** Every predecessor chain ends within as many steps as there are nodes. */
  ghost predicate Acyclic(h: Graph)
  {
    forall v :: v in h.nodes ==> Rooted(h.nodes, v, |h.nodes|)
  }

  /** The labels of `h` after a run from `s`: the source has distance 0 and no
      predecessor, every predecessor link is realized by an edge, every reached
      node other than the source has a predecessor, every predecessor chain is
      acyclic, and no edge can be relaxed any further. */
  ghost predicate IsShortestPathTree(h: Graph, s: NodeId)
  {
    && s in h.nodes
    && h.nodes[s].dist == Finite(0.0)
    && h.nodes[s].prev.None?
    && LinksRealized(h)
    && ReachedHavePrev(h, s)
    && Acyclic(h)
    && Relaxed(h)
  }

  /** The step resets every label before it runs, so what it computes does
      not depend on the labels an earlier run left behind. */
  ghost predicate ResetsLabels(engine: (Graph, NodeId) -> Graph)
  {
    forall g1, g2, s {:trigger engine(g1, s), engine(g2, s)} ::
      WellFormed(g1) && s in g1.nodes && SameShape(g1, g2) ==> engine(g1, s) == engine(g2, s)
  }

  /** An engine maps a well-formed graph and one of its node ids to the same
      graph with its labels rewritten as a shortest-path tree from that node,
      whatever labels the nodes carried before. */
  ghost predicate IsEngine(engine: (Graph, NodeId) -> Graph)
  {
    && (forall g, s {:trigger engine(g, s)} :: WellFormed(g) && s in g.nodes ==>
          SameShape(g, engine(g, s)) && IsShortestPathTree(engine(g, s), s))
    && ResetsLabels(engine)
  }

  /** Running the step again on the graph it just relabelled changes nothing. */
  lemma EngineRunIsIdempotent(engine: (Graph, NodeId) -> Graph, g: Graph, s: NodeId)
    requires IsEngine(engine) && WellFormed(g) && s in g.nodes
    ensures WellFormed(engine(g, s)) && SameShape(g, engine(g, s))
    ensures engine(engine(g, s), s) == engine(g, s)
  {
    var h := engine(g, s);
    assert SameShape(g, h);
    SameShapeWellFormed(g, h);
    assert ResetsLabels(engine);
    assert engine(g, s) == engine(h, s);
  }

  /** Following predecessor links from a reached node passes only reached
      nodes and ends at the source. */
  lemma {:induction false} ChainEndsAtSource(h: Graph, s: NodeId, v: NodeId, fuel: nat)
    requires s in h.nodes && h.nodes[s].prev.None? && LinksRealized(h) && ReachedHavePrev(h, s)
    requires Rooted(h.nodes, v, fuel) && h.nodes[v].dist.Finite?
    ensures var c := Chain(h.nodes, v, fuel);
      && c[|c| - 1] == s
      && (forall i :: 0 <= i < |c| ==> c[i] in h.nodes && h.nodes[c[i]].dist.Finite?)
    decreases fuel
  {
    if h.nodes[v].prev.Some? {
      var u := h.nodes[v].prev.value;
      assert LinkRealized(h, u, v);
      ChainEndsAtSource(h, s, u, fuel - 1);
      var rest := Chain(h.nodes, u, fuel - 1);
      assert Chain(h.nodes, v, fuel) == [v] + rest;
    }
  }

  /** A sequence of reached nodes in which each is the predecessor of the next
      is a walk whose cost is the difference of the end distances. */
  lemma {:induction false} LinkedWalk(h: Graph, p: seq<NodeId>)
    requires LinksRealized(h)
    requires |p| > 0
    requires forall i :: 0 <= i < |p| ==> p[i] in h.nodes && h.nodes[p[i]].dist.Finite?
    requires forall i :: 0 <= i < |p| - 1 ==> h.nodes[p[i + 1]].prev == Some(p[i])
    ensures IsWalk(h.edges, p, h.nodes[p[|p| - 1]].dist.value - h.nodes[p[0]].dist.value)
    decreases |p|
  {
    if |p| > 1 {
      var n := |p|;
      var front := p[..n - 1];
      LinkedWalk(h, front);
      var u, v := p[n - 2], p[n - 1];
      assert LinkRealized(h, u, v);
      var i :| 0 <= i < |h.edges| && h.edges[i].source == u && h.edges[i].target == v
               && h.nodes[v].dist.value == h.nodes[u].dist.value + h.edges[i].weight;
      var cost := h.nodes[v].dist.value - h.nodes[p[0]].dist.value;
      assert front[|front| - 1] == u && front[0] == p[0];
      assert IsWalk(h.edges, p[..n - 1], cost - h.edges[i].weight);
    }
  }

  /** Every walk in a well-formed graph from the source reaches a node with a
      finite distance no larger than the walk's cost. */
  lemma {:induction false} WalkNoShorter(h: Graph, s: NodeId, p: seq<NodeId>, cost: real)
    requires WellFormed(h) && s in h.nodes && h.nodes[s].dist == Finite(0.0) && Relaxed(h)
    requires IsWalk(h.edges, p, cost) && p[0] == s
    ensures p[|p| - 1] in h.nodes
    ensures h.nodes[p[|p| - 1]].dist.Finite? && h.nodes[p[|p| - 1]].dist.value <= cost
    decreases |p|
  {
    var n := |p|;
    if n > 1 {
      var i :| 0 <= i < |h.edges| && h.edges[i].source == p[n - 2] && h.edges[i].target == p[n - 1]
               && IsWalk(h.edges, p[..n - 1], cost - h.edges[i].weight);
      var front := p[..n - 1];
      WalkNoShorter(h, s, front, cost - h.edges[i].weight);
      assert front[|front| - 1] == p[n - 2];
      assert h.edges[i] in h.edges;
      assert EdgeRelaxed(h, h.edges[i]);
    }
  }

  /** The reversed predecessor chain of a reached node is a walk from the
      source whose cost is the node's distance. */
  lemma TreePathIsWalk(h: Graph, s: NodeId, v: NodeId)
    requires IsShortestPathTree(h, s)
    requires v in h.nodes && h.nodes[v].dist.Finite?
    ensures var p := Reverse(Chain(h.nodes, v, |h.nodes|));
      p[0] == s && IsWalk(h.edges, p, h.nodes[v].dist.value)
  {
    assert Rooted(h.nodes, v, |h.nodes|);
    ChainPathIsWalk(h, s, v, |h.nodes|);
  }

  /** `TreePathIsWalk` for any step bound, with only the parts of the tree it uses. */
  lemma ChainPathIsWalk(h: Graph, s: NodeId, v: NodeId, fuel: nat)
    requires s in h.nodes && h.nodes[s].dist == Finite(0.0) && h.nodes[s].prev.None?
    requires LinksRealized(h) && ReachedHavePrev(h, s)
    requires Rooted(h.nodes, v, fuel) && h.nodes[v].dist.Finite?
    ensures var p := Reverse(Chain(h.nodes, v, fuel));
      p[0] == s && IsWalk(h.edges, p, h.nodes[v].dist.value)
  {
    var c := Chain(h.nodes, v, fuel);
    var p := Reverse(c);
    ChainEndsAtSource(h, s, v, fuel);
    PathShape(h.nodes, v, fuel);
    assert p[0] == c[|c| - 1] == s;
    assert p[|p| - 1] == v;
    forall i | 0 <= i < |p|
      ensures p[i] in h.nodes && h.nodes[p[i]].dist.Finite?
    {
      assert p[i] == c[|c| - 1 - i];
    }
    LinkedWalk(h, p);
    var d := h.nodes[p[|p| - 1]].dist.value - h.nodes[p[0]].dist.value;
    assert d == h.nodes[v].dist.value;
    WalkAtCost(h.edges, p, d, h.nodes[v].dist.value);
  }

  /** No walk from the source to a node costs less than the node's distance. */
  lemma DistIsOptimal(h: Graph, s: NodeId, v: NodeId)
    requires WellFormed(h) && IsShortestPathTree(h, s)
    requires v in h.nodes && h.nodes[v].dist.Finite?
    ensures forall q, c :: IsWalk(h.edges, q, c) && q[0] == s && q[|q| - 1] == v ==> h.nodes[v].dist.value <= c
  {
    forall q, d | IsWalk(h.edges, q, d) && q[0] == s && q[|q| - 1] == v
      ensures h.nodes[v].dist.value <= d
    {
      WalkNoShorter(h, s, q, d);
    }
  }

  /** A node left at infinite distance cannot be reached by any walk from the source. */
  lemma UnreachedHasNoWalk(h: Graph, s: NodeId, v: NodeId)
    requires WellFormed(h) && IsShortestPathTree(h, s)
    requires v in h.nodes && h.nodes[v].dist.Infinite?
    ensures forall q, c :: IsWalk(h.edges, q, c) && q[0] == s ==> q[|q| - 1] != v
  {
    forall q, c | IsWalk(h.edges, q, c) && q[0] == s
      ensures q[|q| - 1] != v
    {
      WalkNoShorter(h, s, q, c);
    }
  }

  /** Two shortest-path trees from the same source over the same edges give
      every node the same distance, however ties were broken. */
  lemma TreesAgreeOnDistance(h1: Graph, h2: Graph, s: NodeId, v: NodeId)
    requires WellFormed(h1) && IsShortestPathTree(h1, s)
    requires WellFormed(h2) && IsShortestPathTree(h2, s)
    requires h1.edges == h2.edges && v in h1.nodes && v in h2.nodes
    ensures h1.nodes[v].dist == h2.nodes[v].dist
  {
    if h1.nodes[v].dist.Finite? {
      TreePathIsWalk(h1, s, v);
      var p := Reverse(Chain(h1.nodes, v, |h1.nodes|));
      PathShape(h1.nodes, v, |h1.nodes|);
      WalkNoShorter(h2, s, p, h1.nodes[v].dist.value);
    }
    if h2.nodes[v].dist.Finite? {
      TreePathIsWalk(h2, s, v);
      var p := Reverse(Chain(h2.nodes, v, |h2.nodes|));
      PathShape(h2.nodes, v, |h2.nodes|);
      WalkNoShorter(h1, s, p, h2.nodes[v].dist.value);
    }
  }
}
