/**
  The graph data model the shortest-path service works on: nodes keyed by id,
  each carrying the distance and predecessor label that a shortest-path run
  writes into it, and a list of directed, weighted edges.
*/
module Graphs {
  import opened Wrappers

  type NodeId = string

  /** A node distance: a finite exact value, or infinity for "not reached". */
  datatype Dist = Finite(value: real) | Infinite

  /** A node record: its id and the label a shortest-path run leaves in it.
      The predecessor is a non-owning link, the id of another node. */
  datatype Node = Node(id: NodeId, dist: Dist, prev: Option<NodeId>)

  datatype Edge = Edge(source: NodeId, target: NodeId, weight: real)

  datatype Graph = Graph(nodes: map<NodeId, Node>, edges: seq<Edge>)

  /** What a successfully built graph guarantees: each record is stored under
      its own id, and every edge joins two known nodes with a non-negative weight. */
  ghost predicate WellFormed(g: Graph)
  {
    && (forall k :: k in g.nodes ==> g.nodes[k].id == k)
    && (forall e :: e in g.edges ==> e.source in g.nodes && e.target in g.nodes && e.weight >= 0.0)
  }

  /** `h` is `g` with possibly different node labels: same ids, same edges. */
  ghost predicate SameShape(g: Graph, h: Graph)
  {
    && g.nodes.Keys == h.nodes.Keys
    && (forall k :: k in g.nodes ==> h.nodes[k].id == g.nodes[k].id)
    && g.edges == h.edges
  }

  /** Relabelling the nodes of a well-formed graph keeps it well-formed. */
  lemma SameShapeWellFormed(g: Graph, h: Graph)
    requires WellFormed(g) && SameShape(g, h)
    ensures WellFormed(h)
  {
  }

  /** `p` is a walk along `edges` (consecutive ids joined by an edge) whose
      edge weights add up to `cost`; a single node is a walk of cost 0. */
  ghost predicate IsWalk(edges: seq<Edge>, p: seq<NodeId>, cost: real)
    decreases |p|
  {
    if |p| == 0 then false
    else if |p| == 1 then cost == 0.0
    else exists i :: 0 <= i < |edges| && edges[i].source == p[|p| - 2] && edges[i].target == p[|p| - 1]
                     && IsWalk(edges, p[..|p| - 1], cost - edges[i].weight)
  }

  /** A walk's cost is a value: a walk of cost `c` is one of any cost equal to `c`. */
  lemma WalkAtCost(edges: seq<Edge>, p: seq<NodeId>, c: real, d: real)
    requires IsWalk(edges, p, c) && c == d
    ensures IsWalk(edges, p, d)
  {
  }
}
