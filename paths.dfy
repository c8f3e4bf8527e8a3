/**
  Path reconstruction: after a shortest-path run, walk the predecessor links
  from the target back to a node that has no predecessor, collecting ids,
  then reverse the collected list.
*/
module Paths {
  import opened Wrappers
  import opened Graphs

  /** The predecessor chain from `v` stays inside `nodes` and reaches a node
      with no predecessor in at most `fuel` steps (so it has no cycle). */
  ghost predicate Rooted(nodes: map<NodeId, Node>, v: NodeId, fuel: nat)
    decreases fuel
  {
    v in nodes && (nodes[v].prev.None? || (fuel > 0 && Rooted(nodes, nodes[v].prev.value, fuel - 1)))
  }

  /** The ids met when following predecessor links from `v`, `v` first. */
  ghost function Chain(nodes: map<NodeId, Node>, v: NodeId, fuel: nat): seq<NodeId>
    requires Rooted(nodes, v, fuel)
    decreases fuel
  {
    if nodes[v].prev.None? then [v] else [v] + Chain(nodes, nodes[v].prev.value, fuel - 1)
  }

  /** The list reversed, as Python's in-place `reverse` leaves it. */
  function Reverse<T>(s: seq<T>): (r: seq<T>)
    ensures |r| == |s|
  {
    seq(|s|, i requires 0 <= i < |s| => s[|s| - 1 - i])
  }

  /** Reversing twice gives the list back. */
  lemma ReverseInvolution<T>(s: seq<T>)
    ensures Reverse(Reverse(s)) == s
  {
  }

  /** Reversing keeps exactly the same elements, each as often. */
  lemma {:induction false} ReversePermutes<T>(s: seq<T>)
    ensures multiset(Reverse(s)) == multiset(s)
    decreases |s|
  {
    if s != [] {
      ReversePermutes(s[1..]);
      assert Reverse(s) == Reverse(s[1..]) + [s[0]];
      assert s == [s[0]] + s[1..];
    }
  }

  /** A chain starts at `v`, ends at a node without predecessor, and each
      element's predecessor is the next element. */
  lemma {:induction false} ChainShape(nodes: map<NodeId, Node>, v: NodeId, fuel: nat)
    requires Rooted(nodes, v, fuel)
    ensures var c := Chain(nodes, v, fuel);
      && 1 <= |c| <= fuel + 1
      && c[0] == v
      && (forall i :: 0 <= i < |c| ==> c[i] in nodes)
      && nodes[c[|c| - 1]].prev.None?
      && (forall i :: 0 <= i < |c| - 1 ==> nodes[c[i]].prev == Some(c[i + 1]))
    decreases fuel
  {
    if nodes[v].prev.Some? {
      ChainShape(nodes, nodes[v].prev.value, fuel - 1);
    }
  }

  /** The chain does not depend on how generous the step bound is. */
  lemma {:induction false} ChainFuel(nodes: map<NodeId, Node>, v: NodeId, n: nat, m: nat)
    requires Rooted(nodes, v, n) && Rooted(nodes, v, m)
    ensures Chain(nodes, v, n) == Chain(nodes, v, m)
    decreases n
  {
    if nodes[v].prev.Some? {
      ChainFuel(nodes, nodes[v].prev.value, n - 1, m - 1);
    }
  }

  /** Every suffix of a chain is the chain of its first element. */
  lemma {:induction false} ChainSuffix(nodes: map<NodeId, Node>, v: NodeId, fuel: nat, j: nat)
    requires Rooted(nodes, v, fuel)
    requires j < |Chain(nodes, v, fuel)|
    ensures j <= fuel
    ensures Rooted(nodes, Chain(nodes, v, fuel)[j], fuel - j)
    ensures Chain(nodes, v, fuel)[j..] == Chain(nodes, Chain(nodes, v, fuel)[j], fuel - j)
    decreases j
  {
    if j > 0 {
      var u := nodes[v].prev.value;
      assert Chain(nodes, v, fuel) == [v] + Chain(nodes, u, fuel - 1);
      ChainSuffix(nodes, u, fuel - 1, j - 1);
      assert Chain(nodes, v, fuel)[j..] == Chain(nodes, u, fuel - 1)[j - 1..];
    }
  }

  /** A chain never visits a node twice. */
  lemma {:induction false} ChainDistinct(nodes: map<NodeId, Node>, v: NodeId, fuel: nat)
    requires Rooted(nodes, v, fuel)
    ensures var c := Chain(nodes, v, fuel);
      forall i, j :: 0 <= i < j < |c| ==> c[i] != c[j]
    decreases fuel
  {
    var c := Chain(nodes, v, fuel);
    if nodes[v].prev.Some? {
      var u := nodes[v].prev.value;
      var rest := Chain(nodes, u, fuel - 1);
      assert c == [v] + rest;
      ChainDistinct(nodes, u, fuel - 1);
      forall j | 0 <= j < |rest|
        ensures rest[j] != v
      {
        if rest[j] == v {
          ChainSuffix(nodes, u, fuel - 1, j);
          ChainFuel(nodes, v, fuel - 1 - j, fuel);
          assert false;
        }
      }
      forall i, j | 0 <= i < j < |c|
        ensures c[i] != c[j]
      {
        if i > 0 {
          assert c[i] == rest[i - 1] && c[j] == rest[j - 1];
        } else {
          assert c[j] == rest[j - 1];
        }
      }
    }
  }

  /** The reversed chain runs from a node without predecessor to `v`,
      each element being the predecessor of the next, with no repeats. */
  lemma PathShape(nodes: map<NodeId, Node>, v: NodeId, fuel: nat)
    requires Rooted(nodes, v, fuel)
    ensures var p := Reverse(Chain(nodes, v, fuel));
      && |p| > 0
      && p[|p| - 1] == v
      && (forall i :: 0 <= i < |p| ==> p[i] in nodes)
      && nodes[p[0]].prev.None?
      && (forall i :: 0 <= i < |p| - 1 ==> nodes[p[i + 1]].prev == Some(p[i]))
      && (forall i, j :: 0 <= i < j < |p| ==> p[i] != p[j])
  {
    var c := Chain(nodes, v, fuel);
    var p := Reverse(c);
    var n := |c|;
    ChainShape(nodes, v, fuel);
    ChainDistinct(nodes, v, fuel);
    forall i | 0 <= i < n - 1
      ensures nodes[p[i + 1]].prev == Some(p[i])
    {
      assert p[i + 1] == c[n - 2 - i] && p[i] == c[n - 1 - i];
    }
    forall i, j | 0 <= i < j < n
      ensures p[i] != p[j]
    {
      assert p[i] == c[n - 1 - i] && p[j] == c[n - 1 - j];
    }
  }

  /** The reconstruction loop: start at `end`, append the current id and step
      to its predecessor until there is none, then reverse. `fuel` is a bound
      on the chain's length; the loop stops because the chain has no cycle. */
  method ReconstructPath(nodes: map<NodeId, Node>, end: NodeId, ghost fuel: nat) returns (path: seq<NodeId>)
    requires Rooted(nodes, end, fuel)
    ensures path == Reverse(Chain(nodes, end, fuel))
    ensures |path| > 0 && path[|path| - 1] == end
    ensures forall i :: 0 <= i < |path| ==> path[i] in nodes
    ensures nodes[path[0]].prev.None?
    ensures forall i :: 0 <= i < |path| - 1 ==> nodes[path[i + 1]].prev == Some(path[i])
    ensures forall i, j :: 0 <= i < j < |path| ==> path[i] != path[j]
  {
    var collected: seq<NodeId> := [];
    var cur: Option<NodeId> := Some(end);
    ghost var left := fuel;
    while cur.Some?
      invariant cur.Some? ==> Rooted(nodes, cur.value, left)
      invariant cur.Some? ==> collected + Chain(nodes, cur.value, left) == Chain(nodes, end, fuel)
      invariant cur.None? ==> collected == Chain(nodes, end, fuel)
      decreases if cur.Some? then left + 1 else 0
    {
      var v := cur.value;
      collected := collected + [v];
      if nodes[v].prev.Some? {
        assert Chain(nodes, v, left) == [v] + Chain(nodes, nodes[v].prev.value, left - 1);
        left := left - 1;
      }
      cur := nodes[v].prev;
    }
    path := Reverse(collected);
    PathShape(nodes, end, fuel);
  }
}
