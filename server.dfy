/**
  The request handlers of the shortest-path service: a session holding at
  most one active graph, the upload handler that replaces it, and the query
  handler that runs the shortest-path step on it and rebuilds the path.
*/
module Server {
  import opened Wrappers
  import opened Graphs
  import opened Paths
  import opened ShortestPath

  datatype UploadError = InvalidFileType | InvalidJsonContent

  datatype UploadResponse = UploadSuccess(filename: string) | UploadFailure(error: UploadError)

  datatype SolverError = NoActiveGraph | InvalidNodeId

  /** Either an error, or a path with its total distance (both absent when
      the target cannot be reached). */
  datatype SolveResponse =
    | SolverFailure(error: SolverError)
    | Solved(shortestPath: Option<seq<NodeId>>, totalDistance: Option<real>)

  /** The text each error is reported with. */
  function UploadErrorMessage(e: UploadError): (r: string)
  {
    match e
    case InvalidFileType => "Invalid file type"
    case InvalidJsonContent => "Invalid JSON content"
  }

  /** Distinct upload errors are reported with distinct texts. */
  lemma UploadErrorMessagesDistinct(e1: UploadError, e2: UploadError)
    ensures UploadErrorMessage(e1) == UploadErrorMessage(e2) <==> e1 == e2
  {
  }

  function SolverErrorMessage(e: SolverError): (r: string)
  {
    match e
    case NoActiveGraph => "No active graph, please upload a graph first."
    case InvalidNodeId => "Invalid start or end node ID."
  }

  /** Distinct query errors are reported with distinct texts. */
  lemma SolverErrorMessagesDistinct(e1: SolverError, e2: SolverError)
    ensures SolverErrorMessage(e1) == SolverErrorMessage(e2) <==> e1 == e2
  {
  }

  /** A missing or empty filename is treated as the empty string. */
  function FileNameOrEmpty(filename: Option<string>): (r: string)
    ensures r == "" <==> filename.None? || filename.value == ""
    ensures r != "" ==> filename == Some(r)
  {
    if filename.Some? then filename.value else ""
  }

  /** ASCII lower-casing of one character. */
  function LowerChar(c: char): (r: char)
    ensures !('A' <= r <= 'Z')
    ensures r == c || ('A' <= c <= 'Z' && r as int == c as int + 32)
  {
    if 'A' <= c <= 'Z' then (c as int + 32) as char else c
  }

  function Lower(s: string): (r: string)
    ensures |r| == |s|
    ensures forall i :: 0 <= i < |s| ==> r[i] == LowerChar(s[i])
  {
    if s == [] then [] else [LowerChar(s[0])] + Lower(s[1..])
  }

  /** Lower-casing twice is lower-casing once. */
  lemma LowerIdempotent(s: string)
    ensures Lower(Lower(s)) == Lower(s)
  {
    var once := Lower(s);
    forall i | 0 <= i < |s|
      ensures Lower(once)[i] == once[i]
    {
      assert !('A' <= once[i] <= 'Z');
    }
  }

  predicate EndsWith(s: string, suffix: string)
  {
    |suffix| <= |s| && s[|s| - |suffix|..] == suffix
  }

  /** `s` ends with `suffix` exactly when some prefix followed by `suffix` makes up `s`. */
  lemma EndsWithIff(s: string, suffix: string)
    ensures EndsWith(s, suffix) <==> exists front :: s == front + suffix
  {
    if EndsWith(s, suffix) {
      var front := s[..|s| - |suffix|];
      assert s == front + suffix;
    }
    if exists front :: s == front + suffix {
      var front :| s == front + suffix;
      assert s[|s| - |suffix|..] == suffix;
    }
  }

  /** The upload's file-type check: the lower-cased name ends in ".json". */
  predicate HasJsonExtension(name: string)
  {
    EndsWith(Lower(name), ".json")
  }

  /** The extension check accepts exactly the names whose last five characters
      are a dot followed by "json" in any mix of upper and lower case. */
  lemma JsonExtensionCharacters(name: string)
    ensures HasJsonExtension(name) <==>
      && |name| >= 5
      && name[|name| - 5] == '.'
      && name[|name| - 4] in "jJ"
      && name[|name| - 3] in "sS"
      && name[|name| - 2] in "oO"
      && name[|name| - 1] in "nN"
  {
    if |name| >= 5 {
      var low, n := Lower(name), |name|;
      var tail := low[n - 5..];
      assert HasJsonExtension(name) <==> tail == ".json";
      FiveCharacters(tail, ".json");
      assert tail[0] == LowerChar(name[n - 5]) && tail[1] == LowerChar(name[n - 4]);
      assert tail[2] == LowerChar(name[n - 3]) && tail[3] == LowerChar(name[n - 2]);
      assert tail[4] == LowerChar(name[n - 1]);
      LowerCharIs(name[n - 5], '.');
      LowerCharIs(name[n - 4], 'j');
      LowerCharIs(name[n - 3], 's');
      LowerCharIs(name[n - 2], 'o');
      LowerCharIs(name[n - 1], 'n');
    }
  }

  /** Two five-character texts are equal exactly when they agree at each place. */
  lemma FiveCharacters(t: string, u: string)
    requires |t| == 5 && |u| == 5
    ensures t == u <==> t[0] == u[0] && t[1] == u[1] && t[2] == u[2] && t[3] == u[3] && t[4] == u[4]
  {
    if t[0] == u[0] && t[1] == u[1] && t[2] == u[2] && t[3] == u[3] && t[4] == u[4] {
      assert forall k :: 0 <= k < 5 ==> t[k] == u[k];
    }
  }

  /** A character lower-cases to a lower-case letter exactly when it is that
      letter in either case, and to any other non-capital exactly when it is it. */
  lemma LowerCharIs(c: char, x: char)
    requires !('A' <= x <= 'Z')
    ensures 'a' <= x <= 'z' ==> (LowerChar(c) == x <==> c == x || c as int == x as int - 32)
    ensures !('a' <= x <= 'z') ==> (LowerChar(c) == x <==> c == x)
  {
  }

  /** The extension check ignores case: a name passes exactly when its
      lower-cased form does. */
  lemma JsonExtensionIgnoresCase(name: string)
    ensures HasJsonExtension(Lower(name)) == HasJsonExtension(name)
  {
    LowerIdempotent(name);
  }

  /** The query handler's answer for the active graph `active`, given the
      shortest-path step `engine`: the no-graph check first, then the node-id
      check, then the step, then the unreachable check, then the path rebuilt
      from the predecessor links the step left. */
  ghost function Solve(active: Option<Graph>, start: NodeId, end: NodeId, engine: (Graph, NodeId) -> Graph): (r: SolveResponse)
    requires active.Some? ==> WellFormed(active.value)
    requires IsEngine(engine)
    ensures active.None? ==> r == SolverFailure(NoActiveGraph)
    ensures active.Some? && (start !in active.value.nodes || end !in active.value.nodes) ==>
      r == SolverFailure(InvalidNodeId)
    ensures r.Solved? <==> active.Some? && start in active.value.nodes && end in active.value.nodes
    ensures r.Solved? ==>
      && (r.shortestPath.None? <==> engine(active.value, start).nodes[end].dist.Infinite?)
      && (r.totalDistance.None? <==> r.shortestPath.None?)
      && (r.totalDistance.Some? ==> r.totalDistance.value == engine(active.value, start).nodes[end].dist.value)
  {
    if active.None? then SolverFailure(NoActiveGraph)
    else if start !in active.value.nodes || end !in active.value.nodes then SolverFailure(InvalidNodeId)
    else
      var h := engine(active.value, start);
      if h.nodes[end].dist.Infinite? then Solved(None, None)
      else Solved(Some(Reverse(Chain(h.nodes, end, |h.nodes|))), Some(h.nodes[end].dist.value))
  }

  /** A reachable target yields a non-empty path from the start to the end,
      each id the recorded predecessor of the next, with no id repeated. */
  lemma ReachablePath(g: Graph, start: NodeId, end: NodeId, engine: (Graph, NodeId) -> Graph)
    requires WellFormed(g) && IsEngine(engine)
    requires start in g.nodes && end in g.nodes
    ensures var r := Solve(Some(g), start, end, engine);
      var h := engine(g, start);
      r.shortestPath.Some? ==>
        var p := r.shortestPath.value;
        && |p| > 0
        && p[0] == start
        && p[|p| - 1] == end
        && (forall i :: 0 <= i < |p| ==> p[i] in h.nodes)
        && h.nodes[p[0]].prev.None?
        && (forall i :: 0 <= i < |p| - 1 ==> h.nodes[p[i + 1]].prev == Some(p[i]))
        && (forall i, j :: 0 <= i < j < |p| ==> p[i] != p[j])
  {
    var h := engine(g, start);
    if h.nodes[end].dist.Finite? {
      PathShape(h.nodes, end, |h.nodes|);
      TreePathIsWalk(h, start, end);
    }
  }

  /** A reachable target's path is a walk along the uploaded graph's edges
      whose weights add up to the reported total, and no walk from the start
      to the end is cheaper. */
  lemma ReachablePathIsShortest(g: Graph, start: NodeId, end: NodeId, engine: (Graph, NodeId) -> Graph)
    requires WellFormed(g) && IsEngine(engine)
    requires start in g.nodes && end in g.nodes
    ensures var r := Solve(Some(g), start, end, engine);
      r.shortestPath.Some? ==>
        && IsWalk(g.edges, r.shortestPath.value, r.totalDistance.value)
        && forall q, c :: IsWalk(g.edges, q, c) && q[0] == start && q[|q| - 1] == end ==> r.totalDistance.value <= c
  {
    var h := engine(g, start);
    if h.nodes[end].dist.Finite? {
      SameShapeWellFormed(g, h);
      TreePathIsWalk(h, start, end);
      DistIsOptimal(h, start, end);
    }
  }

  /** The null answer is given exactly when no walk along the uploaded
      graph's edges leads from the start to the end. */
  lemma NullAnswerIffUnreachable(g: Graph, start: NodeId, end: NodeId, engine: (Graph, NodeId) -> Graph)
    requires WellFormed(g) && IsEngine(engine)
    requires start in g.nodes && end in g.nodes
    ensures Solve(Some(g), start, end, engine) == Solved(None, None) <==>
      forall q, c :: IsWalk(g.edges, q, c) && q[0] == start ==> q[|q| - 1] != end
  {
    var h := engine(g, start);
    SameShapeWellFormed(g, h);
    if h.nodes[end].dist.Infinite? {
      UnreachedHasNoWalk(h, start, end);
    } else {
      TreePathIsWalk(h, start, end);
      var p := Reverse(Chain(h.nodes, end, |h.nodes|));
      PathShape(h.nodes, end, |h.nodes|);
      assert IsWalk(g.edges, p, h.nodes[end].dist.value) && p[0] == start && p[|p| - 1] == end;
    }
  }

  /** Asking for the path from a node to itself gives that node alone, at distance 0. */
  lemma SameStartAndEnd(g: Graph, s: NodeId, engine: (Graph, NodeId) -> Graph)
    requires WellFormed(g) && IsEngine(engine)
    requires s in g.nodes
    ensures Solve(Some(g), s, s, engine) == Solved(Some([s]), Some(0.0))
  {
    var h := engine(g, s);
    assert IsShortestPathTree(h, s);
    assert h.nodes[s].dist == Finite(0.0);
    assert Chain(h.nodes, s, |h.nodes|) == [s];
    assert Reverse([s]) == [s];
    assert Solve(Some(g), s, s, engine) == Solved(Some(Reverse(Chain(h.nodes, s, |h.nodes|))), Some(h.nodes[s].dist.value));
  }

  /** The shortest-path step rewrites the active graph's labels in place, so
      a repeated query runs on the relabelled graph; because the step resets
      the labels first, the repeated query gives the identical answer, path
      included. */
  lemma RepeatedQuerySameAnswer(g: Graph, start: NodeId, end: NodeId, engine: (Graph, NodeId) -> Graph)
    requires WellFormed(g) && IsEngine(engine)
    requires start in g.nodes && end in g.nodes
    ensures var g2 := engine(g, start);
      WellFormed(g2) && Solve(Some(g2), start, end, engine) == Solve(Some(g), start, end, engine)
  {
    EngineRunIsIdempotent(engine, g, start);
  }

  /** The process-wide session: at most one active graph. */
  class Session {
    var active: Option<Graph>
    /** How many uploads have succeeded so far. */
    ghost var successfulUploads: nat

    ghost predicate Valid()
      reads this
    {
      && (active.Some? ==> WellFormed(active.value))
      && (active.None? <==> successfulUploads == 0)
    }

    /** At startup there is no active graph. */
    constructor ()
      ensures Valid()
      ensures active == None && successfulUploads == 0
    {
      active := None;
      successfulUploads := 0;
    }

    /** The upload handler. `parsed` is what building a graph from the file's
        content gave: `None` when building it raised. A name that fails the
        extension check is rejected before the content is looked at; a build
        failure is rejected too; in both cases the active graph stays as it was.
        Only a successful build replaces it, wholesale. */
    method UploadGraph(filename: Option<string>, parsed: Option<Graph>) returns (r: UploadResponse)
      requires Valid()
      requires parsed.Some? ==> WellFormed(parsed.value)
      modifies this
      ensures Valid()
      ensures !HasJsonExtension(FileNameOrEmpty(filename)) ==>
        && r == UploadFailure(InvalidFileType)
        && active == old(active) && successfulUploads == old(successfulUploads)
      ensures HasJsonExtension(FileNameOrEmpty(filename)) && parsed.None? ==>
        && r == UploadFailure(InvalidJsonContent)
        && active == old(active) && successfulUploads == old(successfulUploads)
      ensures HasJsonExtension(FileNameOrEmpty(filename)) && parsed.Some? ==>
        && r == UploadSuccess(FileNameOrEmpty(filename))
        && active == parsed && successfulUploads == old(successfulUploads) + 1
    {
      var name := FileNameOrEmpty(filename);
      if !HasJsonExtension(name) {
        return UploadFailure(InvalidFileType);
      }
      if parsed.None? {
        return UploadFailure(InvalidJsonContent);
      }
      active := parsed;
      successfulUploads := successfulUploads + 1;
      r := UploadSuccess(name);
    }

    /** The query handler. The shortest-path step rewrites the labels of the
        active graph's nodes in place; the graph itself is never replaced. */
    method SolveShortestPath(start: NodeId, end: NodeId, engine: (Graph, NodeId) -> Graph) returns (r: SolveResponse)
      requires Valid() && IsEngine(engine)
      modifies this
      ensures Valid()
      ensures r == Solve(old(active), start, end, engine)
      ensures old(successfulUploads) == 0 ==> r == SolverFailure(NoActiveGraph)
      ensures successfulUploads == old(successfulUploads)
      ensures r.SolverFailure? ==> active == old(active)
      ensures r.Solved? ==> active == Some(engine(old(active).value, start))
      ensures old(active).Some? ==> active.Some? && SameShape(old(active).value, active.value)
    {
      if active.None? {
        return SolverFailure(NoActiveGraph);
      }
      var g := active.value;
      if start !in g.nodes || end !in g.nodes {
        return SolverFailure(InvalidNodeId);
      }
      var h := engine(g, start);
      SameShapeWellFormed(g, h);
      active := Some(h);
      if h.nodes[end].dist.Infinite? {
        return Solved(None, None);
      }
      var path := ReconstructPath(h.nodes, end, |h.nodes|);
      r := Solved(Some(path), Some(h.nodes[end].dist.value));
    }
  }

  /** A session's life: rejected uploads before and after a successful one,
      and what they leave active. */
  method UploadScenario(g: Graph, other: Graph)
    requires WellFormed(g) && WellFormed(other)
  {
    JsonExtensionCharacters("");
    JsonExtensionCharacters("g.JSON");
    JsonExtensionCharacters("g.txt");
    var session := new Session();
    var r := session.UploadGraph(None, Some(g));
    assert r == UploadFailure(InvalidFileType) && session.active == None;
    r := session.UploadGraph(Some("g.JSON"), Some(g));
    assert r == UploadSuccess("g.JSON") && session.active == Some(g);
    r := session.UploadGraph(Some("g.txt"), Some(other));
    assert r == UploadFailure(InvalidFileType) && session.active == Some(g);
    r := session.UploadGraph(Some("g.JSON"), None);
    assert r == UploadFailure(InvalidJsonContent) && session.active == Some(g);
  }
}
