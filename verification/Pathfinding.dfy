/**
 * Breadth-first path search (chiffondb-core/src/pathfinding/mod.rs) over the graph that the topology
 * store keeps: depth-bounded, filtered by direction and edge type, with the path rebuilt from the
 * visited map.
 */
module Pathfinding {
  import opened Types
  import opened Topology

  datatype PathDirection = Outgoing | Incoming | Both

  datatype PathOptions = PathOptions(maxDepth: nat, direction: PathDirection, edgeTypeIds: Option<seq<U16>>)

  datatype PathResult = PathResult(nodes: seq<Id>, edges: seq<Id>)

  // ---- What a path is ----

  predicate EdgeMatches(typeId: U16, options: PathOptions) {
    match options.edgeTypeIds
    case None => true
    case Some(ids) => typeId in ids
  }

  /** Edge `e` leads from `a` to `b` in an allowed direction, and has an allowed type. */
  predicate Joins(g: Graph, options: PathOptions, e: Id, a: Id, b: Id) {
    && e in g.edges.used
    && EdgeMatches(EdgeAt(g, e).typeId, options)
    && ((!options.direction.Incoming? && EdgeAt(g, e).fromNode == a && EdgeAt(g, e).toNode == b)
        || (!options.direction.Outgoing? && EdgeAt(g, e).toNode == a && EdgeAt(g, e).fromNode == b))
  }

  /** An edge in use leads from the node it starts at to the node it ends at; incoming, the other way
      round; in both directions, either way. */
  lemma DirectionsMean(g: Graph, maxDepth: nat, e: Id, a: Id, b: Id)
    requires GraphOk(g)
    ensures Joins(g, PathOptions(maxDepth, Outgoing, None), e, a, b) <==>
      e in EdgesOf(g.edges) && EdgesOf(g.edges)[e].fromNode == a && EdgesOf(g.edges)[e].toNode == b
    ensures Joins(g, PathOptions(maxDepth, Incoming, None), e, a, b) <==>
      e in EdgesOf(g.edges) && EdgesOf(g.edges)[e].fromNode == b && EdgesOf(g.edges)[e].toNode == a
    ensures Joins(g, PathOptions(maxDepth, Both, None), e, a, b) <==>
      || Joins(g, PathOptions(maxDepth, Outgoing, None), e, a, b)
      || Joins(g, PathOptions(maxDepth, Incoming, None), e, a, b)
  {
    hide SideOk;
  }

  /** A list of types lets exactly the edges of these types through. */
  lemma FilterMeans(g: Graph, options: PathOptions, types: seq<U16>, e: Id, a: Id, b: Id)
    requires GraphOk(g)
    ensures Joins(g, options.(edgeTypeIds := Some(types)), e, a, b) <==>
      Joins(g, options.(edgeTypeIds := None), e, a, b) && EdgesOf(g.edges)[e].typeId in types
  {
    hide SideOk;
  }

  /** Nodes and edges alternate, and every edge joins its two neighbours. */
  ghost predicate IsPath(g: Graph, options: PathOptions, p: PathResult, a: Id, b: Id) {
    && |p.nodes| == |p.edges| + 1
    && p.nodes[0] == a && p.nodes[|p.edges|] == b
    && forall i :: 0 <= i < |p.edges| ==> Joins(g, options, p.edges[i], p.nodes[i], p.nodes[i+1])
  }

  ghost predicate Reachable(g: Graph, options: PathOptions, a: Id, b: Id) {
    exists p :: IsPath(g, options, p, a, b) && |p.edges| <= options.maxDepth
  }

  ghost predicate IsShortest(g: Graph, options: PathOptions, p: PathResult, a: Id, b: Id) {
    && IsPath(g, options, p, a, b)
    && forall q :: IsPath(g, options, q, a, b) ==> |p.edges| <= |q.edges|
  }

  // ---- What the search walks over ----

  /** The lists read from the slot of `a` hold edge `e`, whose other end is `b`. Nothing asks whether
      the slot is in use. */
  ghost predicate Steps(g: Graph, options: PathOptions, e: Id, a: Id, b: Id) {
    && GraphOk(g) && Readable(g, a)
    && EdgeMatches(EdgeAt(g, e).typeId, options)
    && ((!options.direction.Incoming? && e in Adjacent(g, Out, a) && EdgeAt(g, e).toNode == b)
        || (!options.direction.Outgoing? && e in Adjacent(g, In, a) && EdgeAt(g, e).fromNode == b))
  }

  ghost predicate IsWalk(g: Graph, options: PathOptions, p: PathResult, a: Id, b: Id) {
    && |p.nodes| == |p.edges| + 1
    && p.nodes[0] == a && p.nodes[|p.edges|] == b
    && forall i :: 0 <= i < |p.edges| ==> Steps(g, options, p.edges[i], p.nodes[i], p.nodes[i+1])
  }

  ghost predicate CanWalk(g: Graph, options: PathOptions, a: Id, b: Id) {
    exists p :: IsWalk(g, options, p, a, b) && |p.edges| <= options.maxDepth
  }

  ghost predicate IsShortestWalk(g: Graph, options: PathOptions, p: PathResult, a: Id, b: Id) {
    && IsWalk(g, options, p, a, b)
    && forall q :: IsWalk(g, options, q, a, b) ==> |p.edges| <= |q.edges|
  }

  /** Every edge of a walk has one of the listed types, and a list of all types filters nothing. */
  lemma FilteredWalks(g: Graph, options: PathOptions, types: seq<U16>, p: PathResult, a: Id, b: Id)
    requires GraphOk(g)
    ensures IsWalk(g, options.(edgeTypeIds := Some(types)), p, a, b) <==>
      IsWalk(g, options.(edgeTypeIds := None), p, a, b) && forall e :: e in p.edges ==> EdgeAt(g, e).typeId in types
    ensures (forall e :: e in g.edges.records ==> EdgeAt(g, e).typeId in types) ==>
      (IsWalk(g, options.(edgeTypeIds := Some(types)), p, a, b) <==> IsWalk(g, options.(edgeTypeIds := None), p, a, b))
  {
    hide GraphOk, EdgeAt, Steps;
    var filtered, open := options.(edgeTypeIds := Some(types)), options.(edgeTypeIds := None);
    if |p.nodes| == |p.edges| + 1 {
      forall i | 0 <= i < |p.edges|
        ensures Steps(g, filtered, p.edges[i], p.nodes[i], p.nodes[i+1]) <==>
          Steps(g, open, p.edges[i], p.nodes[i], p.nodes[i+1]) && EdgeAt(g, p.edges[i]).typeId in types
        ensures Steps(g, open, p.edges[i], p.nodes[i], p.nodes[i+1]) ==> p.edges[i] in g.edges.records
      {
        FilteredStep(g, options, types, p.edges[i], p.nodes[i], p.nodes[i+1]);
      }
    }
    if IsWalk(g, open, p, a, b) {
      forall e | e in p.edges ensures e in g.edges.records {
        var i :| 0 <= i < |p.edges| && p.edges[i] == e;
        assert Steps(g, open, p.edges[i], p.nodes[i], p.nodes[i+1]);
      }
    }
    if IsWalk(g, filtered, p, a, b) {
      forall e | e in p.edges ensures EdgeAt(g, e).typeId in types {
        var i :| 0 <= i < |p.edges| && p.edges[i] == e;
        assert Steps(g, filtered, p.edges[i], p.nodes[i], p.nodes[i+1]);
      }
    }
  }

  lemma FilteredStep(g: Graph, options: PathOptions, types: seq<U16>, e: Id, a: Id, b: Id)
    ensures Steps(g, options.(edgeTypeIds := Some(types)), e, a, b) <==>
      Steps(g, options.(edgeTypeIds := None), e, a, b) && EdgeAt(g, e).typeId in types
    ensures Steps(g, options.(edgeTypeIds := None), e, a, b) ==> e in g.edges.records
  {
    if Steps(g, options.(edgeTypeIds := None), e, a, b) {
      StepsNodes(g, options.(edgeTypeIds := None), e, a, b);
    }
    hide GraphOk, Readable, Adjacent, EdgeAt;
  }

  /** From a slot that was ever used, freed or not, what is read are the edges in use. */
  lemma StepsAreJoins(g: Graph, options: PathOptions, e: Id, a: Id, b: Id)
    requires GraphOk(g) && a in g.nodes.records
    ensures Steps(g, options, e, a, b) <==> Joins(g, options, e, a, b)
    ensures Joins(g, options, e, a, b) ==> a in g.nodes.used && b in g.nodes.used && b in g.nodes.records
  {
    hide Adjacent, Linked, Listed, Stale;
    AdjacentEdges(g, Out, a, e);
    AdjacentEdges(g, In, a, e);
    assert e in g.edges.used ==> NearOf(g, Out, e) in g.nodes.used && NearOf(g, In, e) in g.nodes.used;
  }

  /** From there the walks are the paths. */
  lemma {:induction false} WalksArePaths(g: Graph, options: PathOptions, p: PathResult, a: Id, b: Id)
    requires GraphOk(g) && a in g.nodes.records
    ensures IsWalk(g, options, p, a, b) <==> IsPath(g, options, p, a, b)
    ensures IsPath(g, options, p, a, b) ==> b in g.nodes.records
    decreases |p.edges|
  {
    hide Steps, Joins, GraphOk;
    if |p.nodes| == |p.edges| + 1 && p.edges != [] {
      var n := |p.edges| - 1;
      var q := PathResult(p.nodes[..n+1], p.edges[..n]);
      WalksArePaths(g, options, q, a, p.nodes[n]);
      if IsWalk(g, options, q, a, p.nodes[n]) {
        StepsAreJoins(g, options, p.edges[n], p.nodes[n], p.nodes[n+1]);
      }
    }
  }

  lemma WalksMeanPaths(g: Graph, options: PathOptions, a: Id, b: Id)
    requires GraphOk(g) && a in g.nodes.records
    ensures CanWalk(g, options, a, b) <==> Reachable(g, options, a, b)
    ensures forall p :: IsShortestWalk(g, options, p, a, b) <==> IsShortest(g, options, p, a, b)
  {
    hide IsWalk, IsPath, GraphOk;
    forall p ensures IsWalk(g, options, p, a, b) <==> IsPath(g, options, p, a, b) {
      WalksArePaths(g, options, p, a, b);
    }
  }

  /** From a freed slot nothing is found: there is no path to another node. */
  lemma FreedReachesNothing(g: Graph, options: PathOptions, a: Id, b: Id)
    requires GraphOk(g) && a in g.nodes.records && a !in g.nodes.used && a != b
    ensures !CanWalk(g, options, a, b)
  {
    hide Steps, GraphOk;
    forall p | IsWalk(g, options, p, a, b) ensures false {
      assert Steps(g, options, p.edges[0], p.nodes[0], p.nodes[1]);
      StepsAreJoins(g, options, p.edges[0], a, p.nodes[1]);
    }
  }

  /** From a slot that was never used the search steps along the first edge slot, although no edge
      joins the slot to anything: it returns what is no path. */
  lemma NeverUsedFollowsFirstEdge(g: Graph, options: PathOptions, a: Id)
    requires GraphOk(g) && Readable(g, a) && a !in g.nodes.records
    requires options.maxDepth > 0 && options.direction.Outgoing? && EdgeMatches(EdgeAt(g, 0).typeId, options)
    ensures var b, p := EdgeAt(g, 0).toNode, PathResult([a, EdgeAt(g, 0).toNode], [0]);
      a != b && IsShortestWalk(g, options, p, a, b) && CanWalk(g, options, a, b) && !Reachable(g, options, a, b)
  {
    var b := EdgeAt(g, 0).toNode;
    var p := PathResult([a, b], [0]);
    FirstEdgeEnds(g);
    AdjacentEdges(g, Out, a, 0);
    hide Adjacent, EdgeMatches;
    assert Steps(g, options, 0, a, b);
    hide GraphOk, EdgeAt;
    assert IsWalk(g, options, p, a, b);
    forall q | IsPath(g, options, q, a, b) ensures false {
      assert Joins(g, options, q.edges[0], q.nodes[0], q.nodes[1]);
      NoEdgeThere(g, options, q.edges[0], a, q.nodes[1]);
    }
  }

  lemma FirstEdgeEnds(g: Graph)
    requires GraphOk(g) && g.edges.pages > 0
    ensures 0 in g.edges.records && EdgeAt(g, 0).toNode in g.nodes.records
  {
    assert NearOf(g, In, 0) in g.nodes.records;
  }

  lemma NoEdgeThere(g: Graph, options: PathOptions, e: Id, a: Id, b: Id)
    requires GraphOk(g) && a !in g.nodes.records
    ensures !Joins(g, options, e, a, b)
  {
    assert e in g.edges.used ==> NearOf(g, Out, e) in g.nodes.used && NearOf(g, In, e) in g.nodes.used;
  }

  /** Whatever is asked, the search answers for the edges in use if and only if the slot it starts from
      was ever used. */
  lemma SearchIsRightIff(g: Graph, a: Id)
    requires GraphOk(g) && Readable(g, a)
    ensures (forall options, b :: CanWalk(g, options, a, b) <==> Reachable(g, options, a, b)) <==> a in g.nodes.records
  {
    hide GraphOk, CanWalk, Reachable, Readable;
    if a in g.nodes.records {
      forall options, b ensures CanWalk(g, options, a, b) <==> Reachable(g, options, a, b) {
        WalksMeanPaths(g, options, a, b);
      }
    } else {
      NeverUsedFollowsFirstEdge(g, PathOptions(1, Outgoing, None), a);
    }
  }

  // ---- Shortest paths ----

  /** A walk without the part between two visits of a node. */
  function Cut(p: PathResult, i: nat, j: nat): PathResult
    requires i < j < |p.nodes| == |p.edges| + 1
  {
    PathResult(p.nodes[..i] + p.nodes[j..], p.edges[..i] + p.edges[j..])
  }

  lemma CutIsWalk(g: Graph, options: PathOptions, p: PathResult, a: Id, b: Id, i: nat, j: nat)
    requires IsWalk(g, options, p, a, b) && i < j < |p.nodes| && p.nodes[i] == p.nodes[j]
    ensures IsWalk(g, options, Cut(p, i, j), a, b)
  {
    hide Steps;
    var q := Cut(p, i, j);
    forall k | 0 <= k < |q.edges| ensures Steps(g, options, q.edges[k], q.nodes[k], q.nodes[k+1]) {
      if k < i {
        assert Steps(g, options, p.edges[k], p.nodes[k], p.nodes[k+1]);
      } else {
        var m := k + j - i;
        assert Steps(g, options, p.edges[m], p.nodes[m], p.nodes[m+1]);
      }
    }
  }

  /** A shortest path visits no node twice. */
  lemma ShortestIsSimple(g: Graph, options: PathOptions, p: PathResult, a: Id, b: Id, i: nat, j: nat)
    requires IsShortestWalk(g, options, p, a, b) && i < j < |p.nodes|
    ensures p.nodes[i] != p.nodes[j]
  {
    if p.nodes[i] == p.nodes[j] {
      CutIsWalk(g, options, p, a, b, i, j);
    }
    hide IsWalk;
  }

  function Reversed<T>(s: seq<T>): (r: seq<T>)
    ensures |r| == |s| && forall i {:trigger r[i]} :: 0 <= i < |s| ==> r[i] == s[|s|-1-i]
  {
    seq(|s|, i requires 0 <= i < |s| => s[|s|-1-i])
  }

  // ---- The search ----

  /** An edge, and the node at its other end. */
  datatype Hop = Hop(edge: Id, node: Id)

  /** What the search knows of a visited node: the edge and the node it was reached by, none for the start. */
  type Visited = map<Id, Option<Hop>>

  /** Every visited node hangs on one visited a step closer to the start. */
  ghost predicate IsTree(g: Graph, options: PathOptions, start: Id, visited: Visited, dist: map<Id, nat>) {
    && visited.Keys == dist.Keys
    && start in visited && visited[start] == None && dist[start] == 0
    && forall v :: v in visited && v != start ==> HangsOn(g, options, visited, dist, v)
  }

  ghost predicate HangsOn(g: Graph, options: PathOptions, visited: Visited, dist: map<Id, nat>, v: Id) {
    && v in visited && v in dist && visited[v].Some?
    && var Hop(e, u) := visited[v].value;
       u in visited && u in dist && dist[v] == dist[u] + 1 && Steps(g, options, e, u, v)
  }

  /** All neighbours of `u` have been visited, none later than a step behind it. */
  ghost predicate Closed(g: Graph, options: PathOptions, dist: map<Id, nat>, u: Id)
    requires u in dist
  {
    forall e, w :: Steps(g, options, e, u, w) ==> w in dist && dist[w] <= dist[u] + 1
  }

  /** When the nodes closer than `bound` are closed, a path of at most `bound` edges cannot leave the
      visited nodes, nor beat their distances. */
  lemma {:induction false} PathsStayInside(g: Graph, options: PathOptions, start: Id, dist: map<Id, nat>, bound: nat,
                                           p: PathResult, b: Id)
    requires start in dist && dist[start] == 0
    requires forall u :: u in dist && dist[u] < bound ==> Closed(g, options, dist, u)
    requires IsWalk(g, options, p, start, b) && |p.edges| <= bound
    ensures b in dist && dist[b] <= |p.edges|
    decreases |p.edges|
  {
    if p.edges != [] {
      var n := |p.edges| - 1;
      var q := PathResult(p.nodes[..n+1], p.edges[..n]);
      forall i | 0 <= i < n ensures Steps(g, options, q.edges[i], q.nodes[i], q.nodes[i+1]) {
        assert Steps(g, options, p.edges[i], p.nodes[i], p.nodes[i+1]);
      }
      PathsStayInside(g, options, start, dist, bound, q, p.nodes[n]);
      assert Steps(g, options, p.edges[n], p.nodes[n], b);
    }
  }

  lemma StepsNodes(g: Graph, options: PathOptions, e: Id, a: Id, b: Id)
    requires Steps(g, options, e, a, b)
    ensures e in g.edges.records && b in g.nodes.records
  {
    FirstIsRecord(g, Out, a);
    FirstIsRecord(g, In, a);
    ChainOfRecords(g, Out, FirstOf(g, Out, a));
    ChainOfRecords(g, In, FirstOf(g, In, a));
    assert NearOf(g, Out, e) in g.nodes.records && NearOf(g, In, e) in g.nodes.records;
  }

  /** The edges and nodes that can be read in one step; an error if the slot cannot be read. */
  method Neighbors(store: TopologyStore, node: Id, options: PathOptions) returns (r: Result<seq<Hop>>)
    requires store.Valid()
    ensures r.Ok? <==> Readable(store.View(), node)
    ensures r.Ok? ==> forall e: Id, n: Id :: Hop(e, n) in r.value <==> Steps(store.View(), options, e, node, n)
  {
    hide GraphOk, Adjacent, Readable, EdgeMatches;
    var result: seq<Hop> := [];
    if !options.direction.Incoming? {
      var outs :- store.CollectEdgeChain(Out, node);
      for i := 0 to |outs|
        invariant forall e: Id, n: Id :: Hop(e, n) in result <==>
          e in outs[..i] && EdgeMatches(EdgeAt(store.View(), e).typeId, options) && n == EdgeAt(store.View(), e).toNode
      {
        assert outs[..i+1] == outs[..i] + [outs[i]];
        var edge := store.edges.Read(outs[i], ZERO_EDGE);
        if EdgeMatches(edge.typeId, options) {
          result := result + [Hop(outs[i], edge.toNode)];
        }
      }
      assert outs[..|outs|] == outs;
    }
    ghost var outgoing := result;
    if !options.direction.Outgoing? {
      var ins :- store.CollectEdgeChain(In, node);
      for i := 0 to |ins|
        invariant forall e: Id, n: Id :: Hop(e, n) in result <==>
          Hop(e, n) in outgoing
          || (e in ins[..i] && EdgeMatches(EdgeAt(store.View(), e).typeId, options) && n == EdgeAt(store.View(), e).fromNode)
      {
        assert ins[..i+1] == ins[..i] + [ins[i]];
        var edge := store.edges.Read(ins[i], ZERO_EDGE);
        if EdgeMatches(edge.typeId, options) {
          result := result + [Hop(ins[i], edge.fromNode)];
        }
      }
      assert ins[..|ins|] == ins;
    }
    r := Ok(result);
  }

  /** A path as it is collected, from its end back to its start. */
  ghost predicate IsBackPath(g: Graph, options: PathOptions, nodes: seq<Id>, edges: seq<Id>) {
    && |nodes| == |edges| + 1
    && forall i :: 0 <= i < |edges| ==> Steps(g, options, edges[i], nodes[i+1], nodes[i])
  }

  lemma StepBack(g: Graph, options: PathOptions, nodes: seq<Id>, edges: seq<Id>, e: Id, prev: Id)
    requires IsBackPath(g, options, nodes, edges) && Steps(g, options, e, prev, nodes[|nodes|-1])
    ensures IsBackPath(g, options, nodes + [prev], edges + [e])
  {
    hide Steps;
  }

  lemma TurnedAround(g: Graph, options: PathOptions, nodes: seq<Id>, edges: seq<Id>)
    requires IsBackPath(g, options, nodes, edges)
    ensures IsWalk(g, options, PathResult(Reversed(nodes), Reversed(edges)), nodes[|edges|], nodes[0])
  {
  }

  /** Walks the visited map back from `end` and turns the result around. */
  method ReconstructPath(ghost g: Graph, ghost options: PathOptions, start: Id, end: Id, visited: Visited,
                         ghost dist: map<Id, nat>)
    returns (p: PathResult)
    requires IsTree(g, options, start, visited, dist) && end in visited
    ensures IsWalk(g, options, p, start, end) && |p.edges| == dist[end]
  {
    hide Steps, IsWalk, IsBackPath;
    var nodes, edges: seq<Id> := [], [];
    var current := end;
    BackFrom(g, options, end);
    while true
      invariant current in visited && |nodes| == |edges| && |edges| + dist[current] == dist[end]
      invariant (nodes + [current])[0] == end && IsBackPath(g, options, nodes + [current], edges)
      decreases dist[current]
    {
      nodes := nodes + [current];
      var entry := visited[current];
      if entry.None? {
        break;
      }
      assert HangsOn(g, options, visited, dist, current);
      var Hop(e, prev) := entry.value;
      StepBack(g, options, nodes, edges, e, prev);
      edges := edges + [e];
      if prev == start {
        nodes := nodes + [start];
        break;
      }
      current := prev;
    }
    TurnedAround(g, options, nodes, edges);
    p := PathResult(Reversed(nodes), Reversed(edges));
  }

  lemma BackFrom(g: Graph, options: PathOptions, end: Id)
    ensures IsBackPath(g, options, [] + [end], [])
  {
  }

  /** A node that waits to be explored, and its distance. */
  datatype Waiting = Waiting(node: Id, depth: nat)

  /** Every visited node is closed, waits in the queue, or lies at the depth bound. */
  ghost predicate Explored(g: Graph, options: PathOptions, dist: map<Id, nat>, queue: seq<Waiting>) {
    forall u :: u in dist ==>
      Closed(g, options, dist, u) || dist[u] == options.maxDepth || Waiting(u, dist[u]) in queue
  }

  /** The queue holds visited nodes with their distances, nearest first, spanning two levels at most. */
  ghost predicate IsQueue(dist: map<Id, nat>, queue: seq<Waiting>, level: nat) {
    && (forall i :: 0 <= i < |queue| ==>
          queue[i].node in dist && dist[queue[i].node] == queue[i].depth && level <= queue[i].depth <= level + 1)
    && forall i, j :: 0 <= i < j < |queue| ==> queue[i].depth <= queue[j].depth
  }

  /** The state of the search between two steps. */
  ghost predicate Searching(g: Graph, options: PathOptions, start: Id, visited: Visited, dist: map<Id, nat>,
                            queue: seq<Waiting>, level: nat) {
    && IsTree(g, options, start, visited, dist)
    && (forall u :: u in dist ==> dist[u] <= options.maxDepth && dist[u] <= level + 1)
    && IsQueue(dist, queue, level)
    && Explored(g, options, dist, queue)
  }

  /** A node that has not been visited is farther than the level being explored, and beyond the depth
      bound when none is left to explore. */
  lemma UnvisitedIsFar(g: Graph, options: PathOptions, start: Id, visited: Visited, dist: map<Id, nat>,
                       queue: seq<Waiting>, level: nat, p: PathResult, b: Id)
    requires Searching(g, options, start, visited, dist, queue, level) && level <= options.maxDepth
    requires b !in visited && IsWalk(g, options, p, start, b)
    ensures level < |p.edges| && (queue == [] ==> options.maxDepth < |p.edges|)
  {
    var bound := if queue == [] then options.maxDepth else level;
    if |p.edges| <= bound {
      forall u | u in dist && dist[u] < bound ensures Closed(g, options, dist, u) {
      }
      PathsStayInside(g, options, start, dist, bound, p, b);
    }
  }

  /** The front of the queue is taken up; its level becomes the level of the search. */
  lemma LevelRises(g: Graph, options: PathOptions, start: Id, visited: Visited, dist: map<Id, nat>,
                   queue: seq<Waiting>, level: nat)
    requires Searching(g, options, start, visited, dist, queue, level) && queue != []
    ensures Searching(g, options, start, visited, dist, queue, queue[0].depth)
    ensures queue[0].node in visited && dist[queue[0].node] == queue[0].depth <= options.maxDepth
  {
  }

  /** A node at the depth bound, or with no unvisited neighbour, leaves the queue. */
  lemma Dequeued(g: Graph, options: PathOptions, start: Id, visited: Visited, dist: map<Id, nat>,
                 queue: seq<Waiting>, level: nat)
    requires Searching(g, options, start, visited, dist, queue, level) && queue != []
    requires queue[0].depth >= options.maxDepth || (queue[0].node in dist && Closed(g, options, dist, queue[0].node))
    ensures Searching(g, options, start, visited, dist, queue[1..], level)
  {
  }

  lemma TreeGrows(g: Graph, options: PathOptions, start: Id, visited: Visited, dist: map<Id, nat>,
                  edge: Id, current: Id, next: Id)
    requires IsTree(g, options, start, visited, dist) && current in dist && next !in visited
    requires Steps(g, options, edge, current, next)
    ensures IsTree(g, options, start, visited[next := Some(Hop(edge, current))], dist[next := dist[current] + 1])
  {
    hide Steps;
    var visited2, dist2 := visited[next := Some(Hop(edge, current))], dist[next := dist[current] + 1];
    forall v | v in visited2 && v != start ensures HangsOn(g, options, visited2, dist2, v) {
      assert v != next ==> HangsOn(g, options, visited, dist, v);
    }
  }

  lemma QueueGrows(dist: map<Id, nat>, queue: seq<Waiting>, level: nat, next: Id)
    requires IsQueue(dist, queue, level) && next !in dist
    ensures IsQueue(dist[next := level + 1], queue + [Waiting(next, level + 1)], level)
  {
  }

  lemma ExploredGrows(g: Graph, options: PathOptions, dist: map<Id, nat>, queue: seq<Waiting>, next: Id, d: nat)
    requires Explored(g, options, dist, queue) && next !in dist
    ensures Explored(g, options, dist[next := d], queue + [Waiting(next, d)])
  {
  }

  /** A neighbour visited for the first time joins the tree a step behind, and the queue at its end. */
  lemma Discovered(g: Graph, options: PathOptions, start: Id, visited: Visited, dist: map<Id, nat>,
                   queue: seq<Waiting>, edge: Id, next: Id)
    requires queue != [] && Searching(g, options, start, visited, dist, queue, queue[0].depth)
    requires queue[0].depth < options.maxDepth && next !in visited
    requires Steps(g, options, edge, queue[0].node, next)
    ensures var depth := queue[0].depth + 1;
      && IsTree(g, options, start, visited[next := Some(Hop(edge, queue[0].node))], dist[next := depth])
      && Searching(g, options, start, visited[next := Some(Hop(edge, queue[0].node))], dist[next := depth],
                   queue + [Waiting(next, depth)], queue[0].depth)
  {
    hide Steps, Explored, Closed, HangsOn;
    assert dist[queue[0].node] == queue[0].depth;
    TreeGrows(g, options, start, visited, dist, edge, queue[0].node, next);
    QueueGrows(dist, queue, queue[0].depth, next);
    ExploredGrows(g, options, dist, queue, next, queue[0].depth + 1);
  }

  lemma SearchStarts(g: Graph, options: PathOptions, start: Id)
    ensures Searching(g, options, start, map[start := None], map[start := 0], [Waiting(start, 0)], 0)
  {
  }

  /** Once all its neighbours have been visited, the front of the queue is closed. */
  lemma AllSeen(g: Graph, options: PathOptions, start: Id, visited: Visited, dist: map<Id, nat>,
                queue: seq<Waiting>, neighbors: seq<Hop>)
    requires queue != [] && Searching(g, options, start, visited, dist, queue, queue[0].depth)
    requires forall e: Id, n: Id :: Hop(e, n) in neighbors <==> Steps(g, options, e, queue[0].node, n)
    requires forall k :: 0 <= k < |neighbors| ==> neighbors[k].node in visited
    ensures queue[0].node in dist && Closed(g, options, dist, queue[0].node)
  {
  }

  lemma Trivial(g: Graph, options: PathOptions, a: Id)
    ensures IsShortestWalk(g, options, PathResult([a], []), a, a) && CanWalk(g, options, a, a)
  {
    assert IsWalk(g, options, PathResult([a], []), a, a);
  }

  lemma FirstFound(g: Graph, options: PathOptions, start: Id, visited: Visited, dist: map<Id, nat>,
              queue: seq<Waiting>, level: nat, p: PathResult, b: Id)
    requires Searching(g, options, start, visited, dist, queue, level) && b !in visited
    requires IsWalk(g, options, p, start, b) && |p.edges| == level + 1 <= options.maxDepth
    ensures IsShortestWalk(g, options, p, start, b) && CanWalk(g, options, start, b)
  {
    hide Searching, IsWalk;
    forall q | IsWalk(g, options, q, start, b) ensures |p.edges| <= |q.edges| {
      UnvisitedIsFar(g, options, start, visited, dist, queue, level, q, b);
    }
  }

  lemma NotFound(g: Graph, options: PathOptions, start: Id, visited: Visited, dist: map<Id, nat>,
                 level: nat, b: Id)
    requires Searching(g, options, start, visited, dist, [], level) && level <= options.maxDepth && b !in visited
    ensures !CanWalk(g, options, start, b)
  {
    hide Searching, IsWalk;
    forall q | IsWalk(g, options, q, start, b) ensures options.maxDepth < |q.edges| {
      UnvisitedIsFar(g, options, start, visited, dist, [], level, q, b);
    }
  }

  lemma HasTypes(g: Graph, options: PathOptions, p: PathResult, a: Id, b: Id)
    requires IsWalk(g, options, p, a, b)
    ensures options.edgeTypeIds.Some? ==> forall e :: e in p.edges ==> EdgeAt(g, e).typeId in options.edgeTypeIds.value
  {
    if options.edgeTypeIds.Some? {
      forall e | e in p.edges ensures EdgeAt(g, e).typeId in options.edgeTypeIds.value {
        var i :| 0 <= i < |p.edges| && p.edges[i] == e;
        assert Steps(g, options, p.edges[i], p.nodes[i], p.nodes[i+1]);
      }
    }
  }

  /** The fewest edges first: the result is a shortest walk, and there is one exactly when the target
      can be walked to within the depth bound. From a slot that was ever used these are the paths; a
      slot that cannot be read is an error, unless nothing has to be explored. */
  method ShortestPath(store: TopologyStore, from: Id, to: Id, options: PathOptions) returns (r: Result<Option<PathResult>>)
    requires store.Valid()
    ensures r.Ok? <==> Readable(store.View(), from) || from == to || options.maxDepth == 0
    ensures r.Ok? ==> (r.value.Some? <==> CanWalk(store.View(), options, from, to))
    ensures r.Ok? && r.value.Some? ==>
      && IsShortestWalk(store.View(), options, r.value.value, from, to) && |r.value.value.edges| <= options.maxDepth
      && (options.edgeTypeIds.Some? ==>
            forall e :: e in r.value.value.edges ==> EdgeAt(store.View(), e).typeId in options.edgeTypeIds.value)
    ensures from in store.nodes.records ==>
      && r.Ok? && (r.value.Some? <==> Reachable(store.View(), options, from, to))
      && (r.value.Some? ==> IsShortest(store.View(), options, r.value.value, from, to))
  {
    hide GraphOk, Readable, Reachable, IsShortest, IsShortestWalk, CanWalk, IsPath, Joins,
      Steps, IsWalk, IsTree, IsQueue, Explored, Closed, Searching, EdgeMatches;
    ghost var g := store.View();
    IsReadable(g, from);
    if from in g.nodes.records {
      WalksMeanPaths(g, options, from, to);
    }
    if from == to {
      Trivial(g, options, from);
      return Ok(Some(PathResult([from], [])));
    }
    var visited: Visited := map[from := None];
    ghost var dist: map<Id, nat> := map[from := 0];
    ghost var level: nat := 0;
    var queue := [Waiting(from, 0)];
    SearchStarts(g, options, from);
    while queue != []
      invariant Searching(g, options, from, visited, dist, queue, level) && level <= options.maxDepth
      invariant to !in visited && visited.Keys <= g.nodes.records.Keys + {from}
      invariant Readable(g, from) || options.maxDepth == 0 || queue == [Waiting(from, 0)]
      decreases g.nodes.records.Keys + {from} - visited.Keys, |queue|
    {
      LevelRises(g, options, from, visited, dist, queue, level);
      var Waiting(current, depth) := queue[0];
      ghost var front := [queue[0]];
      assert queue == front + queue[1..];
      queue := queue[1..];
      level := depth;
      if depth >= options.maxDepth {
        Dequeued(g, options, from, visited, dist, front + queue, level);
        continue;
      }
      if current in g.nodes.records {
        IsReadable(g, current);
      }
      var neighbors :- Neighbors(store, current, options);
      ghost var seen, waiting := visited.Keys, queue;
      var i := 0;
      while i < |neighbors|
        invariant 0 <= i <= |neighbors|
        invariant Searching(g, options, from, visited, dist, front + queue, depth)
        invariant to !in visited && visited.Keys <= g.nodes.records.Keys + {from}
        invariant forall k :: 0 <= k < i ==> neighbors[k].node in visited
        invariant seen <= visited.Keys && (seen == visited.Keys ==> queue == waiting)
        decreases |neighbors| - i
      {
        var Hop(edge, next) := neighbors[i];
        assert Hop(edge, next) in neighbors;
        i := i + 1;
        if next in visited {
          continue;
        }
        StepsNodes(g, options, edge, current, next);
        Discovered(g, options, from, visited, dist, front + queue, edge, next);
        ghost var visited0, dist0 := visited, dist;
        visited := visited[next := Some(Hop(edge, current))];
        dist := dist[next := depth + 1];
        if next == to {
          var p := ReconstructPath(g, options, from, to, visited, dist);
          FirstFound(g, options, from, visited0, dist0, front + queue, depth, p, to);
          HasTypes(g, options, p, from, to);
          return Ok(Some(p));
        }
        assert front + (queue + [Waiting(next, depth + 1)]) == front + queue + [Waiting(next, depth + 1)];
        queue := queue + [Waiting(next, depth + 1)];
      }
      AllSeen(g, options, from, visited, dist, front + queue, neighbors);
      Dequeued(g, options, from, visited, dist, front + queue, level);
      assert (front + queue)[1..] == queue;
    }
    NotFound(g, options, from, visited, dist, level, to);
    r := Ok(None);
  }

  lemma IsReadable(g: Graph, n: Id)
    requires GraphOk(g)
    ensures n in g.nodes.records ==> Readable(g, n)
  {
  }

  // ---- Connecting several nodes ----

  datatype Subgraph = Subgraph(nodes: set<Id>, edges: set<Id>)

  ghost predicate Within(p: PathResult, s: Subgraph) {
    (forall n :: n in p.nodes ==> n in s.nodes) && (forall e :: e in p.edges ==> e in s.edges)
  }

  /** Edges come with both their endpoints. */
  ghost predicate EdgeClosed(g: Graph, s: Subgraph) {
    forall e :: e in s.edges ==> e in g.edges.used && EdgeAt(g, e).fromNode in s.nodes && EdgeAt(g, e).toNode in s.nodes
  }

  /** A shortest walk from `a` to `b` runs inside, if `b` can be walked to at all. */
  ghost predicate Connects(g: Graph, options: PathOptions, s: Subgraph, a: Id, b: Id) {
    CanWalk(g, options, a, b) ==>
      exists p :: IsShortestWalk(g, options, p, a, b) && |p.edges| <= options.maxDepth && Within(p, s)
  }

  /** The same of paths. */
  ghost predicate ConnectsByPath(g: Graph, options: PathOptions, s: Subgraph, a: Id, b: Id) {
    Reachable(g, options, a, b) ==>
      exists p :: IsShortest(g, options, p, a, b) && |p.edges| <= options.maxDepth && Within(p, s)
  }

  lemma ConnectsMeans(g: Graph, options: PathOptions, s: Subgraph, a: Id, b: Id)
    requires GraphOk(g) && a in g.nodes.records && Connects(g, options, s, a, b)
    ensures ConnectsByPath(g, options, s, a, b)
  {
    hide GraphOk, IsShortest, IsShortestWalk, CanWalk, Reachable, Within;
    WalksMeanPaths(g, options, a, b);
  }

  function Joined(s: Subgraph, p: PathResult): Subgraph {
    Subgraph(s.nodes + (set n | n in p.nodes), s.edges + (set e | e in p.edges))
  }

  lemma PathIsEdgeClosed(g: Graph, options: PathOptions, p: PathResult, a: Id, b: Id, e: Id)
    requires IsPath(g, options, p, a, b) && e in p.edges
    ensures e in g.edges.used && EdgeAt(g, e).fromNode in p.nodes && EdgeAt(g, e).toNode in p.nodes
  {
    var i :| 0 <= i < |p.edges| && p.edges[i] == e;
    assert Joins(g, options, p.edges[i], p.nodes[i], p.nodes[i+1]);
  }

  /** The walks found for pairs of places in the list. */
  type Found = map<(nat, nat), PathResult>

  /** The pairs before `(i, j)` in the order of the two loops. */
  predicate Before(k: nat, l: nat, i: nat, j: nat) {
    k < l && (k < i || (k == i && l < j))
  }

  /** A shortest walk for every pair before `(i, j)` that can be walked between, and for no other. */
  ghost predicate Finds(g: Graph, options: PathOptions, ids: seq<Id>, found: Found, i: nat, j: nat) {
    forall k: nat, l: nat {:trigger (k, l) in found} ::
      && ((k, l) in found <==> l < |ids| && Before(k, l, i, j) && CanWalk(g, options, ids[k], ids[l]))
      && ((k, l) in found && l < |ids| && k < l ==>
            IsShortestWalk(g, options, found[(k, l)], ids[k], ids[l]) && |found[(k, l)].edges| <= options.maxDepth)
  }

  /** The subgraph is made of the given nodes and the found walks: nothing is missing, and nothing else
      is in it. */
  ghost predicate MadeOf(s: Subgraph, shown: seq<Id>, found: Found) {
    && (forall n :: n in s.nodes <==> n in shown || exists pair :: pair in found && n in found[pair].nodes)
    && (forall e :: e in s.edges <==> exists pair :: pair in found && e in found[pair].edges)
  }

  /** The requested nodes, and one shortest walk for every pair of them that can be walked between. */
  ghost predicate IsConnecting(g: Graph, options: PathOptions, ids: seq<Id>, s: Subgraph) {
    exists found: Found :: Finds(g, options, ids, found, |ids|, |ids| + 1) && MadeOf(s, ids, found)
  }

  lemma FindsNext(g: Graph, options: PathOptions, ids: seq<Id>, found: Found, i: nat, j: nat, p: Option<PathResult>)
    requires Finds(g, options, ids, found, i, j) && i < j < |ids|
    requires p.Some? <==> CanWalk(g, options, ids[i], ids[j])
    requires p.Some? ==> IsShortestWalk(g, options, p.value, ids[i], ids[j]) && |p.value.edges| <= options.maxDepth
    ensures (i, j) !in found
    ensures Finds(g, options, ids, if p.Some? then found[(i, j) := p.value] else found, i, j + 1)
  {
    hide CanWalk, IsShortestWalk;
  }

  lemma FindsNextRow(g: Graph, options: PathOptions, ids: seq<Id>, found: Found, i: nat)
    requires Finds(g, options, ids, found, i, |ids|) && i < |ids|
    ensures Finds(g, options, ids, found, i + 1, i + 2)
  {
    hide CanWalk, IsShortestWalk;
  }

  lemma MadeOfMore(s: Subgraph, shown: seq<Id>, found: Found, pair: (nat, nat), p: PathResult)
    requires MadeOf(s, shown, found) && pair !in found
    ensures MadeOf(Joined(s, p), shown, found[pair := p])
  {
    var t, found2 := Joined(s, p), found[pair := p];
    forall n ensures n in t.nodes <==> n in shown || exists q :: q in found2 && n in found2[q].nodes {
      if n in s.nodes && n !in shown {
        var q :| q in found && n in found[q].nodes;
        assert q in found2 && n in found2[q].nodes;
      }
      assert n in p.nodes ==> pair in found2 && n in found2[pair].nodes;
    }
    forall e ensures e in t.edges <==> exists q :: q in found2 && e in found2[q].edges {
      if e in s.edges {
        var q :| q in found && e in found[q].edges;
        assert q in found2 && e in found2[q].edges;
      }
      assert e in p.edges ==> pair in found2 && e in found2[pair].edges;
    }
  }

  lemma MadeOfShown(s: Subgraph, shown: seq<Id>, found: Found, n: Id)
    requires MadeOf(s, shown, found)
    ensures MadeOf(s.(nodes := s.nodes + {n}), shown + [n], found)
  {
  }

  lemma NothingYet(g: Graph, options: PathOptions, ids: seq<Id>)
    ensures Finds(g, options, ids, map[], 0, 1) && MadeOf(Subgraph({}, {}), [], map[])
  {
    hide CanWalk;
  }

  /** So every pair is connected, and if all requested slots were ever used, by paths whose edges come
      with their endpoints. */
  lemma ConnectingMeans(g: Graph, options: PathOptions, ids: seq<Id>, s: Subgraph)
    requires GraphOk(g) && IsConnecting(g, options, ids, s)
    ensures forall n :: n in ids ==> n in s.nodes
    ensures forall i, j :: 0 <= i < j < |ids| ==> Connects(g, options, s, ids[i], ids[j])
    ensures (forall n :: n in ids ==> n in g.nodes.records) ==>
      EdgeClosed(g, s) && forall i, j :: 0 <= i < j < |ids| ==> ConnectsByPath(g, options, s, ids[i], ids[j])
  {
    hide GraphOk, CanWalk, IsShortestWalk, IsWalk, IsPath, ConnectsByPath, EdgeAt;
    var found: Found :| Finds(g, options, ids, found, |ids|, |ids| + 1) && MadeOf(s, ids, found);
    forall i: nat, j: nat | i < j < |ids| ensures Connects(g, options, s, ids[i], ids[j]) {
      if CanWalk(g, options, ids[i], ids[j]) {
        assert (i, j) in found && Within(found[(i, j)], s);
      }
    }
    if forall n :: n in ids ==> n in g.nodes.records {
      forall e | e in s.edges ensures e in g.edges.used && EdgeAt(g, e).fromNode in s.nodes && EdgeAt(g, e).toNode in s.nodes {
        var pair :| pair in found && e in found[pair].edges;
        var (k, l) := pair;
        assert (k, l) in found;
        ShortestWalkIsPath(g, options, found[pair], ids[k], ids[l]);
        PathIsEdgeClosed(g, options, found[pair], ids[k], ids[l], e);
      }
      forall i: nat, j: nat | i < j < |ids| ensures ConnectsByPath(g, options, s, ids[i], ids[j]) {
        ConnectsMeans(g, options, s, ids[i], ids[j]);
      }
    }
  }

  lemma ShortestWalkIsPath(g: Graph, options: PathOptions, p: PathResult, a: Id, b: Id)
    requires GraphOk(g) && a in g.nodes.records && IsShortestWalk(g, options, p, a, b)
    ensures IsPath(g, options, p, a, b)
  {
    hide GraphOk, IsPath, IsWalk;
    WalksArePaths(g, options, p, a, b);
  }

  /** The union of what is found between all pairs: the requested nodes and one shortest walk for every
      pair that can be walked between, and nothing else. If all of them were ever used, the walks are
      paths, and no edge lacks an endpoint. */
  method ConnectingSubgraph(store: TopologyStore, ids: seq<Id>, options: PathOptions) returns (r: Result<Subgraph>)
    requires store.Valid()
    ensures r.Ok? <==> forall i, j :: 0 <= i < j < |ids| ==>
      Readable(store.View(), ids[i]) || ids[i] == ids[j] || options.maxDepth == 0
    ensures r.Ok? ==>
      && IsConnecting(store.View(), options, ids, r.value)
      && (forall n :: n in ids ==> n in r.value.nodes)
      && forall i, j :: 0 <= i < j < |ids| ==> Connects(store.View(), options, r.value, ids[i], ids[j])
    ensures (forall n :: n in ids ==> n in store.nodes.records) ==>
      && r.Ok? && EdgeClosed(store.View(), r.value)
      && forall i, j :: 0 <= i < j < |ids| ==> ConnectsByPath(store.View(), options, r.value, ids[i], ids[j])
  {
    hide GraphOk, Connects, ConnectsByPath, CanWalk, Reachable, IsShortestWalk, IsShortest, EdgeClosed, Readable, IsWalk, IsPath,
      Finds, MadeOf, Joined;
    ghost var g := store.View();
    ProperReadable(g, ids);
    var s := Subgraph({}, {});
    ghost var found: Found := map[];
    NothingYet(g, options, ids);
    for i := 0 to |ids|
      invariant Finds(g, options, ids, found, i, i + 1) && MadeOf(s, ids[..i], found)
      invariant forall k, l :: 0 <= k < l < |ids| && k < i ==> Readable(g, ids[k]) || ids[k] == ids[l] || options.maxDepth == 0
    {
      for j := i + 1 to |ids|
        invariant Finds(g, options, ids, found, i, j) && MadeOf(s, ids[..i], found)
        invariant forall l :: i < l < j ==> Readable(g, ids[i]) || ids[i] == ids[l] || options.maxDepth == 0
      {
        var path :- ShortestPath(store, ids[i], ids[j], options);
        FindsNext(g, options, ids, found, i, j, path);
        if path.Some? {
          MadeOfMore(s, ids[..i], found, (i, j), path.value);
          s := Joined(s, path.value);
          found := found[(i, j) := path.value];
        }
      }
      FindsNextRow(g, options, ids, found, i);
      MadeOfShown(s, ids[..i], found, ids[i]);
      s := s.(nodes := s.nodes + {ids[i]});
      assert ids[..i+1] == ids[..i] + [ids[i]];
    }
    assert ids[..|ids|] == ids;
    r := Ok(s);
    assert IsConnecting(g, options, ids, s);
    ConnectingMeans(g, options, ids, s);
  }

  lemma ProperReadable(g: Graph, ids: seq<Id>)
    requires GraphOk(g)
    ensures forall n :: n in ids && n in g.nodes.records ==> Readable(g, n)
  {
  }
}
