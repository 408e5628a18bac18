/**
 * The records of the database (chiffondb-core/src/db.rs) and the topology store below them: the lists
 * that the store keeps for a node are the edges that its records join to it.
 */
module Incidence {
  import opened Types
  import opened Records
  import opened Topology
  import Database

  /** The store has a slot in use for every node and for every edge, which join the same nodes. */
  ghost predicate Mirrors(g: Graph, nodes: map<Id, View>, edges: map<Id, EdgeView>) {
    && GraphOk(g)
    && g.nodes.used == nodes.Keys
    && EdgesOf(g.edges) == EndsOf(edges)
  }

  function EndsOf(edges: map<Id, EdgeView>): map<Id, Ends> {
    map e | e in edges :: Ends(edges[e].view.typeId, edges[e].fromNode, edges[e].toNode)
  }

  /** What the store does for a node or an edge that comes or goes keeps it in step with the records. */
  lemma MirrorSteps(g: Graph, h: Graph, nodes: map<Id, View>, edges: map<Id, EdgeView>, id: Id, view: View, edge: EdgeView)
    requires Mirrors(g, nodes, edges) && GraphOk(h)
    ensures h.nodes.used == g.nodes.used + {id} && h.edges == g.edges ==> Mirrors(h, nodes[id := view], edges)
    ensures h.nodes.used == g.nodes.used - {id} && h.edges == g.edges ==> Mirrors(h, nodes - {id}, edges)
    ensures h.nodes.used == g.nodes.used && EdgesOf(h.edges) == EdgesOf(g.edges)[id := Ends(edge.view.typeId, edge.fromNode, edge.toNode)] ==>
      Mirrors(h, nodes, edges[id := edge])
    ensures h.nodes.used == g.nodes.used && EdgesOf(h.edges) == EdgesOf(g.edges) - {id} ==> Mirrors(h, nodes, edges - {id})
  {
    hide GraphOk, EdgesOf;
    assert EndsOf(edges[id := edge]) == EndsOf(edges)[id := Ends(edge.view.typeId, edge.fromNode, edge.toNode)];
    assert EndsOf(edges - {id}) == EndsOf(edges) - {id};
  }

  /** Walking the two lists of a node gives the edges that start at it and those that end at it, so that
      deleting what the lists give detaches the node. */
  lemma ListsAreIncident(g: Graph, nodes: map<Id, View>, edges: map<Id, EdgeView>, n: Id)
    requires Mirrors(g, nodes, edges) && n in nodes
    ensures Readable(g, n)
    ensures forall e :: e in Adjacent(g, Out, n) <==> e in edges && edges[e].fromNode == n
    ensures forall e :: e in Adjacent(g, In, n) <==> e in edges && edges[e].toNode == n
    ensures edges - (set e | e in Adjacent(g, Out, n) + Adjacent(g, In, n)) == Database.Detached(edges, n)
  {
    NodesInUse(g, n);
    forall e ensures e in Adjacent(g, Out, n) <==> e in edges && edges[e].fromNode == n {
      AdjacentEdges(g, Out, n, e);
      EdgeInUse(g, nodes, edges, e);
    }
    forall e ensures e in Adjacent(g, In, n) <==> e in edges && edges[e].toNode == n {
      AdjacentEdges(g, In, n, e);
      EdgeInUse(g, nodes, edges, e);
    }
    hide Mirrors, Adjacent;
  }

  lemma NodesInUse(g: Graph, n: Id)
    requires GraphOk(g) && n in g.nodes.used
    ensures Readable(g, n) && n in g.nodes.records
  {
  }

  lemma EdgeInUse(g: Graph, nodes: map<Id, View>, edges: map<Id, EdgeView>, e: Id)
    requires Mirrors(g, nodes, edges)
    ensures e in g.edges.used <==> e in edges
    ensures e in edges ==> NearOf(g, Out, e) == edges[e].fromNode && NearOf(g, In, e) == edges[e].toNode
  {
    assert e in EdgesOf(g.edges) <==> e in EndsOf(edges);
    if e in edges {
      assert EdgesOf(g.edges)[e] == EndsOf(edges)[e];
    }
    hide SideOk;
  }
}
