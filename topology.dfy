/** The topology graph the script accumulates: a set of named nodes and a
    set of edges, each edge the (from, to) pair passed when it was added. */
module Topology {

  datatype Graph = Graph(nodes: set<string>, edges: set<(string, string)>)

  /** Every node an edge mentions, at either end. */
  ghost function Endpoints(edges: set<(string, string)>): set<string> {
    (set e | e in edges :: e.0) + (set e | e in edges :: e.1)
  }

  /** Adding a node already present changes nothing. */
  function WithNode(g: Graph, n: string): (r: Graph)
    ensures n in r.nodes && r.edges == g.edges
    ensures forall m | m != n :: m in r.nodes <==> m in g.nodes
    ensures n in g.nodes ==> r == g
  {
    Graph(g.nodes + {n}, g.edges)
  }

  /** Adding an edge adds both its endpoints as nodes; adding an edge
      already present changes nothing. */
  function WithEdge(g: Graph, u: string, v: string): (r: Graph)
    ensures (u, v) in r.edges && u in r.nodes && v in r.nodes
    ensures forall e | e != (u, v) :: e in r.edges <==> e in g.edges
    ensures forall m | m != u && m != v :: m in r.nodes <==> m in g.nodes
    ensures (u, v) in g.edges && u in g.nodes && v in g.nodes ==> r == g
  {
    Graph(g.nodes + {u, v}, g.edges + {(u, v)})
  }

  /** A graph whose nodes are the root and the endpoints of its edges. */
  ghost predicate RootedAt(g: Graph, root: string) {
    g.nodes == {root} + Endpoints(g.edges)
  }

  lemma WithEdgeKeepsRooted(g: Graph, root: string, u: string, v: string)
    requires RootedAt(g, root)
    ensures RootedAt(WithEdge(g, u, v), root)
  {
  }

  /** The graph object the script mutates in place. */
  class TopologyGraph {
    var nodes: set<string>
    var edges: set<(string, string)>

    /** The value of the graph at this moment. */
    function Snapshot(): (g: Graph)
      reads this
      ensures g.nodes == nodes && g.edges == edges
    {
      Graph(nodes, edges)
    }

    constructor ()
      ensures Snapshot() == Graph({}, {})
    {
      nodes := {};
      edges := {};
    }

    method AddNode(n: string)
      modifies this
      ensures Snapshot() == WithNode(old(Snapshot()), n)
    {
      nodes := nodes + {n};
    }

    method AddEdge(u: string, v: string)
      modifies this
      ensures Snapshot() == WithEdge(old(Snapshot()), u, v)
    {
      nodes := nodes + {u, v};
      edges := edges + {(u, v)};
    }
  }
}
