/** The part of networkx's `DiGraph` that the core uses: nodes keyed by
    title, each node's successor set, the graph-level attribute dictionary
    and two node attributes (the content reference and "pagerank"). */
module DiGraphs {
  import opened WikiSource

  /** The successors of `w` in `succ`, or none when `w` is not a node. */
  function SuccOf(succ: map<string, set<string>>, w: string): set<string>
  {
    if w in succ then succ[w] else {}
  }

  class DiGraph {
    var graph: map<string, string>        // the graph attribute dictionary
    var nodes: set<string>
    var succ: map<string, set<string>>    // the adjacency: the successors of each node
    var obj: map<string, PageRef>         // the node attribute holding the content reference
    var pagerank: map<string, real>       // the node attribute "pagerank"

    ghost predicate Valid()
      reads this
    {
      && succ.Keys == nodes
      && (forall u | u in succ :: succ[u] <= nodes)
      && obj.Keys <= nodes
      && pagerank.Keys <= nodes
    }

    predicate HasEdge(u: string, v: string)
      reads this
    {
      u in succ && v in succ[u]
    }

    /** A new, empty graph with the given graph attributes. */
    constructor (attrs: map<string, string>)
      ensures Valid()
      ensures graph == attrs && nodes == {} && succ == map[]
      ensures obj == map[] && pagerank == map[]
    {
      graph := attrs;
      nodes := {};
      succ := map[];
      obj := map[];
      pagerank := map[];
    }

    /** networkx's `add_node` with the content reference as attribute: a new
        node starts without successors; an existing node keeps its edges and
        has its attribute overwritten. */
    method AddNode(v: string, ref: PageRef)
      requires Valid()
      modifies this
      ensures Valid()
      ensures nodes == old(nodes) + {v}
      ensures forall w :: w in succ <==> w in old(succ) || w == v
      ensures forall w | w in succ :: succ[w] == SuccOf(old(succ), w)
      ensures obj == old(obj)[v := ref]
      ensures graph == old(graph) && pagerank == old(pagerank)
    {
      if v !in nodes {
        nodes := nodes + {v};
        succ := succ[v := {}];
      }
      obj := obj[v := ref];
    }

    /** networkx's `add_edge`: adds whichever endpoint is new, then the edge
        u -> v; adding an edge that is already there changes nothing. */
    method AddEdge(u: string, v: string)
      requires Valid()
      modifies this
      ensures Valid()
      ensures nodes == old(nodes) + {u, v}
      ensures forall w :: w in succ <==> w in old(succ) || w == u || w == v
      ensures forall w | w in succ :: succ[w] == SuccOf(old(succ), w) + (if w == u then {v} else {})
      ensures graph == old(graph) && obj == old(obj) && pagerank == old(pagerank)
    {
      if u !in nodes {
        nodes := nodes + {u};
        succ := succ[u := {}];
      }
      if v !in nodes {
        nodes := nodes + {v};
        succ := succ[v := {}];
      }
      succ := succ[u := succ[u] + {v}];
    }

    /** Writes the "pagerank" attribute of the node `v`. */
    method SetPagerank(v: string, x: real)
      requires Valid() && v in nodes
      modifies this
      ensures Valid()
      ensures pagerank == old(pagerank)[v := x]
      ensures graph == old(graph) && nodes == old(nodes) && succ == old(succ) && obj == old(obj)
    {
      pagerank := pagerank[v := x];
    }
  }
}
