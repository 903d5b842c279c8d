/** `create_digraph` of src/graph.py: the same two build loops as
    src/wiki_graph.py, no graph label, and a PageRank score stamped on every
    node. The scores come from the networkx library and are an input here. */
module Graph {
  import opened PyValues
  import opened WikiSource
  import opened DiGraphs
  import opened MemberGraph

  /** The loop at src/graph.py:41-42: each node in turn gets its score from
      the map as its "pagerank" attribute. A node without a score raises
      `KeyError`, leaving the nodes visited before it stamped and every
      other entry as it was. Only the "pagerank" attribute changes. */
  method AssignPagerank(g: DiGraph, pageRanks: map<string, real>) returns (r: Outcome)
    requires g.Valid()
    modifies g
    ensures g.Valid()
    ensures g.nodes == old(g.nodes) && g.succ == old(g.succ)
    ensures g.obj == old(g.obj) && g.graph == old(g.graph)
    ensures g.nodes <= pageRanks.Keys ==> r == Pass
    ensures g.nodes <= pageRanks.Keys ==>
              g.pagerank == map v | v in g.nodes :: pageRanks[v]
    ensures !(g.nodes <= pageRanks.Keys) ==> r == Fail(KeyError)
    ensures old(g.pagerank).Keys <= g.pagerank.Keys
    ensures forall v | v in g.pagerank ::
              || (v in pageRanks && g.pagerank[v] == pageRanks[v])
              || (v in old(g.pagerank) && g.pagerank[v] == old(g.pagerank)[v])
  {
    var todo := g.nodes;
    ghost var stamped: set<string> := {};
    while todo != {}
      invariant todo <= g.nodes && stamped == g.nodes - todo
      invariant g.Valid()
      invariant g.nodes == old(g.nodes) && g.succ == old(g.succ)
      invariant g.obj == old(g.obj) && g.graph == old(g.graph)
      invariant stamped <= pageRanks.Keys
      invariant forall v | v in g.pagerank :: v in stamped || v in old(g.pagerank)
      invariant forall v | v in stamped :: v in g.pagerank && g.pagerank[v] == pageRanks[v]
      invariant forall v | v in old(g.pagerank) && v !in stamped ::
                  v in g.pagerank && g.pagerank[v] == old(g.pagerank)[v]
      decreases todo
    {
      var node :| node in todo;
      if node !in pageRanks {
        return Fail(KeyError);
      }
      g.SetPagerank(node, pageRanks[node]);
      todo := todo - {node};
      stamped := stamped + {node};
    }
    r := Pass;
    if g.nodes <= pageRanks.Keys {
      assert old(g.pagerank).Keys <= g.nodes;
    }
  }

  /** Builds the graph of `category` from the snapshot `wiki` and stamps the
      scores `pageRanks` on it. */
  method CreateDigraph(wiki: Wiki, category: string, pageRanks: map<string, real>)
    returns (r: Result<DiGraph>)
    ensures CategoryTitle(category) !in wiki.categories ==> r == Err(ValueError("Category not found."))
    ensures CategoryTitle(category) in wiki.categories ==>
              var mems := wiki.categories[CategoryTitle(category)];
              if mems.Keys <= pageRanks.Keys then
                && r.Ok? && fresh(r.value) && r.value.Valid()
                && r.value.graph == map[]
                && r.value.nodes == mems.Keys
                && r.value.succ == InducedSucc(mems)
                && r.value.obj == mems
                && r.value.pagerank == map v | v in mems :: pageRanks[v]
              else
                r == Err(KeyError)
  {
    var cat := CategoryTitle(category);
    if cat !in wiki.categories {
      return Err(ValueError("Category not found."));
    }
    var mems := wiki.categories[cat];
    var g := new DiGraph(map[]);
    AddMembers(g, mems);
    AddMemberLinks(g, mems);
    var stamped := AssignPagerank(g, pageRanks);
    if stamped.Fail? {
      return Err(stamped.error);
    }
    return Ok(g);
  }
}
