/** `create_digraph` of src/wiki_graph.py: the graph the menu and the
    recommendations work on. */
module WikiGraph {
  import opened PyValues
  import opened WikiSource
  import opened DiGraphs
  import opened MemberGraph

  /** Builds the graph of `category` from the snapshot `wiki`. A category
      whose page does not exist raises `ValueError` and builds nothing;
      otherwise the nodes are the members, each carrying its content
      reference, the edges are those of the subgraph the members induce (an
      edge a -> b exactly when member a links to member b), and the graph is
      labelled with the category name. */
  method CreateDigraph(wiki: Wiki, category: string) returns (r: Result<DiGraph>)
    ensures CategoryTitle(category) !in wiki.categories ==> r == Err(ValueError("Category not found."))
    ensures CategoryTitle(category) in wiki.categories ==>
              var mems := wiki.categories[CategoryTitle(category)];
              && r.Ok? && fresh(r.value) && r.value.Valid()
              && r.value.graph == map["category" := category]
              && r.value.nodes == mems.Keys
              && r.value.succ == InducedSucc(mems)
              && r.value.obj == mems
              && r.value.pagerank == map[]
              && (forall a, b :: r.value.HasEdge(a, b) <==> a in mems && b in mems[a].links && b in mems)
  {
    var cat := CategoryTitle(category);
    if cat !in wiki.categories {
      return Err(ValueError("Category not found."));
    }
    var mems := wiki.categories[cat];
    var digraph := new DiGraph(map["category" := category]);
    AddMembers(digraph, mems);
    AddMemberLinks(digraph, mems);
    forall a, b
      ensures digraph.HasEdge(a, b) <==> a in mems && b in mems[a].links && b in mems
    {
      InducedEdges(mems, a, b);
    }
    return Ok(digraph);
  }

  /** Building twice from the same snapshot gives the same nodes, edges and
      attributes, in two distinct graph objects. */
  method BuildTwice(wiki: Wiki, category: string) returns (g1: DiGraph, g2: DiGraph)
    requires CategoryTitle(category) in wiki.categories
    ensures g1 != g2
    ensures g1.nodes == g2.nodes && g1.succ == g2.succ
    ensures g1.graph == g2.graph && g1.obj == g2.obj && g1.pagerank == g2.pagerank
  {
    var r1 := CreateDigraph(wiki, category);
    var r2 := CreateDigraph(wiki, category);
    g1, g2 := r1.value, r2.value;
  }
}
