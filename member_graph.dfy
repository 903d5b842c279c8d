/** The two loops that src/wiki_graph.py and src/graph.py share, word for
    word: one node per category member, then one edge per link from a member
    to another member. */
module MemberGraph {
  import opened WikiSource
  import opened DiGraphs

  /** The first loop: one node per member, carrying the member's content
      reference. */
  method AddMembers(g: DiGraph, mems: map<string, PageRef>)
    requires g.Valid() && g.nodes == {} && g.obj == map[]
    modifies g
    ensures g.Valid()
    ensures g.nodes == mems.Keys
    ensures forall a | a in g.succ :: g.succ[a] == {}
    ensures g.obj == mems
    ensures g.graph == old(g.graph) && g.pagerank == old(g.pagerank)
  {
    var todo := mems.Keys;
    while todo != {}
      invariant todo <= mems.Keys
      invariant g.Valid()
      invariant g.nodes == mems.Keys - todo
      invariant forall a | a in g.succ :: g.succ[a] == {}
      invariant g.obj == map a | a in mems.Keys - todo :: mems[a]
      invariant g.graph == old(g.graph) && g.pagerank == old(g.pagerank)
      decreases todo
    {
      var page :| page in todo;
      g.AddNode(page, mems[page]);
      todo := todo - {page};
    }
  }

  /** The inner loop of the second one, for one member `page`: an edge to
      each page it links to that is itself a member, in link order. */
  method AddPageLinks(g: DiGraph, mems: map<string, PageRef>, page: string)
    requires g.Valid() && g.nodes == mems.Keys && page in mems
    requires g.succ[page] == {}
    modifies g
    ensures g.Valid() && g.nodes == mems.Keys
    ensures g.succ == old(g.succ)[page := MemberLinks(mems, page)]
    ensures g.graph == old(g.graph) && g.obj == old(g.obj) && g.pagerank == old(g.pagerank)
  {
    var links := mems[page].links;
    var i := 0;
    while i < |links|
      invariant 0 <= i <= |links|
      invariant g.Valid() && g.nodes == mems.Keys
      invariant forall a | a in g.succ && a != page :: g.succ[a] == old(g.succ)[a]
      invariant g.succ[page] == set b | b in links[..i] && b in mems
      invariant g.graph == old(g.graph) && g.obj == old(g.obj) && g.pagerank == old(g.pagerank)
    {
      var linked := links[i];
      assert links[..i + 1] == links[..i] + [linked];
      if linked in mems {
        g.AddEdge(page, linked);
      }
      i := i + 1;
    }
    assert links[..i] == links;
  }

  /** The second loop, over every member: the edges of the subgraph the
      members induce. */
  method AddMemberLinks(g: DiGraph, mems: map<string, PageRef>)
    requires g.Valid() && g.nodes == mems.Keys
    requires forall a | a in g.succ :: g.succ[a] == {}
    modifies g
    ensures g.Valid()
    ensures g.nodes == mems.Keys
    ensures g.succ == InducedSucc(mems)
    ensures g.graph == old(g.graph) && g.obj == old(g.obj) && g.pagerank == old(g.pagerank)
  {
    var todo := mems.Keys;
    while todo != {}
      invariant todo <= mems.Keys
      invariant g.Valid() && g.nodes == mems.Keys
      invariant forall a | a in g.succ :: g.succ[a] == if a in todo then {} else MemberLinks(mems, a)
      invariant g.graph == old(g.graph) && g.obj == old(g.obj) && g.pagerank == old(g.pagerank)
      decreases todo
    {
      var page :| page in todo;
      AddPageLinks(g, mems, page);
      todo := todo - {page};
    }
    assert forall a | a in g.succ :: g.succ[a] == MemberLinks(mems, a);
  }
}
