/** The content source both graph builders read: category pages and, for each
    member article, the titles it links to. The network lookups become a
    snapshot value. */
module WikiSource {

  /** The content reference of a member article, reduced to what the core
      reads from it: the titles of the pages it links to, in order. */
  datatype PageRef = PageRef(links: seq<string>)

  /** A snapshot of the content source: every existing category page, keyed
      by its page title, with its members keyed by article title. A title
      that is not a key is a page that does not exist. */
  datatype Wiki = Wiki(categories: map<string, map<string, PageRef>>)

  /** The title of a category's own page. */
  function CategoryTitle(category: string): string
  {
    "Category:" + category
  }

  /** The successors the builders give member `a`: the pages it links to
      that are members themselves. */
  function MemberLinks(mems: map<string, PageRef>, a: string): set<string>
    requires a in mems
  {
    set b | b in mems[a].links && b in mems
  }

  /** The successor map of the subgraph the members and their links induce. */
  function InducedSucc(mems: map<string, PageRef>): map<string, set<string>>
  {
    map a | a in mems :: MemberLinks(mems, a)
  }

  /** An edge a -> b exists exactly when a is a member, b is among a's links
      and b is a member; so every edge ends at a node. */
  lemma InducedEdges(mems: map<string, PageRef>, a: string, b: string)
    ensures a in InducedSucc(mems) <==> a in mems
    ensures (a in InducedSucc(mems) && b in InducedSucc(mems)[a])
        <==> (a in mems && b in mems[a].links && b in mems)
  {
  }

  /** A member that links to itself gets a self-loop. */
  lemma SelfLoopKept(mems: map<string, PageRef>, a: string)
    requires a in mems && a in mems[a].links
    ensures a in InducedSucc(mems)[a]
  {
  }

  /** Only the set of a member's links matters: repeating a link, or listing
      the links in another order, gives the same successors. */
  lemma LinkRepeatsIgnored(mems: map<string, PageRef>, a: string, links: seq<string>)
    requires a in mems
    requires forall t :: t in links <==> t in mems[a].links
    ensures InducedSucc(mems[a := PageRef(links)]) == InducedSucc(mems)
  {
    var mems' := mems[a := PageRef(links)];
    assert MemberLinks(mems', a) == MemberLinks(mems, a);
    assert forall x | x in mems' :: MemberLinks(mems', x) == MemberLinks(mems, x);
  }
}
