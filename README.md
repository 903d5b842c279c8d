# Category graph ranking and recommendation, modelled in Dafny

This project models the core of a small Python tool that builds a directed
graph of the articles in one Wikipedia category and ranks and recommends
articles within it. Two pieces are modelled:

- **Graph construction** (`create_digraph` in `src/wiki_graph.py` and its
  near-duplicate in `src/graph.py`): one node per category member, and an edge
  `a -> b` exactly when member `a` links to `b` and `b` is a member too, so the
  graph is the subgraph the members induce. `src/graph.py` also stamps a
  `pagerank` attribute on every node from a score map.
- **Ranking and recommendation** (`src/recommendations.py`): the top-n
  selector `reverse_list_sort` that every output goes through, ranking by
  out-degree (`top_wiki_pages`), the Jaccard similarity of two pages'
  successor sets (`similarity_score`), and recommending the pages most similar
  to a given one (`top_wiki_page_recommendations`).

The networkx `DiGraph` the code mutates is a class, `DiGraphs.DiGraph`, with
the nodes, each node's successor set (`G.adj`), the graph attribute dictionary
and the two node attributes the core writes. The Wikipedia lookups become a
snapshot value, `WikiSource.Wiki`: every existing category page by title
(`"Category:" + name`), with its members by title and, for each member, the
titles it links to. Python's `(score, title)` tuples are `Selector.Pair`, and
Python's tuple and string comparisons are written out (`PairLess`,
`StrLess`). Exceptions the code raises are `PyValues.Result` errors.

Files, one module each: `pyvalues.dfy` (exceptions, Python's string order),
`selector.dfy` (tuple order, `lst.sort()`, `reverse_list_sort`, the top-n
characterisation), `wiki_source.dfy` (the content snapshot and the induced
subgraph it defines), `digraph.dfy` (the networkx graph), `member_graph.dfy`
(the two build loops both builders share), `wiki_graph.dfy`, `graph.dfy` and
`recommendations.dfy`.

The model follows what the code does, including where that goes beyond or
against its docstrings (the preconditions `n > 0` and `lst != []` at
src/recommendations.py:164-166, `n > 0` and `page in g.nodes` at
src/recommendations.py:73-74 and 119-122) or the ordering one would expect:

- Ties in score come out in **reverse** alphabetical order of title, not
  alphabetical: the list is sorted ascending by `(score, title)` and read
  backwards (`Selector.TiesReverseAlphabetical`).
- The selector raises no dedicated error for a bad count: `n == 0` returns an
  empty list and a negative `n` raises `IndexError` (the backwards walk never
  reaches its stop value and runs off the front of the list). An empty list
  gives an empty result even though the docstring asks for a non-empty one.
- `top_wiki_page_recommendations` on a page that is not a node raises
  `KeyError` (from `set.remove`).
- An existing category with no members gives an empty graph, not an error.
- Degree ranking counts distinct successors (out-degree), since `g.adj` of a
  `DiGraph` holds successors only.

## Model

| member | source | states |
|---|---|---|
| PyValues.StrLessIrreflexive | src/recommendations.py:170 | no title sorts before itself under Python's string order |
| PyValues.StrLessTransitive | src/recommendations.py:170 | Python's string order is transitive |
| PyValues.StrLessTotal | src/recommendations.py:170 | of two different titles one always sorts first |
| PyValues.StrLessAsymmetric | src/recommendations.py:170 | two titles never sort before each other |
| Selector.PairLessIrreflexive | src/recommendations.py:170 | no `(score, title)` tuple is below itself |
| Selector.PairLessTransitive | src/recommendations.py:170 | the tuple order is transitive |
| Selector.PairLessTotal | src/recommendations.py:170 | the tuple order is total: different tuples are always ordered |
| Selector.PairLessAsymmetric | src/recommendations.py:170 | two tuples are never below each other |
| Selector.PairLeTransitive | src/recommendations.py:170 | the `<=` order on tuples is transitive |
| Selector.PairLeDistinct | src/recommendations.py:170 | of two different tuples related by `<=`, the first is strictly below |
| Selector.SortInPlace | src/recommendations.py:170 | `lst.sort()` leaves the caller's list ascending and a permutation of what it held |
| Selector.ReverseListSort | src/recommendations.py:161-181 | sorts `lst` in place (ascending, same multiset); for `n >= 0` returns the last `min(n, len(lst))` entries, last first; an empty list or `n == 0` gives `[]`; a negative `n` raises `IndexError` |
| Selector.LastReversedSplits | src/recommendations.py:176-179 | the entries returned and the entries left behind together make up the list, so every entry returned occurs in the input |
| Selector.LastReversedIsTop | src/recommendations.py:170-179 | on any list, repeats included, the result is descending and no entry left behind exceeds any entry returned |
| Selector.SortedSuffixIsTop | src/recommendations.py:170-181 | on a list without repeats, the result is exactly the top `n` of its elements: `min(n, len)` entries, strictly descending, all from the input, and every left-out element strictly below every one returned |
| Selector.TopNUnique | src/recommendations.py:84-89 | the top `n` of a set is unique, so a ranking does not depend on the order in which the candidates were produced |
| Selector.TiesReverseAlphabetical | src/recommendations.py:170-179 | among entries with equal scores, the later one has the alphabetically smaller title |
| DiGraphs.DiGraph.constructor | src/wiki_graph.py:37 | a new graph has no nodes, no edges, and the given graph attributes |
| DiGraphs.DiGraph.AddNode | src/wiki_graph.py:41 | adds the node (keeping its edges if it exists) and sets its content reference; nothing else changes |
| DiGraphs.DiGraph.AddEdge | src/wiki_graph.py:47 | adds any missing endpoint and the edge; repeating an edge changes nothing; attributes are untouched |
| DiGraphs.DiGraph.SetPagerank | src/graph.py:42 | sets one node's "pagerank" attribute; nodes, edges and other attributes are untouched |
| WikiSource.InducedEdges | src/wiki_graph.py:44-47 | an edge a -> b exists iff a is a member, b is among a's links and b is a member; every edge ends at a node |
| WikiSource.SelfLoopKept | src/wiki_graph.py:45-47 | a member that links to itself gets a self-loop |
| WikiSource.LinkRepeatsIgnored | src/wiki_graph.py:45-47 | repeated links, or links in another order, give the same edges |
| MemberGraph.AddMembers | src/wiki_graph.py:40-41 | the nodes become exactly the members, each without successors and carrying its content reference |
| MemberGraph.AddPageLinks | src/wiki_graph.py:45-47 | one member's successors become its links to members; no other node changes |
| MemberGraph.AddMemberLinks | src/wiki_graph.py:44-47 | the successor map becomes that of the induced subgraph; nodes and attributes are untouched |
| WikiGraph.CreateDigraph | src/wiki_graph.py:28-49 | a missing category raises `ValueError('Category not found.')` and builds nothing; otherwise a new graph whose nodes are the members, with an edge a -> b exactly when member a links to member b, whose `category` attribute is the input name, and whose nodes carry their content references |
| WikiGraph.BuildTwice | src/wiki_graph.py:36-49 | building twice from the same snapshot gives two distinct graphs with identical nodes, edges, graph attributes, content references and "pagerank" attributes |
| Graph.AssignPagerank | src/graph.py:40-42 | every node's "pagerank" equals the score map's value for it; a node without a score raises `KeyError`, and even then every "pagerank" entry is either the map's value for that node or the one it had before, and no entry is lost; nodes, edges, content references and graph attributes do not change |
| Graph.CreateDigraph | src/graph.py:18-43 | a missing category raises `ValueError`; otherwise the induced graph over the members, unlabelled, with each node's "pagerank" taken from the score map, or `KeyError` when the map lacks a member |
| Recommendations.TopWikiPages | src/recommendations.py:81-89 | for `n >= 0`, returns `min(n, number of nodes)` entries that are the top `n` of the one-per-node `(out-degree, title)` candidates; a negative `n` raises `IndexError` |
| Recommendations.DegreeRankingFacts | src/recommendations.py:84-85 | every ranked entry is a node paired with its number of distinct successors, and no node is listed twice |
| Recommendations.SimilarityScore | src/recommendations.py:146-158 | the score lies in [0, 1]; it is positive iff the two successor sets intersect (so 0 when either is empty) and 1 iff the two sets are equal and non-empty |
| Recommendations.SubsetCard | src/recommendations.py:153-156 | the common successors are no more than all successors, and as many only when the two sets coincide |
| Recommendations.SameIffCommonIsAll | src/recommendations.py:153-156 | the intersection equals the union exactly when the two successor sets are equal |
| Recommendations.RatioBounds | src/recommendations.py:158 | the ratio lies in [0, 1], is positive iff the numerator is, and is 1 iff numerator and denominator agree |
| Recommendations.SimilaritySymmetric | src/recommendations.py:146-158 | the similarity of a to b equals that of b to a |
| Recommendations.TopWikiPageRecommendations | src/recommendations.py:124-137 | a page that is not a node raises `KeyError`; a negative `n` raises `IndexError`; otherwise the top `n` of the other nodes with positive similarity, never the page itself, no score of 0, at most `n` entries, no title twice |
| Recommendations.RecommendationsSafe | src/recommendations.py:125-137 | every recommended entry is another node, scored with its positive similarity to the page; at most `n` entries; no title twice |

## Left out

- The PageRank computation: `calculate_pagerank` (src/graph.py:46-50, src/algorithms.py) calls the networkx library and returns floats; its output is an input map to `Graph.CreateDigraph`. No hand-written power iteration, dangling-node handling or convergence test exists in the code, so none is modelled; `assign_pagerank` in src/algorithms.py runs the same stamping loop as `Graph.AssignPagerank`.
- `top_wiki_pagerank_pages`: beyond the library call it only feeds `(score, title)` pairs to `reverse_list_sort`, which is modelled.
- The Wikipedia API (`wa.Wikipedia`, `exists()`, `categorymembers`, `.links`, `fullurl`) and `wiki_link_pages`: network input, replaced by the `Wiki` snapshot. The doctest figures depend on live Wikipedia content that is not part of this model, so they are not reproduced: the 45 nodes, 86 edges and 'Prolog' node of 'Logic programming languages' (src/wiki_graph.py:20-26, src/graph.py:10-16), and the top-three degree ranking of 'Prolog programming language family' (src/recommendations.py:76-79).
- `src/main.py` (the interactive menu), `src/visualize.py`, `print_lst`, `visualize_rankings` and `visualize_recommendation`: console and plotting output.
- `assign_link_stats`: called by the menu and the visualiser but defined in none of the modelled files.
- Floating point: scores are exact reals. Python divides the two set sizes in floating point; rounding can only merge two different ratios into one float, which the model does not capture.
- Iteration order of Python sets and dictionaries: the loops pick the next element arbitrarily; `Selector.TopNUnique` shows the rankings do not depend on it, and the built graphs do not either.
- Selector.SortInPlace: an insertion sort stands in for Python's built-in sort; the order is total, so every correct sort leaves the same list.
- Recommendations.SimilarityScore: requires both titles to be nodes; the code would raise `KeyError` otherwise, which its only caller never triggers.
- Graph.CreateDigraph: when a score is missing, the partly stamped graph is discarded by the exception, so only the `KeyError` is modelled.
- Python lists that grow by `append` are sequences; the list handed to `reverse_list_sort` is an array allocated from that sequence.
- Node attribute names: the content reference is stored under "object" in src/wiki_graph.py and under "obj" in src/graph.py; both are the field `obj`.
- The content reference is reduced to its list of link titles; backlinks and URLs are not read by the modelled code.
- The check `elem not in scores_so_far` (src/recommendations.py:131) compares a title with `(score, title)` tuples and always holds, so it is a no-op in the model.
