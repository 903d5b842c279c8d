/** The ranking and recommendation functions of src/recommendations.py:
    ranking pages by out-degree, the Jaccard similarity of two pages'
    successor sets, and recommending the pages most similar to a given one.
    All three outputs go through `Selector.ReverseListSort`. */
module Recommendations {
  import opened PyValues
  import opened Selector
  import opened DiGraphs

  /** The candidate `top_wiki_pages` builds for `page`: `(len(g.adj[page]), page)`. */
  function DegreePair(g: DiGraph, page: string): Pair
    reads g
    requires page in g.succ
  {
    Pair(|g.succ[page]| as real, page)
  }

  /** The candidates for the titles in `pages`, one per title. */
  ghost function DegreePairs(g: DiGraph, pages: set<string>): set<Pair>
    reads g
    requires pages <= g.succ.Keys
  {
    set p | p in pages :: DegreePair(g, p)
  }

  /** Every candidate `top_wiki_pages` ranks: one per node. */
  ghost function DegreeCandidates(g: DiGraph): set<Pair>
    reads g
    requires g.Valid()
  {
    DegreePairs(g, g.nodes)
  }

  /** `top_wiki_pages(g, n)`: the `n` nodes with the most successors, most
      first, each with its out-degree; all nodes when there are fewer than
      `n`. The selection is a function of the graph alone, not of the order
      in which `set(g.nodes)` is visited (lemma `TopNUnique`). A negative `n`
      makes the selector raise `IndexError`. */
  method TopWikiPages(g: DiGraph, n: int) returns (r: Result<seq<Pair>>)
    requires g.Valid()
    ensures n < 0 ==> r == Err(IndexError)
    ensures n >= 0 ==> r.Ok? && |r.value| == Min(n, |g.nodes|)
    ensures n >= 0 ==> r.Ok? && IsTopN(DegreeCandidates(g), n, r.value)
  {
    var pageLinksSoFar: seq<Pair> := [];
    var todo := g.nodes;
    while todo != {}
      invariant todo <= g.nodes
      invariant multiset(pageLinksSoFar) == multiset(DegreePairs(g, g.nodes - todo))
      invariant |pageLinksSoFar| + |todo| == |g.nodes|
      decreases todo
    {
      var page :| page in todo;
      ghost var before := DegreePairs(g, g.nodes - todo);
      assert g.nodes - (todo - {page}) == (g.nodes - todo) + {page};
      assert DegreePair(g, page) !in before;
      assert DegreePairs(g, g.nodes - (todo - {page})) == before + {DegreePair(g, page)};
      pageLinksSoFar := pageLinksSoFar + [DegreePair(g, page)];
      todo := todo - {page};
    }
    assert g.nodes - todo == g.nodes;
    var lst := new Pair[|pageLinksSoFar|](i requires 0 <= i < |pageLinksSoFar| => pageLinksSoFar[i]);
    assert lst[..] == pageLinksSoFar;
    r := ReverseListSort(lst, n);
    if n >= 0 {
      SortedSuffixIsTop(lst[..], DegreeCandidates(g), n);
    }
  }

  /** What a top-n selection of the degree candidates promises: every entry
      is a node paired with its out-degree, and no node appears twice. */
  lemma DegreeRankingFacts(g: DiGraph, n: nat, r: seq<Pair>)
    requires g.Valid() && IsTopN(DegreeCandidates(g), n, r)
    ensures forall i :: 0 <= i < |r| ==>
              r[i].title in g.nodes && r[i].score == |g.succ[r[i].title]| as real
    ensures forall i, j :: 0 <= i < j < |r| ==> r[i].title != r[j].title
  {
    forall i, j | 0 <= i < j < |r|
      ensures r[i].title != r[j].title
    {
      assert r[i] in DegreeCandidates(g) && r[j] in DegreeCandidates(g);
      PairLessIrreflexive(r[i]);
    }
  }

  /** `similarity_score(self, other, g)`: the Jaccard index of the two
      pages' successor sets, |A ∩ B| / |A ∪ B|, and 0 when either page has
      no successors. It is positive exactly when the pages share a
      successor, and 1 exactly when both have the same, non-empty,
      successors. */
  function SimilarityScore(self: string, other: string, g: DiGraph): (r: real)
    reads g
    requires self in g.succ && other in g.succ
    ensures 0.0 <= r <= 1.0
    ensures r > 0.0 <==> g.succ[self] * g.succ[other] != {}
    ensures r == 1.0 <==> g.succ[self] == g.succ[other] != {}
  {
    if |g.succ[self]| == 0 || |g.succ[other]| == 0 then
      0.0
    else
      var selfAdj, otherAdj := g.succ[self], g.succ[other];
      var both, either := |selfAdj * otherAdj|, |selfAdj + otherAdj|;
      SubsetCard(selfAdj * otherAdj, selfAdj + otherAdj);
      SubsetCard(selfAdj, selfAdj + otherAdj);
      SubsetCard(selfAdj * otherAdj, selfAdj);
      SubsetCard(selfAdj * otherAdj, otherAdj);
      RatioBounds(both, either);
      SameIffCommonIsAll(selfAdj, otherAdj);
      (both as real) / (either as real)
  }

  /** A ratio `k / m` with `0 <= k <= m` lies in [0, 1], is positive exactly
      when `k` is, and is 1 exactly when `k == m`. */
  lemma RatioBounds(k: nat, m: nat)
    requires 0 < m && k <= m
    ensures 0.0 <= (k as real) / (m as real) <= 1.0
    ensures (k as real) / (m as real) > 0.0 <==> k > 0
    ensures (k as real) / (m as real) == 1.0 <==> k == m
  {
  }

  /** A subset is no larger than its superset, and as large only when the
      two are equal. */
  lemma SubsetCard(x: set<string>, y: set<string>)
    requires x <= y
    ensures |x| <= |y|
    ensures |x| == |y| ==> x == y
  {
    assert y == x + (y - x);
    assert x * (y - x) == {};
    if |x| == |y| {
      assert |y - x| == 0;
    }
  }

  lemma SameIffCommonIsAll(a: set<string>, b: set<string>)
    ensures a * b == a + b <==> a == b
  {
  }

  lemma SimilaritySymmetric(self: string, other: string, g: DiGraph)
    requires self in g.succ && other in g.succ
    ensures SimilarityScore(self, other, g) == SimilarityScore(other, self, g)
  {
    assert g.succ[self] * g.succ[other] == g.succ[other] * g.succ[self];
    assert g.succ[self] + g.succ[other] == g.succ[other] + g.succ[self];
  }

  /** The candidate `top_wiki_page_recommendations` keeps for `elem`. */
  function ScorePair(g: DiGraph, page: string, elem: string): Pair
    reads g
    requires page in g.succ && elem in g.succ
  {
    Pair(SimilarityScore(page, elem, g), elem)
  }

  /** The candidates kept among the titles in `pages`: those with a
      positive similarity to `page`, one per title. */
  ghost function ScorePairs(g: DiGraph, page: string, pages: set<string>): set<Pair>
    reads g
    requires page in g.succ && pages <= g.succ.Keys
  {
    set e | e in pages && SimilarityScore(page, e, g) > 0.0 :: ScorePair(g, page, e)
  }

  /** Every candidate `top_wiki_page_recommendations` ranks: each other node
      with a positive similarity to `page`. */
  ghost function RecommendationCandidates(g: DiGraph, page: string): set<Pair>
    reads g
    requires g.Valid() && page in g.nodes
  {
    ScorePairs(g, page, g.nodes - {page})
  }

  /** `top_wiki_page_recommendations(page, n, g)`: the `n` other pages most
      similar to `page`, most similar first. `pages.remove(page)` raises
      `KeyError` when `page` is not a node; a negative `n` makes the selector
      raise `IndexError`. The result never holds `page`, never a score of 0,
      at most `n` entries, and no title twice. */
  method TopWikiPageRecommendations(page: string, n: int, g: DiGraph) returns (r: Result<seq<Pair>>)
    requires g.Valid()
    ensures page !in g.nodes ==> r == Err(KeyError)
    ensures page in g.nodes && n < 0 ==> r == Err(IndexError)
    ensures page in g.nodes && n >= 0 ==> r.Ok? && IsTopN(RecommendationCandidates(g, page), n, r.value)
    ensures r.Ok? ==> |r.value| <= n
    ensures r.Ok? ==> forall i :: 0 <= i < |r.value| ==> r.value[i].title != page && r.value[i].score > 0.0
    ensures r.Ok? ==> forall i, j :: 0 <= i < j < |r.value| ==> r.value[i].title != r.value[j].title
  {
    var pages := g.nodes;
    if page !in pages {
      return Err(KeyError);
    }
    pages := pages - {page};
    var scoresSoFar: seq<Pair> := [];
    var todo := pages;
    while todo != {}
      invariant todo <= pages
      invariant multiset(scoresSoFar) == multiset(ScorePairs(g, page, pages - todo))
      decreases todo
    {
      var elem :| elem in todo;
      ghost var before := ScorePairs(g, page, pages - todo);
      assert pages - (todo - {elem}) == (pages - todo) + {elem};
      // The source's `elem not in scores_so_far` compares a title with
      // `(score, title)` tuples, so it always holds.
      var score := SimilarityScore(page, elem, g);
      if score > 0.0 {
        assert ScorePair(g, page, elem) !in before;
        assert ScorePairs(g, page, pages - (todo - {elem})) == before + {ScorePair(g, page, elem)};
        scoresSoFar := scoresSoFar + [Pair(score, elem)];
      } else {
        assert ScorePairs(g, page, pages - (todo - {elem})) == before;
      }
      todo := todo - {elem};
    }
    assert pages - todo == pages;
    var lst := new Pair[|scoresSoFar|](i requires 0 <= i < |scoresSoFar| => scoresSoFar[i]);
    assert lst[..] == scoresSoFar;
    r := ReverseListSort(lst, n);
    if n >= 0 {
      SortedSuffixIsTop(lst[..], RecommendationCandidates(g, page), n);
      RecommendationsSafe(g, page, n, r.value);
    }
  }

  /** What a top-n selection of the recommendation candidates promises:
      never `page` itself, only positive scores, each entry's score is its
      title's similarity to `page`, at most `n` entries, no title twice. */
  lemma RecommendationsSafe(g: DiGraph, page: string, n: nat, r: seq<Pair>)
    requires g.Valid() && page in g.nodes
    requires IsTopN(RecommendationCandidates(g, page), n, r)
    ensures |r| <= n
    ensures forall i :: 0 <= i < |r| ==>
              && r[i].title in g.nodes && r[i].title != page
              && r[i].score == SimilarityScore(page, r[i].title, g) > 0.0
    ensures forall i, j :: 0 <= i < j < |r| ==> r[i].title != r[j].title
  {
    forall i, j | 0 <= i < j < |r|
      ensures r[i].title != r[j].title
    {
      assert r[i] in RecommendationCandidates(g, page) && r[j] in RecommendationCandidates(g, page);
      PairLessIrreflexive(r[i]);
    }
  }
}
