/**
 * Ranking: `sorted(patterns.items(), key=lambda x: -x[1])`, a stable sort by
 * descending count, and `recommend(top_n)`, the slice `recommendations[:top_n]`.
 */
module Ranking {
  import opened Items
  import opened OrderedMaps
  import opened Sorting
  import opened Mining

  /** A `(pattern, count)` pair of `patterns.items()`. */
  type Recommendation = (seq<Item>, nat)

  /** The sort key `-count`: `a` may precede `b` when its count is at least `b`'s. */
  function ByCount(): (Recommendation, Recommendation) -> bool
  {
    (a: Recommendation, b: Recommendation) => a.1 >= b.1
  }

  lemma ByCountIsTotal()
    ensures TotalPreorder(ByCount())
  {
  }

  /** Counts never increase along `r`. */
  predicate NonIncreasing(r: seq<Recommendation>)
  {
    forall i, j :: 0 <= i < j < |r| ==> r[i].1 >= r[j].1
  }

  /**
   * `generate_recommendations(patterns)` and line 85 of `fit`: every pattern
   * with its count, by non-increasing count.
   */
  function GenerateRecommendations(patterns: Patterns): (r: seq<Recommendation>)
    requires patterns.Valid()
    ensures |r| == |patterns.keys|
    ensures NonIncreasing(r)
  {
    ByCountIsTotal();
    var r := Sort(OrderedMaps.Items(patterns), ByCount());
    assert |r| == |multiset(r)| == |OrderedMaps.Items(patterns)|;
    r
  }

  /** The ranking lists each pattern of the dict once, with its count. */
  lemma RankingEntries(patterns: Patterns)
    requires patterns.Valid()
    ensures var r := GenerateRecommendations(patterns);
      && multiset(r) == multiset(OrderedMaps.Items(patterns))
      && forall e :: e in r <==> e.0 in patterns.vals && patterns.vals[e.0] == e.1
  {
    ByCountIsTotal();
    var r := GenerateRecommendations(patterns);
    forall e ensures e in r <==> e.0 in patterns.vals && patterns.vals[e.0] == e.1 {
      ItemsMember(patterns, e);
      assert e in r <==> e in multiset(r);
    }
  }

  /** Python's sort is stable: entries with equal counts keep their order in the dict. */
  lemma RankingStable(patterns: Patterns, e: Recommendation)
    requires patterns.Valid()
    ensures Ties(GenerateRecommendations(patterns), e, ByCount()) == Ties(OrderedMaps.Items(patterns), e, ByCount())
  {
    ByCountIsTotal();
    SortStable(OrderedMaps.Items(patterns), e, ByCount());
  }

  /**
   * The ranking is the only arrangement with non-increasing counts that keeps
   * every group of equal counts in dict order.
   */
  lemma RankingUnique(patterns: Patterns, r: seq<Recommendation>)
    requires patterns.Valid() && NonIncreasing(r)
    requires forall e :: Ties(r, e, ByCount()) == Ties(OrderedMaps.Items(patterns), e, ByCount())
    ensures r == GenerateRecommendations(patterns)
  {
    ByCountIsTotal();
    var g := GenerateRecommendations(patterns);
    assert SortedBy(r, ByCount());
    assert SortedBy(g, ByCount());
    forall e ensures Ties(r, e, ByCount()) == Ties(g, e, ByCount()) {
      RankingStable(patterns, e);
    }
    StableSortUnique(r, g, ByCount());
  }

  /** `recommendations[:top_n]` with Python's slice semantics, a negative `top_n` counting from the end. */
  function Recommend(recs: seq<Recommendation>, topN: int): (r: seq<Recommendation>)
    ensures r <= recs
    ensures |r| == if topN >= 0 then (if topN <= |recs| then topN else |recs|)
                   else (if |recs| + topN >= 0 then |recs| + topN else 0)
  {
    if topN >= 0 then (if topN <= |recs| then recs[..topN] else recs)
    else if |recs| + topN >= 0 then recs[..|recs| + topN]
    else []
  }

  /** On a ranking, `recommend(n)` returns entries whose counts are at least those of every entry it leaves out. */
  lemma RecommendTop(recs: seq<Recommendation>, topN: int)
    requires NonIncreasing(recs)
    ensures var r := Recommend(recs, topN);
      forall i, j :: 0 <= i < |r| && |r| <= j < |recs| ==> r[i].1 >= recs[j].1
  {
    var r := Recommend(recs, topN);
    forall i, j | 0 <= i < |r| && |r| <= j < |recs| ensures r[i].1 >= recs[j].1 {
      assert r[i] == recs[i];
    }
  }
}
