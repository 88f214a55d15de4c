/**
 * The class `HCFPGrowthModel`: two thresholds and the three fields that `fit`
 * fills in, with its steps delegating to the pipeline stages.
 */
module Model {
  import opened Items
  import opened OrderedMaps
  import opened FpTree
  import Compression
  import TreeBuilding
  import Mining
  import Ranking

  class HCFPGrowthModel {
    const minItemFrequency: int
    const minSupport: int
    var frequentPatterns: Mining.Patterns
    var recommendations: seq<Ranking.Recommendation>
    var itemFrequency: map<Item, nat>

    /** `__init__`: thresholds default to 5; nothing mined yet. */
    constructor(minItemFrequency: int := 5, minSupport: int := 5)
      ensures this.minItemFrequency == minItemFrequency && this.minSupport == minSupport
      ensures frequentPatterns == Empty() && recommendations == [] && itemFrequency == map[]
    {
      this.minItemFrequency := minItemFrequency;
      this.minSupport := minSupport;
      frequentPatterns := Empty();
      recommendations := [];
      itemFrequency := map[];
    }

    /** Every field keeps its meaning: the patterns form a dict and the ranking is theirs. */
    ghost predicate Ranked()
      reads this
    {
      frequentPatterns.Valid() && recommendations == Ranking.GenerateRecommendations(frequentPatterns)
    }

    /** `_compress_transactions`: records the occurrence counts in `item_frequency`. */
    method CompressTransactions(transactions: seq<Transaction>) returns (compressed: seq<Transaction>)
      modifies this`itemFrequency
      ensures forall x :: x in itemFrequency <==> Occurrences(transactions, x) > 0
      ensures forall x :: x in itemFrequency ==> itemFrequency[x] == Occurrences(transactions, x)
      ensures compressed == Compression.Compress(itemFrequency, minItemFrequency, transactions)
    {
      compressed, itemFrequency := Compression.CompressTransactions(transactions, minItemFrequency);
    }

    /** `_build_fp_tree` with the model's `min_support`. */
    method BuildFpTree(transactions: seq<Transaction>) returns (nodes: seq<Node>, header: HeaderTable)
      ensures TreeBuilding.IsFpTree(transactions, minSupport, nodes, header)
    {
      nodes, header := TreeBuilding.BuildFpTree(transactions, minSupport);
    }

    /** `_mine_patterns` with the model's `min_support`. */
    method MinePatterns(nodes: seq<Node>, header: HeaderTable) returns (patterns: Mining.Patterns)
      requires ParentsBelow(nodes) && header.Valid() && Mining.HeaderInTree(nodes, header)
      ensures patterns == Mining.Mined(nodes, header, minSupport)
    {
      patterns := Mining.MinePatterns(nodes, header, minSupport);
    }

    /**
     * `fit` on transactions already grouped per member: compress, build the
     * tree, mine it and rank the patterns. The tree and its pruned header
     * table, which the source drops once mined, come back as ghost results so
     * that the contract can name them.
     */
    method Fit(transactions: seq<Transaction>) returns (ghost tree: seq<Node>, ghost header: HeaderTable)
      modifies this`itemFrequency, this`frequentPatterns, this`recommendations
      ensures forall x :: x in itemFrequency <==> Occurrences(transactions, x) > 0
      ensures forall x :: x in itemFrequency ==> itemFrequency[x] == Occurrences(transactions, x)
      ensures Mines(transactions, itemFrequency, minItemFrequency, minSupport, tree, header, frequentPatterns)
      ensures Ranked()
    {
      var compressed := CompressTransactions(transactions);
      tree, header := MineCompressed(compressed);
      Rank();
    }

    /** Lines 82-84 of `fit`: build the tree of the compressed transactions and mine it. */
    method MineCompressed(compressed: seq<Transaction>) returns (ghost tree: seq<Node>, ghost header: HeaderTable)
      modifies this`frequentPatterns
      ensures TreeBuilding.IsFpTree(compressed, minSupport, tree, header)
      ensures frequentPatterns.Valid() && frequentPatterns == Mining.Mined(tree, header, minSupport)
    {
      var nodes, table := BuildFpTree(compressed);
      HeaderNodesInTree(compressed, minSupport, nodes, table);
      frequentPatterns := MinePatterns(nodes, table);
      tree, header := nodes, table;
    }

    /** Line 85 of `fit`: the patterns as (pattern, count) pairs, by non-increasing count. */
    method Rank()
      requires frequentPatterns.Valid()
      modifies this`recommendations
      ensures Ranked()
    {
      recommendations := Ranking.GenerateRecommendations(frequentPatterns);
    }

    /** `recommend(top_n)`: the first `top_n` ranked patterns; the model is left as it was. */
    method Recommend(topN: int := 10) returns (r: seq<Ranking.Recommendation>)
      requires Ranked()
      ensures r <= recommendations && |recommendations| == |frequentPatterns.keys|
      ensures |r| == if topN >= 0 then (if topN <= |recommendations| then topN else |recommendations|)
                     else (if |recommendations| + topN >= 0 then |recommendations| + topN else 0)
      ensures forall i, j :: 0 <= i < |r| && |r| <= j < |recommendations| ==> r[i].1 >= recommendations[j].1
    {
      r := Ranking.Recommend(recommendations, topN);
      Ranking.RecommendTop(recommendations, topN);
    }
  }

  /**
   * `patterns` is what mining gives on a tree built, with `minSupport`, from
   * the transactions compressed with `frequency` and `minItemFrequency`.
   */
  ghost predicate Mines(transactions: seq<Transaction>, frequency: map<Item, nat>, minItemFrequency: int, minSupport: int,
                        nodes: seq<Node>, header: HeaderTable, patterns: Mining.Patterns)
  {
    && TreeBuilding.IsFpTree(Compression.Compress(frequency, minItemFrequency, transactions), minSupport, nodes, header)
    && patterns == Mining.Mined(nodes, header, minSupport)
  }

  /**
   * `fit` is deterministic: every tree and header table that the contract of
   * `Fit` can name are the same, so the mined patterns, their dict order and
   * hence the ranking, ties included, are fixed by the transactions.
   */
  lemma MinesUnique(transactions: seq<Transaction>, frequency: map<Item, nat>, minItemFrequency: int, minSupport: int,
                    nodes1: seq<Node>, h1: HeaderTable, patterns1: Mining.Patterns,
                    nodes2: seq<Node>, h2: HeaderTable, patterns2: Mining.Patterns)
    requires Mines(transactions, frequency, minItemFrequency, minSupport, nodes1, h1, patterns1)
    requires Mines(transactions, frequency, minItemFrequency, minSupport, nodes2, h2, patterns2)
    ensures nodes1 == nodes2 && h1 == h2 && patterns1 == patterns2
  {
    var compressed := Compression.Compress(frequency, minItemFrequency, transactions);
    TreeBuilding.FpTreeUnique(compressed, minSupport, nodes1, h1, nodes2, h2);
  }

  /** Every header list of a built tree names nodes of that tree. */
  lemma HeaderNodesInTree(ts: seq<Transaction>, minSupport: int, nodes: seq<Node>, h: HeaderTable)
    requires TreeBuilding.IsFpTree(ts, minSupport, nodes, h)
    ensures ParentsBelow(nodes) && Mining.HeaderInTree(nodes, h)
  {
    forall x, j | x in h.vals && j in h.vals[x] ensures j < |nodes| {
      assert j in NodesWithItem(nodes, x);
    }
  }

  /**
   * End to end, the header table keeps the items that pass `min_item_frequency`
   * and occur at least `min_support` times in the original transactions.
   */
  lemma PipelineHeaderItems(transactions: seq<Transaction>, minItemFrequency: int, minSupport: int,
                            frequency: map<Item, nat>, nodes: seq<Node>, h: HeaderTable, x: Item)
    requires forall y :: y in frequency ==> frequency[y] == Occurrences(transactions, y)
    requires forall y :: y in frequency <==> Occurrences(transactions, y) > 0
    requires TreeBuilding.IsFpTree(Compression.Compress(frequency, minItemFrequency, transactions), minSupport, nodes, h)
    ensures x in h.vals <==>
      Occurrences(transactions, x) > 0 && Occurrences(transactions, x) >= minItemFrequency && Occurrences(transactions, x) >= minSupport
  {
    var compressed := Compression.Compress(frequency, minItemFrequency, transactions);
    TreeBuilding.HeaderItems(compressed, minSupport, nodes, h, x);
    Compression.CompressOccurrences(frequency, minItemFrequency, transactions, x);
  }
}
