# HC-FP-Growth in Dafny

This project models the frequent-itemset miner "HC-FP-Growth" of the
market-analysis backend and proves properties of the model. The miner exists
twice with the same logic: as the class `HCFPGrowthModel` in
`BACKEND/pandas/model.py`, and as free functions in
`BACKEND/pandas/EXTRA/HCFP.py`. It is a four-stage pipeline over lists of
purchased items, one list per member:

1. **Compression** (`compress.dfy`, module `Compression`). Count every item
   occurrence, with duplicates inside a transaction counted separately. Keep
   the items whose count reaches `min_item_frequency`. Sort each transaction
   by the key (descending count, ascending item). Drop the transactions left
   empty.
2. **Tree building** (`fp_tree.dfy`, `build_tree.dfy`; modules `FpTree` and
   `TreeBuilding`). Insert the compressed transactions into a prefix-sharing
   counting tree and keep a header table from each item to its nodes in
   creation order. At the end, drop the items whose summed node counts are
   below `min_support`.
3. **Mining** (`mining.dfy`, module `Mining`). For every node of every header
   list, climb to the root collecting the ancestors' items. When that path is
   not empty, add the node's count to the pattern `sorted(path + [item])`.
   Keep the patterns whose total reaches `min_support`.
4. **Ranking** (`ranking.dfy`, module `Ranking`). Sort the patterns by
   descending count. Python's sort is stable, so ties keep the dict's
   insertion order. `recommend(top_n)` is a slice of that list.

`model.dfy` (module `Model`) is the class `HCFPGrowthModel`. Its fields
`itemFrequency`, `frequentPatterns` and `recommendations` are assigned by
`Fit`, which runs the stages one after the other.

How the source's structures are represented:

- **Tree.** The tree is an arena `seq<Node>`. The root sits at index 0, with
  no item, no parent and count 1. A node holds its item, its count, its
  parent's index and a `map` from item to child index.
- **Python dicts.** The header table and the pattern dict are
  `OrderedMap`s: a key sequence in insertion order plus a `map`.
- **Sorting.** All three sorts use one stable insertion sort,
  `Sorting.Sort`, with three orders: the compression key, Python's string
  order for patterns, and descending count for the ranking.
- **Strings.** Python's `<=` on strings is `Items.StrLe`, a lexicographic
  order on `seq<char>`.

Each stage that the source writes as a loop is a `method` with a `while`
loop. Each such method is proved against a specification function or
predicate:

- `Compression.Compress` for compression;
- `TreeBuilding.IsFpTree` for the built tree;
- `Mining.Mined` for the mined patterns;
- `Ranking.GenerateRecommendations` for the ranking.

Lemmas then state what each specification means. For example, a node's count
is the number of transactions that start with its root path, and a mined
pattern's count is the summed count of the header nodes that contribute it.

### Behaviour that is easy to mispredict

- **Counting includes duplicates.** On `[[A,B,C],[A,B],[A,C,D],[B,C],[A,B,C,D]]`
  with both thresholds at 2:
  - the counting loop (`BACKEND/pandas/model.py:29-31`) gives A=B=C=4 and D=2;
  - the key `(-frequency[x], x)` (`BACKEND/pandas/model.py:37`) then orders
    every transaction A,B,C,D;
  - the ranking that follows is `[((A,B),3), ((A,B,C),2)]`.
- **Patterns can repeat an item.** A transaction such as `[A, A]` keeps both
  occurrences through compression and creates an `A` child under an `A`
  node, so the pattern `(A, A)` can be mined. The model does not assume
  patterns are free of duplicates.
- **Thresholds are not validated.** The model puts no precondition on them;
  any `int` is accepted.

## Model

| member | source | states |
|---|---|---|
| Compression.CountItems | BACKEND/pandas/EXTRA/HCFP.py:13-14 | after counting `t`, every item's count has grown by its number of occurrences in `t`; the keys are the old keys plus the items of `t` |
| Compression.CompressTransactions | BACKEND/pandas/EXTRA/HCFP.py:10-20 | the returned frequency has a key exactly for each item of some transaction, mapped to its number of occurrences over all transactions (duplicates counted); the compressed list is `Compress` with those counts |
| Compression.Kept | BACKEND/pandas/EXTRA/HCFP.py:17 | the filtered transaction keeps every occurrence of an item whose count reaches the threshold and no occurrence of any other item |
| Compression.ItemOrderIsTotal | BACKEND/pandas/model.py:37 | the key `(-frequency[x], x)` orders items totally and antisymmetrically, so equal counts are broken by the item |
| Compression.SortItems | BACKEND/pandas/model.py:34-38 | `sort_items(t)` is ordered by the key, is a permutation of the filtered items of `t`, and holds only items whose count reaches `min_item_frequency` |
| Compression.SortItemsUnique | BACKEND/pandas/model.py:34-38 | any ordering of the filtered items that is sorted by the key equals `sort_items(t)`: the output is fully determined |
| Compression.Compress | BACKEND/pandas/model.py:40 | the compressed list is no longer than the input, and no compressed transaction is empty or holds an infrequent item |
| Compression.Survivor | BACKEND/pandas/model.py:40 | a transaction leaves at most one entry, and that entry is non-empty and holds only frequent items |
| Compression.CompressOne | BACKEND/pandas/EXTRA/HCFP.py:19 | a single transaction survives, as `sort_items(t)`, exactly when that is non-empty |
| Compression.CompressAppend | BACKEND/pandas/model.py:40 | compressing a concatenation concatenates the compressions, so survivors keep their input order |
| Compression.CompressOccurrences | BACKEND/pandas/model.py:34-40 | compression removes every occurrence of an item below the threshold and keeps every occurrence of the others |
| FpTree.Increment | BACKEND/pandas/model.py:24-25 | `increment()` raises the count of one node by one and leaves every other node and field unchanged |
| FpTree.AddChild | BACKEND/pandas/EXTRA/HCFP.py:45-46 | a new node carries the item, count 1, the current node as parent and no children; it is stored under its item in the parent's children; nothing else changes |
| FpTree.NodesWithItem | BACKEND/pandas/model.py:54 | the header list of `x` holds exactly the nodes that carry `x`, in strictly increasing index order; in a built tree index order is creation order (`TreeBuilding.BuildFpTree`) |
| FpTree.SumCountsItemTotal | BACKEND/pandas/model.py:59 | `sum(n.count for n in nodes)` over the header list of `x` is the summed count of all nodes that carry `x` |
| FpTree.PathsDistinct | BACKEND/pandas/model.py:49-55 | in a well-formed tree two distinct nodes have distinct root paths: shared prefixes share nodes |
| FpTree.FindPath | BACKEND/pandas/model.py:48-55 | the node reached from the root by following `children` along `p` has root path `p` |
| FpTree.PathFind | BACKEND/pandas/model.py:48-55 | following a node's own root path from the root reaches that node |
| TreeBuilding.InsertItem | BACKEND/pandas/model.py:49-55 | one step of insertion, whether it increments the existing child or creates a new one, keeps the tree and header table matching the transactions so far, creation numbering included, and moves to the node of the extended prefix; every existing node keeps its item and parent; an increment creates nothing, and a created node gets the next index and goes to the end of its item's header list |
| TreeBuilding.InsertTransaction | BACKEND/pandas/EXTRA/HCFP.py:40-48 | inserting a transaction keeps the tree and the unpruned header table matching all transactions inserted so far, creation numbering included, and keeps the item and parent of every existing node |
| TreeBuilding.InsertTransactions | BACKEND/pandas/EXTRA/HCFP.py:36-48 | from the root alone and an empty table, inserting the transactions in order yields the unpruned tree of all of them: counts, header lists, item totals, and node `i` carrying the `i`-th distinct prefix walked |
| TreeBuilding.InitBuilt | BACKEND/pandas/model.py:43-44 | the fresh root (no item, no parent, count 1) with an empty header table is the tree of no transactions |
| TreeBuilding.PruneHeader | BACKEND/pandas/model.py:57-60 | the pruned table keeps exactly the items whose node counts sum to at least `min_support`, with their lists unchanged and their keys in the original order |
| TreeBuilding.PruneIsFpTree | BACKEND/pandas/model.py:57-61 | pruning a table built from the transactions yields an FP-tree of them |
| TreeBuilding.BuildFpTree | BACKEND/pandas/model.py:42-61 | the result is an FP-tree of the transactions: well-formed; node `i` carries the `i`-th distinct non-empty prefix met while walking the transactions in order (creation order), and the root keeps count 1; counts match the prefixes; header lists are each item's nodes in creation order; items are kept exactly when their counts sum to `min_support`; keys are in the order of each item's first node |
| TreeBuilding.NodeCounts | BACKEND/pandas/model.py:46-55 | each non-root node's count is the number of transactions that start with its root path |
| TreeBuilding.PrefixesPresent | BACKEND/pandas/model.py:46-55 | every non-empty prefix of every transaction is the root path of some node |
| TreeBuilding.RootChildrenCount | BACKEND/pandas/model.py:46-55 | when no transaction is empty, the counts of the root's children sum to the number of transactions |
| TreeBuilding.HeaderItems | BACKEND/pandas/EXTRA/HCFP.py:50-53 | an item stays in the header table exactly when it occurs in the transactions at least `min_support` times |
| TreeBuilding.PruneKeepsOrder | BACKEND/pandas/EXTRA/HCFP.py:50-53 | the pruned keys stay in the order in which each item's first node was created |
| TreeBuilding.FpTreeUnique | BACKEND/pandas/model.py:42-61 | the result of `build_fp_tree` is fully determined: two results for the same transactions and threshold are equal, node numbering, counts, child links, header lists and key order included |
| TreeBuilding.CreationOrderedUnique | BACKEND/pandas/model.py:57-60 | two key lists over the same items, both in the order of each item's first node, are equal |
| FpTree.PrefixesCounted | BACKEND/pandas/model.py:46-55 | a path is walked during insertion exactly when it is non-empty and some transaction starts with it |
| OrderedMaps.FirstOccurrencesDistinct | BACKEND/pandas/model.py:54 | the keys a dict gains when a sequence is assigned in order are the sequence's elements, each once |
| Items.Reversed | BACKEND/pandas/model.py:68 | `path[::-1]` has the length of `path` and holds its elements back to front |
| Mining.AscendFpTree | BACKEND/pandas/model.py:63-68 | the loop returns the items of the node's ancestors strictly below the root, root side first |
| Mining.AncestorsPath | BACKEND/pandas/EXTRA/HCFP.py:58-63 | the ascent plus the node's own item is the node's root path (so its length is depth − 1), and it is empty exactly for the root and the root's children |
| Mining.StrOrderIsTotal | BACKEND/pandas/model.py:76 | Python's `<=` on str (`Items.StrLe`: by code point, a proper prefix first) is a total, transitive and antisymmetric order, so `sorted` of the pattern items is well defined |
| Mining.SortedPattern | BACKEND/pandas/model.py:76 | the pattern is a sorted permutation of `path + [item]`, one longer than the path |
| Mining.Bump | BACKEND/pandas/model.py:77 | `patterns[p] = patterns.get(p, 0) + count` raises only the contributed pattern, by the node's count; a new pattern goes to the end of the keys and an existing one keeps its place |
| Mining.KeepFrequent | BACKEND/pandas/model.py:78 | the comprehension keeps exactly the patterns whose tally reaches `min_support`, with their tallies, in the dict's order |
| Mining.MineEntry | BACKEND/pandas/model.py:74-77 | one header node adds its count to its pattern, or nothing when its path is empty |
| Mining.TallyHeaderTable | BACKEND/pandas/model.py:71-77 | visiting the header lists in `header_table.items()` order yields the tally of all header entries, before filtering |
| Mining.MineHeaderEntry | BACKEND/pandas/model.py:72-77 | one pass of the outer loop adds the contributions of the next header list to the tally |
| Mining.MineHeaderList | BACKEND/pandas/model.py:73-77 | visiting one header list in order accumulates the contributions of its nodes |
| Mining.MinePatterns | BACKEND/pandas/model.py:70-78 | the mined dict is the filtered tally of all header entries in dict order (`Mining.Mined`) |
| Mining.TallySupport | BACKEND/pandas/model.py:72-77 | before filtering, a pattern is a key exactly when some header node contributes it, and its count is the sum of the counts of the nodes that contribute it |
| Mining.TallyShape | BACKEND/pandas/EXTRA/HCFP.py:69-72 | every tallied pattern has at least two items and is sorted, because root children contribute nothing |
| Mining.MinedPatterns | BACKEND/pandas/model.py:70-78 | a pattern is mined exactly when its summed contributions reach `min_support`; its count is that sum, and it is sorted with length ≥ 2 |
| Mining.TallyKeyOrder | BACKEND/pandas/model.py:71-77 | before filtering, the dict lists each contributed pattern once, in the order of the first header entry that contributes it |
| Mining.MinedKeyOrder | BACKEND/pandas/model.py:70-78 | the mined keys are the frequent contributed patterns, in the order of their first contributing header entry |
| Sorting.Sort | BACKEND/pandas/model.py:35-38 | `sorted` returns a permutation of its input that is ordered by the key |
| Sorting.SortStable | BACKEND/pandas/model.py:85 | `sorted` is stable: the elements of each class of equal keys keep their input order |
| Sorting.SortedUnique | BACKEND/pandas/model.py:35-38 | under a key that leaves no ties, two sorted permutations of one input are equal |
| Ranking.GenerateRecommendations | BACKEND/pandas/EXTRA/HCFP.py:76-77 | the ranking has one entry per pattern, with non-increasing counts |
| Ranking.RankingEntries | BACKEND/pandas/model.py:85 | the ranking is a permutation of the dict's items: each (pattern, count) pair of the dict appears, and nothing else |
| Ranking.RankingStable | BACKEND/pandas/EXTRA/HCFP.py:77 | entries with equal counts appear in the dict's insertion order |
| Ranking.RankingUnique | BACKEND/pandas/model.py:85 | any non-increasing arrangement that keeps ties in dict order is exactly the ranking |
| Ranking.Recommend | BACKEND/pandas/model.py:88-89 | the slice is a prefix of the ranking, of length `min(top_n, len)` and Python's length for a negative `top_n` |
| Ranking.RecommendTop | BACKEND/pandas/model.py:89 | on a non-increasing ranking, every returned count is at least every omitted count |
| Model.HCFPGrowthModel.constructor | BACKEND/pandas/model.py:6-11 | the thresholds are stored (both 5 by default) and nothing is mined yet |
| Model.HCFPGrowthModel.CompressTransactions | BACKEND/pandas/model.py:27-40 | `item_frequency` holds every item's occurrence count, and the result is `Compress` under it |
| Model.HCFPGrowthModel.BuildFpTree | BACKEND/pandas/model.py:42-61 | the result is an FP-tree of the transactions under the model's `min_support` |
| Model.HCFPGrowthModel.MinePatterns | BACKEND/pandas/model.py:70-78 | the result is `Mining.Mined` under the model's `min_support` |
| Model.HCFPGrowthModel.MineCompressed | BACKEND/pandas/model.py:83-84 | `frequent_patterns` becomes the mined dict of the FP-tree of the compressed transactions, which `TreeBuilding.FpTreeUnique` shows is unique |
| Model.HCFPGrowthModel.Rank | BACKEND/pandas/model.py:85 | `recommendations` becomes the ranking of `frequent_patterns` |
| Model.HCFPGrowthModel.Fit | BACKEND/pandas/model.py:80-85 | `item_frequency` counts the occurrences of the input; `frequent_patterns` is mined from the FP-tree of the compressed input; `recommendations` is their ranking |
| Model.MinesUnique | BACKEND/pandas/model.py:82-84 | what `fit` mines is determined by its input: the tree, the header table and the pattern dict, key order included |
| Model.HCFPGrowthModel.Recommend | BACKEND/pandas/model.py:88-89 | on a fitted model, the result is a prefix of `recommendations` of length `min(top_n, len)`, or `max(len + top_n, 0)` for a negative `top_n`, and no omitted entry outranks a returned one; no field changes |
| Model.HeaderNodesInTree | BACKEND/pandas/model.py:54 | every node named in a header list belongs to the tree, and parents precede children |
| Model.PipelineHeaderItems | BACKEND/pandas/model.py:82-83 | end to end, an item is in the header table exactly when it occurs, and its occurrence count reaches both `min_item_frequency` and `min_support` |

## Left out

- Loading the CSV and grouping with pandas (`BACKEND/pandas/model.py:81`,
  `BACKEND/pandas/EXTRA/HCFP.py:6-7`): this is I/O and library code. `Fit`
  takes the grouped transactions as a `seq<seq<char>>` list.
- `_analyze_trends`, `get_trends` and `analyze_purchase_trends`: these are
  date parsing, `mode`, `idxmax` and a floating-point mean over a DataFrame,
  all library calls. The class does not carry the `active_day`,
  `peak_hours` and `basket_size` fields that they fill.
- The script part of `HCFP.py` (printing and a floating-point confidence),
  `train_model.py` (file checks and persistence) and `app.py` (web routes):
  these are I/O, not algorithm.
- `TreeNode.link`: it is never used.
- `TreeNode` (`BACKEND/pandas/model.py:16-22`) is the datatype `FpTree.Node`
  and the root is the constant `FpTree.RootNode`. They have no contract of
  their own; `FpTree.AddChild` and `TreeBuilding.InitBuilt` state what a new
  node and the fresh root hold.
- Node identity and aliasing: `TreeNode` objects become values in an arena,
  and references become indices. The model does not capture object identity
  or sharing beyond the parent and child indices.
- The root's count: it is 1, as in the source, and nothing reads it.
- Model.HCFPGrowthModel.Fit: the thresholds are `const` fields. Python lets
  a caller reassign them between calls, and the model does not.
- Model.HCFPGrowthModel.Fit: the tree and header table are ghost results.
  The source drops them after mining, so they exist only to state the
  contract.
- Ranking.Recommend: Python slicing also accepts `None` and out-of-range
  values. Only integer `top_n` is modelled; negative values follow Python's
  rules.
