/**
 * `build_fp_tree`: insert every compressed transaction into the shared-prefix
 * tree, recording each new node in the header table, then prune the header
 * table by `min_support`.
 */
module TreeBuilding {
  import opened Items
  import opened OrderedMaps
  import opened FpTree

  /** Every non-empty path is counted once per transaction it prefixes. */
  ghost predicate CountsMatch(nodes: seq<Node>, done: seq<Transaction>)
  {
    forall p :: p != [] ==> AbsCount(nodes, p) == CountPrefixed(done, p)
  }

  /** The header table lists, per item, exactly the nodes carrying it, in creation order. */
  ghost predicate HeaderMatches(nodes: seq<Node>, h: HeaderTable)
  {
    && h.Valid()
    && (forall x :: x in h.vals <==> NodesWithItem(nodes, x) != [])
    && (forall x :: x in h.vals ==> h.vals[x] == NodesWithItem(nodes, x))
    && CreationOrdered(nodes, h.keys)
  }

  /** Node counts per item add up to the item's occurrences; the root's children add up to the transactions. */
  ghost predicate TotalsMatch(nodes: seq<Node>, done: seq<Transaction>)
  {
    && (forall x :: ItemTotal(nodes, x) == Occurrences(done, x))
    && RootChildTotal(nodes) == NonEmptyCount(done)
  }

  /** The state of `build_fp_tree` after inserting `done`, before pruning. */
  ghost predicate Built(nodes: seq<Node>, h: HeaderTable, done: seq<Transaction>)
  {
    && WellFormed(nodes) && CountsMatch(nodes, done) && HeaderMatches(nodes, h) && TotalsMatch(nodes, done)
    && CreationNumbered(nodes, done)
  }

  /**
   * Nodes are numbered in creation order: node `i` carries the `i`-th distinct
   * non-empty prefix met while walking the transactions in order. The root is
   * never incremented and keeps its count 1.
   */
  ghost predicate CreationNumbered(nodes: seq<Node>, done: seq<Transaction>)
  {
    var created := FirstOccurrences(Prefixes(done));
    && ParentsBelow(nodes)
    && nodes[0].count == 1
    && |nodes| == |created| + 1
    && forall i {:trigger NumberedAt(nodes, created, i)} :: 0 < i < |nodes| ==> NumberedAt(nodes, created, i)
  }

  /** Node `i` carries the `i`-th created path. */
  ghost predicate NumberedAt(nodes: seq<Node>, created: seq<seq<Item>>, i: nat)
  {
    ParentsBelow(nodes) && 0 < i < |nodes| && i <= |created| && Path(nodes, i) == created[i - 1]
  }

  /** The items of `h` whose node counts sum to at least `minSupport`. */
  function Supported(nodes: seq<Node>, h: HeaderTable, minSupport: int): set<Item>
  {
    set x | x in h.vals && SumCounts(nodes, h.vals[x]) >= minSupport
  }

  /** `{item: nodes for item, nodes in header_table.items() if sum(n.count for n in nodes) >= min_support}`. */
  function PruneHeader(nodes: seq<Node>, h: HeaderTable, minSupport: int): (r: HeaderTable)
    requires h.Valid()
    ensures r.Valid()
    ensures forall x :: x in r.vals <==> x in h.vals && SumCounts(nodes, h.vals[x]) >= minSupport
    ensures forall x :: x in r.vals ==> r.vals[x] == h.vals[x]
    ensures r.keys == FilterIn(h.keys, Supported(nodes, h, minSupport))
  {
    Restrict(h, Supported(nodes, h, minSupport))
  }

  /**
   * The result of `build_fp_tree(ts, min_support)`: a well-formed tree whose
   * nodes are numbered in creation order and whose node at every non-empty
   * path counts the transactions with that prefix, and a header table holding,
   * in the order their first node was created, the items whose node counts
   * reach `min_support`, each with all of its nodes in creation order.
   */
  ghost predicate IsFpTree(ts: seq<Transaction>, minSupport: int, nodes: seq<Node>, h: HeaderTable)
  {
    && WellFormed(nodes)
    && CountsMatch(nodes, ts)
    && TotalsMatch(nodes, ts)
    && h.Valid()
    && (forall x :: x in h.vals <==>
          NodesWithItem(nodes, x) != [] && SumCounts(nodes, NodesWithItem(nodes, x)) >= minSupport)
    && (forall x :: x in h.vals ==> h.vals[x] == NodesWithItem(nodes, x))
    && CreationOrdered(nodes, h.keys)
    && CreationNumbered(nodes, ts)
  }

  // ---------------------------------------------------------------------------
  // The insertion loop

  method BuildFpTree(transactions: seq<Transaction>, minSupport: int) returns (nodes: seq<Node>, header: HeaderTable)
    ensures IsFpTree(transactions, minSupport, nodes, header)
  {
    var table;
    nodes, table := InsertTransactions(transactions);
    header := PruneHeader(nodes, table, minSupport);
    PruneIsFpTree(nodes, table, transactions, minSupport);
  }

  /** The outer loop of `build_fp_tree`: insert the transactions one after another into a fresh tree. */
  method InsertTransactions(transactions: seq<Transaction>) returns (nodes: seq<Node>, table: HeaderTable)
    ensures Built(nodes, table, transactions)
  {
    nodes := [RootNode];
    table := Empty();
    InitBuilt();
    ghost var done := [];
    var i := 0;
    while i < |transactions|
      invariant 0 <= i <= |transactions| && done == transactions[..i]
      invariant Built(nodes, table, done)
    {
      nodes, table := InsertTransaction(nodes, table, done, transactions[i]);
      TakeSnoc(transactions, i);
      done := done + [transactions[i]];
      i := i + 1;
    }
    assert i == |transactions|;
    assert done == transactions;
  }

  /**
   * One pass of the outer loop of `build_fp_tree`: walk down from the root along
   * `t`, incrementing the child that already carries the next item or creating
   * it with count 1 and appending it to the item's header list.
   */
  method InsertTransaction(nodes: seq<Node>, table: HeaderTable, ghost done: seq<Transaction>, t: Transaction)
    returns (nodes': seq<Node>, table': HeaderTable)
    requires Built(nodes, table, done)
    ensures Built(nodes', table', done + [t])
    ensures Keeps(nodes, nodes')
  {
    StartTransaction(nodes, table, done);
    nodes', table' := nodes, table;
    var cur := 0;
    var k := 0;
    while k < |t|
      invariant 0 <= k <= |t|
      invariant Built(nodes', table', done + [t[..k]])
      invariant Find(nodes', t[..k]) == Some(cur)
      invariant Keeps(nodes, nodes')
    {
      TakeSnoc(t, k);
      ghost var before := nodes';
      nodes', table', cur := InsertItem(nodes', table', done, t[..k], cur, t[k]);
      KeepsTransitive(nodes, before, nodes');
      k := k + 1;
    }
    assert k == |t|;
    assert t[..k] == t;
  }

  /**
   * One step down the tree: follow the child that carries `x`, incrementing
   * its count, or create it with count 1 and append it to `x`'s header list.
   */
  method InsertItem(nodes: seq<Node>, table: HeaderTable, ghost done: seq<Transaction>, ghost s: seq<Item>, cur: nat, x: Item)
    returns (nodes': seq<Node>, table': HeaderTable, next: nat)
    requires Built(nodes, table, done + [s]) && Find(nodes, s) == Some(cur)
    ensures Built(nodes', table', done + [s + [x]]) && Find(nodes', s + [x]) == Some(next)
    ensures Keeps(nodes, nodes')
    ensures |nodes'| == |nodes| ==> next < |nodes|
    ensures |nodes'| != |nodes| ==>
      && next == |nodes| == |nodes'| - 1
      && x in table'.vals && table'.vals[x] == (if x in table.vals then table.vals[x] else []) + [next]
  {
    if x in nodes[cur].children {
      IncrementStep(nodes, table, done, s, cur, x);
      next := nodes[cur].children[x];
      KeepsIncrement(nodes, next);
      nodes', table' := Increment(nodes, next), table;
    } else {
      next := |nodes|;
      table' := Put(table, x, (if x in table.vals then table.vals[x] else []) + [next]);
      nodes' := AddChild(nodes, cur, x);
      CreateStep(nodes, table, done, s, cur, x, nodes', table');
      KeepsAddChild(nodes, cur, x);
    }
  }

  /** Pruning the header table of the tree built from `ts` gives the result of `build_fp_tree`. */
  lemma PruneIsFpTree(nodes: seq<Node>, h: HeaderTable, ts: seq<Transaction>, minSupport: int)
    requires Built(nodes, h, ts)
    ensures IsFpTree(ts, minSupport, nodes, PruneHeader(nodes, h, minSupport))
  {
    PruneKeepsOrder(nodes, h, minSupport);
  }

  // ---------------------------------------------------------------------------
  // What the built tree says about the transactions

  /** Each non-root node counts the transactions that start with its root-to-node path. */
  lemma NodeCounts(ts: seq<Transaction>, minSupport: int, nodes: seq<Node>, h: HeaderTable, i: nat)
    requires IsFpTree(ts, minSupport, nodes, h) && 0 < i < |nodes|
    ensures nodes[i].count == CountPrefixed(ts, Path(nodes, i))
  {
    PathFind(nodes, i);
  }

  /** Every non-empty prefix of every transaction is the path of some node. */
  lemma PrefixesPresent(ts: seq<Transaction>, minSupport: int, nodes: seq<Node>, h: HeaderTable, k: nat, j: nat)
    requires IsFpTree(ts, minSupport, nodes, h) && k < |ts| && 0 < j <= |ts[k]|
    ensures Find(nodes, ts[k][..j]).Some?
  {
    CountPrefixedMember(ts, k, ts[k][..j]);
  }

  /** When no transaction is empty, the counts of the root's children sum to the number of transactions. */
  lemma RootChildrenCount(ts: seq<Transaction>, minSupport: int, nodes: seq<Node>, h: HeaderTable)
    requires IsFpTree(ts, minSupport, nodes, h)
    requires forall k :: 0 <= k < |ts| ==> ts[k] != []
    ensures RootChildTotal(nodes) == |ts|
  {
    NonEmptyAll(ts);
  }

  lemma {:induction false} NonEmptyAll(ts: seq<Transaction>)
    requires forall k :: 0 <= k < |ts| ==> ts[k] != []
    ensures NonEmptyCount(ts) == |ts|
  {
    if ts != [] {
      NonEmptyAll(ts[..|ts| - 1]);
    }
  }

  /**
   * The pruned header table keeps exactly the items that occur in the
   * transactions at least `minSupport` times, counting every occurrence.
   */
  lemma HeaderItems(ts: seq<Transaction>, minSupport: int, nodes: seq<Node>, h: HeaderTable, x: Item)
    requires IsFpTree(ts, minSupport, nodes, h)
    ensures x in h.vals <==> Occurrences(ts, x) > 0 && Occurrences(ts, x) >= minSupport
  {
    SumCountsItemTotal(nodes, x);
    ItemTotalPositive(nodes, x);
  }

  lemma {:induction false} ItemTotalPositive(nodes: seq<Node>, x: Item)
    requires forall i :: 0 <= i < |nodes| ==> nodes[i].count >= 1
    ensures ItemTotal(nodes, x) > 0 <==> NodesWithItem(nodes, x) != []
    decreases |nodes|
  {
    if nodes != [] {
      var init := nodes[..|nodes| - 1];
      ItemTotalPositive(init, x);
    }
  }

  /**
   * `build_fp_tree` leaves nothing to choose: two trees with header tables
   * that are both the result for the same transactions and threshold are
   * equal, node numbering, counts, child links, header lists and key order
   * included.
   */
  lemma FpTreeUnique(ts: seq<Transaction>, minSupport: int, nodes1: seq<Node>, h1: HeaderTable, nodes2: seq<Node>, h2: HeaderTable)
    requires IsFpTree(ts, minSupport, nodes1, h1) && IsFpTree(ts, minSupport, nodes2, h2)
    ensures nodes1 == nodes2 && h1 == h2
  {
    SameNodes(ts, nodes1, nodes2);
    SameHeaderLists(nodes1, minSupport, h1, h2);
    CreationOrderedUnique(nodes1, h1.keys, h2.keys);
  }

  lemma SameHeaderLists(nodes: seq<Node>, minSupport: int, h1: HeaderTable, h2: HeaderTable)
    requires forall x :: x in h1.vals <==> NodesWithItem(nodes, x) != [] && SumCounts(nodes, NodesWithItem(nodes, x)) >= minSupport
    requires forall x :: x in h2.vals <==> NodesWithItem(nodes, x) != [] && SumCounts(nodes, NodesWithItem(nodes, x)) >= minSupport
    requires forall x :: x in h1.vals ==> h1.vals[x] == NodesWithItem(nodes, x)
    requires forall x :: x in h2.vals ==> h2.vals[x] == NodesWithItem(nodes, x)
    ensures h1.vals == h2.vals
  {
  }

  lemma SameNodes(ts: seq<Transaction>, nodes1: seq<Node>, nodes2: seq<Node>)
    requires WellFormed(nodes1) && CountsMatch(nodes1, ts) && CreationNumbered(nodes1, ts)
    requires WellFormed(nodes2) && CountsMatch(nodes2, ts) && CreationNumbered(nodes2, ts)
    ensures nodes1 == nodes2
  {
    forall i | 0 <= i < |nodes1| ensures nodes1[i].item == nodes2[i].item && nodes1[i].parent == nodes2[i].parent {
      SameLinks(ts, nodes1, nodes2, i);
    }
    assert Keeps(nodes1, nodes2);
    forall i | 0 <= i < |nodes1| ensures nodes1[i] == nodes2[i] {
      SameNode(ts, nodes1, nodes2, i);
    }
  }

  /** Node `i` has the same item and parent in both numberings. */
  lemma SameLinks(ts: seq<Transaction>, nodes1: seq<Node>, nodes2: seq<Node>, i: nat)
    requires CreationNumbered(nodes1, ts) && CreationNumbered(nodes2, ts) && i < |nodes1|
    ensures |nodes1| == |nodes2| && nodes1[i].item == nodes2[i].item && nodes1[i].parent == nodes2[i].parent
  {
    if i > 0 {
      var created := FirstOccurrences(Prefixes(ts));
      assert NumberedAt(nodes1, created, i) && NumberedAt(nodes2, created, i);
      var p1, p2 := nodes1[i].parent.value, nodes2[i].parent.value;
      var path := Path(nodes1, i);
      assert Path(nodes1, p1) == path[..|path| - 1] == Path(nodes2, p2);
      SamePathSameIndex(ts, nodes1, nodes2, p1, p2);
    }
  }

  /** Under creation numbering, a path determines the index of its node. */
  lemma SamePathSameIndex(ts: seq<Transaction>, nodes1: seq<Node>, nodes2: seq<Node>, a: nat, b: nat)
    requires CreationNumbered(nodes1, ts) && CreationNumbered(nodes2, ts) && a < |nodes1| && b < |nodes2|
    requires Path(nodes1, a) == Path(nodes2, b)
    ensures a == b
  {
    if a > 0 && b > 0 {
      var created := FirstOccurrences(Prefixes(ts));
      assert NumberedAt(nodes1, created, a) && NumberedAt(nodes2, created, b);
      FirstOccurrencesDistinct(Prefixes(ts));
      assert created[a - 1] == created[b - 1];
    }
  }

  /** Nodes with the same items and parents, counted against the same transactions, are equal. */
  lemma SameNode(ts: seq<Transaction>, nodes1: seq<Node>, nodes2: seq<Node>, i: nat)
    requires WellFormed(nodes1) && CountsMatch(nodes1, ts) && CreationNumbered(nodes1, ts)
    requires WellFormed(nodes2) && CountsMatch(nodes2, ts) && CreationNumbered(nodes2, ts)
    requires Keeps(nodes1, nodes2) && |nodes1| == |nodes2| && i < |nodes1|
    ensures nodes1[i] == nodes2[i]
  {
    if i > 0 {
      PathFind(nodes1, i);
      PathFind(nodes2, i);
      PathSame(nodes1, nodes2, i);
      var path := Path(nodes1, i);
      assert AbsCount(nodes1, path) == CountPrefixed(ts, path) == AbsCount(nodes2, path);
    }
    SameChildren(nodes1, nodes2, i);
  }

  lemma SameChildren(nodes1: seq<Node>, nodes2: seq<Node>, i: nat)
    requires WellFormed(nodes1) && WellFormed(nodes2) && Keeps(nodes1, nodes2) && |nodes1| == |nodes2| && i < |nodes1|
    ensures nodes1[i].children == nodes2[i].children
  {
    forall x | x in nodes1[i].children ensures x in nodes2[i].children && nodes2[i].children[x] == nodes1[i].children[x] {
      assert ChildLink(nodes1, i, x);
      assert ChildOfParent(nodes2, nodes1[i].children[x]);
    }
    forall x | x in nodes2[i].children ensures x in nodes1[i].children {
      assert ChildLink(nodes2, i, x);
      assert ChildOfParent(nodes1, nodes2[i].children[x]);
    }
  }

  /** Keys strictly ordered by their first node are fixed by which keys there are. */
  lemma {:induction false} CreationOrderedUnique(nodes: seq<Node>, k1: seq<Item>, k2: seq<Item>)
    requires CreationOrdered(nodes, k1) && CreationOrdered(nodes, k2)
    requires forall y :: y in k1 <==> y in k2
    ensures k1 == k2
    decreases |k1|
  {
    assert k1 != [] ==> k1[0] in k2;
    assert k2 != [] ==> k2[0] in k1;
    if k1 != [] && k2 != [] {
      var a, b := k1[0], k2[0];
      var i :| 0 <= i < |k1| && k1[i] == b;
      var j :| 0 <= j < |k2| && k2[j] == a;
      assert i > 0 ==> FirstNode(nodes, a) < FirstNode(nodes, b);
      assert j > 0 ==> FirstNode(nodes, b) < FirstNode(nodes, a);
      assert a == b;
      forall y ensures y in k1[1..] <==> y in k2[1..] {
        OrderedTail(nodes, k1, y);
        OrderedTail(nodes, k2, y);
      }
      CreationOrderedUnique(nodes, k1[1..], k2[1..]);
      assert k1 == [k1[0]] + k1[1..] && k2 == [k2[0]] + k2[1..];
    }
  }

  lemma OrderedTail(nodes: seq<Node>, k: seq<Item>, y: Item)
    requires CreationOrdered(nodes, k) && k != []
    ensures CreationOrdered(nodes, k[1..])
    ensures y in k[1..] <==> y in k && y != k[0]
  {
    if y in k[1..] {
      var m :| 0 <= m < |k[1..]| && k[1..][m] == y;
      assert FirstNode(nodes, k[0]) < FirstNode(nodes, k[m + 1]);
    }
    if y in k && y != k[0] {
      var m :| 0 <= m < |k| && k[m] == y;
      assert k[1..][m - 1] == y;
    }
  }

  lemma PruneKeepsOrder(nodes: seq<Node>, h: HeaderTable, minSupport: int)
    requires HeaderMatches(nodes, h)
    ensures CreationOrdered(nodes, PruneHeader(nodes, h, minSupport).keys)
  {
    FilterInOrdered(nodes, h.keys, Supported(nodes, h, minSupport));
  }

  lemma {:induction false} FilterInOrdered(nodes: seq<Node>, keys: seq<Item>, keep: set<Item>)
    requires CreationOrdered(nodes, keys)
    ensures CreationOrdered(nodes, FilterIn(keys, keep))
    decreases |keys|
  {
    if keys != [] {
      var init, last := keys[..|keys| - 1], keys[|keys| - 1];
      assert CreationOrdered(nodes, init);
      FilterInOrdered(nodes, init, keep);
      var r0 := FilterIn(init, keep);
      forall k | 0 <= k < |r0| ensures FirstNode(nodes, r0[k]) < FirstNode(nodes, last) {
        assert r0[k] in init;
        var j :| 0 <= j < |init| && init[j] == r0[k];
        assert keys[j] == r0[k];
      }
    }
  }

  // ---------------------------------------------------------------------------
  // Start and end of the loops

  lemma InitBuilt()
    ensures Built([RootNode], Empty(), [])
  {
    var nodes := [RootNode];
    forall p | p != [] ensures AbsCount(nodes, p) == CountPrefixed([], p) {
      FindInRoot(p);
    }
    forall x ensures NodesWithItem(nodes, x) == [] {
      assert nodes[..0] == [];
    }
    forall x ensures ItemTotal(nodes, x) == 0 {
      assert nodes[..0] == [];
    }
    assert nodes[..0] == [];
  }

  lemma {:induction false} FindInRoot(p: seq<Item>)
    ensures Find([RootNode], p) == if p == [] then Some(0) else None
    decreases |p|
  {
    if p != [] {
      FindInRoot(p[..|p| - 1]);
    }
  }

  lemma StartTransaction(nodes: seq<Node>, h: HeaderTable, done: seq<Transaction>)
    requires Built(nodes, h, done)
    ensures Built(nodes, h, done + [[]]) && Find(nodes, []) == Some(0)
  {
    PrefixesEmpty(done);
    forall p | p != [] ensures AbsCount(nodes, p) == CountPrefixed(done + [[]], p) {
      CountPrefixedEmpty(done, p);
    }
    forall x ensures ItemTotal(nodes, x) == Occurrences(done + [[]], x) {
      OccurrencesEmpty(done, x);
    }
    NonEmptyEmpty(done);
  }

  // ---------------------------------------------------------------------------
  // Incrementing an existing child

  /** The node reached by `s + [x]` is `children[x]` of the node reached by `s`. */
  lemma FindChild(nodes: seq<Node>, s: seq<Item>, cur: nat, x: Item)
    requires WellFormed(nodes) && Find(nodes, s) == Some(cur) && x in nodes[cur].children
    ensures Find(nodes, s + [x]) == Some(nodes[cur].children[x])
  {
    assert ChildLink(nodes, cur, x);
    assert (s + [x])[..|s + [x]| - 1] == s;
  }

  /** Only the root is reached by the empty path. */
  lemma FindRootOnly(nodes: seq<Node>, s: seq<Item>, cur: nat)
    requires WellFormed(nodes) && Find(nodes, s) == Some(cur)
    ensures cur == 0 <==> s == []
  {
    FindPath(nodes, s, cur);
  }

  lemma IncrementStep(nodes: seq<Node>, h: HeaderTable, done: seq<Transaction>, s: seq<Item>, cur: nat, x: Item)
    requires Built(nodes, h, done + [s]) && Find(nodes, s) == Some(cur) && x in nodes[cur].children
    ensures ChildLink(nodes, cur, x)
    ensures var c := nodes[cur].children[x];
      Built(Increment(nodes, c), h, done + [s + [x]]) && Find(Increment(nodes, c), s + [x]) == Some(c)
  {
    var c := nodes[cur].children[x];
    assert ChildLink(nodes, cur, x);
    var nodes' := Increment(nodes, c);
    FindChild(nodes, s, cur, x);
    FindSameChildren(nodes, nodes', s + [x]);
    IncrementWellFormed(nodes, c);
    IncrementCounts(nodes, done, s, x, c);
    IncrementHeader(nodes, h, c);
    IncrementTotals(nodes, done, s, cur, x, c);
    IncrementNumbered(nodes, done, s, x, c);
  }

  /** Walking an existing path creates nothing, so the numbering stays that of the walked paths. */
  lemma IncrementNumbered(nodes: seq<Node>, done: seq<Transaction>, s: seq<Item>, x: Item, c: nat)
    requires WellFormed(nodes) && CountsMatch(nodes, done + [s]) && CreationNumbered(nodes, done + [s])
    requires Find(nodes, s + [x]) == Some(c)
    ensures CreationNumbered(Increment(nodes, c), done + [s + [x]])
  {
    FindRootOnly(nodes, s + [x], c);
    assert AbsCount(nodes, s + [x]) == nodes[c].count >= 1;
    WalkedAgain(done, s, x);
    IncrementWellFormed(nodes, c);
    KeepsIncrement(nodes, c);
    NumberingKept(nodes, Increment(nodes, c), done + [s], done + [s + [x]]);
  }

  /** Counting along walked paths keeps the numbering. */
  lemma NumberingKept(nodes: seq<Node>, nodes': seq<Node>, done: seq<Transaction>, done': seq<Transaction>)
    requires CreationNumbered(nodes, done) && ParentsBelow(nodes') && nodes'[0].count == 1
    requires Keeps(nodes, nodes') && |nodes'| == |nodes|
    requires FirstOccurrences(Prefixes(done')) == FirstOccurrences(Prefixes(done))
    ensures CreationNumbered(nodes', done')
  {
    var created := FirstOccurrences(Prefixes(done));
    forall i | 0 < i < |nodes'| ensures NumberedAt(nodes', created, i) {
      assert NumberedAt(nodes, created, i);
      PathSame(nodes, nodes', i);
    }
  }

  /** A node appended for a newly walked path `p` extends the numbering. */
  lemma NumberingExtended(nodes: seq<Node>, nodes': seq<Node>, done: seq<Transaction>, done': seq<Transaction>, p: seq<Item>)
    requires CreationNumbered(nodes, done) && ParentsBelow(nodes') && nodes'[0].count == 1
    requires Keeps(nodes, nodes') && |nodes'| == |nodes| + 1 && Path(nodes', |nodes|) == p
    requires FirstOccurrences(Prefixes(done')) == FirstOccurrences(Prefixes(done)) + [p]
    ensures CreationNumbered(nodes', done')
  {
    var created := FirstOccurrences(Prefixes(done));
    var created' := created + [p];
    assert |created| + 1 == |nodes|;
    assert created'[|nodes| - 1] == p;
    forall i | 0 < i < |nodes'| ensures NumberedAt(nodes', created', i) {
      if i < |nodes| {
        assert NumberedAt(nodes, created, i);
        assert created'[i - 1] == created[i - 1];
        PathSame(nodes, nodes', i);
      } else {
        assert i == |nodes|;
      }
    }
  }

  lemma IncrementHeader(nodes: seq<Node>, h: HeaderTable, c: nat)
    requires HeaderMatches(nodes, h) && c < |nodes|
    ensures HeaderMatches(Increment(nodes, c), h)
  {
    var nodes' := Increment(nodes, c);
    forall y ensures NodesWithItem(nodes', y) == NodesWithItem(nodes, y) {
      NodesWithItemUpdate(nodes, c, nodes'[c], y);
    }
    OrderSame(nodes, nodes', h.keys);
  }

  lemma IncrementWellFormed(nodes: seq<Node>, c: nat)
    requires WellFormed(nodes) && c < |nodes|
    ensures WellFormed(Increment(nodes, c))
  {
    var nodes' := Increment(nodes, c);
    forall i | 0 < i < |nodes'| ensures ChildOfParent(nodes', i) {
      assert ChildOfParent(nodes, i);
    }
    forall i, y | 0 <= i < |nodes'| && y in nodes'[i].children ensures ChildLink(nodes', i, y) {
      assert ChildLink(nodes, i, y);
    }
  }

  lemma IncrementCounts(nodes: seq<Node>, done: seq<Transaction>, s: seq<Item>, x: Item, c: nat)
    requires WellFormed(nodes) && CountsMatch(nodes, done + [s])
    requires Find(nodes, s + [x]) == Some(c)
    ensures CountsMatch(Increment(nodes, c), done + [s + [x]])
  {
    var nodes' := Increment(nodes, c);
    forall p | p != [] ensures AbsCount(nodes', p) == CountPrefixed(done + [s + [x]], p) {
      FindSameChildren(nodes, nodes', p);
      CountPrefixedStep(done, s, x, p);
      if Find(nodes, p) == Some(c) {
        FindPath(nodes, p, c);
        FindPath(nodes, s + [x], c);
      }
    }
  }

  lemma IncrementTotals(nodes: seq<Node>, done: seq<Transaction>, s: seq<Item>, cur: nat, x: Item, c: nat)
    requires WellFormed(nodes) && TotalsMatch(nodes, done + [s])
    requires Find(nodes, s) == Some(cur) && x in nodes[cur].children && c == nodes[cur].children[x] && c < |nodes|
    ensures TotalsMatch(Increment(nodes, c), done + [s + [x]])
  {
    var nodes' := Increment(nodes, c);
    assert ChildLink(nodes, cur, x);
    forall y ensures ItemTotal(nodes', y) == Occurrences(done + [s + [x]], y) {
      ItemTotalUpdate(nodes, c, nodes'[c], y);
      OccurrencesStep(done, s, x, y);
    }
    RootChildTotalUpdate(nodes, c, nodes'[c]);
    NonEmptyStep(done, s, x);
    FindRootOnly(nodes, s, cur);
  }

  // ---------------------------------------------------------------------------
  // Creating a new child

  lemma CreateStep(nodes: seq<Node>, h: HeaderTable, done: seq<Transaction>, s: seq<Item>, cur: nat, x: Item,
                    nodes': seq<Node>, h': HeaderTable)
    requires cur < |nodes| && h.Valid()
    requires nodes' == AddChild(nodes, cur, x) && h' == Put(h, x, (if x in h.vals then h.vals[x] else []) + [|nodes|])
    requires Built(nodes, h, done + [s]) && Find(nodes, s) == Some(cur) && x !in nodes[cur].children
    ensures Built(nodes', h', done + [s + [x]]) && Find(nodes', s + [x]) == Some(|nodes|)
  {
    FindAfterCreate(nodes, s, cur, x, s + [x]);
    CreateWellFormed(nodes, cur, x);
    CreateCounts(nodes, done, s, cur, x);
    CreateHeader(nodes, h, cur, x, nodes', h');
    CreateTotals(nodes, done, s, cur, x);
    CreateNumbered(nodes, done, s, cur, x);
  }

  /** A path walked for the first time gets the next index, after every node created before it. */
  lemma CreateNumbered(nodes: seq<Node>, done: seq<Transaction>, s: seq<Item>, cur: nat, x: Item)
    requires WellFormed(nodes) && CountsMatch(nodes, done + [s]) && CreationNumbered(nodes, done + [s])
    requires Find(nodes, s) == Some(cur) && x !in nodes[cur].children
    ensures CreationNumbered(AddChild(nodes, cur, x), done + [s + [x]])
  {
    assert (s + [x])[..|s + [x]| - 1] == s;
    assert AbsCount(nodes, s + [x]) == 0;
    WalkedFirst(done, s, x);
    CreatedPath(nodes, s, cur, x);
    KeepsAddChild(nodes, cur, x);
    NumberingExtended(nodes, AddChild(nodes, cur, x), done + [s], done + [s + [x]], s + [x]);
  }

  /** The node created under the node at `s` carries `s + [x]`. */
  lemma CreatedPath(nodes: seq<Node>, s: seq<Item>, cur: nat, x: Item)
    requires WellFormed(nodes) && Find(nodes, s) == Some(cur) && x !in nodes[cur].children
    ensures ParentsBelow(AddChild(nodes, cur, x))
    ensures Path(AddChild(nodes, cur, x), |nodes|) == s + [x]
  {
    var nodes' := AddChild(nodes, cur, x);
    CreateWellFormed(nodes, cur, x);
    FindPath(nodes, s, cur);
    PathSame(nodes, nodes', cur);
  }

  /** After `AddChild`, the path `s + [x]` leads to the new node and every other path is unaffected. */
  lemma {:induction false} FindAfterCreate(nodes: seq<Node>, s: seq<Item>, cur: nat, x: Item, q: seq<Item>)
    requires WellFormed(nodes) && Find(nodes, s) == Some(cur) && x !in nodes[cur].children
    ensures Find(AddChild(nodes, cur, x), q) == if q == s + [x] then Some(|nodes|) else Find(nodes, q)
    decreases |q|
  {
    var nodes' := AddChild(nodes, cur, x);
    if q != [] {
      var q0, y := q[..|q| - 1], q[|q| - 1];
      FindAfterCreate(nodes, s, cur, x, q0);
      assert q == q0 + [y];
      if q0 == s + [x] {
        assert (s + [x])[..|s|] == s;
      } else if Find(nodes, q0).Some? {
        var i := Find(nodes, q0).value;
        if i == cur {
          FindPath(nodes, q0, cur);
          FindPath(nodes, s, cur);
        }
        if y in nodes[i].children {
          assert ChildLink(nodes, i, y);
        }
      }
    }
  }

  lemma CreateWellFormed(nodes: seq<Node>, cur: nat, x: Item)
    requires WellFormed(nodes) && cur < |nodes| && x !in nodes[cur].children
    ensures WellFormed(AddChild(nodes, cur, x))
  {
    var nodes' := AddChild(nodes, cur, x);
    forall i | 0 < i < |nodes'| ensures ChildOfParent(nodes', i) {
      if i < |nodes| {
        assert ChildOfParent(nodes, i);
      }
    }
    forall i, y | 0 <= i < |nodes'| && y in nodes'[i].children ensures ChildLink(nodes', i, y) {
      if !(i == cur && y == x) {
        assert ChildLink(nodes, i, y);
      }
    }
  }

  lemma CreateCounts(nodes: seq<Node>, done: seq<Transaction>, s: seq<Item>, cur: nat, x: Item)
    requires WellFormed(nodes) && CountsMatch(nodes, done + [s])
    requires Find(nodes, s) == Some(cur) && x !in nodes[cur].children
    ensures CountsMatch(AddChild(nodes, cur, x), done + [s + [x]])
  {
    var nodes' := AddChild(nodes, cur, x);
    FindAfterCreate(nodes, s, cur, x, s + [x]);
    assert (s + [x])[..|s + [x]| - 1] == s;
    assert AbsCount(nodes, s + [x]) == 0;
    forall p | p != [] ensures AbsCount(nodes', p) == CountPrefixed(done + [s + [x]], p) {
      FindAfterCreate(nodes, s, cur, x, p);
      CountPrefixedStep(done, s, x, p);
    }
  }

  lemma NodesWithItemCreate(nodes: seq<Node>, cur: nat, x: Item, y: Item)
    requires cur < |nodes|
    ensures NodesWithItem(AddChild(nodes, cur, x), y)
         == NodesWithItem(nodes, y) + (if y == x then [|nodes|] else [])
  {
    var nodes' := AddChild(nodes, cur, x);
    var updated := nodes[cur := nodes[cur].(children := nodes[cur].children[x := |nodes|])];
    NodesWithItemUpdate(nodes, cur, updated[cur], y);
    assert nodes'[..|nodes|] == updated;
  }

  lemma CreateHeader(nodes: seq<Node>, h: HeaderTable, cur: nat, x: Item, nodes': seq<Node>, h': HeaderTable)
    requires HeaderMatches(nodes, h) && cur < |nodes|
    requires nodes' == AddChild(nodes, cur, x) && h' == Put(h, x, (if x in h.vals then h.vals[x] else []) + [|nodes|])
    ensures HeaderMatches(nodes', h')
  {
    CreateHeaderLists(nodes, h, cur, x, nodes', h');
    CreateOrder(nodes, h, cur, x, nodes', h');
  }

  lemma CreateHeaderLists(nodes: seq<Node>, h: HeaderTable, cur: nat, x: Item, nodes': seq<Node>, h': HeaderTable)
    requires HeaderMatches(nodes, h) && cur < |nodes|
    requires nodes' == AddChild(nodes, cur, x) && h' == Put(h, x, (if x in h.vals then h.vals[x] else []) + [|nodes|])
    ensures forall y :: y in h'.vals <==> NodesWithItem(nodes', y) != []
    ensures forall y :: y in h'.vals ==> h'.vals[y] == NodesWithItem(nodes', y)
  {
    forall y
      ensures y in h'.vals <==> NodesWithItem(nodes', y) != []
      ensures y in h'.vals ==> h'.vals[y] == NodesWithItem(nodes', y)
    {
      CreateHeaderListOne(nodes, h, cur, x, nodes', h', y);
    }
  }

  lemma CreateHeaderListOne(nodes: seq<Node>, h: HeaderTable, cur: nat, x: Item, nodes': seq<Node>, h': HeaderTable, y: Item)
    requires h.Valid() && cur < |nodes|
    requires y in h.vals <==> NodesWithItem(nodes, y) != []
    requires y in h.vals ==> h.vals[y] == NodesWithItem(nodes, y)
    requires nodes' == AddChild(nodes, cur, x) && h' == Put(h, x, (if x in h.vals then h.vals[x] else []) + [|nodes|])
    ensures y in h'.vals <==> NodesWithItem(nodes', y) != []
    ensures y in h'.vals ==> h'.vals[y] == NodesWithItem(nodes', y)
  {
    NodesWithItemCreate(nodes, cur, x, y);
    if y == x && x !in h.vals {
      assert NodesWithItem(nodes, x) == [];
    }
  }

  lemma CreateOrder(nodes: seq<Node>, h: HeaderTable, cur: nat, x: Item, nodes': seq<Node>, h': HeaderTable)
    requires HeaderMatches(nodes, h) && cur < |nodes|
    requires nodes' == AddChild(nodes, cur, x) && h' == Put(h, x, (if x in h.vals then h.vals[x] else []) + [|nodes|])
    ensures CreationOrdered(nodes', h'.keys)
  {
    FirstNodesKept(nodes, cur, x, h.keys);
    if x in h.vals {
      OrderSame(nodes, nodes', h.keys);
    } else {
      NodesWithItemCreate(nodes, cur, x, x);
      OrderAppend(nodes, nodes', h.keys, x);
    }
  }

  /** Creating a node leaves the first node of every item already in the tree where it was. */
  lemma FirstNodesKept(nodes: seq<Node>, cur: nat, x: Item, keys: seq<Item>)
    requires cur < |nodes| && forall y :: y in keys ==> NodesWithItem(nodes, y) != []
    ensures forall y :: y in keys ==> FirstNode(AddChild(nodes, cur, x), y) == FirstNode(nodes, y) < |nodes|
  {
    forall y | y in keys ensures FirstNode(AddChild(nodes, cur, x), y) == FirstNode(nodes, y) < |nodes| {
      NodesWithItemCreate(nodes, cur, x, y);
      assert NodesWithItem(nodes, y)[0] in NodesWithItem(nodes, y);
    }
  }

  lemma OrderSame(nodes: seq<Node>, nodes': seq<Node>, keys: seq<Item>)
    requires CreationOrdered(nodes, keys)
    requires forall y :: y in keys ==> FirstNode(nodes', y) == FirstNode(nodes, y)
    ensures CreationOrdered(nodes', keys)
  {
    forall i, j | 0 <= i < j < |keys| ensures FirstNode(nodes', keys[i]) < FirstNode(nodes', keys[j]) {
      assert keys[i] in keys && keys[j] in keys;
    }
  }

  lemma OrderAppend(nodes: seq<Node>, nodes': seq<Node>, keys: seq<Item>, x: Item)
    requires CreationOrdered(nodes, keys)
    requires forall y :: y in keys ==> FirstNode(nodes', y) == FirstNode(nodes, y) < FirstNode(nodes', x)
    ensures CreationOrdered(nodes', keys + [x])
  {
    var keys' := keys + [x];
    forall i, j | 0 <= i < j < |keys'| ensures FirstNode(nodes', keys'[i]) < FirstNode(nodes', keys'[j]) {
      assert keys'[i] == keys[i] && keys[i] in keys;
      if j < |keys| {
        assert keys'[j] == keys[j] && keys[j] in keys;
      }
    }
  }

  lemma CreateTotals(nodes: seq<Node>, done: seq<Transaction>, s: seq<Item>, cur: nat, x: Item)
    requires WellFormed(nodes) && TotalsMatch(nodes, done + [s])
    requires Find(nodes, s) == Some(cur) && x !in nodes[cur].children
    ensures TotalsMatch(AddChild(nodes, cur, x), done + [s + [x]])
  {
    var nodes' := AddChild(nodes, cur, x);
    var updated := nodes[cur := nodes[cur].(children := nodes[cur].children[x := |nodes|])];
    assert nodes'[..|nodes|] == updated;
    forall y ensures ItemTotal(nodes', y) == Occurrences(done + [s + [x]], y) {
      ItemTotalUpdate(nodes, cur, updated[cur], y);
      OccurrencesStep(done, s, x, y);
    }
    RootChildTotalUpdate(nodes, cur, updated[cur]);
    NonEmptyStep(done, s, x);
    FindRootOnly(nodes, s, cur);
  }
}
