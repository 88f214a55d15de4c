/**
 * The shared-prefix counting tree, held in an arena: node 0 is the root
 * (`TreeNode(None, None)`), every other node names its parent by index, and
 * `children` maps an item to the index of the child that carries it.
 */
module FpTree {
  import opened Items
  import opened OrderedMaps

  /** A `TreeNode`: its item (None only for the root), count, parent and children. */
  datatype Node = Node(item: Option<Item>, count: nat, parent: Option<nat>, children: map<Item, nat>)

  /** `header_table`: item -> indices of the nodes carrying it, in creation order. */
  type HeaderTable = OrderedMap<Item, seq<nat>>

  /** `TreeNode(None, None)`: every node starts with count 1, the root included. */
  const RootNode: Node := Node(None, 1, None, map[])

  /** Parent links lead back to the root through strictly smaller indices. */
  ghost predicate ParentsBelow(nodes: seq<Node>)
  {
    && |nodes| > 0
    && nodes[0].item == None && nodes[0].parent == None
    && forall i :: 0 < i < |nodes| ==>
         nodes[i].item.Some? && nodes[i].parent.Some? && nodes[i].parent.value < i
  }

  /** Node `i` is stored in its parent's `children` under its own item. */
  ghost predicate ChildOfParent(nodes: seq<Node>, i: nat)
    requires ParentsBelow(nodes) && 0 < i < |nodes|
  {
    var p := nodes[nodes[i].parent.value];
    nodes[i].item.value in p.children && p.children[nodes[i].item.value] == i
  }

  /** `children[x]` of node `i` is a later node whose parent is `i` and whose item is `x`. */
  ghost predicate ChildLink(nodes: seq<Node>, i: nat, x: Item)
    requires i < |nodes| && x in nodes[i].children
  {
    var c := nodes[i].children[x];
    i < c < |nodes| && nodes[c].parent == Some(i) && nodes[c].item == Some(x)
  }

  /** The arena is a tree whose parent and child links agree and whose counts are positive. */
  ghost predicate WellFormed(nodes: seq<Node>)
  {
    && ParentsBelow(nodes)
    && (forall i :: 0 <= i < |nodes| ==> nodes[i].count >= 1)
    && (forall i {:trigger ChildOfParent(nodes, i)} :: 0 < i < |nodes| ==> ChildOfParent(nodes, i))
    && (forall i, x {:trigger ChildLink(nodes, i, x)} :: 0 <= i < |nodes| && x in nodes[i].children ==> ChildLink(nodes, i, x))
  }

  /** The items on the way from the root to node `i`, root side first, root excluded. */
  ghost function Path(nodes: seq<Node>, i: nat): (p: seq<Item>)
    requires ParentsBelow(nodes) && i < |nodes|
    ensures |p| == 0 <==> i == 0
    decreases i
  {
    if i == 0 then [] else Path(nodes, nodes[i].parent.value) + [nodes[i].item.value]
  }

  /** The node reached from the root by following `children` along `p`. */
  ghost function Find(nodes: seq<Node>, p: seq<Item>): (r: Option<nat>)
    ensures r.Some? ==> r.value < |nodes|
    decreases |p|
  {
    if p == [] then (if nodes == [] then None else Some(0))
    else match Find(nodes, p[..|p| - 1])
      case None => None
      case Some(i) =>
        var x := p[|p| - 1];
        if x in nodes[i].children && nodes[i].children[x] < |nodes| then Some(nodes[i].children[x]) else None
  }

  /** The count of the node at path `p`, 0 when there is none. */
  ghost function AbsCount(nodes: seq<Node>, p: seq<Item>): nat
  {
    match Find(nodes, p)
    case Some(i) => nodes[i].count
    case None => 0
  }

  /** The number of transactions of which `p` is a prefix. */
  ghost function CountPrefixed(ts: seq<Transaction>, p: seq<Item>): nat
  {
    if ts == [] then 0
    else CountPrefixed(ts[..|ts| - 1], p) + (if p <= ts[|ts| - 1] then 1 else 0)
  }

  /** The non-empty prefixes of `t`, shortest first: the paths walked while inserting `t`. */
  ghost function PrefixesOf(t: Transaction): (r: seq<seq<Item>>)
    ensures |r| == |t|
  {
    if t == [] then [] else PrefixesOf(t[..|t| - 1]) + [t]
  }

  /** The paths walked while inserting the transactions of `ts` one after another. */
  ghost function Prefixes(ts: seq<Transaction>): seq<seq<Item>>
  {
    if ts == [] then [] else Prefixes(ts[..|ts| - 1]) + PrefixesOf(ts[|ts| - 1])
  }

  /** The number of non-empty transactions. */
  ghost function NonEmptyCount(ts: seq<Transaction>): nat
  {
    if ts == [] then 0
    else NonEmptyCount(ts[..|ts| - 1]) + (if ts[|ts| - 1] != [] then 1 else 0)
  }

  /** The indices of the nodes that carry `x`, in creation (arena) order. */
  ghost function NodesWithItem(nodes: seq<Node>, x: Item): (r: seq<nat>)
    ensures forall j :: j in r <==> 0 <= j < |nodes| && nodes[j].item == Some(x)
    ensures forall a, b :: 0 <= a < b < |r| ==> r[a] < r[b]
  {
    if nodes == [] then []
    else
      var last := |nodes| - 1;
      var r0 := NodesWithItem(nodes[..last], x);
      assert forall k :: 0 <= k < |r0| ==> r0[k] < last by {
        forall k | 0 <= k < |r0| ensures r0[k] < last {
          assert r0[k] in r0;
        }
      }
      assert forall j :: 0 <= j < last ==> nodes[..last][j] == nodes[j];
      r0 + (if nodes[last].item == Some(x) then [last] else [])
  }

  /** The summed counts of the nodes that carry `x`. */
  ghost function ItemTotal(nodes: seq<Node>, x: Item): nat
  {
    if nodes == [] then 0
    else
      var last := |nodes| - 1;
      ItemTotal(nodes[..last], x) + (if nodes[last].item == Some(x) then nodes[last].count else 0)
  }

  /** The summed counts of the root's children. */
  ghost function RootChildTotal(nodes: seq<Node>): nat
  {
    if nodes == [] then 0
    else
      var last := |nodes| - 1;
      RootChildTotal(nodes[..last]) + (if nodes[last].parent == Some(0) then nodes[last].count else 0)
  }

  /** `sum(n.count for n in nodes)` over a header list. */
  function SumCounts(nodes: seq<Node>, js: seq<nat>): nat
  {
    if js == [] then 0
    else
      var j := js[|js| - 1];
      SumCounts(nodes, js[..|js| - 1]) + (if j < |nodes| then nodes[j].count else 0)
  }

  /** The index of the first node created for `x`; `|nodes|` when there is none yet. */
  ghost function FirstNode(nodes: seq<Node>, x: Item): nat
  {
    var r := NodesWithItem(nodes, x);
    if r == [] then |nodes| else r[0]
  }

  /** `keys` are listed in the order in which their first node was created. */
  ghost predicate CreationOrdered(nodes: seq<Node>, keys: seq<Item>)
  {
    forall i, j :: 0 <= i < j < |keys| ==> FirstNode(nodes, keys[i]) < FirstNode(nodes, keys[j])
  }

  /** `TreeNode.increment()` on node `c`. */
  function Increment(nodes: seq<Node>, c: nat): (r: seq<Node>)
    requires c < |nodes|
    ensures |r| == |nodes| && r[c].count == nodes[c].count + 1
    ensures r[c] == nodes[c].(count := r[c].count)
    ensures forall i :: 0 <= i < |nodes| && i != c ==> r[i] == nodes[i]
  {
    nodes[c := nodes[c].(count := nodes[c].count + 1)]
  }

  /**
   * `TreeNode(x, cur)` stored as `cur.children[x]`: the new node is appended
   * to the arena with count 1, and `cur` gains a child link to it.
   */
  function AddChild(nodes: seq<Node>, cur: nat, x: Item): (r: seq<Node>)
    requires cur < |nodes|
    ensures |r| == |nodes| + 1 && r[|nodes|] == Node(Some(x), 1, Some(cur), map[])
    ensures r[cur] == nodes[cur].(children := nodes[cur].children[x := |nodes|])
    ensures forall i :: 0 <= i < |nodes| && i != cur ==> r[i] == nodes[i]
  {
    nodes[cur := nodes[cur].(children := nodes[cur].children[x := |nodes|])] + [Node(Some(x), 1, Some(cur), map[])]
  }

  /** `nodes'` keeps every node of `nodes` at its index with its item and parent: nodes are only added or counted. */
  ghost predicate Keeps(nodes: seq<Node>, nodes': seq<Node>)
  {
    && |nodes| <= |nodes'|
    && forall i :: 0 <= i < |nodes| ==> nodes'[i].item == nodes[i].item && nodes'[i].parent == nodes[i].parent
  }

  lemma KeepsIncrement(nodes: seq<Node>, c: nat)
    requires c < |nodes|
    ensures Keeps(nodes, Increment(nodes, c))
  {
  }

  lemma KeepsAddChild(nodes: seq<Node>, cur: nat, x: Item)
    requires cur < |nodes|
    ensures Keeps(nodes, AddChild(nodes, cur, x))
  {
  }

  lemma KeepsTransitive(a: seq<Node>, b: seq<Node>, c: seq<Node>)
    requires Keeps(a, b) && Keeps(b, c)
    ensures Keeps(a, c)
  {
  }

  // ---------------------------------------------------------------------------
  // Paths and lookups are inverse to each other

  lemma {:induction false} FindPath(nodes: seq<Node>, p: seq<Item>, i: nat)
    requires WellFormed(nodes) && Find(nodes, p) == Some(i)
    ensures Path(nodes, i) == p
    decreases |p|
  {
    if p != [] {
      var q, x := p[..|p| - 1], p[|p| - 1];
      var j := Find(nodes, q).value;
      FindPath(nodes, q, j);
      assert ChildLink(nodes, j, x);
      assert p == q + [x];
    }
  }

  lemma {:induction false} PathFind(nodes: seq<Node>, i: nat)
    requires WellFormed(nodes) && i < |nodes|
    ensures Find(nodes, Path(nodes, i)) == Some(i)
    decreases i
  {
    if i > 0 {
      var p := nodes[i].parent.value;
      PathFind(nodes, p);
      assert ChildOfParent(nodes, i);
      var path := Path(nodes, i);
      assert path[..|path| - 1] == Path(nodes, p);
    }
  }

  /** Distinct nodes have distinct root-to-node paths. */
  lemma PathsDistinct(nodes: seq<Node>, i: nat, j: nat)
    requires WellFormed(nodes) && i < |nodes| && j < |nodes| && i != j
    ensures Path(nodes, i) != Path(nodes, j)
  {
    PathFind(nodes, i);
    PathFind(nodes, j);
  }

  /** Lookups depend only on the `children` maps. */
  lemma {:induction false} FindSameChildren(nodes: seq<Node>, nodes': seq<Node>, p: seq<Item>)
    requires |nodes'| == |nodes|
    requires forall i :: 0 <= i < |nodes| ==> nodes'[i].children == nodes[i].children
    ensures Find(nodes', p) == Find(nodes, p)
    decreases |p|
  {
    if p != [] {
      FindSameChildren(nodes, nodes', p[..|p| - 1]);
    }
  }

  // ---------------------------------------------------------------------------
  // Sums over the arena under a single-node update

  lemma {:induction false} NodesWithItemUpdate(nodes: seq<Node>, c: nat, m: Node, x: Item)
    requires c < |nodes| && m.item == nodes[c].item
    ensures NodesWithItem(nodes[c := m], x) == NodesWithItem(nodes, x)
    decreases |nodes|
  {
    var last := |nodes| - 1;
    if c < last {
      assert nodes[c := m][..last] == nodes[..last][c := m];
      NodesWithItemUpdate(nodes[..last], c, m, x);
    } else {
      assert nodes[c := m][..last] == nodes[..last];
    }
  }

  lemma {:induction false} ItemTotalUpdate(nodes: seq<Node>, c: nat, m: Node, x: Item)
    requires c < |nodes|
    ensures ItemTotal(nodes[c := m], x) + (if nodes[c].item == Some(x) then nodes[c].count else 0)
         == ItemTotal(nodes, x) + (if m.item == Some(x) then m.count else 0)
    decreases |nodes|
  {
    var last := |nodes| - 1;
    if c < last {
      assert nodes[c := m][..last] == nodes[..last][c := m];
      ItemTotalUpdate(nodes[..last], c, m, x);
    } else {
      assert nodes[c := m][..last] == nodes[..last];
    }
  }

  lemma {:induction false} RootChildTotalUpdate(nodes: seq<Node>, c: nat, m: Node)
    requires c < |nodes|
    ensures RootChildTotal(nodes[c := m]) + (if nodes[c].parent == Some(0) then nodes[c].count else 0)
         == RootChildTotal(nodes) + (if m.parent == Some(0) then m.count else 0)
    decreases |nodes|
  {
    var last := |nodes| - 1;
    if c < last {
      assert nodes[c := m][..last] == nodes[..last][c := m];
      RootChildTotalUpdate(nodes[..last], c, m);
    } else {
      assert nodes[c := m][..last] == nodes[..last];
    }
  }

  /** Python's `sum` over the header list of `x` is the item total of `x`. */
  lemma {:induction false} SumCountsItemTotal(nodes: seq<Node>, x: Item)
    ensures SumCounts(nodes, NodesWithItem(nodes, x)) == ItemTotal(nodes, x)
    decreases |nodes|
  {
    if nodes != [] {
      var last := |nodes| - 1;
      var init := nodes[..last];
      var r0 := NodesWithItem(init, x);
      SumCountsItemTotal(init, x);
      NodesWithItemBelow(init, x);
      SumCountsPrefix(init, nodes, r0);
      var js := r0 + (if nodes[last].item == Some(x) then [last] else []);
      assert NodesWithItem(nodes, x) == js;
      if nodes[last].item == Some(x) {
        assert js[..|js| - 1] == r0;
      } else {
        assert js == r0;
      }
    }
  }

  lemma NodesWithItemBelow(nodes: seq<Node>, x: Item)
    ensures var r := NodesWithItem(nodes, x); forall k :: 0 <= k < |r| ==> r[k] < |nodes|
  {
    var r := NodesWithItem(nodes, x);
    forall k | 0 <= k < |r| ensures r[k] < |nodes| {
      assert r[k] in r;
    }
  }

  lemma {:induction false} SumCountsPrefix(init: seq<Node>, nodes: seq<Node>, js: seq<nat>)
    requires init <= nodes
    requires forall k :: 0 <= k < |js| ==> js[k] < |init|
    ensures SumCounts(nodes, js) == SumCounts(init, js)
    decreases |js|
  {
    if js != [] {
      SumCountsPrefix(init, nodes, js[..|js| - 1]);
    }
  }

  // ---------------------------------------------------------------------------
  // Prefix counting

  lemma PrefixOfSnoc(p: seq<Item>, s: seq<Item>, x: Item)
    ensures p <= s + [x] <==> p <= s || p == s + [x]
  {
    if p <= s + [x] && |p| <= |s| {
      assert p == (s + [x])[..|p|] == s[..|p|];
    }
    if p <= s {
      assert (s + [x])[..|p|] == s[..|p|];
    }
  }

  /** Extending the transaction being inserted by `x` adds one to the count of `s + [x]` only. */
  lemma CountPrefixedStep(done: seq<Transaction>, s: seq<Item>, x: Item, p: seq<Item>)
    ensures CountPrefixed(done + [s + [x]], p)
         == CountPrefixed(done + [s], p) + (if p == s + [x] then 1 else 0)
  {
    assert (done + [s + [x]])[..|done|] == done;
    assert (done + [s])[..|done|] == done;
    PrefixOfSnoc(p, s, x);
  }

  lemma CountPrefixedEmpty(done: seq<Transaction>, p: seq<Item>)
    requires p != []
    ensures CountPrefixed(done + [[]], p) == CountPrefixed(done, p)
  {
    assert (done + [[]])[..|done|] == done;
  }

  /** Walking one more item of the transaction being inserted walks the path `s + [x]`. */
  lemma PrefixesStep(done: seq<Transaction>, s: seq<Item>, x: Item)
    ensures Prefixes(done + [s + [x]]) == Prefixes(done + [s]) + [s + [x]]
  {
    assert (done + [s + [x]])[..|done|] == done;
    assert (done + [s])[..|done|] == done;
    assert (s + [x])[..|s|] == s;
  }

  lemma PrefixesEmpty(done: seq<Transaction>)
    ensures Prefixes(done + [[]]) == Prefixes(done)
  {
    assert (done + [[]])[..|done|] == done;
  }

  /** Walking a path already walked creates nothing new. */
  lemma WalkedAgain(done: seq<Transaction>, s: seq<Item>, x: Item)
    requires CountPrefixed(done + [s], s + [x]) > 0
    ensures FirstOccurrences(Prefixes(done + [s + [x]])) == FirstOccurrences(Prefixes(done + [s]))
  {
    PrefixesCounted(done + [s], s + [x]);
    PrefixesStep(done, s, x);
    FirstOccurrencesSnoc(Prefixes(done + [s]), s + [x]);
  }

  /** Walking a path for the first time adds it after every path created before. */
  lemma WalkedFirst(done: seq<Transaction>, s: seq<Item>, x: Item)
    requires CountPrefixed(done + [s], s + [x]) == 0
    ensures FirstOccurrences(Prefixes(done + [s + [x]])) == FirstOccurrences(Prefixes(done + [s])) + [s + [x]]
  {
    PrefixesCounted(done + [s], s + [x]);
    PrefixesStep(done, s, x);
    FirstOccurrencesSnoc(Prefixes(done + [s]), s + [x]);
  }

  lemma {:induction false} PrefixesOfMember(t: Transaction, p: seq<Item>)
    ensures p in PrefixesOf(t) <==> p != [] && p <= t
    decreases |t|
  {
    if t != [] {
      var init := t[..|t| - 1];
      PrefixesOfMember(init, p);
      assert t == init + [t[|t| - 1]];
      PrefixOfSnoc(p, init, t[|t| - 1]);
    }
  }

  /** A path has been walked exactly when it is a non-empty prefix of some transaction. */
  lemma {:induction false} PrefixesCounted(ts: seq<Transaction>, p: seq<Item>)
    ensures p in Prefixes(ts) <==> p != [] && CountPrefixed(ts, p) > 0
    decreases |ts|
  {
    if ts != [] {
      PrefixesCounted(ts[..|ts| - 1], p);
      PrefixesOfMember(ts[|ts| - 1], p);
    }
  }

  /** Paths depend only on the parent links and items of the nodes below. */
  lemma {:induction false} PathSame(nodes: seq<Node>, nodes': seq<Node>, i: nat)
    requires ParentsBelow(nodes) && ParentsBelow(nodes') && i < |nodes| <= |nodes'|
    requires forall j :: 0 <= j < |nodes| ==> nodes'[j].item == nodes[j].item && nodes'[j].parent == nodes[j].parent
    ensures Path(nodes', i) == Path(nodes, i)
    decreases i
  {
    if i > 0 {
      PathSame(nodes, nodes', nodes[i].parent.value);
    }
  }

  lemma {:induction false} CountPrefixedMember(ts: seq<Transaction>, k: nat, p: seq<Item>)
    requires k < |ts| && p <= ts[k]
    ensures CountPrefixed(ts, p) >= 1
    decreases |ts|
  {
    if k < |ts| - 1 {
      CountPrefixedMember(ts[..|ts| - 1], k, p);
    }
  }

  lemma OccurrencesStep(done: seq<Transaction>, s: seq<Item>, x: Item, y: Item)
    ensures Occurrences(done + [s + [x]], y) == Occurrences(done + [s], y) + (if y == x then 1 else 0)
  {
    assert (done + [s + [x]])[..|done|] == done;
    assert (done + [s])[..|done|] == done;
  }

  lemma OccurrencesEmpty(done: seq<Transaction>, y: Item)
    ensures Occurrences(done + [[]], y) == Occurrences(done, y)
  {
    assert (done + [[]])[..|done|] == done;
  }

  lemma NonEmptyStep(done: seq<Transaction>, s: seq<Item>, x: Item)
    ensures NonEmptyCount(done + [s + [x]]) == NonEmptyCount(done + [s]) + (if s == [] then 1 else 0)
  {
    assert (done + [s + [x]])[..|done|] == done;
    assert (done + [s])[..|done|] == done;
  }

  lemma NonEmptyEmpty(done: seq<Transaction>)
    ensures NonEmptyCount(done + [[]]) == NonEmptyCount(done)
  {
    assert (done + [[]])[..|done|] == done;
  }
}
