/**
 * `ascend_fp_tree` and `mine_patterns`: for every node of every header list,
 * the items of its ancestors (root excluded) plus the header item, sorted,
 * form a pattern whose tally grows by the node's count; patterns whose tally
 * reaches `min_support` are kept.
 */
module Mining {
  import opened Items
  import opened OrderedMaps
  import opened Sorting
  import opened FpTree

  /** The pattern dict: sorted item tuple -> summed node count, in first-insertion order. */
  type Patterns = OrderedMap<seq<Item>, nat>

  /** Python's `<=` on str, as a comparison for `sorted`. */
  function StrOrder(): (Item, Item) -> bool
  {
    (a, b) => StrLe(a, b)
  }

  lemma StrOrderIsTotal()
    ensures TotalPreorder(StrOrder()) && Antisymmetric(StrOrder())
  {
    var le := StrOrder();
    forall a, b ensures le(a, b) || le(b, a) {
      StrLeTotal(a, b);
    }
    forall a, b, c | le(a, b) && le(b, c) ensures le(a, c) {
      StrLeTransitive(a, b, c);
    }
    forall a, b | le(a, b) && le(b, a) ensures a == b {
      StrLeAntisymmetric(a, b);
    }
  }

  /** Ascending in Python's string order. */
  predicate StrSorted(p: seq<Item>)
  {
    forall i, j :: 0 <= i < j < |p| ==> StrLe(p[i], p[j])
  }

  // ---------------------------------------------------------------------------
  // Ascending the tree

  /** The items of the ancestors of node `i` strictly below the root, root side first. */
  ghost function Ancestors(nodes: seq<Node>, i: nat): seq<Item>
    requires ParentsBelow(nodes) && i < |nodes|
  {
    if i == 0 then [] else Path(nodes, nodes[i].parent.value)
  }

  /**
   * `ascend_fp_tree(node)`: climb while the parent exists and is not the root,
   * collecting each parent's item, then reverse.
   */
  method AscendFpTree(nodes: seq<Node>, node: nat) returns (path: seq<Item>)
    requires ParentsBelow(nodes) && node < |nodes|
    ensures path == Ancestors(nodes, node)
  {
    var collected: seq<Item> := [];
    var n: nat := node;
    while nodes[n].parent.Some? && nodes[nodes[n].parent.value].item.Some?
      invariant n < |nodes|
      invariant Ancestors(nodes, n) + Reversed(collected) == Ancestors(nodes, node)
      invariant n == node || n > 0
      decreases n
    {
      var p := nodes[n].parent.value;
      ReversedSnoc(collected, nodes[p].item.value);
      n := p;
      collected := collected + [nodes[n].item.value];
    }
    assert Ancestors(nodes, n) == [];
    path := Reversed(collected);
    assert path == Ancestors(nodes, node);
  }

  /**
   * The ascent of a node is its root path without the node itself, and it is
   * empty exactly for the root and the root's children.
   */
  lemma AncestorsPath(nodes: seq<Node>, node: nat)
    requires ParentsBelow(nodes) && node < |nodes|
    ensures node == 0 ==> Ancestors(nodes, node) == []
    ensures node > 0 ==> Ancestors(nodes, node) + [nodes[node].item.value] == Path(nodes, node)
    ensures Ancestors(nodes, node) == [] <==> node == 0 || nodes[node].parent == Some(0)
  {
  }

  lemma ReversedSnoc(s: seq<Item>, a: Item)
    ensures Reversed(s + [a]) == [a] + Reversed(s)
  {
  }

  // ---------------------------------------------------------------------------
  // What each header node contributes

  /** `tuple(sorted(path + [item]))`. */
  function SortedPattern(path: seq<Item>, x: Item): (r: seq<Item>)
    ensures |r| == |path| + 1 && multiset(r) == multiset(path + [x])
    ensures StrSorted(r)
  {
    StrOrderIsTotal();
    var r := Sort(path + [x], StrOrder());
    assert SortedBy(r, StrOrder());
    r
  }

  /** The pattern the header entry `(x, j)` adds its count to; None when node `j` is a child of the root. */
  ghost function Contribution(nodes: seq<Node>, e: (Item, nat)): Option<seq<Item>>
    requires ParentsBelow(nodes)
  {
    if e.1 < |nodes| && Ancestors(nodes, e.1) != [] then Some(SortedPattern(Ancestors(nodes, e.1), e.0)) else None
  }

  /** The header entries `(item, node)` of one header list. */
  function Pairs(x: Item, js: seq<nat>): (r: seq<(Item, nat)>)
    ensures |r| == |js| && forall k :: 0 <= k < |js| ==> r[k] == (x, js[k])
  {
    seq(|js|, k requires 0 <= k < |js| => (x, js[k]))
  }

  /** The entries of the first `a` header lists, in the order `header_table.items()` visits them. */
  ghost function Entries(h: HeaderTable, a: nat): seq<(Item, nat)>
    requires h.Valid() && a <= |h.keys|
  {
    if a == 0 then [] else Entries(h, a - 1) + Pairs(h.keys[a - 1], h.vals[h.keys[a - 1]])
  }

  /** `patterns.get(p, 0)`. */
  function Get(m: Patterns, p: seq<Item>): nat
  {
    if p in m.vals then m.vals[p] else 0
  }

  /** The count of node `j`, 0 outside the arena. */
  function CountOf(nodes: seq<Node>, j: nat): nat
  {
    if j < |nodes| then nodes[j].count else 0
  }

  /** `patterns[p] = patterns.get(p, 0) + count` for a contributed pattern `p`. */
  function Bump(m: Patterns, c: Option<seq<Item>>, count: nat): (r: Patterns)
    requires m.Valid()
    ensures r.Valid()
    ensures forall p :: Get(r, p) == Get(m, p) + (if c == Some(p) then count else 0)
    ensures forall p :: p in r.vals <==> p in m.vals || c == Some(p)
    ensures c.Some? && c.value !in m.vals ==> r.keys == m.keys + [c.value]
    ensures c.None? || c.value in m.vals ==> r.keys == m.keys
  {
    match c
    case None => m
    case Some(p) => Put(m, p, Get(m, p) + count)
  }

  /** The pattern dict after visiting the entries `es`. */
  ghost function Tally(nodes: seq<Node>, es: seq<(Item, nat)>): (r: Patterns)
    requires ParentsBelow(nodes)
    ensures r.Valid()
  {
    if es == [] then Empty()
    else Bump(Tally(nodes, es[..|es| - 1]), Contribution(nodes, es[|es| - 1]), CountOf(nodes, es[|es| - 1].1))
  }

  /** The summed counts of the entries of `es` that contribute to `p`. */
  ghost function Support(nodes: seq<Node>, es: seq<(Item, nat)>, p: seq<Item>): nat
    requires ParentsBelow(nodes)
  {
    if es == [] then 0
    else
      var e := es[|es| - 1];
      Support(nodes, es[..|es| - 1], p) + (if Contribution(nodes, e) == Some(p) then CountOf(nodes, e.1) else 0)
  }

  /** The patterns of `m` whose tally reaches `minSupport`. */
  function Frequent(m: Patterns, minSupport: int): set<seq<Item>>
  {
    set p | p in m.vals && m.vals[p] >= minSupport
  }

  /** The last comprehension of `mine_patterns`: drop the patterns below `minSupport`. */
  function KeepFrequent(m: Patterns, minSupport: int): (r: Patterns)
    requires m.Valid()
    ensures r.Valid()
    ensures forall p :: p in r.vals <==> p in m.vals && m.vals[p] >= minSupport
    ensures forall p :: p in r.vals ==> r.vals[p] == m.vals[p]
    ensures r.keys == FilterIn(m.keys, Frequent(m, minSupport))
  {
    Restrict(m, Frequent(m, minSupport))
  }

  /** The result of `mine_patterns(header_table, min_support)` on the tree `nodes`. */
  ghost function Mined(nodes: seq<Node>, h: HeaderTable, minSupport: int): Patterns
    requires ParentsBelow(nodes) && h.Valid()
  {
    KeepFrequent(Tally(nodes, Entries(h, |h.keys|)), minSupport)
  }

  /** Every header list names nodes of the tree. */
  ghost predicate HeaderInTree(nodes: seq<Node>, h: HeaderTable)
  {
    forall x, j :: x in h.vals && j in h.vals[x] ==> j < |nodes|
  }

  // ---------------------------------------------------------------------------
  // The mining loop

  method MinePatterns(nodes: seq<Node>, header: HeaderTable, minSupport: int) returns (patterns: Patterns)
    requires ParentsBelow(nodes) && header.Valid() && HeaderInTree(nodes, header)
    ensures patterns == Mined(nodes, header, minSupport)
  {
    var tally := TallyHeaderTable(nodes, header);
    patterns := KeepFrequent(tally, minSupport);
  }

  /** The outer loop of `mine_patterns`: the header lists in the order of `header_table.items()`. */
  method TallyHeaderTable(nodes: seq<Node>, header: HeaderTable) returns (tally: Patterns)
    requires ParentsBelow(nodes) && header.Valid() && HeaderInTree(nodes, header)
    ensures tally == Tally(nodes, Entries(header, |header.keys|))
  {
    tally := Empty();
    var a := 0;
    while a < |header.keys|
      invariant 0 <= a <= |header.keys|
      invariant tally == Tally(nodes, Entries(header, a))
    {
      tally := MineHeaderEntry(nodes, header, a, tally);
      a := a + 1;
    }
  }

  /** One pass of the outer loop: the `a`-th header list. */
  method MineHeaderEntry(nodes: seq<Node>, header: HeaderTable, a: nat, tally: Patterns) returns (tally': Patterns)
    requires ParentsBelow(nodes) && header.Valid() && HeaderInTree(nodes, header) && a < |header.keys|
    requires tally == Tally(nodes, Entries(header, a))
    ensures tally' == Tally(nodes, Entries(header, a + 1))
  {
    var item := header.keys[a];
    var js := header.vals[item];
    EntriesStep(nodes, header, a);
    tally' := MineHeaderList(nodes, item, js, Entries(header, a), tally);
  }

  /** The inner loop of `mine_patterns`: one header list `js` of `item`, visited in order. */
  method MineHeaderList(nodes: seq<Node>, item: Item, js: seq<nat>, ghost done: seq<(Item, nat)>, tally: Patterns)
    returns (tally': Patterns)
    requires ParentsBelow(nodes) && tally == Tally(nodes, done)
    requires forall j :: j in js ==> j < |nodes|
    ensures tally' == Tally(nodes, done + Pairs(item, js))
  {
    tally' := tally;
    var b := 0;
    assert done + Pairs(item, js[..0]) == done;
    while b < |js|
      invariant 0 <= b <= |js|
      invariant tally' == Tally(nodes, done + Pairs(item, js[..b]))
    {
      assert js[b] in js;
      PairsSnoc(done, item, js, b);
      tally' := MineEntry(nodes, item, js[b], done + Pairs(item, js[..b]), tally');
      b := b + 1;
    }
    assert b == |js|;
    assert js[..b] == js;
  }

  /**
   * One step of the inner loop: ascend from node `j` and, when the path is
   * not empty, add the node's count to the sorted pattern `path + [item]`.
   */
  method MineEntry(nodes: seq<Node>, item: Item, j: nat, ghost es: seq<(Item, nat)>, tally: Patterns)
    returns (tally': Patterns)
    requires ParentsBelow(nodes) && j < |nodes| && tally == Tally(nodes, es)
    ensures tally' == Tally(nodes, es + [(item, j)])
  {
    var path := AscendFpTree(nodes, j);
    var pattern := if path != [] then Some(SortedPattern(path, item)) else None;
    TallySnoc(nodes, es, (item, j));
    tally' := Bump(tally, pattern, nodes[j].count);
  }

  /** The `a`-th header list names nodes of the tree and extends the entries visited before it. */
  lemma EntriesStep(nodes: seq<Node>, h: HeaderTable, a: nat)
    requires h.Valid() && HeaderInTree(nodes, h) && a < |h.keys|
    ensures h.keys[a] in h.vals
    ensures forall j :: j in h.vals[h.keys[a]] ==> j < |nodes|
    ensures Entries(h, a + 1) == Entries(h, a) + Pairs(h.keys[a], h.vals[h.keys[a]])
  {
  }

  /** The entries up to `js[b]` are those before it plus `(x, js[b])`. */
  lemma PairsSnoc(done: seq<(Item, nat)>, x: Item, js: seq<nat>, b: nat)
    requires b < |js|
    ensures done + Pairs(x, js[..b + 1]) == done + Pairs(x, js[..b]) + [(x, js[b])]
  {
    assert Pairs(x, js[..b + 1]) == Pairs(x, js[..b]) + [(x, js[b])];
  }

  /** One more header entry bumps its contribution, if any, by its node's count. */
  lemma TallySnoc(nodes: seq<Node>, es: seq<(Item, nat)>, e: (Item, nat))
    requires ParentsBelow(nodes)
    ensures Tally(nodes, es + [e]) == Bump(Tally(nodes, es), Contribution(nodes, e), CountOf(nodes, e.1))
  {
    assert (es + [e])[..|es|] == es;
  }

  // ---------------------------------------------------------------------------
  // Properties of the mined patterns

  /**
   * A pattern is in the tally exactly when some node contributes to it, and its
   * tally is the summed count of the nodes that do.
   */
  lemma {:induction false} TallySupport(nodes: seq<Node>, es: seq<(Item, nat)>, p: seq<Item>)
    requires WellFormed(nodes)
    ensures p in Tally(nodes, es).vals <==> Support(nodes, es, p) > 0
    ensures p in Tally(nodes, es).vals ==> Tally(nodes, es).vals[p] == Support(nodes, es, p)
    decreases |es|
  {
    if es != [] {
      TallySupport(nodes, es[..|es| - 1], p);
    }
  }

  /** Every tallied pattern has at least two items and is sorted. */
  lemma {:induction false} TallyShape(nodes: seq<Node>, es: seq<(Item, nat)>, p: seq<Item>)
    requires ParentsBelow(nodes) && p in Tally(nodes, es).vals
    ensures |p| >= 2 && StrSorted(p)
    decreases |es|
  {
    var init := es[..|es| - 1];
    var e := es[|es| - 1];
    if p in Tally(nodes, init).vals {
      TallyShape(nodes, init, p);
    }
  }

  /** The patterns the entries `es` contribute to, in visiting order, repeats included. */
  ghost function Contributed(nodes: seq<Node>, es: seq<(Item, nat)>): seq<seq<Item>>
    requires ParentsBelow(nodes)
  {
    if es == [] then []
    else
      var c := Contribution(nodes, es[|es| - 1]);
      Contributed(nodes, es[..|es| - 1]) + (if c.Some? then [c.value] else [])
  }

  /**
   * The pattern dict lists each contributed pattern once, at the place of the
   * first header entry that contributes to it.
   */
  lemma {:induction false} TallyKeyOrder(nodes: seq<Node>, es: seq<(Item, nat)>)
    requires ParentsBelow(nodes)
    ensures Tally(nodes, es).keys == FirstOccurrences(Contributed(nodes, es))
    decreases |es|
  {
    if es != [] {
      var init := es[..|es| - 1];
      var c := Contribution(nodes, es[|es| - 1]);
      var before := Contributed(nodes, init);
      TallyKeyOrder(nodes, init);
      assert Tally(nodes, es) == Bump(Tally(nodes, init), c, CountOf(nodes, es[|es| - 1].1));
      if c.Some? {
        assert Contributed(nodes, es) == before + [c.value];
        FirstOccurrencesDistinct(before);
        FirstOccurrencesSnoc(before, c.value);
        assert c.value in Tally(nodes, init).vals <==> c.value in before;
      } else {
        assert Contributed(nodes, es) == before;
      }
    }
  }

  /**
   * The keys `mine_patterns` returns are the frequent contributed patterns, in
   * the order their first contributing header entry is visited.
   */
  lemma MinedKeyOrder(nodes: seq<Node>, h: HeaderTable, minSupport: int)
    requires ParentsBelow(nodes) && h.Valid()
    ensures var tally := Tally(nodes, Entries(h, |h.keys|));
      Mined(nodes, h, minSupport).keys == FilterIn(FirstOccurrences(Contributed(nodes, Entries(h, |h.keys|))), Frequent(tally, minSupport))
  {
    TallyKeyOrder(nodes, Entries(h, |h.keys|));
  }

  /**
   * `mine_patterns` keeps exactly the patterns whose summed node count is
   * positive and reaches `minSupport`, each with that count, each sorted and
   * of length at least two.
   */
  lemma MinedPatterns(nodes: seq<Node>, h: HeaderTable, minSupport: int, p: seq<Item>)
    requires WellFormed(nodes) && h.Valid()
    ensures var es := Entries(h, |h.keys|);
      p in Mined(nodes, h, minSupport).vals <==> Support(nodes, es, p) > 0 && Support(nodes, es, p) >= minSupport
    ensures p in Mined(nodes, h, minSupport).vals ==>
      && Mined(nodes, h, minSupport).vals[p] == Support(nodes, Entries(h, |h.keys|), p)
      && Mined(nodes, h, minSupport).vals[p] >= minSupport
      && |p| >= 2 && StrSorted(p)
  {
    var es := Entries(h, |h.keys|);
    TallySupport(nodes, es, p);
    if p in Tally(nodes, es).vals {
      TallyShape(nodes, es, p);
    }
  }
}
