/**
 * Frequency compression: count every item occurrence, keep the items whose
 * count reaches `min_item_frequency`, order each transaction by descending
 * count then ascending item, and drop the transactions left empty.
 */
module Compression {
  import opened Items
  import opened Sorting

  /** `frequency[x]` on the `defaultdict(int)`: 0 for an item never counted. */
  function Freq(frequency: map<Item, nat>, x: Item): nat
  {
    if x in frequency then frequency[x] else 0
  }

  /** The sort key `(-frequency[x], x)` of `a` is at most that of `b`. */
  predicate KeyLe(frequency: map<Item, nat>, a: Item, b: Item)
  {
    Freq(frequency, a) > Freq(frequency, b) || (Freq(frequency, a) == Freq(frequency, b) && StrLe(a, b))
  }

  function ItemOrder(frequency: map<Item, nat>): (Item, Item) -> bool
  {
    (a, b) => KeyLe(frequency, a, b)
  }

  /** The key orders all items totally: ties on the count are broken by the item itself. */
  lemma ItemOrderIsTotal(frequency: map<Item, nat>)
    ensures TotalPreorder(ItemOrder(frequency)) && Antisymmetric(ItemOrder(frequency))
  {
    var le := ItemOrder(frequency);
    forall a, b ensures le(a, b) || le(b, a) {
      StrLeTotal(a, b);
    }
    forall a, b, c | le(a, b) && le(b, c) ensures le(a, c) {
      if Freq(frequency, a) == Freq(frequency, b) == Freq(frequency, c) {
        StrLeTransitive(a, b, c);
      }
    }
    forall a, b | le(a, b) && le(b, a) ensures a == b {
      StrLeAntisymmetric(a, b);
    }
  }

  /** Ascending by the key `(-frequency[x], x)`. */
  predicate SortedByKey(frequency: map<Item, nat>, s: Transaction)
  {
    forall i, j :: 0 <= i < j < |s| ==> KeyLe(frequency, s[i], s[j])
  }

  /** Every item of `t` passes the `min_item_frequency` filter. */
  predicate AllFrequent(frequency: map<Item, nat>, minItemFrequency: int, t: Transaction)
  {
    forall x :: x in t ==> Freq(frequency, x) >= minItemFrequency
  }

  /** `[item for item in t if frequency[item] >= min_item_frequency]`. */
  function Kept(frequency: map<Item, nat>, minItemFrequency: int, t: Transaction): (r: Transaction)
    ensures forall x :: multiset(r)[x] == if Freq(frequency, x) >= minItemFrequency then multiset(t)[x] else 0
  {
    if t == [] then []
    else
      assert t == t[..|t| - 1] + [t[|t| - 1]];
      Kept(frequency, minItemFrequency, t[..|t| - 1])
        + (if Freq(frequency, t[|t| - 1]) >= minItemFrequency then [t[|t| - 1]] else [])
  }

  /** `sort_items(t)`: the kept items of `t`, sorted by the key. */
  function SortItems(frequency: map<Item, nat>, minItemFrequency: int, t: Transaction): (r: Transaction)
    ensures SortedByKey(frequency, r)
    ensures multiset(r) == multiset(Kept(frequency, minItemFrequency, t))
    ensures AllFrequent(frequency, minItemFrequency, r)
  {
    ItemOrderIsTotal(frequency);
    var r := Sort(Kept(frequency, minItemFrequency, t), ItemOrder(frequency));
    assert forall x :: x in r ==> x in multiset(r);
    assert SortedBy(r, ItemOrder(frequency));
    r
  }

  /**
   * No tie is left unresolved: a sequence that is sorted by the key and holds
   * the kept items is exactly `sort_items(t)`.
   */
  lemma SortItemsUnique(frequency: map<Item, nat>, minItemFrequency: int, t: Transaction, u: Transaction)
    requires SortedByKey(frequency, u)
    requires multiset(u) == multiset(Kept(frequency, minItemFrequency, t))
    ensures u == SortItems(frequency, minItemFrequency, t)
  {
    ItemOrderIsTotal(frequency);
    assert SortedBy(u, ItemOrder(frequency));
    assert SortedBy(SortItems(frequency, minItemFrequency, t), ItemOrder(frequency));
    SortedUnique(u, SortItems(frequency, minItemFrequency, t), ItemOrder(frequency));
  }

  /** What transaction `t` leaves in the compressed list: `sort_items(t)`, or nothing when that is empty. */
  function Survivor(frequency: map<Item, nat>, minItemFrequency: int, t: Transaction): (r: seq<Transaction>)
    ensures |r| <= 1
    ensures forall u :: u in r ==> u != [] && AllFrequent(frequency, minItemFrequency, u)
  {
    var c := SortItems(frequency, minItemFrequency, t);
    if c != [] then [c] else []
  }

  /** `[sort_items(t) for t in transactions if sort_items(t)]`. */
  function Compress(frequency: map<Item, nat>, minItemFrequency: int, ts: seq<Transaction>): (r: seq<Transaction>)
    ensures |r| <= |ts|
    ensures forall u :: u in r ==> u != [] && AllFrequent(frequency, minItemFrequency, u)
  {
    if ts == [] then []
    else
      var init := Compress(frequency, minItemFrequency, ts[..|ts| - 1]);
      var last := Survivor(frequency, minItemFrequency, ts[|ts| - 1]);
      init + last
  }

  /** Compression works transaction by transaction, so survivors keep their input order. */
  lemma {:induction false} CompressAppend(frequency: map<Item, nat>, minItemFrequency: int, ts: seq<Transaction>, us: seq<Transaction>)
    ensures Compress(frequency, minItemFrequency, ts + us)
         == Compress(frequency, minItemFrequency, ts) + Compress(frequency, minItemFrequency, us)
    decreases |us|
  {
    if us == [] {
      assert ts + us == ts;
    } else {
      var u := us[..|us| - 1];
      var tail := Survivor(frequency, minItemFrequency, us[|us| - 1]);
      InitOfAppend(ts, us);
      assert Compress(frequency, minItemFrequency, ts + us) == Compress(frequency, minItemFrequency, ts + u) + tail;
      CompressAppend(frequency, minItemFrequency, ts, u);
      ConcatAssoc(Compress(frequency, minItemFrequency, ts), Compress(frequency, minItemFrequency, u), tail);
    }
  }

  /** One transaction survives as `sort_items(t)` exactly when that is non-empty. */
  lemma CompressOne(frequency: map<Item, nat>, minItemFrequency: int, t: Transaction)
    ensures var c := SortItems(frequency, minItemFrequency, t);
      Compress(frequency, minItemFrequency, [t]) == if c == [] then [] else [c]
  {
    assert [t][..0] == [];
  }

  /**
   * Compression removes every occurrence of a filtered item and keeps every
   * occurrence of the others, duplicates within a transaction included.
   */
  lemma {:induction false} CompressOccurrences(frequency: map<Item, nat>, minItemFrequency: int, ts: seq<Transaction>, x: Item)
    ensures Occurrences(Compress(frequency, minItemFrequency, ts), x)
         == if Freq(frequency, x) >= minItemFrequency then Occurrences(ts, x) else 0
  {
    if ts != [] {
      var init, t := ts[..|ts| - 1], ts[|ts| - 1];
      var head := Compress(frequency, minItemFrequency, init);
      var tail := Survivor(frequency, minItemFrequency, t);
      var kept := Freq(frequency, x) >= minItemFrequency;
      calc {
        Occurrences(Compress(frequency, minItemFrequency, ts), x);
        Occurrences(head + tail, x);
        { OccurrencesAppend(head, tail, x); }
        Occurrences(head, x) + Occurrences(tail, x);
        { CompressOccurrences(frequency, minItemFrequency, init, x);
          SurvivorOccurrences(frequency, minItemFrequency, t, x); }
        (if kept then Occurrences(init, x) else 0) + (if kept then multiset(t)[x] else 0);
        if kept then Occurrences(ts, x) else 0;
      }
    }
  }

  lemma SurvivorOccurrences(frequency: map<Item, nat>, minItemFrequency: int, t: Transaction, x: Item)
    ensures Occurrences(Survivor(frequency, minItemFrequency, t), x)
         == if Freq(frequency, x) >= minItemFrequency then multiset(t)[x] else 0
  {
    var c := SortItems(frequency, minItemFrequency, t);
    if c != [] { assert [c][..0] == []; }
  }

  /**
   * `compress_transactions`: count every occurrence of every item (duplicates
   * within a transaction included), then compress with those counts.
   */
  method CompressTransactions(transactions: seq<Transaction>, minItemFrequency: int := 2)
    returns (compressed: seq<Transaction>, frequency: map<Item, nat>)
    ensures forall x :: x in frequency <==> Occurrences(transactions, x) > 0
    ensures forall x :: x in frequency ==> frequency[x] == Occurrences(transactions, x)
    ensures forall x :: x in frequency <==> exists i :: 0 <= i < |transactions| && x in transactions[i]
    ensures compressed == Compress(frequency, minItemFrequency, transactions)
  {
    frequency := map[];
    var i := 0;
    while i < |transactions|
      invariant 0 <= i <= |transactions|
      invariant forall x :: x in frequency <==> Occurrences(transactions[..i], x) > 0
      invariant forall x :: Freq(frequency, x) == Occurrences(transactions[..i], x)
    {
      frequency := CountItems(frequency, transactions[i]);
      OccurrencesSnoc(transactions, i);
      i := i + 1;
    }
    assert i == |transactions|;
    assert transactions[..i] == transactions;
    forall x ensures Occurrences(transactions, x) > 0 <==> exists i :: 0 <= i < |transactions| && x in transactions[i] {
      OccurrencesPositive(transactions, x);
    }
    compressed := Compress(frequency, minItemFrequency, transactions);
  }

  /** The inner loop of `compress_transactions`: `frequency[item] += 1` for every item of `t`. */
  method CountItems(frequency: map<Item, nat>, t: Transaction) returns (counted: map<Item, nat>)
    ensures forall x :: x in counted <==> x in frequency || multiset(t)[x] > 0
    ensures forall x :: Freq(counted, x) == Freq(frequency, x) + multiset(t)[x]
  {
    counted := frequency;
    var j := 0;
    while j < |t|
      invariant 0 <= j <= |t|
      invariant forall x :: x in counted <==> x in frequency || multiset(t[..j])[x] > 0
      invariant forall x :: Freq(counted, x) == Freq(frequency, x) + multiset(t[..j])[x]
    {
      var item := t[j];
      counted := counted[item := Freq(counted, item) + 1];
      TakeSnoc(t, j);
      j := j + 1;
    }
    assert j == |t|;
    assert t[..j] == t;
  }
}
