/** Items, transactions and the string order Python uses to compare items. */
module Items {

  /** An item identifier (a product description). */
  type Item = string

  /** A grouped purchase: items in the order received, duplicates kept. */
  type Transaction = seq<Item>

  datatype Option<T> = None | Some(value: T)

  /** Python's `a <= b` on str: lexicographic by code point, a proper prefix first. */
  predicate StrLe(a: Item, b: Item)
  {
    if a == [] then true
    else if b == [] then false
    else if a[0] != b[0] then a[0] < b[0]
    else StrLe(a[1..], b[1..])
  }

  lemma {:induction false} StrLeAntisymmetric(a: Item, b: Item)
    requires StrLe(a, b) && StrLe(b, a)
    ensures a == b
  {
    if a != [] && b != [] {
      StrLeAntisymmetric(a[1..], b[1..]);
      assert a == [a[0]] + a[1..] && b == [b[0]] + b[1..];
    }
  }

  lemma {:induction false} StrLeTransitive(a: Item, b: Item, c: Item)
    requires StrLe(a, b) && StrLe(b, c)
    ensures StrLe(a, c)
  {
    if a != [] && b != [] && c != [] && a[0] == b[0] == c[0] {
      StrLeTransitive(a[1..], b[1..], c[1..]);
    }
  }

  lemma {:induction false} StrLeTotal(a: Item, b: Item)
    ensures StrLe(a, b) || StrLe(b, a)
  {
    if a != [] && b != [] && a[0] == b[0] {
      StrLeTotal(a[1..], b[1..]);
    }
  }

  /** The number of occurrences of `x` in all transactions, duplicates within one transaction included. */
  function Occurrences(ts: seq<Transaction>, x: Item): nat
  {
    if ts == [] then 0
    else Occurrences(ts[..|ts| - 1], x) + multiset(ts[|ts| - 1])[x]
  }

  lemma {:induction false} OccurrencesAppend(ts: seq<Transaction>, us: seq<Transaction>, x: Item)
    ensures Occurrences(ts + us, x) == Occurrences(ts, x) + Occurrences(us, x)
    decreases |us|
  {
    if us == [] {
      assert ts + us == ts;
    } else {
      assert (ts + us)[..|ts + us| - 1] == ts + us[..|us| - 1];
      OccurrencesAppend(ts, us[..|us| - 1], x);
    }
  }

  /** Counting one more transaction adds its occurrences. */
  lemma OccurrencesSnoc(ts: seq<Transaction>, i: nat)
    requires i < |ts|
    ensures forall x :: Occurrences(ts[..i + 1], x) == Occurrences(ts[..i], x) + multiset(ts[i])[x]
  {
    assert ts[..i + 1][..i] == ts[..i];
  }

  /** An item occurs in the collection exactly when some transaction holds it. */
  lemma {:induction false} OccurrencesPositive(ts: seq<Transaction>, x: Item)
    ensures Occurrences(ts, x) > 0 <==> exists i :: 0 <= i < |ts| && x in ts[i]
  {
    if ts != [] {
      OccurrencesPositive(ts[..|ts| - 1], x);
      if Occurrences(ts[..|ts| - 1], x) > 0 {
        var i :| 0 <= i < |ts| - 1 && x in ts[..|ts| - 1][i];
        assert x in ts[i];
      }
      if exists i :: 0 <= i < |ts| && x in ts[i] {
        var i :| 0 <= i < |ts| && x in ts[i];
        if i < |ts| - 1 {
          assert x in ts[..|ts| - 1][i];
        }
      }
    }
  }

  /** `s[::-1]`. */
  function Reversed<T>(s: seq<T>): (r: seq<T>)
    ensures |r| == |s|
    ensures forall i :: 0 <= i < |s| ==> r[i] == s[|s| - 1 - i]
  {
    if s == [] then [] else Reversed(s[1..]) + [s[0]]
  }

  /** Taking one more element of `s` appends it. */
  lemma TakeSnoc<T>(s: seq<T>, k: nat)
    requires k < |s|
    ensures s[..k + 1] == s[..k] + [s[k]]
  {
  }

  /** Dropping the last element of `a + b`, for a non-empty `b`, drops the last element of `b`. */
  lemma InitOfAppend<T>(a: seq<T>, b: seq<T>)
    requires b != []
    ensures (a + b)[..|a + b| - 1] == a + b[..|b| - 1]
    ensures (a + b)[|a + b| - 1] == b[|b| - 1]
  {
  }
}
