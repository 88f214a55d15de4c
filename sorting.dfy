/**
 * Python's `sorted(s, key=...)` as a stable insertion sort over a total
 * preorder `le` ("key(a) <= key(b)").
 */
module Sorting {

  /** `le` compares everything and is transitive, as `<=` on a sort key is. */
  ghost predicate TotalPreorder<T(!new)>(le: (T, T) -> bool)
  {
    && (forall a, b :: le(a, b) || le(b, a))
    && (forall a, b, c :: le(a, b) && le(b, c) ==> le(a, c))
  }

  /** Only equal elements are equivalent: the key leaves no tie unresolved. */
  ghost predicate Antisymmetric<T(!new)>(le: (T, T) -> bool)
  {
    forall a, b :: le(a, b) && le(b, a) ==> a == b
  }

  predicate SortedBy<T>(s: seq<T>, le: (T, T) -> bool)
  {
    forall i, j :: 0 <= i < j < |s| ==> le(s[i], s[j])
  }

  lemma {:induction false} SortedTail<T>(s: seq<T>, le: (T, T) -> bool)
    requires SortedBy(s, le) && s != []
    ensures SortedBy(s[1..], le)
  {
    forall i, j | 0 <= i < j < |s| - 1 ensures le(s[1..][i], s[1..][j]) {
      assert s[1..][i] == s[i + 1] && s[1..][j] == s[j + 1];
    }
  }

  /** Puts `x` after every element that is not greater than it, so after its equals. */
  function Insert<T(==)>(x: T, s: seq<T>, le: (T, T) -> bool): (r: seq<T>)
    ensures |r| == |s| + 1
    ensures multiset(r) == multiset(s) + multiset{x}
  {
    if s == [] then [x]
    else if le(s[0], x) then
      assert s == [s[0]] + s[1..];
      [s[0]] + Insert(x, s[1..], le)
    else [x] + s
  }

  lemma {:induction false} InsertSorted<T(!new)>(x: T, s: seq<T>, le: (T, T) -> bool)
    requires TotalPreorder(le) && SortedBy(s, le)
    ensures SortedBy(Insert(x, s, le), le)
  {
    if s != [] && le(s[0], x) {
      InsertSorted(x, s[1..], le);
      var r := Insert(x, s, le);
      forall j | 0 < j < |r| ensures le(r[0], r[j]) {
        var y := r[j];
        assert y in multiset(s[1..]) + multiset{x};
        if y == x {
        } else {
          assert y in s[1..];
          var k :| 0 <= k < |s[1..]| && s[1..][k] == y;
          assert s[k + 1] == y;
        }
      }
    }
  }

  /** The stable sort: each element in turn is inserted after its equals. */
  function Sort<T(==,!new)>(s: seq<T>, le: (T, T) -> bool): (r: seq<T>)
    requires TotalPreorder(le)
    ensures multiset(r) == multiset(s)
    ensures SortedBy(r, le)
  {
    if s == [] then []
    else
      assert s == s[..|s| - 1] + [s[|s| - 1]];
      var sorted := Sort(s[..|s| - 1], le);
      InsertSorted(s[|s| - 1], sorted, le);
      Insert(s[|s| - 1], sorted, le)
  }

  /** Two sorted arrangements of one multiset start with the same element. */
  lemma SortedHeads<T(!new)>(a: seq<T>, b: seq<T>, le: (T, T) -> bool)
    requires TotalPreorder(le) && Antisymmetric(le)
    requires SortedBy(a, le) && SortedBy(b, le) && multiset(a) == multiset(b) && a != [] && b != []
    ensures a[0] == b[0]
  {
    assert a[0] in multiset(b) && b[0] in multiset(a);
    var k :| 0 <= k < |b| && b[k] == a[0];
    var m :| 0 <= m < |a| && a[m] == b[0];
    assert le(b[0], a[0]) by {
      if k > 0 { assert le(b[0], b[k]); } else { assert le(b[0], b[0]); }
    }
    assert le(a[0], b[0]) by {
      if m > 0 { assert le(a[0], a[m]); } else { assert le(a[0], a[0]); }
    }
    assert a[0] == b[0];
  }

  /** Removing a common first element keeps two multisets equal. */
  lemma MultisetTails<T>(a: seq<T>, b: seq<T>)
    requires a != [] && b != [] && a[0] == b[0] && multiset(a) == multiset(b)
    ensures multiset(a[1..]) == multiset(b[1..])
  {
    assert a == [a[0]] + a[1..] && b == [b[0]] + b[1..];
    assert multiset(a) == multiset{a[0]} + multiset(a[1..]);
    assert multiset(b) == multiset{b[0]} + multiset(b[1..]);
    forall x ensures multiset(a[1..])[x] == multiset(b[1..])[x] {
      assert multiset(a)[x] == multiset(b)[x];
    }
  }

  /**
   * A key that leaves no tie makes the sorted permutation unique: whatever
   * algorithm produced a sorted permutation, it is the one `Sort` returns.
   */
  lemma {:induction false} SortedUnique<T(!new)>(a: seq<T>, b: seq<T>, le: (T, T) -> bool)
    requires TotalPreorder(le) && Antisymmetric(le)
    requires SortedBy(a, le) && SortedBy(b, le) && multiset(a) == multiset(b)
    ensures a == b
  {
    if a == [] {
      assert |b| == |multiset(b)| == 0;
    } else {
      assert |b| == |multiset(b)| == |a|;
      SortedHeads(a, b, le);
      MultisetTails(a, b);
      SortedTail(a, le);
      SortedTail(b, le);
      SortedUnique(a[1..], b[1..], le);
    }
  }

  /** The elements of `s` equivalent to `e` under `le`, in their order in `s`. */
  function Ties<T>(s: seq<T>, e: T, le: (T, T) -> bool): (r: seq<T>)
    ensures |r| <= |s|
  {
    if s == [] then []
    else Ties(s[..|s| - 1], e, le) + (if le(s[|s| - 1], e) && le(e, s[|s| - 1]) then [s[|s| - 1]] else [])
  }

  lemma {:induction false} TiesAppend<T>(s: seq<T>, u: seq<T>, e: T, le: (T, T) -> bool)
    ensures Ties(s + u, e, le) == Ties(s, e, le) + Ties(u, e, le)
    decreases |u|
  {
    if u == [] {
      assert s + u == s;
    } else {
      assert (s + u)[..|s + u| - 1] == s + u[..|u| - 1];
      TiesAppend(s, u[..|u| - 1], e, le);
    }
  }

  lemma {:induction false} TiesCons<T>(x: T, s: seq<T>, e: T, le: (T, T) -> bool)
    ensures Ties([x] + s, e, le) == (if le(x, e) && le(e, x) then [x] else []) + Ties(s, e, le)
  {
    TiesAppend([x], s, e, le);
    assert [x][..0] == [];
  }

  /** In a sorted sequence that starts above `x`, nothing is equivalent to `x`. */
  lemma {:induction false} NoTiesAbove<T(!new)>(x: T, s: seq<T>, e: T, le: (T, T) -> bool)
    requires TotalPreorder(le) && SortedBy(s, le)
    requires s != [] && !le(s[0], x) && le(x, e) && le(e, x)
    ensures Ties(s, e, le) == []
    decreases |s|
  {
    if |s| > 1 {
      var init := s[..|s| - 1];
      NoTiesAbove(x, init, e, le);
      assert le(s[0], s[|s| - 1]);
    }
  }

  lemma {:induction false} InsertTies<T(!new)>(x: T, s: seq<T>, e: T, le: (T, T) -> bool)
    requires TotalPreorder(le) && SortedBy(s, le)
    ensures Ties(Insert(x, s, le), e, le) == Ties(s, e, le) + (if le(x, e) && le(e, x) then [x] else [])
  {
    if s == [] {
      assert Ties([x], e, le) == Ties([], e, le) + (if le(x, e) && le(e, x) then [x] else []);
    } else if le(s[0], x) {
      SortedTail(s, le);
      InsertTies(x, s[1..], e, le);
      InsertTiesPast(x, s, e, le);
    } else {
      TiesCons(x, s, e, le);
      if le(x, e) && le(e, x) {
        NoTiesAbove(x, s, e, le);
      }
    }
  }

  /** The step of InsertTies where `x` moves past the head of `s`. */
  lemma {:induction false} InsertTiesPast<T>(x: T, s: seq<T>, e: T, le: (T, T) -> bool)
    requires s != [] && le(s[0], x)
    requires Ties(Insert(x, s[1..], le), e, le) == Ties(s[1..], e, le) + (if le(x, e) && le(e, x) then [x] else [])
    ensures Ties(Insert(x, s, le), e, le) == Ties(s, e, le) + (if le(x, e) && le(e, x) then [x] else [])
  {
    var tx := if le(x, e) && le(e, x) then [x] else [];
    var t0 := if le(s[0], e) && le(e, s[0]) then [s[0]] else [];
    var rest := Insert(x, s[1..], le);
    assert Insert(x, s, le) == [s[0]] + rest;
    TiesCons(s[0], rest, e, le);
    TiesUncons(s, e, le);
    assert Ties(Insert(x, s, le), e, le) == t0 + (Ties(s[1..], e, le) + tx);
    ConcatAssoc(t0, Ties(s[1..], e, le), tx);
  }

  lemma ConcatAssoc<T>(a: seq<T>, b: seq<T>, c: seq<T>)
    ensures a + (b + c) == (a + b) + c
  {
  }

  lemma TiesUncons<T>(s: seq<T>, e: T, le: (T, T) -> bool)
    requires s != []
    ensures Ties(s, e, le) == (if le(s[0], e) && le(e, s[0]) then [s[0]] else []) + Ties(s[1..], e, le)
  {
    TiesCons(s[0], s[1..], e, le);
    assert [s[0]] + s[1..] == s;
  }

  /** Stability: `Sort` keeps every class of equivalent elements in input order. */
  lemma {:induction false} SortStable<T(!new)>(s: seq<T>, e: T, le: (T, T) -> bool)
    requires TotalPreorder(le)
    ensures Ties(Sort(s, le), e, le) == Ties(s, e, le)
  {
    if s != [] {
      SortStable(s[..|s| - 1], e, le);
      InsertTies(s[|s| - 1], Sort(s[..|s| - 1], le), e, le);
    }
  }

  /** The head of a sequence heads its own class of ties. */
  lemma {:induction false} TiesHead<T(!new)>(s: seq<T>, le: (T, T) -> bool)
    requires TotalPreorder(le)
    ensures s != [] ==> Ties(s, s[0], le) == [s[0]] + Ties(s[1..], s[0], le)
  {
    if s != [] {
      assert le(s[0], s[0]);
      TiesCons(s[0], s[1..], s[0], le);
      assert s == [s[0]] + s[1..];
    }
  }

  /**
   * Sortedness plus stability determine the result: any stable sort by the
   * same key (such as Python's Timsort) returns what `Sort` returns.
   */
  lemma {:induction false} StableSortUnique<T(!new)>(a: seq<T>, b: seq<T>, le: (T, T) -> bool)
    requires TotalPreorder(le)
    requires SortedBy(a, le) && SortedBy(b, le)
    requires forall e :: Ties(a, e, le) == Ties(b, e, le)
    ensures a == b
    decreases |a|
  {
    TiesHead(a, le);
    TiesHead(b, le);
    if a != [] && b != [] {
      HeadsAgree(a, b, le);
      TailsTie(a, b, le);
      SortedTail(a, le);
      SortedTail(b, le);
      StableSortUnique(a[1..], b[1..], le);
      assert a == [a[0]] + a[1..] && b == [b[0]] + b[1..];
    }
  }

  lemma {:induction false} TailsTie<T>(a: seq<T>, b: seq<T>, le: (T, T) -> bool)
    requires a != [] && b != [] && a[0] == b[0]
    requires forall e :: Ties(a, e, le) == Ties(b, e, le)
    ensures forall e :: Ties(a[1..], e, le) == Ties(b[1..], e, le)
  {
    forall e ensures Ties(a[1..], e, le) == Ties(b[1..], e, le) {
      TiesCons(a[0], a[1..], e, le);
      TiesCons(b[0], b[1..], e, le);
      assert a == [a[0]] + a[1..] && b == [b[0]] + b[1..];
      var t0 := if le(a[0], e) && le(e, a[0]) then [a[0]] else [];
      assert Ties(a, e, le) == t0 + Ties(a[1..], e, le);
      assert Ties(b, e, le) == t0 + Ties(b[1..], e, le);
      assert Ties(a[1..], e, le) == Ties(a, e, le)[|t0|..];
    }
  }

  /** Two sorted sequences with the same classes of ties start with the same element. */
  lemma {:induction false} HeadsAgree<T(!new)>(a: seq<T>, b: seq<T>, le: (T, T) -> bool)
    requires TotalPreorder(le) && a != [] && b != []
    requires SortedBy(a, le) && SortedBy(b, le)
    requires forall e :: Ties(a, e, le) == Ties(b, e, le)
    ensures a[0] == b[0]
  {
    TiesHead(a, le);
    TiesHead(b, le);
    assert le(b[0], a[0]) by {
      assert a[0] in Ties(b, a[0], le);
      TiesMember(b, a[0], a[0], le);
      var k :| 0 <= k < |b| && b[k] == a[0];
      if k > 0 { assert le(b[0], b[k]); }
    }
    assert le(a[0], b[0]) by {
      assert b[0] in Ties(a, b[0], le);
      TiesMember(a, b[0], b[0], le);
      var m :| 0 <= m < |a| && a[m] == b[0];
      if m > 0 { assert le(a[0], a[m]); }
    }
    TiesCons(b[0], b[1..], a[0], le);
    assert b == [b[0]] + b[1..];
    assert Ties(b, a[0], le)[0] == b[0];
  }

  lemma {:induction false} TiesMember<T>(s: seq<T>, x: T, e: T, le: (T, T) -> bool)
    requires x in Ties(s, e, le)
    ensures x in s && le(x, e) && le(e, x)
  {
    if s != [] {
      if x in Ties(s[..|s| - 1], e, le) {
        TiesMember(s[..|s| - 1], x, e, le);
      }
    }
  }
}
