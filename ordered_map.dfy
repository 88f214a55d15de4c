/**
 * Python's insertion-ordered `dict`: a sequence of distinct keys in insertion
 * order beside the map that holds their values.
 */
module OrderedMaps {

  datatype OrderedMap<K(!new), V> = OrderedMap(keys: seq<K>, vals: map<K, V>)
  {
    /** Keys are distinct and are exactly the map's domain. */
    ghost predicate Valid()
    {
      && Distinct(keys)
      && (forall k :: k in vals <==> k in keys)
    }
  }

  /** No element of `s` occurs twice. */
  predicate Distinct<K(==)>(s: seq<K>)
  {
    forall i, j :: 0 <= i < j < |s| ==> s[i] != s[j]
  }

  /** The elements of `s` at their first occurrence: the keys a dict gains when `s` is assigned in order. */
  function FirstOccurrences<K(==,!new)>(s: seq<K>): seq<K>
  {
    if s == [] then []
    else
      var init, last := s[..|s| - 1], s[|s| - 1];
      FirstOccurrences(init) + (if last in init then [] else [last])
  }

  /** `FirstOccurrences(s)` lists every element of `s` exactly once. */
  lemma {:induction false} FirstOccurrencesDistinct<K(!new)>(s: seq<K>)
    ensures forall k :: k in FirstOccurrences(s) <==> k in s
    ensures Distinct(FirstOccurrences(s))
    decreases |s|
  {
    if s != [] {
      var init, last := s[..|s| - 1], s[|s| - 1];
      FirstOccurrencesDistinct(init);
      assert s == init + [last];
    }
  }

  lemma FirstOccurrencesSnoc<K(!new)>(s: seq<K>, k: K)
    ensures FirstOccurrences(s + [k]) == FirstOccurrences(s) + (if k in s then [] else [k])
  {
    assert (s + [k])[..|s|] == s;
  }

  function Empty<K(!new), V>(): (m: OrderedMap<K, V>)
    ensures m.Valid() && m.keys == []
  {
    OrderedMap([], map[])
  }

  /** `d[k] = v`: a new key goes to the end, an existing key keeps its place. */
  function Put<K(!new), V>(m: OrderedMap<K, V>, k: K, v: V): (r: OrderedMap<K, V>)
    requires m.Valid()
    ensures r.Valid()
    ensures r.vals == m.vals[k := v]
    ensures r.keys == if k in m.vals then m.keys else m.keys + [k]
  {
    OrderedMap(if k in m.vals then m.keys else m.keys + [k], m.vals[k := v])
  }

  /** The elements of `s` that lie in `keep`, in their order in `s`. */
  function FilterIn<K(!new)>(s: seq<K>, keep: set<K>): (r: seq<K>)
    ensures forall k :: k in r <==> k in s && k in keep
    ensures |r| <= |s|
  {
    if s == [] then []
    else FilterIn(s[..|s| - 1], keep) + (if s[|s| - 1] in keep then [s[|s| - 1]] else [])
  }

  lemma {:induction false} FilterInDistinct<K(!new)>(s: seq<K>, keep: set<K>)
    requires Distinct(s)
    ensures Distinct(FilterIn(s, keep))
  {
    if s != [] {
      var init, last := s[..|s| - 1], s[|s| - 1];
      FilterInDistinct(init, keep);
      forall i | 0 <= i < |init| ensures init[i] != last {
        assert s[i] != s[|s| - 1];
      }
      assert last !in FilterIn(init, keep);
    }
  }

  /**
   * The dict comprehension `{k: v for k, v in d.items() if k in keep}`: the kept
   * keys in their original order with their values unchanged.
   */
  function Restrict<K(!new), V>(m: OrderedMap<K, V>, keep: set<K>): (r: OrderedMap<K, V>)
    requires m.Valid()
    ensures r.Valid()
    ensures r.keys == FilterIn(m.keys, keep)
    ensures forall k :: k in r.vals <==> k in m.vals && k in keep
    ensures forall k :: k in r.vals ==> r.vals[k] == m.vals[k]
  {
    FilterInDistinct(m.keys, keep);
    OrderedMap(FilterIn(m.keys, keep), map k | k in m.vals && k in keep :: m.vals[k])
  }

  /** `list(d.items())`. */
  function Items<K(!new), V>(m: OrderedMap<K, V>): (r: seq<(K, V)>)
    requires m.Valid()
    ensures |r| == |m.keys|
    ensures forall i :: 0 <= i < |r| ==> r[i] == (m.keys[i], m.vals[m.keys[i]])
  {
    seq(|m.keys|, i requires 0 <= i < |m.keys| => (m.keys[i], m.vals[m.keys[i]]))
  }

  /** An entry is listed by `items()` exactly when its key maps to its value. */
  lemma ItemsMember<K(!new), V>(m: OrderedMap<K, V>, e: (K, V))
    requires m.Valid()
    ensures e in Items(m) <==> e.0 in m.vals && m.vals[e.0] == e.1
  {
    var r := Items(m);
    if e.0 in m.vals && m.vals[e.0] == e.1 {
      var i :| 0 <= i < |m.keys| && m.keys[i] == e.0;
      assert r[i] == e;
    }
  }
}
