/**
 * The generic container helpers of include/Common.h: sorted, getKeys,
 * getValues, getItems and hasOnly.
 *
 * A map is modelled by its entries in iteration order, a sequence of
 * (key, value) pairs; a std::map is such a sequence whose keys strictly
 * ascend. The map is passed by const reference, so the extractors take it
 * as a value and cannot change it.
 */
module Containers {

  // ---------------------------------------------------------------------------
  // sorted

  /** s is in non-decreasing order. */
  predicate IsSorted(s: seq<int>)
  {
    forall i, j :: 0 <= i < j < |s| ==> s[i] <= s[j]
  }

  /**
   * Two sorted arrangements of the same multiset are the same sequence: what
   * sorted returns depends only on the multiset of its input.
   */
  lemma {:induction false} SortedUnique(s: seq<int>, t: seq<int>)
    requires IsSorted(s) && IsSorted(t)
    requires multiset(s) == multiset(t)
    ensures s == t
  {
    if s == [] {
      assert |t| == |multiset(t)| == 0;
    } else {
      SortedHeadsEqual(s, t);
      MultisetTail(s);
      MultisetTail(t);
      SortedUnique(s[1..], t[1..]);
      assert s == [s[0]] + s[1..] && t == [t[0]] + t[1..];
    }
  }

  /** The first elements of two sorted arrangements of one multiset agree. */
  lemma SortedHeadsEqual(s: seq<int>, t: seq<int>)
    requires IsSorted(s) && IsSorted(t)
    requires multiset(s) == multiset(t)
    requires s != []
    ensures t != [] && s[0] == t[0]
  {
    assert s[0] in multiset(t);
    var j :| 0 <= j < |t| && t[j] == s[0];
    assert t[0] in multiset(s);
    var k :| 0 <= k < |s| && s[k] == t[0];
    assert t[0] <= t[j] && s[0] <= s[k];
  }

  lemma MultisetTail(s: seq<int>)
    requires s != []
    ensures multiset(s[1..]) == multiset(s) - multiset{s[0]}
  {
    assert s == [s[0]] + s[1..];
  }

  /**
   * sorted(container): sorts the container in place into non-decreasing order
   * and returns it. The result is a permutation of the input, and an input
   * that is already sorted comes back unchanged.
   */
  method Sorted(a: array<int>) returns (r: seq<int>)
    modifies a
    ensures r == a[..]
    ensures IsSorted(r)
    ensures multiset(r) == multiset(old(a[..]))
    ensures IsSorted(old(a[..])) ==> r == old(a[..])
  {
    SortInPlace(a);
    r := a[..];
    if IsSorted(old(a[..])) {
      SortedUnique(r, old(a[..]));
    }
  }

  /** The in-place sort that std::sort performs, here as insertion sort. */
  method SortInPlace(a: array<int>)
    modifies a
    ensures IsSorted(a[..])
    ensures multiset(a[..]) == multiset(old(a[..]))
  {
    var i := 0;
    while i < a.Length
      invariant 0 <= i <= a.Length
      invariant IsSorted(a[..i])
      invariant multiset(a[..]) == multiset(old(a[..]))
    {
      Insert(a, i);
      i := i + 1;
    }
    assert a[..i] == a[..];
  }

  /** Moves a[i] down into the sorted prefix a[..i], leaving a[..i + 1] sorted. */
  method Insert(a: array<int>, i: nat)
    requires i < a.Length
    requires IsSorted(a[..i])
    modifies a
    ensures IsSorted(a[..i + 1])
    ensures multiset(a[..]) == multiset(old(a[..]))
  {
    var j := i;
    // a[j] is the element being inserted; all others in a[..i + 1] are in order
    while 0 < j && a[j] < a[j - 1]
      invariant 0 <= j <= i
      invariant forall k, l :: 0 <= k < l <= i && k != j && l != j ==> a[k] <= a[l]
      invariant forall l :: j < l <= i ==> a[j] < a[l]
      invariant multiset(a[..]) == multiset(old(a[..]))
    {
      SwapDown(a, j);
      j := j - 1;
    }
  }

  /** Exchanges a[j - 1] and a[j]. */
  method SwapDown(a: array<int>, j: nat)
    requires 0 < j < a.Length
    modifies a
    ensures a[j - 1] == old(a[j]) && a[j] == old(a[j - 1])
    ensures forall k :: 0 <= k < a.Length && k != j - 1 && k != j ==> a[k] == old(a[k])
    ensures multiset(a[..]) == multiset(old(a[..]))
  {
    a[j - 1], a[j] := a[j], a[j - 1];
  }

  // ---------------------------------------------------------------------------
  // getKeys, getValues, getItems

  /** The keys of the entries of m, in iteration order. */
  function KeysOf<K, V>(m: seq<(K, V)>): seq<K>
  {
    if m == [] then [] else KeysOf(m[..|m| - 1]) + [m[|m| - 1].0]
  }

  /** The values of the entries of m, in iteration order. */
  function ValuesOf<K, V>(m: seq<(K, V)>): seq<V>
  {
    if m == [] then [] else ValuesOf(m[..|m| - 1]) + [m[|m| - 1].1]
  }

  /** Element i of KeysOf(m) is the key of entry i; one key per entry. */
  lemma {:induction false} KeysOfEntries<K, V>(m: seq<(K, V)>)
    ensures |KeysOf(m)| == |m|
    ensures forall i :: 0 <= i < |m| ==> KeysOf(m)[i] == m[i].0
  {
    if m != [] {
      KeysOfEntries(m[..|m| - 1]);
    }
  }

  /** Element i of ValuesOf(m) is the value of entry i; one value per entry. */
  lemma {:induction false} ValuesOfEntries<K, V>(m: seq<(K, V)>)
    ensures |ValuesOf(m)| == |m|
    ensures forall i :: 0 <= i < |m| ==> ValuesOf(m)[i] == m[i].1
  {
    if m != [] {
      ValuesOfEntries(m[..|m| - 1]);
    }
  }

  /** getKeys(map): a fresh vector holding the key of each entry, in iteration order. */
  method GetKeys<K, V>(m: seq<(K, V)>) returns (keys: seq<K>)
    ensures keys == KeysOf(m)
    ensures |keys| == |m|
    ensures forall i :: 0 <= i < |m| ==> keys[i] == m[i].0
  {
    keys := [];
    var i := 0;
    while i < |m|
      invariant 0 <= i <= |m|
      invariant keys == KeysOf(m[..i])
    {
      assert m[..i + 1][..i] == m[..i];
      keys := keys + [m[i].0];
      i := i + 1;
    }
    assert m[..i] == m;
    KeysOfEntries(m);
  }

  /** getValues(map): a fresh vector holding the value of each entry, in iteration order. */
  method GetValues<K, V>(m: seq<(K, V)>) returns (values: seq<V>)
    ensures values == ValuesOf(m)
    ensures |values| == |m|
    ensures forall i :: 0 <= i < |m| ==> values[i] == m[i].1
  {
    values := [];
    var i := 0;
    while i < |m|
      invariant 0 <= i <= |m|
      invariant values == ValuesOf(m[..i])
    {
      assert m[..i + 1][..i] == m[..i];
      values := values + [m[i].1];
      i := i + 1;
    }
    assert m[..i] == m;
    ValuesOfEntries(m);
  }

  /**
   * getItems(map): a fresh vector holding a copy of each entry, in iteration
   * order; item i pairs key i of getKeys with value i of getValues.
   */
  method GetItems<K, V>(m: seq<(K, V)>) returns (items: seq<(K, V)>)
    ensures items == m
    ensures |items| == |KeysOf(m)| == |ValuesOf(m)|
    ensures forall i :: 0 <= i < |items| ==> items[i] == (KeysOf(m)[i], ValuesOf(m)[i])
  {
    items := [];
    var i := 0;
    while i < |m|
      invariant 0 <= i <= |m|
      invariant items == m[..i]
    {
      items := items + [m[i]];
      i := i + 1;
    }
    KeysOfEntries(m);
    ValuesOfEntries(m);
  }

  /** Each entry is the pair of the key and the value at the same position. */
  lemma ItemsAreKeyValuePairs<K, V>(m: seq<(K, V)>)
    ensures |KeysOf(m)| == |ValuesOf(m)| == |m|
    ensures forall i :: 0 <= i < |m| ==> m[i] == (KeysOf(m)[i], ValuesOf(m)[i])
  {
    KeysOfEntries(m);
    ValuesOfEntries(m);
  }

  /** No two entries share a key, as in any std::map or std::unordered_map. */
  predicate DistinctKeys<K(==), V>(m: seq<(K, V)>)
  {
    forall i, j :: 0 <= i < j < |m| ==> m[i].0 != m[j].0
  }

  /** The entries of a std::map: keys strictly ascend in iteration order. */
  predicate IsOrderedMap<V>(m: seq<(int, V)>)
  {
    forall i, j :: 0 <= i < j < |m| ==> m[i].0 < m[j].0
  }

  /** For a std::map, getKeys comes out strictly ascending. */
  lemma OrderedMapKeysAscend<V>(m: seq<(int, V)>)
    requires IsOrderedMap(m)
    ensures forall i, j :: 0 <= i < j < |KeysOf(m)| ==> KeysOf(m)[i] < KeysOf(m)[j]
  {
    KeysOfEntries(m);
  }

  /** The mapping from keys to values that the entries of m represent. */
  function AsMap<K(==), V>(m: seq<(K, V)>): map<K, V>
  {
    if m == [] then map[] else AsMap(m[..|m| - 1])[m[|m| - 1].0 := m[|m| - 1].1]
  }

  /**
   * With distinct keys, KeysOf lists every key of the mapping exactly once,
   * and ValuesOf gives, at each position, the value the mapping holds for
   * the key at that position (so a value held by several keys appears once
   * per key).
   */
  lemma {:induction false} ExtractionMatchesMap<K, V>(m: seq<(K, V)>)
    requires DistinctKeys(m)
    ensures |AsMap(m)| == |KeysOf(m)| == |ValuesOf(m)| == |m|
    ensures forall k :: k in AsMap(m) <==> k in KeysOf(m)
    ensures forall i :: 0 <= i < |m| ==> KeysOf(m)[i] in AsMap(m) && AsMap(m)[KeysOf(m)[i]] == ValuesOf(m)[i]
  {
    KeysOfEntries(m);
    ValuesOfEntries(m);
    if m != [] {
      var p, e := m[..|m| - 1], m[|m| - 1];
      ExtractionMatchesMap(p);
      KeysOfEntries(p);
      assert KeysOf(m) == KeysOf(p) + [e.0];
      forall j | 0 <= j < |p|
        ensures KeysOf(p)[j] != e.0
      {
        assert KeysOf(p)[j] == m[j].0;
      }
      assert AsMap(m).Keys == AsMap(p).Keys + {e.0};
      forall i | 0 <= i < |m|
        ensures KeysOf(m)[i] in AsMap(m) && AsMap(m)[KeysOf(m)[i]] == ValuesOf(m)[i]
      {
        if i < |p| {
          assert KeysOf(m)[i] == KeysOf(p)[i] != e.0;
        }
      }
    }
  }

  // ---------------------------------------------------------------------------
  // hasOnly

  /**
   * hasOnly(haystack, needle): true exactly when every element equals needle
   * (so true for an empty haystack). The scan stops at the first element that
   * differs.
   */
  method HasOnly<T(==)>(haystack: seq<T>, needle: T) returns (b: bool)
    ensures b <==> forall i :: 0 <= i < |haystack| ==> haystack[i] == needle
  {
    var i := 0;
    while i < |haystack|
      invariant 0 <= i <= |haystack|
      invariant forall k :: 0 <= k < i ==> haystack[k] == needle
    {
      if haystack[i] != needle {
        return false;
      }
      i := i + 1;
    }
    return true;
  }
}
