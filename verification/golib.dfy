/** The two pieces of Go the engine leans on: sort.Slice, which promises a sorted permutation and
    nothing about equal keys, and ranging over a map, which visits every key once in some order. */
module GoLib {

  ghost predicate SortedBy<T>(s: seq<T>, key: T -> int) {
    forall i, j :: 0 <= i < j < |s| ==> key(s[i]) <= key(s[j])
  }

  ghost predicate NoDuplicates<T>(s: seq<T>) {
    forall i, j :: 0 <= i < j < |s| ==> s[i] != s[j]
  }

  method SortSlice<T>(s: seq<T>, key: T -> int) returns (r: seq<T>)
    ensures SortedBy(r, key)
    ensures multiset(r) == multiset(s)
  {
    r := [];
    for i := 0 to |s|
      invariant SortedBy(r, key)
      invariant multiset(r) == multiset(s[..i])
    {
      assert s[..i + 1] == s[..i] + [s[i]];
      r := Insert(r, s[i], key);
    }
    assert s[..|s|] == s;
  }

  method Insert<T>(s: seq<T>, x: T, key: T -> int) returns (r: seq<T>)
    requires SortedBy(s, key)
    ensures SortedBy(r, key)
    ensures multiset(r) == multiset(s) + multiset{x}
  {
    var k := 0;
    while k < |s| && key(s[k]) < key(x)
      invariant 0 <= k <= |s|
      invariant forall i :: 0 <= i < k ==> key(s[i]) < key(x)
    {
      k := k + 1;
    }
    InsertedIsSorted(s, k, x, key);
    r := s[..k] + [x] + s[k..];
    assert s == s[..k] + s[k..];
  }

  lemma InsertedIsSorted<T>(s: seq<T>, k: nat, x: T, key: T -> int)
    requires SortedBy(s, key) && k <= |s|
    requires forall i :: 0 <= i < k ==> key(s[i]) < key(x)
    requires k < |s| ==> key(x) <= key(s[k])
    ensures SortedBy(s[..k] + [x] + s[k..], key)
  {
    var r := s[..k] + [x] + s[k..];
    forall i, j | 0 <= i < j < |r|
      ensures key(r[i]) <= key(r[j])
    {
      var a, b := if i <= k then i else i - 1, if j <= k then j else j - 1;
      assert r[i] == if i == k then x else s[a];
      assert r[j] == if j == k then x else s[b];
    }
  }

  method RangeKeys<K(==), V>(m: map<K, V>) returns (order: seq<K>)
    ensures NoDuplicates(order)
    ensures forall k :: k in order <==> k in m
    ensures |order| == |m|
  {
    order := [];
    var todo := m.Keys;
    while todo != {}
      invariant NoDuplicates(order)
      invariant forall k :: k in order <==> k in m && k !in todo
      invariant todo <= m.Keys && |order| + |todo| == |m|
      decreases todo
    {
      var k :| k in todo;
      order := order + [k];
      todo := todo - {k};
    }
  }

  lemma {:induction false} NoDuplicatesCount<T>(s: seq<T>, x: T)
    requires NoDuplicates(s)
    ensures multiset(s)[x] <= 1
  {
    if s != [] {
      var init, last := s[..|s| - 1], s[|s| - 1];
      NoDuplicatesCount(init, x);
      assert s == init + [last];
      assert last !in init;
    }
  }

  /** A permutation of a list without duplicates has none either. */
  lemma PermutationKeepsDistinct<T>(a: seq<T>, b: seq<T>)
    requires NoDuplicates(a) && multiset(a) == multiset(b)
    ensures NoDuplicates(b) && |a| == |b|
    ensures forall x :: x in a <==> x in b
  {
    assert |multiset(a)| == |multiset(b)|;
    assert forall x :: x in a <==> x in multiset(a);
    assert forall x :: x in b <==> x in multiset(b);
    forall i, j | 0 <= i < j < |b|
      ensures b[i] != b[j]
    {
      NoDuplicatesCount(a, b[i]);
      assert b == b[..j] + b[j..];
      assert b[..j][i] == b[i] && b[j..][0] == b[j];
      assert multiset(b)[b[i]] == multiset(b[..j])[b[i]] + multiset(b[j..])[b[i]];
    }
  }
}
