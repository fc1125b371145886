/**
 * Python's `list.sort(key=...)`: a stable sort by ascending key.  The model is an
 * insertion sort that places each element after every element whose key is not
 * larger, which is exactly what stability means.  A descending sort
 * (`reverse=True`, also stable in Python) is this sort with the key negated.
 */
module Sorting {

  predicate SortedBy<T>(s: seq<T>, key: T -> real)
  {
    forall i, j :: 0 <= i < j < |s| ==> key(s[i]) <= key(s[j])
  }

  /** No element occurs twice. */
  predicate NoDuplicates<T(==)>(s: seq<T>)
  {
    forall i, j :: 0 <= i < j < |s| ==> s[i] != s[j]
  }

  /** The elements of `s` whose key is `k`, in their order in `s`. */
  function WithKey<T>(s: seq<T>, key: T -> real, k: real): seq<T>
  {
    if |s| == 0 then []
    else WithKey(s[..|s| - 1], key, k) + (if key(s[|s| - 1]) == k then [s[|s| - 1]] else [])
  }

  /** Inserts `x` after every trailing element whose key exceeds key(x). */
  function Insert<T>(s: seq<T>, x: T, key: T -> real): (r: seq<T>)
    ensures |r| == |s| + 1
    ensures multiset(r) == multiset(s) + multiset{x}
    ensures SortedBy(s, key) ==> SortedBy(r, key)
  {
    if |s| == 0 || key(s[|s| - 1]) <= key(x) then s + [x]
    else
      var y := s[|s| - 1];
      var r' := Insert(s[..|s| - 1], x, key);
      assert s == s[..|s| - 1] + [y];
      BoundedRearrangement(r', s[..|s| - 1], x, key, key(y));
      r' + [y]
  }

  /** A bound on the keys of `s` and of `x` bounds every rearrangement of them. */
  lemma BoundedRearrangement<T>(r: seq<T>, s: seq<T>, x: T, key: T -> real, b: real)
    requires multiset(r) == multiset(s) + multiset{x}
    ensures (forall i :: 0 <= i < |s| ==> key(s[i]) <= b) && key(x) <= b ==>
              forall i :: 0 <= i < |r| ==> key(r[i]) <= b
  {
    if (forall i :: 0 <= i < |s| ==> key(s[i]) <= b) && key(x) <= b {
      forall i | 0 <= i < |r|
        ensures key(r[i]) <= b
      {
        assert r[i] in multiset(r);
        assert r[i] in multiset(s) || r[i] == x;
      }
    }
  }

  function SortBy<T>(s: seq<T>, key: T -> real): (r: seq<T>)
    ensures |r| == |s|
    ensures multiset(r) == multiset(s)
    ensures SortedBy(r, key)
  {
    if |s| == 0 then []
    else
      assert s == s[..|s| - 1] + [s[|s| - 1]];
      Insert(SortBy(s[..|s| - 1], key), s[|s| - 1], key)
  }

  /** Sorting neither adds nor loses an element. */
  lemma SortByMembers<T>(s: seq<T>, key: T -> real, x: T)
    ensures x in SortBy(s, key) <==> x in s
  {
    assert x in SortBy(s, key) <==> x in multiset(SortBy(s, key));
    assert x in s <==> x in multiset(s);
  }

  lemma {:induction false} WithKeySnoc<T>(s: seq<T>, x: T, key: T -> real, k: real)
    ensures WithKey(s + [x], key, k) == WithKey(s, key, k) + (if key(x) == k then [x] else [])
  {
    assert (s + [x])[..|s + [x]| - 1] == s;
  }

  lemma {:induction false} InsertIsStable<T>(s: seq<T>, x: T, key: T -> real, k: real)
    ensures WithKey(Insert(s, x, key), key, k) == WithKey(s + [x], key, k)
    decreases |s|
  {
    if |s| == 0 || key(s[|s| - 1]) <= key(x) {
    } else {
      var s' := s[..|s| - 1];
      var y := s[|s| - 1];
      var gx := if key(x) == k then [x] else [];
      var gy := if key(y) == k then [y] else [];
      assert s == s' + [y];
      assert gx == [] || gy == [];
      calc {
        WithKey(Insert(s, x, key), key, k);
        { assert Insert(s, x, key) == Insert(s', x, key) + [y]; }
        WithKey(Insert(s', x, key) + [y], key, k);
        { WithKeySnoc(Insert(s', x, key), y, key, k); }
        WithKey(Insert(s', x, key), key, k) + gy;
        { InsertIsStable(s', x, key, k); }
        WithKey(s' + [x], key, k) + gy;
        { WithKeySnoc(s', x, key, k); }
        WithKey(s', key, k) + gx + gy;
        WithKey(s', key, k) + gy + gx;
        { WithKeySnoc(s', y, key, k); }
        WithKey(s, key, k) + gx;
        { WithKeySnoc(s, x, key, k); }
        WithKey(s + [x], key, k);
      }
    }
  }

  /** Stability: for every key, the elements carrying it keep their relative order. */
  lemma {:induction false} SortByIsStable<T>(s: seq<T>, key: T -> real, k: real)
    ensures WithKey(SortBy(s, key), key, k) == WithKey(s, key, k)
  {
    if |s| > 0 {
      var s' := s[..|s| - 1];
      var x := s[|s| - 1];
      assert s == s' + [x];
      calc {
        WithKey(SortBy(s, key), key, k);
        WithKey(Insert(SortBy(s', key), x, key), key, k);
        { InsertIsStable(SortBy(s', key), x, key, k); }
        WithKey(SortBy(s', key) + [x], key, k);
        { WithKeySnoc(SortBy(s', key), x, key, k); }
        WithKey(SortBy(s', key), key, k) + (if key(x) == k then [x] else []);
        { SortByIsStable(s', key, k); }
        WithKey(s', key, k) + (if key(x) == k then [x] else []);
        { WithKeySnoc(s', x, key, k); }
        WithKey(s, key, k);
      }
    }
  }

  /** Sorting an already sorted list leaves it unchanged. */
  lemma {:induction false} SortBySortedIsIdentity<T>(s: seq<T>, key: T -> real)
    requires SortedBy(s, key)
    ensures SortBy(s, key) == s
  {
    if |s| > 0 {
      var s' := s[..|s| - 1];
      assert SortedBy(s', key);
      SortBySortedIsIdentity(s', key);
      assert s == s' + [s[|s| - 1]];
    }
  }

  /** Sorting is idempotent, so sorting a list in place twice equals sorting it once. */
  lemma SortByIdempotent<T>(s: seq<T>, key: T -> real)
    ensures SortBy(SortBy(s, key), key) == SortBy(s, key)
  {
    SortBySortedIsIdentity(SortBy(s, key), key);
  }

  lemma {:induction false} InsertKeepsNoDuplicates<T>(s: seq<T>, x: T, key: T -> real)
    requires NoDuplicates(s) && x !in s
    ensures NoDuplicates(Insert(s, x, key))
    decreases |s|
  {
    if |s| == 0 || key(s[|s| - 1]) <= key(x) {
    } else {
      var s' := s[..|s| - 1];
      var y := s[|s| - 1];
      assert s == s' + [y];
      InsertKeepsNoDuplicates(s', x, key);
      var r' := Insert(s', x, key);
      assert y !in multiset(r');
    }
  }

  lemma {:induction false} SortByKeepsNoDuplicates<T>(s: seq<T>, key: T -> real)
    requires NoDuplicates(s)
    ensures NoDuplicates(SortBy(s, key))
  {
    if |s| > 0 {
      var s' := s[..|s| - 1];
      var x := s[|s| - 1];
      assert s == s' + [x];
      SortByKeepsNoDuplicates(s', key);
      assert x !in multiset(SortBy(s', key));
      InsertKeepsNoDuplicates(SortBy(s', key), x, key);
    }
  }

  /** Two positions that share a key make that key's group at least two long. */
  lemma {:induction false} SharedKeyGroup<T>(s: seq<T>, key: T -> real, i: nat, j: nat)
    requires i < j < |s| && key(s[i]) == key(s[j])
    ensures |WithKey(s, key, key(s[j]))| >= 2
  {
    var s' := s[..|s| - 1];
    assert s == s' + [s[|s| - 1]];
    WithKeySnoc(s', s[|s| - 1], key, key(s[j]));
    if j < |s| - 1 {
      SharedKeyGroup(s', key, i, j);
    } else {
      WithKeyContains(s', key, i);
    }
  }

  lemma {:induction false} WithKeyContains<T>(s: seq<T>, key: T -> real, i: nat)
    requires i < |s|
    ensures |WithKey(s, key, key(s[i]))| >= 1
  {
    var s' := s[..|s| - 1];
    assert s == s' + [s[|s| - 1]];
    WithKeySnoc(s', s[|s| - 1], key, key(s[i]));
    if i < |s| - 1 {
      WithKeyContains(s', key, i);
    }
  }

  /** When no two elements share a key, every key's group has at most one element. */
  lemma {:induction false} DistinctKeysGroup<T>(s: seq<T>, key: T -> real, k: real)
    requires forall i, j :: 0 <= i < j < |s| ==> key(s[i]) != key(s[j])
    ensures |WithKey(s, key, k)| <= 1
  {
    if |s| > 0 {
      var s' := s[..|s| - 1];
      var x := s[|s| - 1];
      assert s == s' + [x];
      DistinctKeysGroup(s', key, k);
      WithKeySnoc(s', x, key, k);
      if key(x) == k && |WithKey(s', key, k)| == 1 {
        WithKeyMember(s', key, k, WithKey(s', key, k)[0]);
      }
    }
  }

  lemma {:induction false} WithKeyMember<T>(s: seq<T>, key: T -> real, k: real, w: T)
    requires w in WithKey(s, key, k)
    ensures w in s && key(w) == k
  {
    if |s| > 0 {
      var s' := s[..|s| - 1];
      assert s == s' + [s[|s| - 1]];
      if w in WithKey(s', key, k) {
        WithKeyMember(s', key, k, w);
      }
    }
  }

  /** Sorting a list whose keys are pairwise distinct yields strictly increasing keys. */
  lemma SortByDistinctKeysIsStrict<T>(s: seq<T>, key: T -> real)
    requires forall i, j :: 0 <= i < j < |s| ==> key(s[i]) != key(s[j])
    ensures forall i, j :: 0 <= i < j < |SortBy(s, key)| ==> key(SortBy(s, key)[i]) < key(SortBy(s, key)[j])
  {
    var r := SortBy(s, key);
    forall i, j | 0 <= i < j < |r|
      ensures key(r[i]) < key(r[j])
    {
      if key(r[i]) == key(r[j]) {
        SharedKeyGroup(r, key, i, j);
        SortByIsStable(s, key, key(r[j]));
        DistinctKeysGroup(s, key, key(r[j]));
        assert false;
      }
    }
  }
}
