/**
 * Scored emoji names and the first-occurrence de-duplication that both query
 * front ends perform with a `nameset` / `matchset` guard: walk a list of
 * candidates and emit a candidate only if its name has not been emitted yet.
 */
module Ranking {

  /** An emoji name paired with a similarity score. */
  datatype Scored = Scored(name: string, score: real)

  function Names(s: seq<Scored>): set<string>
  {
    set x | x in s :: x.name
  }

  lemma NamesSnoc(s: seq<Scored>, x: Scored)
    ensures Names(s + [x]) == Names(s) + {x.name}
  {
    assert forall y :: y in s + [x] <==> y in s || y == x;
  }

  predicate DistinctNames(s: seq<Scored>)
  {
    forall i, j :: 0 <= i < j < |s| ==> s[i].name != s[j].name
  }

  /** Scores never increase along the list. */
  predicate Descending(s: seq<Scored>)
  {
    forall i, j :: 0 <= i < j < |s| ==> s[j].score <= s[i].score
  }

  /** The sort key of a descending, stable sort by score. */
  function NegScore(x: Scored): real
  {
    -x.score
  }

  /**
   * Starting from the already emitted `acc`, walk `xs` left to right and append
   * each candidate whose name is not yet among the emitted names.
   */
  function DedupOnto(acc: seq<Scored>, xs: seq<Scored>): (r: seq<Scored>)
    ensures |acc| <= |r| && r[..|acc|] == acc
  {
    if |xs| == 0 then acc
    else
      var r' := DedupOnto(acc, xs[..|xs| - 1]);
      if xs[|xs| - 1].name in Names(r') then r' else r' + [xs[|xs| - 1]]
  }

  /** De-duplication emits every name of `acc` and `xs` and no other. */
  lemma {:induction false} DedupOntoNames(acc: seq<Scored>, xs: seq<Scored>)
    ensures Names(DedupOnto(acc, xs)) == Names(acc) + Names(xs)
  {
    if |xs| > 0 {
      var xs' := xs[..|xs| - 1];
      var x := xs[|xs| - 1];
      DedupOntoNames(acc, xs');
      assert xs == xs' + [x];
      NamesSnoc(xs', x);
      if x.name !in Names(DedupOnto(acc, xs')) {
        NamesSnoc(DedupOnto(acc, xs'), x);
      }
    }
  }

  /** De-duplication onto a list without repeated names never repeats a name. */
  lemma {:induction false} DedupOntoDistinct(acc: seq<Scored>, xs: seq<Scored>)
    requires DistinctNames(acc)
    ensures DistinctNames(DedupOnto(acc, xs))
  {
    if |xs| > 0 {
      var xs' := xs[..|xs| - 1];
      var x := xs[|xs| - 1];
      var r' := DedupOnto(acc, xs');
      DedupOntoDistinct(acc, xs');
      if x.name !in Names(r') {
        assert forall i :: 0 <= i < |r'| ==> r'[i].name in Names(r');
      }
    }
  }

  /** Every entry appended past `acc` is one of the candidates. */
  lemma {:induction false} DedupOntoFrom(acc: seq<Scored>, xs: seq<Scored>)
    ensures forall i :: |acc| <= i < |DedupOnto(acc, xs)| ==> DedupOnto(acc, xs)[i] in xs
  {
    if |xs| > 0 {
      var xs' := xs[..|xs| - 1];
      DedupOntoFrom(acc, xs');
      assert forall y :: y in xs' ==> y in xs;
    }
  }

  /** First-occurrence de-duplication of a whole list. */
  function Dedup(xs: seq<Scored>): seq<Scored>
  {
    DedupOnto([], xs)
  }

  /** Python's `s[:n]`, including its reading of a negative `n` as "all but the last -n". */
  function Prefix<T>(s: seq<T>, n: int): (r: seq<T>)
    ensures n >= 0 ==> |r| == if n < |s| then n else |s|
    ensures |r| <= |s| && r == s[..|r|]
  {
    if n >= 0 then (if n < |s| then s[..n] else s)
    else if |s| + n > 0 then s[..|s| + n]
    else []
  }

  /** Python's `s[n:]`: a negative `n` counts from the end, and a start outside the list is clamped. */
  function Suffix<T>(s: seq<T>, n: int): (r: seq<T>)
    ensures |r| <= |s| && r == s[|s| - |r|..]
  {
    if n >= 0 then (if n < |s| then s[n..] else [])
    else if |s| + n > 0 then s[|s| + n..]
    else s
  }

  lemma {:induction false} DedupOntoSnoc(acc: seq<Scored>, xs: seq<Scored>, x: Scored)
    ensures DedupOnto(acc, xs + [x]) ==
            if x.name in Names(DedupOnto(acc, xs)) then DedupOnto(acc, xs) else DedupOnto(acc, xs) + [x]
  {
    assert (xs + [x])[..|xs + [x]| - 1] == xs;
  }

  /** De-duplicating a concatenation is de-duplicating its second part onto the first's result. */
  lemma {:induction false} DedupOntoAppend(acc: seq<Scored>, xs: seq<Scored>, ys: seq<Scored>)
    ensures DedupOnto(acc, xs + ys) == DedupOnto(DedupOnto(acc, xs), ys)
    decreases |ys|
  {
    if |ys| == 0 {
      assert xs + ys == xs;
    } else {
      var ys' := ys[..|ys| - 1];
      var y := ys[|ys| - 1];
      assert ys == ys' + [y];
      assert xs + ys == (xs + ys') + [y];
      DedupOntoAppend(acc, xs, ys');
      DedupOntoSnoc(acc, xs + ys', y);
      DedupOntoSnoc(DedupOnto(acc, xs), ys', y);
    }
  }

  /** One emitted candidate against one candidate of the same name in a descending list. */
  lemma {:induction false} DedupBestAt(xs: seq<Scored>, i: nat, j: nat)
    requires Descending(xs)
    requires i < |Dedup(xs)| && j < |xs| && xs[j].name == Dedup(xs)[i].name
    ensures xs[j].score <= Dedup(xs)[i].score
  {
    var n := |xs| - 1;
    var xs' := xs[..n];
    assert xs == xs' + [xs[n]];
    DedupOntoSnoc([], xs', xs[n]);
    if i < |Dedup(xs')| {
      assert Dedup(xs)[i] == Dedup(xs')[i];
      if j < n {
        assert xs'[j] == xs[j];
        assert Descending(xs');
        DedupBestAt(xs', i, j);
      } else {
        DedupBestLast(xs, i);
      }
    } else {
      DedupNewName(xs, j);
      assert Dedup(xs)[i] == xs[n];
    }
  }

  /** The last candidate scores no more than any earlier emitted one. */
  lemma DedupBestLast(xs: seq<Scored>, i: nat)
    requires Descending(xs) && |xs| > 0
    requires i < |Dedup(xs[..|xs| - 1])|
    ensures xs[|xs| - 1].score <= Dedup(xs[..|xs| - 1])[i].score
  {
    var xs' := xs[..|xs| - 1];
    DedupOntoFrom([], xs');
    assert Dedup(xs')[i] in xs';
    var k :| 0 <= k < |xs'| && xs'[k] == Dedup(xs')[i];
    assert xs[k] == xs'[k];
  }

  /** When the last candidate is emitted, no earlier candidate has its name. */
  lemma DedupNewName(xs: seq<Scored>, j: nat)
    requires |xs| > 0 && j < |xs|
    requires xs[|xs| - 1].name !in Names(Dedup(xs[..|xs| - 1]))
    requires xs[j].name == xs[|xs| - 1].name
    ensures j == |xs| - 1
  {
    var xs' := xs[..|xs| - 1];
    DedupOntoNames([], xs');
    assert forall k :: 0 <= k < |xs'| ==> xs'[k] in xs' && xs'[k].name in Names(xs');
    assert forall k :: 0 <= k < |xs'| ==> xs[k] == xs'[k];
  }

  /** Every emitted candidate keeps the best score that its name has anywhere in a descending list. */
  lemma DedupKeepsBestScore(xs: seq<Scored>)
    requires Descending(xs)
    ensures forall i, j :: 0 <= i < |Dedup(xs)| && 0 <= j < |xs| && xs[j].name == Dedup(xs)[i].name ==>
              xs[j].score <= Dedup(xs)[i].score
  {
    forall i, j | 0 <= i < |Dedup(xs)| && 0 <= j < |xs| && xs[j].name == Dedup(xs)[i].name
      ensures xs[j].score <= Dedup(xs)[i].score
    {
      DedupBestAt(xs, i, j);
    }
  }

  /** A de-duplicated descending list is still descending. */
  lemma {:induction false} DedupKeepsDescending(xs: seq<Scored>)
    requires Descending(xs)
    ensures Descending(Dedup(xs))
  {
    if |xs| > 0 {
      var xs' := xs[..|xs| - 1];
      var y := xs[|xs| - 1];
      assert xs == xs' + [y];
      assert Descending(xs');
      DedupKeepsDescending(xs');
      DedupOntoSnoc([], xs', y);
      var d' := Dedup(xs');
      DedupOntoFrom([], xs');
      forall i | 0 <= i < |d'|
        ensures y.score <= d'[i].score
      {
        assert d'[i] in xs';
        var j :| 0 <= j < |xs'| && xs'[j] == d'[i];
        assert xs[j] == d'[i];
      }
    }
  }

  /** A list whose names are already distinct is its own de-duplication. */
  lemma {:induction false} DedupDistinctIsIdentity(xs: seq<Scored>)
    requires DistinctNames(xs)
    ensures Dedup(xs) == xs
  {
    if |xs| > 0 {
      var xs' := xs[..|xs| - 1];
      var x := xs[|xs| - 1];
      assert xs == xs' + [x];
      DedupDistinctIsIdentity(xs');
      DedupOntoSnoc([], xs', x);
      assert x.name !in Names(xs');
    }
  }
}
