/**
 * The top-`num` step of `similar`: `np.argpartition(dotprod, -num)[-num:]`
 * followed by an `argsort` of the chosen scores, reversed.  NumPy's partition
 * and sort do not fix the order of equal scores, so a valid choice is any
 * sequence of distinct in-range indices, best score first, that no other
 * index beats; `Ranked` gives one such choice, breaking ties by index.
 */
module Top {

  import Sorting
  import Ranking

  /**
   * How many indices `argpartition(a, -num)[-num:]` keeps on `r` scores:
   * `num` for a positive `num`, and for `num <= 0` the slice `[-num:]` keeps
   * all but the first `-num` positions.
   */
  function TopCount(r: nat, num: int): (k: int)
    ensures KthInRange(r, num) ==> k == |Ranking.Suffix(Indices(r), -num)|
  {
    if 0 < num then num else r + num
  }

  /** `argpartition` accepts `kth = -num` only when `-r <= -num < r`; otherwise it raises ValueError. */
  predicate KthInRange(r: nat, num: int)
  {
    -(r as int) < num <= r
  }

  lemma TopCountInRange(r: nat, num: int)
    requires KthInRange(r, num)
    ensures 0 <= TopCount(r, num) <= r
    ensures num == 0 ==> TopCount(r, num) == r
  {
  }

  /**
   * `m` is an acceptable `sortedmatches` for `k`: `k` distinct indices of
   * `scores`, in non-increasing score order, none scoring below an index left out.
   */
  ghost predicate IsTopSelection(scores: seq<real>, m: seq<nat>, k: nat)
  {
    && |m| == k
    && (forall i :: 0 <= i < |m| ==> m[i] < |scores|)
    && (forall i, j :: 0 <= i < j < |m| ==> m[i] != m[j])
    && (forall i, j :: 0 <= i < j < |m| ==> scores[m[j]] <= scores[m[i]])
    && (forall i, j :: 0 <= i < |m| && 0 <= j < |scores| && j !in m ==> scores[j] <= scores[m[i]])
  }

  /** The indices `0 .. n-1`. */
  function Indices(n: nat): (s: seq<nat>)
    ensures |s| == n && forall i :: 0 <= i < n ==> s[i] == i
  {
    seq(n, i requires 0 <= i < n => i as nat)
  }

  /** The negated score of index `i`, so that an ascending sort puts higher scores first. */
  function NegScoreAt(scores: seq<real>, i: nat): real
  {
    if i < |scores| then -scores[i] else 0.0
  }

  function ScoreKey(scores: seq<real>): nat -> real
  {
    (i: nat) => NegScoreAt(scores, i)
  }

  /** All indices, best score first, equal scores in index order. */
  function Ranked(scores: seq<real>): seq<nat>
  {
    Sorting.SortBy(Indices(|scores|), ScoreKey(scores))
  }

  /** The first `k` ranked indices: one valid outcome of the partition and the sort. */
  function TopSelection(scores: seq<real>, k: nat): seq<nat>
    requires k <= |scores|
  {
    Ranked(scores)[..k]
  }

  /** Every index appears in the ranking exactly once. */
  lemma RankedIsPermutation(scores: seq<real>)
    ensures |Ranked(scores)| == |scores|
    ensures forall i :: 0 <= i < |scores| ==> Ranked(scores)[i] < |scores|
    ensures forall j :: 0 <= j < |scores| ==> j in Ranked(scores)
    ensures Sorting.NoDuplicates(Ranked(scores))
  {
    var ix := Indices(|scores|);
    var r := Ranked(scores);
    assert Sorting.NoDuplicates(ix);
    Sorting.SortByKeepsNoDuplicates(ix, ScoreKey(scores));
    forall i | 0 <= i < |r|
      ensures r[i] < |scores|
    {
      assert r[i] in multiset(r);
    }
    forall j | 0 <= j < |scores|
      ensures j in r
    {
      assert ix[j] == j;
      assert j in multiset(ix);
    }
  }

  /** The ranking lists scores in non-increasing order. */
  lemma RankedDescending(scores: seq<real>)
    ensures forall i, j :: 0 <= i < j < |Ranked(scores)| && Ranked(scores)[j] < |scores| && Ranked(scores)[i] < |scores| ==>
              scores[Ranked(scores)[j]] <= scores[Ranked(scores)[i]]
  {
    var r := Ranked(scores);
    forall i, j | 0 <= i < j < |r| && r[j] < |scores| && r[i] < |scores|
      ensures scores[r[j]] <= scores[r[i]]
    {
      assert ScoreKey(scores)(r[i]) <= ScoreKey(scores)(r[j]);
    }
  }

  /** Any prefix of the ranking is a valid top selection. */
  lemma TopSelectionIsTop(scores: seq<real>, k: nat)
    requires k <= |scores|
    ensures IsTopSelection(scores, TopSelection(scores, k), k)
  {
    var r := Ranked(scores);
    var m := TopSelection(scores, k);
    RankedIsPermutation(scores);
    RankedDescending(scores);
    assert forall i :: 0 <= i < |m| ==> m[i] == r[i];
    forall i, j | 0 <= i < |m| && 0 <= j < |scores| && j !in m
      ensures scores[j] <= scores[m[i]]
    {
      assert j in r;
      assert forall q :: 0 <= q < k ==> m[q] in m && r[q] != j;
      var p :| 0 <= p < |r| && r[p] == j;
      assert i < p;
    }
  }

  /** `sortedmatches` for a `num` that `argpartition` accepts: the top `TopCount` indices, best first. */
  function Matches(scores: seq<real>, num: int): (m: seq<nat>)
    requires KthInRange(|scores|, num)
    ensures forall i :: 0 <= i < |m| ==> m[i] < |scores|
    ensures 0 <= TopCount(|scores|, num) && IsTopSelection(scores, m, TopCount(|scores|, num))
  {
    TopCountInRange(|scores|, num);
    TopSelectionIsTop(scores, TopCount(|scores|, num));
    TopSelection(scores, TopCount(|scores|, num))
  }

  /** `np.dot(corpus, v)`: each corpus vector's similarity to the query vector. */
  function Scores<Vec>(corpus: seq<Vec>, v: Vec, dot: (Vec, Vec) -> real): (s: seq<real>)
    ensures |s| == |corpus| && forall i :: 0 <= i < |corpus| ==> s[i] == dot(corpus[i], v)
  {
    seq(|corpus|, i requires 0 <= i < |corpus| => dot(corpus[i], v))
  }
}
