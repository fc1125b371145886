/**
 * Shrinking the word2vec vocabulary to the words that are similar enough to
 * some emoji word: the chunked computation of every row's best similarity to
 * the reference corpus, the threshold filter, and the re-indexing that compacts
 * the kept words to 0..k-1 and selects their weight rows.  Vectors and the
 * similarity of two vectors are abstract; similarities are reals.
 */
module Reduction {

  import opened Options
  import Sorting

  /** The similarity a word needs to some emoji word to stay in the vocabulary. */
  const MAX_DEGREE: real := 0.5

  /** Rows per chunk of the similarity computation. */
  const CHUNKSIZE: nat := 1000

  /** Best similarity of one row to the reference vectors (`np.amax` over one row of `np.inner`). */
  function MaxScore<Vec>(row: Vec, refs: seq<Vec>, sim: (Vec, Vec) -> real): (m: real)
    requires |refs| > 0
    ensures forall j :: 0 <= j < |refs| ==> sim(row, refs[j]) <= m
    ensures exists j :: 0 <= j < |refs| && sim(row, refs[j]) == m
  {
    if |refs| == 1 then sim(row, refs[0])
    else
      var m' := MaxScore(row, refs[..|refs| - 1], sim);
      var last := sim(row, refs[|refs| - 1]);
      assert forall j :: 0 <= j < |refs| - 1 ==> refs[..|refs| - 1][j] == refs[j];
      if m' < last then last else m'
  }

  /** The rows the loop over `range(0, int(V/CHUNKSIZE))` reaches: whole chunks only. */
  function Covered(v: nat): nat
  {
    (v / CHUNKSIZE) * CHUNKSIZE
  }

  function Min(a: int, b: int): int
  {
    if a < b then a else b
  }

  /**
   * The chunk loop as written: the output buffer starts zero-filled (a fresh
   * `w+` memmap) and chunk `c` writes rows `c*CHUNKSIZE` up to `min(V, (c+1)*CHUNKSIZE)`.
   * An empty reference corpus makes the first chunk fail (None).
   */
  method ChunkedMaxScores<Vec>(rows: seq<Vec>, refs: seq<Vec>, sim: (Vec, Vec) -> real)
    returns (out: Option<seq<real>>)
    ensures out.None? <==> Covered(|rows|) > 0 && |refs| == 0
    ensures out.Some? ==> |out.value| == |rows|
    ensures out.Some? ==> forall i :: 0 <= i < Covered(|rows|) ==>
              |refs| > 0 && out.value[i] == MaxScore(rows[i], refs, sim)
    ensures out.Some? ==> forall i :: Covered(|rows|) <= i < |rows| ==> out.value[i] == 0.0
  {
    var buf: seq<real> := seq(|rows|, _ => 0.0);
    var chunks := |rows| / CHUNKSIZE;
    var c := 0;
    while c < chunks
      invariant 0 <= c <= chunks
      invariant |buf| == |rows|
      invariant c > 0 ==> |refs| > 0
      invariant forall i :: 0 <= i < c * CHUNKSIZE ==> |refs| > 0 && buf[i] == MaxScore(rows[i], refs, sim)
      invariant forall i :: c * CHUNKSIZE <= i < |rows| ==> buf[i] == 0.0
    {
      if |refs| == 0 {
        return None;
      }
      var start := c * CHUNKSIZE;
      var cend := Min(|rows|, (c + 1) * CHUNKSIZE);
      var j := start;
      while j < cend
        invariant start <= j <= cend
        invariant |buf| == |rows|
        invariant forall i :: 0 <= i < j ==> buf[i] == MaxScore(rows[i], refs, sim)
        invariant forall i :: j <= i < |rows| ==> buf[i] == 0.0
      {
        buf := buf[j := MaxScore(rows[j], refs, sim)];
        j := j + 1;
      }
      c := c + 1;
    }
    return Some(buf);
  }

  /** The chunk loop with the evidently intended bound: every chunk, the partial last one included. */
  method ChunkedMaxScoresAllRows<Vec>(rows: seq<Vec>, refs: seq<Vec>, sim: (Vec, Vec) -> real)
    returns (out: Option<seq<real>>)
    ensures out.None? <==> |rows| > 0 && |refs| == 0
    ensures out.Some? ==> |out.value| == |rows|
    ensures out.Some? ==> forall i :: 0 <= i < |rows| ==> |refs| > 0 && out.value[i] == MaxScore(rows[i], refs, sim)
  {
    var buf: seq<real> := seq(|rows|, _ => 0.0);
    var chunks := (|rows| + CHUNKSIZE - 1) / CHUNKSIZE;
    var c := 0;
    while c < chunks
      invariant 0 <= c <= chunks
      invariant |buf| == |rows|
      invariant c > 0 ==> |refs| > 0
      invariant forall i :: 0 <= i < Min(|rows|, c * CHUNKSIZE) ==> buf[i] == MaxScore(rows[i], refs, sim)
    {
      if |refs| == 0 {
        return None;
      }
      var start := c * CHUNKSIZE;
      var cend := Min(|rows|, (c + 1) * CHUNKSIZE);
      var j := start;
      while j < cend
        invariant start <= j <= cend
        invariant |buf| == |rows|
        invariant forall i :: 0 <= i < j ==> buf[i] == MaxScore(rows[i], refs, sim)
      {
        buf := buf[j := MaxScore(rows[j], refs, sim)];
        j := j + 1;
      }
      c := c + 1;
    }
    return Some(buf);
  }

  /** A vocabulary entry: a word and the row of its vector. */
  datatype VocabEntry = VocabEntry(word: string, index: nat)

  /** A model vocabulary over `n` rows: words and row indices are distinct, indices are in range. */
  predicate WellFormed(vocab: seq<VocabEntry>, n: nat)
  {
    && (forall i :: 0 <= i < |vocab| ==> vocab[i].index < n)
    && (forall i, j :: 0 <= i < j < |vocab| ==> vocab[i].word != vocab[j].word && vocab[i].index != vocab[j].index)
  }

  /** Every entry's row has a similarity. */
  predicate Indexed(vocab: seq<VocabEntry>, dp: seq<real>)
  {
    forall i :: 0 <= i < |vocab| ==> vocab[i].index < |dp|
  }

  /** The filter loop: delete every entry whose row scores below the threshold, keeping dict order. */
  function Filter(vocab: seq<VocabEntry>, dp: seq<real>, threshold: real): (kept: seq<VocabEntry>)
    requires Indexed(vocab, dp)
    ensures |kept| <= |vocab|
  {
    if |vocab| == 0 then []
    else
      var pre := vocab[..|vocab| - 1];
      var e := vocab[|vocab| - 1];
      var kept' := Filter(pre, dp, threshold);
      if dp[e.index] >= threshold then kept' + [e] else kept'
  }

  /** The filter keeps exactly the entries that meet the threshold. */
  lemma {:induction false} FilterMembers(vocab: seq<VocabEntry>, dp: seq<real>, threshold: real)
    requires Indexed(vocab, dp)
    ensures forall e :: e in Filter(vocab, dp, threshold) <==> e in vocab && dp[e.index] >= threshold
  {
    if |vocab| > 0 {
      var pre := vocab[..|vocab| - 1];
      var e := vocab[|vocab| - 1];
      assert vocab == pre + [e];
      FilterMembers(pre, dp, threshold);
    }
  }

  /** Deleting entries keeps a vocabulary well formed. */
  lemma {:induction false} FilterWellFormed(vocab: seq<VocabEntry>, dp: seq<real>, threshold: real)
    requires Indexed(vocab, dp) && WellFormed(vocab, |dp|)
    ensures WellFormed(Filter(vocab, dp, threshold), |dp|)
  {
    if |vocab| > 0 {
      var pre := vocab[..|vocab| - 1];
      var e := vocab[|vocab| - 1];
      assert forall i :: 0 <= i < |pre| ==> pre[i] == vocab[i];
      FilterWellFormed(pre, dp, threshold);
      var kept' := Filter(pre, dp, threshold);
      if dp[e.index] >= threshold {
        FilterMembers(pre, dp, threshold);
        forall i | 0 <= i < |kept'|
          ensures kept'[i].word != e.word && kept'[i].index != e.index
        {
          assert kept'[i] in pre;
          var p :| 0 <= p < |pre| && pre[p] == kept'[i];
        }
      }
    }
  }

  /** The sort key of `il.sort(key=lambda x: x[1].index)`. */
  function IndexKey(e: VocabEntry): real
  {
    e.index as real
  }

  /** The reduced model: the re-indexed vocabulary, `indexes` and the selected weight rows. */
  datatype Reduced<Vec> = Reduced(vocab: seq<VocabEntry>, indexes: seq<nat>, rows: seq<Vec>)

  /** `il`: the surviving entries, sorted by their old index. */
  function Survivors(vocab: seq<VocabEntry>, dp: seq<real>, threshold: real): (il: seq<VocabEntry>)
    requires Indexed(vocab, dp)
    ensures forall i :: 0 <= i < |il| ==> il[i] in vocab && dp[il[i].index] >= threshold
  {
    FilterMembers(vocab, dp, threshold);
    var il := Sorting.SortBy(Filter(vocab, dp, threshold), IndexKey);
    assert forall i :: 0 <= i < |il| ==> il[i] in multiset(il);
    il
  }

  /**
   * `generate_limittedmodel` on a threshold: filter, sort the survivors by old
   * index, give the i-th survivor index i, record its old index in `indexes[i]`
   * and take `rows[indexes]`.
   */
  function Reduce<Vec>(vocab: seq<VocabEntry>, dp: seq<real>, rows: seq<Vec>, threshold: real): (r: Reduced<Vec>)
    requires Indexed(vocab, dp) && |rows| == |dp|
    ensures |r.vocab| == |r.indexes| == |r.rows|
    ensures forall i :: 0 <= i < |r.vocab| ==> r.vocab[i].index == i
    ensures forall i :: 0 <= i < |r.indexes| ==> r.indexes[i] < |dp|
  {
    var il := Survivors(vocab, dp, threshold);
    var indexes := seq(|il|, i requires 0 <= i < |il| => il[i].index);
    Reduced(seq(|il|, i requires 0 <= i < |il| => VocabEntry(il[i].word, i)),
            indexes,
            seq(|il|, i requires 0 <= i < |il| => rows[indexes[i]]))
  }

  /** A word survives exactly when its row scores at least the threshold; it keeps its word. */
  lemma ReduceKeepsExactly<Vec>(vocab: seq<VocabEntry>, dp: seq<real>, rows: seq<Vec>, threshold: real, w: string)
    requires Indexed(vocab, dp) && |rows| == |dp|
    ensures (exists i :: 0 <= i < |Reduce(vocab, dp, rows, threshold).vocab| &&
                         Reduce(vocab, dp, rows, threshold).vocab[i].word == w)
            <==> (exists e :: e in vocab && e.word == w && dp[e.index] >= threshold)
  {
    var r := Reduce(vocab, dp, rows, threshold);
    var kept := Filter(vocab, dp, threshold);
    var il := Survivors(vocab, dp, threshold);
    if exists i :: 0 <= i < |r.vocab| && r.vocab[i].word == w {
      var i :| 0 <= i < |r.vocab| && r.vocab[i].word == w;
      assert il[i].word == w;
    }
    if exists e :: e in vocab && e.word == w && dp[e.index] >= threshold {
      var e :| e in vocab && e.word == w && dp[e.index] >= threshold;
      FilterMembers(vocab, dp, threshold);
      assert e in multiset(kept);
      assert e in multiset(il);
      var i :| 0 <= i < |il| && il[i] == e;
      assert r.vocab[i].word == w;
    }
  }

  /**
   * `indexes` is strictly increasing and `indexes[i]` is the old index of the
   * word now at index i, whose weight row is carried over unchanged.
   */
  lemma ReduceSelectsRows<Vec>(vocab: seq<VocabEntry>, dp: seq<real>, rows: seq<Vec>, threshold: real)
    requires Indexed(vocab, dp) && |rows| == |dp| && WellFormed(vocab, |dp|)
    ensures var r := Reduce(vocab, dp, rows, threshold);
            && (forall i, j :: 0 <= i < j < |r.indexes| ==> r.indexes[i] < r.indexes[j])
            && (forall i :: 0 <= i < |r.vocab| ==>
                  VocabEntry(r.vocab[i].word, r.indexes[i]) in vocab && r.indexes[i] < |rows| &&
                  r.rows[i] == rows[r.indexes[i]])
  {
    var kept := Filter(vocab, dp, threshold);
    var il := Survivors(vocab, dp, threshold);
    FilterWellFormed(vocab, dp, threshold);
    assert forall i, j :: 0 <= i < j < |kept| ==> IndexKey(kept[i]) != IndexKey(kept[j]);
    Sorting.SortByDistinctKeysIsStrict(kept, IndexKey);
  }

  /** Raising the threshold never keeps a word that a lower threshold drops. */
  lemma FilterMonotone(vocab: seq<VocabEntry>, dp: seq<real>, low: real, high: real)
    requires Indexed(vocab, dp) && low <= high
    ensures forall e :: e in Filter(vocab, dp, high) ==> e in Filter(vocab, dp, low)
  {
    FilterMembers(vocab, dp, high);
    FilterMembers(vocab, dp, low);
  }

  /** The reduced vocabulary is a well-formed model vocabulary over the selected rows. */
  lemma ReduceWellFormed<Vec>(vocab: seq<VocabEntry>, dp: seq<real>, rows: seq<Vec>, threshold: real)
    requires Indexed(vocab, dp) && |rows| == |dp| && WellFormed(vocab, |dp|)
    ensures var r := Reduce(vocab, dp, rows, threshold);
            WellFormed(r.vocab, |r.rows|)
  {
    var kept := Filter(vocab, dp, threshold);
    var r := Reduce(vocab, dp, rows, threshold);
    ReduceSelectsRows(vocab, dp, rows, threshold);
    forall i, j | 0 <= i < j < |r.vocab|
      ensures r.vocab[i].word != r.vocab[j].word
    {
      var a := VocabEntry(r.vocab[i].word, r.indexes[i]);
      var b := VocabEntry(r.vocab[j].word, r.indexes[j]);
      assert a in vocab && b in vocab && a.index != b.index;
      var p :| 0 <= p < |vocab| && vocab[p] == a;
      var q :| 0 <= q < |vocab| && vocab[q] == b;
      assert p != q;
    }
  }

  /**
   * Reducing the reduced model again, with each kept row's score carried over,
   * keeps every word and every row; the second `indexes` is the identity.
   */
  lemma ReduceIdempotent<Vec>(vocab: seq<VocabEntry>, dp: seq<real>, rows: seq<Vec>, threshold: real)
    requires Indexed(vocab, dp) && |rows| == |dp| && WellFormed(vocab, |dp|)
    ensures var r := Reduce(vocab, dp, rows, threshold);
            var dp' := seq(|r.indexes|, i requires 0 <= i < |r.indexes| => dp[r.indexes[i]]);
            && Indexed(r.vocab, dp')
            && var r' := Reduce(r.vocab, dp', r.rows, threshold);
            && r'.vocab == r.vocab && r'.rows == r.rows
            && (forall i :: 0 <= i < |r'.indexes| ==> r'.indexes[i] == i)
  {
    var r := Reduce(vocab, dp, rows, threshold);
    var dp' := seq(|r.indexes|, i requires 0 <= i < |r.indexes| => dp[r.indexes[i]]);
    ReducedRowsQualify(vocab, dp, rows, threshold);
    assert forall i :: 0 <= i < |r.vocab| ==> dp'[i] >= threshold;
    ReduceReindexed(r.vocab, dp', r.rows, threshold);
  }

  /** Every row the reduction selects scores at least the threshold. */
  lemma ReducedRowsQualify<Vec>(vocab: seq<VocabEntry>, dp: seq<real>, rows: seq<Vec>, threshold: real)
    requires Indexed(vocab, dp) && |rows| == |dp|
    ensures var r := Reduce(vocab, dp, rows, threshold);
            forall i :: 0 <= i < |r.indexes| ==> dp[r.indexes[i]] >= threshold
  {
    var r := Reduce(vocab, dp, rows, threshold);
    var il := Survivors(vocab, dp, threshold);
    assert forall i :: 0 <= i < |r.indexes| ==> r.indexes[i] == il[i].index;
  }

  /**
   * A vocabulary already indexed 0..k-1 whose every row meets the threshold
   * reduces to itself, with the identity as `indexes`.
   */
  lemma ReduceReindexed<Vec>(vocab: seq<VocabEntry>, dp: seq<real>, rows: seq<Vec>, threshold: real)
    requires |vocab| == |dp| == |rows|
    requires forall i :: 0 <= i < |vocab| ==> vocab[i].index == i && dp[i] >= threshold
    ensures Indexed(vocab, dp)
    ensures var r := Reduce(vocab, dp, rows, threshold);
            r.vocab == vocab && r.rows == rows && forall i :: 0 <= i < |r.indexes| ==> r.indexes[i] == i
  {
    FilterKeepsAll(vocab, dp, threshold);
    assert Sorting.SortedBy(vocab, IndexKey);
    Sorting.SortBySortedIsIdentity(vocab, IndexKey);
    var il := Survivors(vocab, dp, threshold);
    assert il == vocab;
    var r := Reduce(vocab, dp, rows, threshold);
    assert |r.vocab| == |vocab|;
    forall i | 0 <= i < |vocab|
      ensures r.vocab[i] == vocab[i] && r.indexes[i] == i && r.rows[i] == rows[i]
    {
      assert il[i].index == i;
    }
  }

  /** When every entry meets the threshold the filter keeps the whole vocabulary. */
  lemma {:induction false} FilterKeepsAll(vocab: seq<VocabEntry>, dp: seq<real>, threshold: real)
    requires Indexed(vocab, dp)
    requires forall i :: 0 <= i < |vocab| ==> dp[vocab[i].index] >= threshold
    ensures Filter(vocab, dp, threshold) == vocab
  {
    if |vocab| > 0 {
      var pre := vocab[..|vocab| - 1];
      assert forall i :: 0 <= i < |pre| ==> pre[i] == vocab[i];
      FilterKeepsAll(pre, dp, threshold);
      assert vocab == pre + [vocab[|vocab| - 1]];
    }
  }

  /**
   * The trailing partial chunk is lost: with 1500 rows only the first 1000 are
   * written, and a word whose row lies past the last whole chunk keeps the
   * buffer's 0.0 and is dropped by the filter whatever its real similarity.
   */
  lemma PartialChunkDropsWords<Vec>(vocab: seq<VocabEntry>, dp: seq<real>, rows: seq<Vec>, e: VocabEntry)
    requires Indexed(vocab, dp) && |rows| == |dp| && WellFormed(vocab, |dp|)
    requires forall i :: Covered(|dp|) <= i < |dp| ==> dp[i] == 0.0
    requires e in vocab && Covered(|dp|) <= e.index
    ensures Covered(1500) == 1000
    ensures forall i :: 0 <= i < |Reduce(vocab, dp, rows, MAX_DEGREE).vocab| ==>
              Reduce(vocab, dp, rows, MAX_DEGREE).vocab[i].word != e.word
  {
    ReduceKeepsExactly(vocab, dp, rows, MAX_DEGREE, e.word);
    forall e' | e' in vocab && e'.word == e.word
      ensures dp[e'.index] < MAX_DEGREE
    {
      OneEntryPerWord(vocab, |dp|, e, e');
    }
  }

  /** In a well-formed vocabulary a word has one entry. */
  lemma OneEntryPerWord(vocab: seq<VocabEntry>, n: nat, e: VocabEntry, e': VocabEntry)
    requires WellFormed(vocab, n) && e in vocab && e' in vocab && e.word == e'.word
    ensures e == e'
  {
    var p :| 0 <= p < |vocab| && vocab[p] == e;
    var q :| 0 <= q < |vocab| && vocab[q] == e';
    assert p == q;
  }

  /** With every row written, a word survives exactly when its best similarity reaches the threshold. */
  lemma AllRowsKeepSimilarWords<Vec>(vocab: seq<VocabEntry>, rows: seq<Vec>, refs: seq<Vec>,
                                    sim: (Vec, Vec) -> real, dp: seq<real>, e: VocabEntry)
    requires |dp| == |rows| && |refs| > 0 && Indexed(vocab, dp) && WellFormed(vocab, |dp|)
    requires forall i :: 0 <= i < |rows| ==> dp[i] == MaxScore(rows[i], refs, sim)
    requires e in vocab
    ensures (exists i :: 0 <= i < |Reduce(vocab, dp, rows, MAX_DEGREE).vocab| &&
                         Reduce(vocab, dp, rows, MAX_DEGREE).vocab[i].word == e.word)
            <==> exists j :: 0 <= j < |refs| && sim(rows[e.index], refs[j]) >= MAX_DEGREE
  {
    ReduceKeepsExactly(vocab, dp, rows, MAX_DEGREE, e.word);
    var m := MaxScore(rows[e.index], refs, sim);
    if exists e' :: e' in vocab && e'.word == e.word && dp[e'.index] >= MAX_DEGREE {
      var e' :| e' in vocab && e'.word == e.word && dp[e'.index] >= MAX_DEGREE;
      OneEntryPerWord(vocab, |dp|, e, e');
      var j :| 0 <= j < |refs| && sim(rows[e.index], refs[j]) == m;
    }
    if exists j :: 0 <= j < |refs| && sim(rows[e.index], refs[j]) >= MAX_DEGREE {
      var j :| 0 <= j < |refs| && sim(rows[e.index], refs[j]) >= MAX_DEGREE;
      assert sim(rows[e.index], refs[j]) <= m;
    }
  }

  /** `vectorcorpus`: one vector per corpus-map entry, in that order; a word without a vector fails. */
  function VectorCorpus<Vec, T>(vectors: map<string, Vec>, wcl: seq<(string, T)>): (r: Option<seq<Vec>>)
    ensures r.Some? <==> forall i :: 0 <= i < |wcl| ==> wcl[i].0 in vectors
    ensures r.Some? ==> |r.value| == |wcl| && forall i :: 0 <= i < |wcl| ==> r.value[i] == vectors[wcl[i].0]
  {
    if |wcl| == 0 then Some([])
    else
      match VectorCorpus(vectors, wcl[..|wcl| - 1])
      case None => None
      case Some(vs) =>
        if wcl[|wcl| - 1].0 in vectors then Some(vs + [vectors[wcl[|wcl| - 1].0]]) else None
  }
}
