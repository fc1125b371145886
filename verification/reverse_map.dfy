/**
 * The similar-list matcher: for every word with precomputed similar words,
 * `reverse[word]` lists the emojis of the word itself at score 1.0 and then
 * the emojis of each similar word at that word's similarity.  A query sorts
 * the stored list in place by descending score (stably), and prints its first
 * ten distinct emojis.  The similar lists themselves come from the embedding
 * (`similar_by_word`) and are a parameter here.
 */
module ReverseMap {

  import opened Options
  import opened Ranking
  import Sorting
  import Corpus
  import Printing

  /** `similars`: each word of the corpus with its list of (similar word, similarity), in dict order. */
  type Similars = seq<(string, seq<(string, real)>)>

  /** The reverse map: a word and its (emoji name, score) pairs. */
  type Reverse = map<string, seq<Scored>>

  /** Python dict keys are distinct. */
  predicate DistinctWords(similars: Similars)
  {
    forall i, j :: 0 <= i < j < |similars| ==> similars[i].0 != similars[j].0
  }

  /** The list stored under `w`, or the empty list the source creates on first use. */
  function Lookup(r: Reverse, w: string): seq<Scored>
  {
    if w in r then r[w] else []
  }

  /** Each emoji name of a category, paired with one score. */
  function Tag(names: seq<string>, v: real): (r: seq<Scored>)
    ensures |r| == |names| && forall i :: 0 <= i < |names| ==> r[i] == Scored(names[i], v)
  {
    seq(|names|, i requires 0 <= i < |names| => Scored(names[i], v))
  }

  /** The word's own emojis, each at score 1.0, when the word is in the corpus map. */
  function Own(word: string, cm: Corpus.CorpusMap): seq<Scored>
  {
    if word in cm then Tag(cm[word], 1.0) else []
  }

  /** The emojis of the similar words that are in the corpus map, in list order. */
  function FromSimilar(sims: seq<(string, real)>, cm: Corpus.CorpusMap): seq<Scored>
  {
    if |sims| == 0 then []
    else
      var (sim, val) := sims[|sims| - 1];
      FromSimilar(sims[..|sims| - 1], cm) + (if sim in cm then Tag(cm[sim], val) else [])
  }

  /** Everything one iteration of the outer loop appends under `word`. */
  function Contributions(word: string, sims: seq<(string, real)>, cm: Corpus.CorpusMap): seq<Scored>
  {
    Own(word, cm) + FromSimilar(sims, cm)
  }

  /** The outer loop: the key is created only when something is appended under it. */
  function BuildReverse(similars: Similars, cm: Corpus.CorpusMap): Reverse
  {
    if |similars| == 0 then map[]
    else
      var r := BuildReverse(similars[..|similars| - 1], cm);
      var (word, sims) := similars[|similars| - 1];
      var c := Contributions(word, sims, cm);
      if |c| == 0 then r else r[word := Lookup(r, word) + c]
  }

  /** A scored emoji is appended for a similar word exactly when that word's category holds it at that similarity. */
  lemma {:induction false} FromSimilarMembership(sims: seq<(string, real)>, cm: Corpus.CorpusMap, x: Scored)
    ensures x in FromSimilar(sims, cm) <==>
              exists j :: 0 <= j < |sims| && sims[j].0 in cm && x.name in cm[sims[j].0] && x.score == sims[j].1
  {
    if |sims| > 0 {
      var n := |sims| - 1;
      var sims' := sims[..n];
      FromSimilarMembership(sims', cm, x);
      assert forall j :: 0 <= j < n ==> sims'[j] == sims[j];
      var (sim, val) := sims[n];
      var tail := if sim in cm then Tag(cm[sim], val) else [];
      assert x in tail <==> sim in cm && x.name in cm[sim] && x.score == val by {
        if sim in cm && x.name in cm[sim] && x.score == val {
          var k :| 0 <= k < |cm[sim]| && cm[sim][k] == x.name;
          assert tail[k] == x;
        }
      }
    }
  }

  /** How many entries the similar words contribute: the sizes of their categories. */
  lemma {:induction false} FromSimilarEmpty(sims: seq<(string, real)>, cm: Corpus.CorpusMap)
    requires Corpus.Admissible(cm, Corpus.Everything)
    ensures |FromSimilar(sims, cm)| == 0 <==> forall j :: 0 <= j < |sims| ==> sims[j].0 !in cm
  {
    if |sims| > 0 {
      var n := |sims| - 1;
      FromSimilarEmpty(sims[..n], cm);
      assert forall j :: 0 <= j < n ==> sims[..n][j] == sims[j];
    }
  }

  /**
   * Every entry under a word is either one of the word's own emojis at 1.0 or
   * an emoji of one of its similar words at that word's similarity.
   */
  lemma ContributionsMembership(word: string, sims: seq<(string, real)>, cm: Corpus.CorpusMap, x: Scored)
    ensures x in Contributions(word, sims, cm) <==>
              (word in cm && x.name in cm[word] && x.score == 1.0) ||
              exists j :: 0 <= j < |sims| && sims[j].0 in cm && x.name in cm[sims[j].0] && x.score == sims[j].1
  {
    FromSimilarMembership(sims, cm, x);
    if word in cm && x.name in cm[word] && x.score == 1.0 {
      var k :| 0 <= k < |cm[word]| && cm[word][k] == x.name;
      assert Own(word, cm)[k] == x;
    }
  }

  /** The word's own emojis come first, ahead of every similar word's. */
  lemma OwnComeFirst(word: string, sims: seq<(string, real)>, cm: Corpus.CorpusMap)
    requires word in cm
    ensures |Contributions(word, sims, cm)| >= |cm[word]|
    ensures forall i :: 0 <= i < |cm[word]| ==> Contributions(word, sims, cm)[i] == Scored(cm[word][i], 1.0)
  {
  }

  /**
   * `word` becomes a key exactly when the word itself or one of its similar
   * words is in the corpus map (whose lists are never empty).
   */
  lemma HasEntries(word: string, sims: seq<(string, real)>, cm: Corpus.CorpusMap)
    requires Corpus.Admissible(cm, Corpus.Everything)
    ensures |Contributions(word, sims, cm)| > 0 <==> word in cm || exists j :: 0 <= j < |sims| && sims[j].0 in cm
  {
    FromSimilarEmpty(sims, cm);
  }

  /** The keys of the reverse map: the words with something to contribute. */
  lemma {:induction false} ReverseKeys(similars: Similars, cm: Corpus.CorpusMap, w: string)
    ensures w in BuildReverse(similars, cm) <==>
              exists i :: 0 <= i < |similars| && similars[i].0 == w &&
                          |Contributions(similars[i].0, similars[i].1, cm)| > 0
  {
    if |similars| > 0 {
      var n := |similars| - 1;
      ReverseKeys(similars[..n], cm, w);
      assert forall i :: 0 <= i < n ==> similars[..n][i] == similars[i];
    }
  }

  /** One step of the outer loop appends under its own word and nowhere else. */
  lemma LookupStep(similars: Similars, cm: Corpus.CorpusMap, w: string)
    requires |similars| > 0
    ensures var last := similars[|similars| - 1];
            Lookup(BuildReverse(similars, cm), w) ==
            Lookup(BuildReverse(similars[..|similars| - 1], cm), w) +
            (if last.0 == w then Contributions(last.0, last.1, cm) else [])
  {
  }

  /** A word that is not in `similars` is not a key. */
  lemma {:induction false} AbsentWord(similars: Similars, cm: Corpus.CorpusMap, w: string)
    requires forall k :: 0 <= k < |similars| ==> similars[k].0 != w
    ensures Lookup(BuildReverse(similars, cm), w) == []
  {
    if |similars| > 0 {
      var n := |similars| - 1;
      assert forall k :: 0 <= k < n ==> similars[..n][k] == similars[k];
      AbsentWord(similars[..n], cm, w);
      LookupStep(similars, cm, w);
    }
  }

  /** Under each word of `similars`, the reverse map holds exactly that word's contributions. */
  lemma {:induction false} ReverseLists(similars: Similars, cm: Corpus.CorpusMap, i: nat)
    requires DistinctWords(similars) && i < |similars|
    ensures Lookup(BuildReverse(similars, cm), similars[i].0) == Contributions(similars[i].0, similars[i].1, cm)
  {
    var n := |similars| - 1;
    var pre := similars[..n];
    var w := similars[i].0;
    LookupStep(similars, cm, w);
    if i < n {
      assert DistinctWords(pre) && pre[i] == similars[i];
      ReverseLists(pre, cm, i);
    } else {
      assert forall k :: 0 <= k < n ==> pre[k] == similars[k];
      AbsentWord(pre, cm, w);
    }
  }

  /** The number of matches a query prints at most. */
  const SHOWN: nat := 10

  /** The result of one query: the printed lines and the reverse map, whose list for the word is now sorted. */
  datatype Answer = Answer(lines: seq<Printing.Line>, reverse: Reverse)

  /** The matches a query shows: the sorted list, de-duplicated, cut at ten. */
  function Shown(matches: seq<Scored>): (shown: seq<Scored>)
    ensures |shown| <= SHOWN && DistinctNames(shown)
  {
    DedupOntoDistinct([], Sorting.SortBy(matches, NegScore));
    Prefix(Dedup(Sorting.SortBy(matches, NegScore)), SHOWN)
  }

  /**
   * One query: an unknown word raises KeyError and prints the apology;
   * otherwise `matches.sort(...)` reorders the stored list, then the loop prints.
   */
  function Query(reverse: Reverse, chars: map<string, Option<string>>, inp: string): (a: Answer)
    ensures inp !in reverse ==> a == Answer([Printing.Sorry], reverse)
    ensures inp in reverse ==> a.reverse.Keys == reverse.Keys && |a.lines| <= SHOWN
    ensures inp in reverse ==> multiset(a.reverse[inp]) == multiset(reverse[inp])
    ensures inp in reverse ==> forall w :: w in reverse && w != inp ==> a.reverse[w] == reverse[w]
  {
    if inp !in reverse then Answer([Printing.Sorry], reverse)
    else
      var sorted := Sorting.SortBy(reverse[inp], NegScore);
      Answer(Printing.Render(Shown(reverse[inp]), chars), reverse[inp := sorted])
  }

  /** Printing everything before the first unknown name, and then the rest. */
  lemma {:induction false} RenderAppend(a: seq<Scored>, b: seq<Scored>, chars: map<string, Option<string>>)
    requires forall i :: 0 <= i < |a| ==> a[i].name in chars
    ensures Printing.Render(a + b, chars) == Printing.Render(a, chars) + Printing.Render(b, chars)
  {
    if |a| == 0 {
      assert a + b == b;
    } else {
      assert (a + b)[1..] == a[1..] + b;
      assert (a + b)[0] == a[0] && a[0].name in chars;
      RenderAppend(a[1..], b, chars);
      assert Printing.Render(a + b, chars) == [Printing.Emoji(chars[a[0].name], a[0].score)] + Printing.Render(a[1..] + b, chars);
      assert Printing.Render(a, chars) == [Printing.Emoji(chars[a[0].name], a[0].score)] + Printing.Render(a[1..], chars);
    }
  }

  /** The emitted prefix of a de-duplication only grows as more candidates are read. */
  lemma DedupPrefix(xs: seq<Scored>, k: nat)
    requires k <= |xs|
    ensures |Dedup(xs[..k])| <= |Dedup(xs)| && Dedup(xs)[..|Dedup(xs[..k])|] == Dedup(xs[..k])
  {
    assert xs == xs[..k] + xs[k..];
    DedupOntoAppend([], xs[..k], xs[k..]);
  }

  /** Reading candidate `k` emits it exactly when its name is new. */
  lemma DedupStep(xs: seq<Scored>, k: nat)
    requires k < |xs|
    ensures Dedup(xs[..k + 1]) == if xs[k].name in Names(Dedup(xs[..k])) then Dedup(xs[..k]) else Dedup(xs[..k]) + [xs[k]]
  {
    assert xs[..k + 1] == xs[..k] + [xs[k]];
    DedupOntoSnoc([], xs[..k], xs[k]);
  }

  /** A new name read while fewer than ten are emitted is the next shown one. */
  lemma NextShown(matches: seq<Scored>, k: nat)
    requires k < |matches| && |Dedup(matches[..k])| < SHOWN
    requires matches[k].name !in Names(Dedup(matches[..k]))
    ensures |Dedup(matches[..k])| < |Prefix(Dedup(matches), SHOWN)|
    ensures Prefix(Dedup(matches), SHOWN)[..|Dedup(matches[..k])| + 1] == Dedup(matches[..k]) + [matches[k]]
  {
    DedupStep(matches, k);
    DedupPrefix(matches, k + 1);
    var d := Dedup(matches);
    var p := Prefix(d, SHOWN);
    var c := |Dedup(matches[..k])| + 1;
    assert c <= |p| && p == d[..|p|];
    assert p[..c] == d[..c];
  }

  /** The loop meets a new name missing from the dictionary while fewer than ten are printed. */
  lemma LoopUnknown(matches: seq<Scored>, k: nat, chars: map<string, Option<string>>)
    requires k < |matches| && |Dedup(matches[..k])| < SHOWN
    requires matches[k].name !in Names(Dedup(matches[..k])) && matches[k].name !in chars
    requires forall i :: 0 <= i < |Dedup(matches[..k])| ==> Dedup(matches[..k])[i].name in chars
    ensures Printing.Render(Prefix(Dedup(matches), SHOWN), chars) ==
            Printing.Render(Dedup(matches[..k]), chars) + [Printing.Sorry]
  {
    var shown := Dedup(matches[..k]);
    var m := matches[k];
    NextShown(matches, k);
    var p := Prefix(Dedup(matches), SHOWN);
    var c := |shown| + 1;
    assert p == p[..c] + p[c..];
    assert p == shown + ([m] + p[c..]);
    RenderAppend(shown, [m] + p[c..], chars);
  }

  /** The tenth printed name ends the loop: what was printed is the first ten distinct matches. */
  lemma LoopFull(matches: seq<Scored>, k: nat)
    requires k < |matches| && |Dedup(matches[..k + 1])| == SHOWN
    ensures Prefix(Dedup(matches), SHOWN) == Dedup(matches[..k + 1])
  {
    DedupPrefix(matches, k + 1);
  }

  /** Printing one more emoji whose name is in the dictionary adds its line. */
  lemma LoopKnown(shown: seq<Scored>, m: Scored, chars: map<string, Option<string>>)
    requires forall i :: 0 <= i < |shown| ==> shown[i].name in chars
    requires m.name in chars
    ensures Printing.Render(shown + [m], chars) == Printing.Render(shown, chars) + [Printing.Emoji(chars[m.name], m.score)]
    ensures forall i :: 0 <= i < |shown + [m]| ==> (shown + [m])[i].name in chars
    ensures Names(shown + [m]) == Names(shown) + {m.name}
  {
    RenderAppend(shown, [m], chars);
    NamesSnoc(shown, m);
  }

  /**
   * The printing loop: walk the sorted matches, skip names already printed,
   * stop after ten printed lines; a name missing from the dictionary raises
   * KeyError after the earlier lines, and the apology is printed.
   */
  method PrintLoop(matches: seq<Scored>, chars: map<string, Option<string>>) returns (lines: seq<Printing.Line>)
    ensures lines == Printing.Render(Prefix(Dedup(matches), SHOWN), chars)
  {
    var printed := 0;
    var matchset: set<string> := {};
    var shown: seq<Scored> := [];
    lines := [];
    var k := 0;
    while k < |matches|
      invariant 0 <= k <= |matches|
      invariant shown == Dedup(matches[..k]) && matchset == Names(shown)
      invariant printed == |shown| < SHOWN
      invariant forall i :: 0 <= i < |shown| ==> shown[i].name in chars
      invariant lines == Printing.Render(shown, chars)
    {
      var m := matches[k];
      DedupStep(matches, k);
      if m.name !in matchset {
        if m.name !in chars {
          LoopUnknown(matches, k, chars);
          lines := lines + [Printing.Sorry];
          return;
        }
        LoopKnown(shown, m, chars);
        lines := lines + [Printing.Emoji(chars[m.name], m.score)];
        shown := shown + [m];
        matchset := matchset + {m.name};
        printed := printed + 1;
        if printed == SHOWN {
          LoopFull(matches, k);
          return;
        }
      }
      k := k + 1;
    }
    assert matches[..k] == matches;
  }
  /** Sorting by the negated score puts the best score first. */
  lemma SortedIsDescending(matches: seq<Scored>)
    ensures Descending(Sorting.SortBy(matches, NegScore))
  {
    var r := Sorting.SortBy(matches, NegScore);
    assert forall i, j :: 0 <= i < j < |r| ==> NegScore(r[i]) <= NegScore(r[j]);
  }

  /** The shown matches are the first entries of the sorted, de-duplicated list. */
  lemma ShownPrefix(matches: seq<Scored>, i: nat)
    requires i < |Shown(matches)|
    ensures i < |Dedup(Sorting.SortBy(matches, NegScore))|
    ensures Shown(matches)[i] == Dedup(Sorting.SortBy(matches, NegScore))[i]
  {
  }

  /** The shown matches are listed best first. */
  lemma ShownDescending(matches: seq<Scored>)
    ensures Descending(Shown(matches))
  {
    var sorted := Sorting.SortBy(matches, NegScore);
    SortedIsDescending(matches);
    DedupKeepsDescending(sorted);
    assert Shown(matches) == Dedup(sorted)[..|Shown(matches)|];
  }

  /** Every shown match is an entry of the stored list. */
  lemma ShownFromList(matches: seq<Scored>, i: nat)
    requires i < |Shown(matches)|
    ensures Shown(matches)[i] in matches
  {
    var sorted := Sorting.SortBy(matches, NegScore);
    ShownPrefix(matches, i);
    DedupOntoFrom([], sorted);
    assert Dedup(sorted)[i] in sorted;
    Sorting.SortByMembers(matches, NegScore, Shown(matches)[i]);
  }

  /** Each shown emoji carries the highest score it has anywhere in the stored list. */
  lemma ShownBest(matches: seq<Scored>, i: nat, y: Scored)
    requires i < |Shown(matches)| && y in matches && y.name == Shown(matches)[i].name
    ensures y.score <= Shown(matches)[i].score
  {
    var sorted := Sorting.SortBy(matches, NegScore);
    ShownPrefix(matches, i);
    SortedIsDescending(matches);
    Sorting.SortByMembers(matches, NegScore, y);
    var j :| 0 <= j < |sorted| && sorted[j] == y;
    DedupBestAt(sorted, i, j);
  }

  /** Sorting keeps the emoji names of the list. */
  lemma SortedNames(matches: seq<Scored>)
    ensures Names(Sorting.SortBy(matches, NegScore)) == Names(matches)
  {
    var sorted := Sorting.SortBy(matches, NegScore);
    forall y | y in matches
      ensures y in sorted
    {
      Sorting.SortByMembers(matches, NegScore, y);
    }
    forall y | y in sorted
      ensures y in matches
    {
      Sorting.SortByMembers(matches, NegScore, y);
    }
  }

  /** With fewer than ten shown, every emoji of the list is shown. */
  lemma ShownAll(matches: seq<Scored>)
    ensures |Shown(matches)| < SHOWN ==> Names(Shown(matches)) == Names(matches)
  {
    var sorted := Sorting.SortBy(matches, NegScore);
    DedupOntoNames([], sorted);
    SortedNames(matches);
  }

  /** An emoji not shown among ten first appears past the tenth place of the de-duplicated list. */
  lemma HiddenAt(matches: seq<Scored>, y: Scored) returns (p: nat, j: nat)
    requires |Shown(matches)| == SHOWN && y in matches && y.name !in Names(Shown(matches))
    ensures j < |Sorting.SortBy(matches, NegScore)| && Sorting.SortBy(matches, NegScore)[j] == y
    ensures SHOWN <= p < |Dedup(Sorting.SortBy(matches, NegScore))|
    ensures Dedup(Sorting.SortBy(matches, NegScore))[p].name == y.name
  {
    var sorted := Sorting.SortBy(matches, NegScore);
    var d := Dedup(sorted);
    assert Shown(matches) == d[..SHOWN];
    DedupOntoNames([], sorted);
    Sorting.SortByMembers(matches, NegScore, y);
    j :| 0 <= j < |sorted| && sorted[j] == y;
    assert y.name in Names(d);
    var x :| x in d && x.name == y.name;
    p :| 0 <= p < |d| && d[p] == x;
    assert x !in Shown(matches);
  }

  /** With ten shown, an emoji not shown scores no more than the tenth shown. */
  lemma ShownTopTen(matches: seq<Scored>, y: Scored)
    requires |Shown(matches)| == SHOWN && y in matches && y.name !in Names(Shown(matches))
    ensures y.score <= Shown(matches)[SHOWN - 1].score
  {
    var sorted := Sorting.SortBy(matches, NegScore);
    var d := Dedup(sorted);
    var p, j := HiddenAt(matches, y);
    SortedIsDescending(matches);
    DedupKeepsDescending(sorted);
    DedupBestAt(sorted, p, j);
    assert d[p].score <= d[SHOWN - 1].score;
    assert Shown(matches)[SHOWN - 1] == d[SHOWN - 1];
  }

  /** With every shown emoji in the dictionary, one line per shown emoji, in order. */
  lemma QueryPrintsShown(reverse: Reverse, chars: map<string, Option<string>>, inp: string)
    requires inp in reverse
    requires forall x :: x in Shown(reverse[inp]) ==> x.name in chars
    ensures var shown := Shown(reverse[inp]);
            && |Query(reverse, chars, inp).lines| == |shown|
            && forall i :: 0 <= i < |shown| ==>
                 Query(reverse, chars, inp).lines[i] == Printing.Emoji(chars[shown[i].name], shown[i].score)
  {
    var shown := Shown(reverse[inp]);
    assert forall i :: 0 <= i < |shown| ==> shown[i] in shown;
    Printing.RenderKnown(shown, chars);
  }

  /** Every emoji stored in the reverse map is listed somewhere in the corpus map. */
  lemma {:induction false} ReverseNamesListed(similars: Similars, cm: Corpus.CorpusMap, w: string, x: Scored)
    requires w in BuildReverse(similars, cm) && x in BuildReverse(similars, cm)[w]
    ensures exists k :: k in cm && x.name in cm[k]
  {
    var n := |similars| - 1;
    var r := BuildReverse(similars[..n], cm);
    var (word, sims) := similars[n];
    LookupStep(similars, cm, w);
    if x in Lookup(r, w) {
      ReverseNamesListed(similars[..n], cm, w, x);
    } else {
      assert word == w && x in Contributions(word, sims, cm);
      ContributionsMembership(word, sims, cm, x);
    }
  }

  /**
   * With `reverse` built from the corpus map of the emoji dictionary, a known
   * word prints one emoji line per shown entry and never the apology: every
   * stored name is a dictionary key, so only an unknown word reaches the
   * KeyError handler.
   */
  lemma KnownWordNeverApologises(entries: seq<Corpus.Entry>, similars: Similars, chars: map<string, Option<string>>,
                                 inp: string)
    requires forall i :: 0 <= i < |entries| ==> entries[i].name in chars
    requires inp in BuildReverse(similars, Corpus.CorpusMapOf(entries, Corpus.Everything))
    ensures var reverse := BuildReverse(similars, Corpus.CorpusMapOf(entries, Corpus.Everything));
            var shown := Shown(reverse[inp]);
            && |Query(reverse, chars, inp).lines| == |shown|
            && (forall i :: 0 <= i < |shown| ==>
                  shown[i].name in chars &&
                  Query(reverse, chars, inp).lines[i] == Printing.Emoji(chars[shown[i].name], shown[i].score))
            && Printing.Sorry !in Query(reverse, chars, inp).lines
  {
    var cm := Corpus.CorpusMapOf(entries, Corpus.Everything);
    var reverse := BuildReverse(similars, cm);
    var shown := Shown(reverse[inp]);
    Corpus.CorpusMapListsEmojis(entries, Corpus.Everything);
    forall x | x in shown
      ensures x.name in chars
    {
      var i :| 0 <= i < |shown| && shown[i] == x;
      ShownFromList(reverse[inp], i);
      ReverseNamesListed(similars, cm, inp, x);
    }
    QueryPrintsShown(reverse, chars, inp);
  }

  /** The printing loop prints what the query function describes. */
  lemma QueryIsPrintLoop(reverse: Reverse, chars: map<string, Option<string>>, inp: string)
    requires inp in reverse
    ensures Query(reverse, chars, inp).reverse[inp] == Sorting.SortBy(reverse[inp], NegScore)
    ensures Query(reverse, chars, inp).lines ==
            Printing.Render(Prefix(Dedup(Query(reverse, chars, inp).reverse[inp]), SHOWN), chars)
  {
  }

  /** Asking again for the same word prints the same lines and leaves the map as it is. */
  lemma QueryRepeatable(reverse: Reverse, chars: map<string, Option<string>>, inp: string)
    ensures var a := Query(reverse, chars, inp);
            Query(a.reverse, chars, inp) == a
  {
    if inp in reverse {
      var sorted := Sorting.SortBy(reverse[inp], NegScore);
      Sorting.SortByIdempotent(reverse[inp], NegScore);
      assert Shown(sorted) == Shown(reverse[inp]);
      assert reverse[inp := sorted][inp := sorted] == reverse[inp := sorted];
    }
  }
}
