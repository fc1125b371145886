/**
 * The interactive loop of the max-degree script: read a word per line until
 * `EXIT`, and for each word print the selection for NUM_EMOJIS matches, or
 * the apology when the word has no vector.  The reduced model's vectors and the
 * corpus map are loaded state; the similarity function is abstract.
 */
module Console {

  import opened Options
  import opened Ranking
  import Selection
  import Top
  import Printing
  import Corpus

  /** The loaded state: the corpus map as a list, its vectors, the word vectors and the emoji `char`s. */
  datatype State<Vec> = State(wcl: seq<(string, seq<string>)>, corpus: seq<Vec>, vectors: map<string, Vec>,
                              chars: map<string, Option<string>>)

  /**
   * One corpus vector per corpus-map entry, and every name the corpus map lists
   * is an emojilib key: `corpusmap` is built from the emojilib dictionary itself.
   */
  predicate Loaded<Vec>(st: State<Vec>)
  {
    && |st.corpus| == |st.wcl|
    && forall i, n :: 0 <= i < |st.wcl| && n in st.wcl[i].1 ==> n in st.chars
  }

  /**
   * The state the script builds before its loop is loaded: `wcl` lists the
   * items of the corpus map walked over the emojilib entries, one vector each.
   */
  lemma StartupLoaded<Vec>(entries: seq<Corpus.Entry>, vocab: set<string>, chars: map<string, Option<string>>,
                           wcl: seq<(string, seq<string>)>, corpus: seq<Vec>, vectors: map<string, Vec>)
    requires forall i :: 0 <= i < |entries| ==> entries[i].name in chars
    requires forall i :: 0 <= i < |wcl| ==>
               wcl[i].0 in Corpus.CorpusMapOf(entries, Corpus.Only(vocab)) &&
               wcl[i].1 == Corpus.CorpusMapOf(entries, Corpus.Only(vocab))[wcl[i].0]
    requires |corpus| == |wcl|
    ensures Loaded(State(wcl, corpus, vectors, chars))
  {
    Corpus.CorpusMapListsEmojis(entries, Corpus.Only(vocab));
  }

  /** The emojis selected for a known word: `goodnames[:NUM_EMOJIS]`. */
  function Picked<Vec>(st: State<Vec>, dot: (Vec, Vec) -> real, word: string): (names: seq<Scored>)
    requires Loaded(st) && word in st.vectors && |st.wcl| >= Selection.NUM_EMOJIS
    ensures |names| <= Selection.NUM_EMOJIS && DistinctNames(names)
  {
    var scores := Top.Scores(st.corpus, st.vectors[word], dot);
    Selection.Select(Selection.Categories(st.wcl, scores, Top.Matches(scores, Selection.NUM_EMOJIS)), Selection.NUM_EMOJIS)
  }

  /** The response to one word: the printed lines, or None when `argpartition` raises and the script dies. */
  function Respond<Vec>(st: State<Vec>, dot: (Vec, Vec) -> real, word: string): Option<seq<Printing.Line>>
    requires Loaded(st)
  {
    if word !in st.vectors then Some([Printing.Sorry])
    else if |st.wcl| < Selection.NUM_EMOJIS then None
    else Some(Printing.Render(Picked(st, dot, word), st.chars))
  }

  /** What the session printed, and whether it ended by crashing rather than on `EXIT`. */
  datatype Transcript = Transcript(lines: seq<Printing.Line>, crashed: bool)

  /**
   * The `while True` loop over the input lines: `EXIT` stops it; running out
   * of input (`input()` raising EOFError) or an uncaught ValueError ends it with a crash.
   */
  function Session<Vec>(st: State<Vec>, dot: (Vec, Vec) -> real, inputs: seq<string>): Transcript
    requires Loaded(st)
  {
    if |inputs| == 0 then Transcript([], true)
    else if inputs[0] == "EXIT" then Transcript([], false)
    else
      match Respond(st, dot, inputs[0])
      case None => Transcript([], true)
      case Some(out) =>
        var rest := Session(st, dot, inputs[1..]);
        Transcript(out + rest.lines, rest.crashed)
  }

  /** An unknown word prints the apology and nothing else. */
  lemma UnknownWordApologises<Vec>(st: State<Vec>, dot: (Vec, Vec) -> real, word: string)
    requires Loaded(st) && word !in st.vectors
    ensures Respond(st, dot, word) == Some([Printing.Sorry])
  {
  }

  /** The script dies on a known word exactly when the corpus has fewer than NUM_EMOJIS entries. */
  lemma CrashesOnSmallCorpus<Vec>(st: State<Vec>, dot: (Vec, Vec) -> real, word: string)
    requires Loaded(st) && word in st.vectors
    ensures Respond(st, dot, word).None? <==> |st.wcl| < Selection.NUM_EMOJIS
  {
  }

  /** For a known word at most NUM_EMOJIS lines are printed. */
  lemma AtMostNumEmojis<Vec>(st: State<Vec>, dot: (Vec, Vec) -> real, word: string)
    requires Loaded(st) && word in st.vectors && |st.wcl| >= Selection.NUM_EMOJIS
    ensures Respond(st, dot, word).Some? && |Respond(st, dot, word).value| <= Selection.NUM_EMOJIS
  {
  }

  /**
   * For a known word one line per selected emoji is printed, in selection
   * order, with its `char` and score: every selected name is an emojilib key,
   * so the KeyError handler is never reached while printing.
   */
  lemma PrintsPicked<Vec>(st: State<Vec>, dot: (Vec, Vec) -> real, word: string)
    requires Loaded(st) && word in st.vectors && |st.wcl| >= Selection.NUM_EMOJIS
    ensures var names := Picked(st, dot, word);
            && Respond(st, dot, word).Some?
            && |Respond(st, dot, word).value| == |names|
            && forall i :: 0 <= i < |names| ==>
                 names[i].name in st.chars &&
                 Respond(st, dot, word).value[i] == Printing.Emoji(st.chars[names[i].name], names[i].score)
  {
    var names := Picked(st, dot, word);
    var scores := Top.Scores(st.corpus, st.vectors[word], dot);
    var m := Top.Matches(scores, Selection.NUM_EMOJIS);
    forall i | 0 <= i < |names|
      ensures names[i].name in st.chars
    {
      Selection.SelectFromMatches(st.wcl, scores, m, Selection.NUM_EMOJIS, names[i]);
      var j :| 0 <= j < |m| && names[i].name in st.wcl[m[j]].1 && names[i].score == scores[m[j]];
    }
    Printing.RenderKnown(names, st.chars);
  }

  /** Input after `EXIT` is never read: the transcript is that of the words before it. */
  lemma {:induction false} StopsAtExit<Vec>(st: State<Vec>, dot: (Vec, Vec) -> real, before: seq<string>,
                                           after: seq<string>)
    requires Loaded(st)
    requires forall i :: 0 <= i < |before| ==> before[i] != "EXIT"
    ensures Session(st, dot, before + ["EXIT"] + after) == Session(st, dot, before + ["EXIT"])
  {
    if |before| == 0 {
      assert (before + ["EXIT"] + after)[0] == "EXIT";
      assert (before + ["EXIT"])[0] == "EXIT";
    } else {
      assert (before + ["EXIT"] + after)[1..] == before[1..] + ["EXIT"] + after;
      assert (before + ["EXIT"])[1..] == before[1..] + ["EXIT"];
      StopsAtExit(st, dot, before[1..], after);
    }
  }
}
