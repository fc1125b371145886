/**
 * The HTTP front end of the emoji server without the socket: `do_GET` reads the
 * word from the request path and the `number` query parameter, runs `similar`
 * and `formatsimilar`, and answers with JSON data or `null`.  The embedding is
 * a map from words to vectors with an abstract similarity function.
 */
module Server {

  import opened Options
  import opened Ranking
  import Selection
  import Top
  import SlackNames
  import Corpus
  import Reduction

  /** The whitespace Python's `int()` strips around a numeral (its ASCII part). */
  predicate IsSpace(c: char)
  {
    c == ' ' || c == '\t' || c == '\n' || c == '\r' || c == '\U{B}' || c == '\U{C}'
  }

  predicate IsDigit(c: char)
  {
    '0' <= c <= '9'
  }

  predicate AllDigits(s: string)
  {
    forall i :: 0 <= i < |s| ==> IsDigit(s[i])
  }

  /** `s` without leading whitespace. */
  function TrimStart(s: string): (r: string)
    ensures |r| <= |s| && r == s[|s| - |r|..]
    ensures |r| > 0 ==> !IsSpace(r[0])
  {
    if |s| > 0 && IsSpace(s[0]) then TrimStart(s[1..]) else s
  }

  /** `s` without trailing whitespace. */
  function TrimEnd(s: string): (r: string)
    ensures |r| <= |s| && r == s[..|r|]
    ensures |r| > 0 ==> !IsSpace(r[|r| - 1])
  {
    if |s| > 0 && IsSpace(s[|s| - 1]) then TrimEnd(s[..|s| - 1]) else s
  }

  function Trim(s: string): string
  {
    TrimEnd(TrimStart(s))
  }

  /** The value of a decimal numeral (leading zeros allowed). */
  function DecimalValue(s: string): nat
    requires AllDigits(s)
  {
    if |s| == 0 then 0 else DecimalValue(s[..|s| - 1]) * 10 + (s[|s| - 1] as int - '0' as int)
  }

  /** A numeral `int()` accepts once whitespace is stripped: an optional sign and at least one digit. */
  predicate IsIntLiteral(t: string)
  {
    if |t| > 0 && (t[0] == '+' || t[0] == '-') then |t| > 1 && AllDigits(t[1..])
    else |t| > 0 && AllDigits(t)
  }

  /** Python's `int(s)` on a string: the number, or None where it raises ValueError. */
  function ParseInt(s: string): (r: Option<int>)
    ensures r.Some? <==> IsIntLiteral(Trim(s))
  {
    var t := Trim(s);
    if |t| > 0 && (t[0] == '+' || t[0] == '-') then
      if |t| > 1 && AllDigits(t[1..]) then
        var v: int := DecimalValue(t[1..]);
        Some(if t[0] == '-' then -v else v)
      else None
    else if |t| > 0 && AllDigits(t) then Some(DecimalValue(t))
    else None
  }

  /** The decimal numeral of a natural number, without leading zeros. */
  function ShowNat(n: nat): (s: string)
    ensures |s| > 0 && AllDigits(s) && DecimalValue(s) == n
  {
    var d := [('0' as int + n % 10) as char];
    if n < 10 then
      assert d == [] + d;
      d
    else
      var s' := ShowNat(n / 10);
      assert (s' + d)[..|s' + d| - 1] == s';
      s' + d
  }

  /** `str(n)`. */
  function ShowInt(n: int): string
  {
    if n < 0 then "-" + ShowNat(-n) else ShowNat(n)
  }

  lemma TrimNoSpace(s: string)
    requires |s| > 0 && !IsSpace(s[0]) && !IsSpace(s[|s| - 1])
    ensures Trim(s) == s
  {
  }

  /** `int(str(n)) == n`: parsing reads back what `str` writes. */
  lemma ParseShowRoundTrip(n: int)
    ensures ParseInt(ShowInt(n)) == Some(n)
  {
    var s := ShowInt(n);
    TrimNoSpace(s);
    if n < 0 {
      assert s[1..] == ShowNat(-n);
    }
  }

  /** The parsed query string: each parameter with its list of values (`parse_qs`). */
  type Query = map<string, seq<string>>

  /**
   * `int(query['number'][0])`, with NUM_EMOJIS when the parameter is missing
   * (KeyError), has no value (IndexError) or is not an integer (ValueError).
   */
  function NumberParam(query: Query): (num: int)
    ensures "number" in query && |query["number"]| > 0 && ParseInt(query["number"][0]).Some? ==>
              num == ParseInt(query["number"][0]).value
    ensures "number" !in query || |query["number"]| == 0 || ParseInt(query["number"][0]).None? ==>
              num == Selection.NUM_EMOJIS
  {
    if "number" in query && |query["number"]| > 0 then
      match ParseInt(query["number"][0])
      case Some(n) => n
      case None => Selection.NUM_EMOJIS
    else Selection.NUM_EMOJIS
  }

  /** An answer row: the emoji (its `char` or its Slack name) and its similarity. */
  datatype Row = Row(emoji: string, similarity: real)

  /**
   * `formatsimilar`: each name replaced by its pared entry's `char`, or by its
   * Slack name when `emojis` is not requested; a name without an entry raises
   * KeyError, here None.
   */
  function FormatSimilar(names: seq<Scored>, emojis: map<string, SlackNames.Pared>, useChar: bool)
    : (r: Option<seq<Row>>)
    ensures r.Some? <==> forall i :: 0 <= i < |names| ==> names[i].name in emojis
    ensures r.Some? ==> |r.value| == |names|
    ensures r.Some? ==> forall i :: 0 <= i < |names| ==>
              r.value[i].similarity == names[i].score &&
              r.value[i].emoji == if useChar then emojis[names[i].name].glyph else emojis[names[i].name].slackName
  {
    if |names| == 0 then Some([])
    else
      var last := names[|names| - 1];
      match FormatSimilar(names[..|names| - 1], emojis, useChar)
      case None => None
      case Some(rows) =>
        if last.name in emojis then
          var p := emojis[last.name];
          Some(rows + [Row(if useChar then p.glyph else p.slackName, last.score)])
        else None
  }

  /** The server's loaded state: pared emojis, the corpus map as a list, its vectors and the embedding. */
  datatype Index<Vec> = Index(emojis: map<string, SlackNames.Pared>, wcl: seq<(string, seq<string>)>,
                              corpus: seq<Vec>, vectors: map<string, Vec>)

  /**
   * One corpus vector per corpus-map entry, and every name the corpus map lists
   * is a pared emoji: `CORPUSMAP` is built from `EMOJIS` itself.
   */
  predicate Loaded<Vec>(ix: Index<Vec>)
  {
    && |ix.corpus| == |ix.wcl|
    && forall i, n :: 0 <= i < |ix.wcl| && n in ix.wcl[i].1 ==> n in ix.emojis
  }

  /**
   * The state the server builds at start-up is loaded: `WCL` lists the items of
   * `emojicorpusmap(EMOJIS, MODEL.vocab)`, walked over the pared entries, and
   * `VECTORCORPUS` is `vectorcorpus(MODEL, WCL)`.
   */
  lemma StartupLoaded<Vec>(entries: seq<Corpus.Entry>, vocab: set<string>, emojis: map<string, SlackNames.Pared>,
                           wcl: seq<(string, seq<string>)>, corpus: seq<Vec>, vectors: map<string, Vec>)
    requires forall i :: 0 <= i < |entries| ==>
               entries[i].name in emojis && entries[i].keywords == emojis[entries[i].name].keywords
    requires forall i :: 0 <= i < |wcl| ==>
               wcl[i].0 in Corpus.CorpusMapOf(entries, Corpus.Only(vocab)) &&
               wcl[i].1 == Corpus.CorpusMapOf(entries, Corpus.Only(vocab))[wcl[i].0]
    requires Reduction.VectorCorpus(vectors, wcl) == Some(corpus)
    ensures Loaded(Index(emojis, wcl, corpus, vectors))
  {
    Corpus.CorpusMapListsEmojis(entries, Corpus.Only(vocab));
  }

  /** A GET request: the URL path and its parsed query. */
  datatype Request = Request(path: string, query: Query)

  /** The JSON body (`null` is None), or no response when the handler raises. */
  datatype Response = Json(data: Option<seq<Row>>) | Aborted

  /** `req.path[1:]`. */
  function Word(path: string): string
  {
    if |path| == 0 then "" else path[1..]
  }

  /**
   * `do_GET`: an unknown word answers `null`; a `num` that `argpartition`
   * rejects raises ValueError, which the handler does not catch.
   */
  function DoGet<Vec>(ix: Index<Vec>, dot: (Vec, Vec) -> real, req: Request): Response
    requires Loaded(ix)
  {
    var word := Word(req.path);
    var num := NumberParam(req.query);
    if word !in ix.vectors then Json(None)
    else
      var scores := Top.Scores(ix.corpus, ix.vectors[word], dot);
      if !Top.KthInRange(|scores|, num) then Aborted
      else
        var names := Selection.Select(Selection.Categories(ix.wcl, scores, Top.Matches(scores, num)), num);
        Json(FormatSimilar(names, ix.emojis, "emojis" in req.query))
  }

  /** An unknown word gives `null` whatever the number. */
  lemma UnknownWordIsNull<Vec>(ix: Index<Vec>, dot: (Vec, Vec) -> real, req: Request)
    requires Loaded(ix) && Word(req.path) !in ix.vectors
    ensures DoGet(ix, dot, req) == Json(None)
  {
  }

  /** The handler aborts exactly when the word is known and `num` is outside `argpartition`'s range. */
  lemma AbortedExactly<Vec>(ix: Index<Vec>, dot: (Vec, Vec) -> real, req: Request)
    requires Loaded(ix)
    ensures DoGet(ix, dot, req) == Aborted <==>
              Word(req.path) in ix.vectors && !Top.KthInRange(|ix.wcl|, NumberParam(req.query))
  {
  }

  /** Every selected name is a pared emoji, so `formatsimilar` raises no KeyError. */
  lemma SelectedAreParedEmojis<Vec>(ix: Index<Vec>, scores: seq<real>, num: int)
    requires Loaded(ix) && |scores| == |ix.wcl| && Top.KthInRange(|scores|, num)
    ensures var names := Selection.Select(Selection.Categories(ix.wcl, scores, Top.Matches(scores, num)), num);
            forall i :: 0 <= i < |names| ==> names[i].name in ix.emojis
  {
    var m := Top.Matches(scores, num);
    var names := Selection.Select(Selection.Categories(ix.wcl, scores, m), num);
    forall i | 0 <= i < |names|
      ensures names[i].name in ix.emojis
    {
      Selection.SelectFromMatches(ix.wcl, scores, m, num, names[i]);
      var j :| 0 <= j < |m| && names[i].name in ix.wcl[m[j]].1 && names[i].score == scores[m[j]];
    }
  }

  /** The answer is `null` exactly for a word the embedding does not know. */
  lemma NullExactlyForUnknown<Vec>(ix: Index<Vec>, dot: (Vec, Vec) -> real, req: Request)
    requires Loaded(ix)
    ensures DoGet(ix, dot, req) == Json(None) <==> Word(req.path) !in ix.vectors
  {
    var word := Word(req.path);
    var num := NumberParam(req.query);
    if word in ix.vectors {
      var scores := Top.Scores(ix.corpus, ix.vectors[word], dot);
      if Top.KthInRange(|scores|, num) {
        SelectedAreParedEmojis(ix, scores, num);
      }
    }
  }

  /** Without a usable `number` the request is served as if it asked for NUM_EMOJIS. */
  lemma DefaultNumber<Vec>(ix: Index<Vec>, dot: (Vec, Vec) -> real, path: string, query: Query)
    requires Loaded(ix)
    requires "number" !in query || |query["number"]| == 0 || ParseInt(query["number"][0]).None?
    ensures DoGet(ix, dot, Request(path, query)) ==
            DoGet(ix, dot, Request(path, query["number" := [ShowInt(Selection.NUM_EMOJIS)]]))
  {
    var q := query["number" := [ShowInt(Selection.NUM_EMOJIS)]];
    ParseShowRoundTrip(Selection.NUM_EMOJIS);
    assert NumberParam(q) == NumberParam(query);
    assert ("emojis" in q) == ("emojis" in query);
  }

  /**
   * An answer is a list, not `null`, of at most `num` rows for a non-negative
   * `num`; each row is an emoji of the category of one of the top matches, with
   * that match's similarity.
   */
  lemma AnswerFromMatches<Vec>(ix: Index<Vec>, dot: (Vec, Vec) -> real, req: Request, i: nat)
    requires Loaded(ix)
    requires DoGet(ix, dot, req).Json? && Word(req.path) in ix.vectors
    ensures DoGet(ix, dot, req).data.Some?
    ensures var rows := DoGet(ix, dot, req).data.value;
            var num := NumberParam(req.query);
            var scores := Top.Scores(ix.corpus, ix.vectors[Word(req.path)], dot);
            && Top.KthInRange(|scores|, num)
            && (num >= 0 ==> |rows| <= num)
            && (i < |rows| ==>
                 exists j, n :: 0 <= j < |Top.Matches(scores, num)| && n in ix.wcl[Top.Matches(scores, num)[j]].1 &&
                   rows[i].similarity == scores[Top.Matches(scores, num)[j]] &&
                   n in ix.emojis && rows[i].emoji in {ix.emojis[n].glyph, ix.emojis[n].slackName})
  {
    NullExactlyForUnknown(ix, dot, req);
    var num := NumberParam(req.query);
    var scores := Top.Scores(ix.corpus, ix.vectors[Word(req.path)], dot);
    var m := Top.Matches(scores, num);
    var names := Selection.Select(Selection.Categories(ix.wcl, scores, m), num);
    var rows := DoGet(ix, dot, req).data.value;
    assert rows == FormatSimilar(names, ix.emojis, "emojis" in req.query).value;
    if i < |rows| {
      Selection.SelectFromMatches(ix.wcl, scores, m, num, names[i]);
      var j :| 0 <= j < |m| && names[i].name in ix.wcl[m[j]].1 && names[i].score == scores[m[j]];
      assert names[i].name in ix.emojis;
    }
  }

  /**
   * The rows of the first pass lead the answer, best similarity first:
   * `sortedmatches` is in descending score order and the first pass keeps it.
   */
  lemma FirstPassRowsBestFirst<Vec>(ix: Index<Vec>, dot: (Vec, Vec) -> real, req: Request)
    requires Loaded(ix)
    requires Word(req.path) in ix.vectors
    requires Top.KthInRange(|ix.wcl|, NumberParam(req.query))
    ensures DoGet(ix, dot, req).Json? && DoGet(ix, dot, req).data.Some?
    ensures var rows := DoGet(ix, dot, req).data.value;
            var num := NumberParam(req.query);
            var scores := Top.Scores(ix.corpus, ix.vectors[Word(req.path)], dot);
            var first := Selection.FirstPass(Selection.Categories(ix.wcl, scores, Top.Matches(scores, num)));
            forall i, j :: 0 <= i < j < |rows| && j < |first| ==> rows[j].similarity <= rows[i].similarity
  {
    NullExactlyForUnknown(ix, dot, req);
    var num := NumberParam(req.query);
    var scores := Top.Scores(ix.corpus, ix.vectors[Word(req.path)], dot);
    var m := Top.Matches(scores, num);
    var cats := Selection.Categories(ix.wcl, scores, m);
    var names := Selection.Select(cats, num);
    var rows := DoGet(ix, dot, req).data.value;
    assert rows == FormatSimilar(names, ix.emojis, "emojis" in req.query).value;
    Selection.SelectedFirstPassDescending(ix.wcl, scores, m, Top.TopCount(|scores|, num), num);
  }

  /** Rows come from distinct emoji names. */
  lemma AnswerDistinct<Vec>(ix: Index<Vec>, dot: (Vec, Vec) -> real, req: Request)
    requires Loaded(ix)
    requires Word(req.path) in ix.vectors
    requires Top.KthInRange(|ix.wcl|, NumberParam(req.query))
    ensures var num := NumberParam(req.query);
            var scores := Top.Scores(ix.corpus, ix.vectors[Word(req.path)], dot);
            var names := Selection.Select(Selection.Categories(ix.wcl, scores, Top.Matches(scores, num)), num);
            && DistinctNames(names)
            && DoGet(ix, dot, req) == Json(FormatSimilar(names, ix.emojis, "emojis" in req.query))
  {
  }
}
