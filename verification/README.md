# Emoji Suggester: a verified model of its matching core

Emoji Suggester maps an English word to emojis. It uses word2vec similarity between the word and the names and keywords of emojilib emojis. This project models the logic between the downloads, the numpy calls and the console/HTTP plumbing, and proves properties of it.

- **Corpus** (`corpus.dfy`): the emoji corpus (`emojicorpus`), the same set restricted to a vocabulary (the reference corpus), and the word → emoji-names map (`emojicorpusmap`). The map comes in two forms: filtered by a vocabulary, and unfiltered as in the similar-list script.
- **Charcode** (`charcode.dfy`): the emojilib key of an emoji. It is each code point formatted as `{:04X}`, joined with `-`, with every `-FE0F` removed.
- **SlackNames** (`slack_names.dfy`): `pared_emojis` without its I/O.
  - Emojilib emojis are linked to Slack short names through the charcode.
  - Skin-tone modifiers and bare gender signs are skipped.
  - Gendered Slack keys are retried without their ten-character suffix.
- **Reduction** (`reduction.dfy`): the chunk loop computing each row's best similarity to the reference corpus, the threshold filter, and the re-indexing that compacts the kept words and selects their weight rows. It also covers `vectorcorpus`.
- **Top** (`top.dfy`): `argpartition(dotprod, -num)[-num:]` followed by the reversed `argsort`. It includes the range in which `argpartition` accepts `num`.
- **Selection** (`selection.dfy`): the two-tier policy of `similar` and of the console copy.
  - A first pass over small categories, de-duplicated by name.
  - A fallback over large categories, smallest first, taken only when fewer than NUM_EMOJIS names came out.
  - A final cut at `num`.
  - Both the loop form (methods) and a functional reference are given, and proved equal.
- **Server** (`server.dfy`): `do_GET` without the socket.
  - The word comes from the path.
  - `number` is parsed with a fallback to NUM_EMOJIS.
  - An unknown word answers `null`.
  - `formatsimilar` is included.
- **Printing and Console** (`printing.dfy`, `console.dfy`): what the max-degree console prints for each input line, until `EXIT`.
- **ReverseMap** (`reverse_map.dfy`): the similar-list matcher.
  - Building `reverse` from precomputed similar-word lists.
  - The query: a stable descending sort of the stored list, first-occurrence de-duplication, and a cut at ten.
- **Support modules:**
  - Ranking (`ranking.dfy`): scored names, the `nameset` de-duplication and Python slicing.
  - Sorting (`sorting.dfy`): a stable insertion sort standing for Python's `list.sort`.
  - Options (`options.dfy`).

The max-degree console script (bymaxdegree.py) repeats the server's code: the reference corpus (lines 54-60), the chunk loop (lines 84-86), the filter and re-indexing (lines 105-122), the corpus map (lines 133-143) and the selection (lines 157-191), with `num` fixed at NUM_EMOJIS. The same members model both copies.

Modelling choices:
- Similarities are `real`, and dot products are an abstract function on an abstract vector type.
- The dictionaries the source walks in order (the emojilib JSON and the Slack list) are sequences in that order. The dictionaries it builds and looks up (`allemdict`, `slackemdict`, `etoslack` and the pared dictionary, the corpus map, `reverse`) are Dafny maps, which have no order.
- Python sets iterated by the source are walked in an order given as a parameter, which must enumerate the set.
- A Python exception that the source catches is modelled as the value the handler produces, such as `null` or the apology line. An uncaught one is modelled as an explicit "aborted" or "crashed" outcome.

## Model

| member | source | states |
|---|---|---|
| Corpus.EmojiCorpus | emojiserver/emojilib.py:111-118 | a word is in the corpus exactly when it is the name or one of the keywords of some emoji |
| Corpus.UnfilteredKeysAreCorpus | bysimilarlist.py:47-51 | the similar-list script's corpus is exactly the key set of its unfiltered corpus map |
| Corpus.ReferenceCorpus | bymaxdegree.py:54-60 | the reference corpus is the emoji corpus intersected with the model vocabulary |
| Corpus.CorpusMapOf | emojiserver/emojilib.py:120-137 | every key of the corpus map is admitted by the vocabulary and every list under a key is non-empty |
| Corpus.AddKeywordsKeys | emojiserver/emojilib.py:132-136 | after the keyword loop a word is a key exactly when it was one before or is an admitted keyword of the emoji |
| Corpus.AddKeywordsLists | emojiserver/emojilib.py:132-136 | the keyword loop appends the emoji's name under an admitted word once per occurrence of that word among the keywords, after what was there |
| Corpus.AddEmojiLists | emojiserver/emojilib.py:127-136 | one emoji appends its name under an admitted word once for its own name and once per keyword occurrence, after the earlier names |
| Corpus.AddEmojiKeys | emojiserver/emojilib.py:127-136 | one emoji adds exactly the admitted words that are its name or one of its keywords as keys |
| Corpus.CorpusMapIsCategory | emojiserver/emojilib.py:126-137 | the list under a word holds the names of the emojis mentioning it, in dict order, once per mention; the word is a key exactly when it is admitted and in the corpus |
| Corpus.CategoryMembership | emojiserver/emojilib.py:127-136 | a name is in a word's category exactly when that emoji's name or keywords include the word |
| Corpus.CategoryFrom | emojiserver/emojilib.py:127-136 | a name listed under a word belongs to an emoji whose name or keywords include the word |
| Corpus.CategoryHas | emojiserver/emojilib.py:127-136 | every emoji whose name or keywords include a word is listed under that word |
| Corpus.CorpusMapMembership | bymaxdegree.py:133-143 | in the vocabulary-filtered map every key is in the vocabulary, and a name is listed under a word exactly when the word is in the vocabulary and is that emoji's name or keyword |
| Corpus.CorpusMapListsEmojis | emojiserver/emojilib.py:126-137 | every name listed anywhere in the corpus map is the name of an emoji of the dictionary |
| Corpus.UnfilteredHasEveryName | bysimilarlist.py:84-87 | in the unfiltered map every emoji name is a key and its list contains the name itself |
| Corpus.NameRepeatedAsKeyword | bysimilarlist.py:84-91 | an emoji listing its own name as a keyword appears twice under that word |
| Charcode.Format04X | emojiserver/emojilib.py:39 | the formatted code point is at least four upper-case hex digits whose value is the code point, exactly four below 0x10000, with no zero beyond the padding to four digits |
| Charcode.FormatUnique | emojiserver/emojilib.py:39 | any numeral of the code point with at least four digits and no zero beyond the padding is the formatted one, so U+1F600 gives `1F600` and never `01F600` |
| Charcode.FormatIsSelector | emojiserver/emojilib.py:39-40 | a formatted piece is `FE0F` exactly when the character is the variation selector U+FE0F |
| Charcode.DropSelectors | emojiserver/emojilib.py:40 | the reference result holds only characters of the input and no variation selector |
| Charcode.RemoveDashedPiece | emojiserver/emojilib.py:40 | the removal pass drops a `-FE0F` piece and keeps any other dashed piece unchanged |
| Charcode.CharcodeDropsSelectors | emojiserver/emojilib.py:39-40 | the charcode is the first character's code followed by the codes of the remaining characters other than U+FE0F |
| Charcode.LeadingSelectorKept | emojiserver/emojilib.py:40 | a leading U+FE0F has no dash before it and stays in the charcode |
| SlackNames.BySlackCode | emojiserver/emojilib.py:42 | every Slack record's upper-cased code is a key, and every key maps to the short name of a record with that code |
| SlackNames.ByCharcodeEntries | emojiserver/emojilib.py:41 | every key of the charcode dictionary is the charcode of an emoji with a `char`, named by it, and every emoji with a `char` has its charcode as a key |
| SlackNames.ByCharcodeInjective | emojiserver/emojilib.py:41 | with distinct emojilib names no two charcodes name the same emoji |
| SlackNames.Target | emojiserver/emojilib.py:61-73 | a Slack key whose short name is a skin tone, or a bare gender sign, links nothing; a link comes only from a key with a gender suffix, to the emojilib name of the key without it |
| SlackNames.GenderedLinkRule | emojiserver/emojilib.py:60-73 | a Slack-only key links a name exactly when its short name is not a skin tone, it has a gender suffix, and the key without the suffix is that name's charcode |
| SlackNames.LinkCommonAt | emojiserver/emojilib.py:56-57 | the first loop links exactly the names of shared charcodes, each to the Slack name of one of them |
| SlackNames.LinkRemainingAt | emojiserver/emojilib.py:61-73 | the second loop adds exactly the names some Slack-only key leads to, and leaves the other entries unchanged |
| SlackNames.SharedLinkNamed | emojiserver/emojilib.py:51-57 | walking the intersection in any order names exactly the names with a charcode known to both sides |
| SlackNames.GenderedLinkLed | emojiserver/emojilib.py:60-73 | walking the Slack-only keys in any order leads exactly to the names of emojis reached by dropping a gender suffix |
| SlackNames.EmojiToSlackMembership | emojiserver/emojilib.py:53-73 | a name is linked exactly when it has a shared charcode or a gendered Slack key leads to it |
| SlackNames.LinkedNameIsLibName | emojiserver/emojilib.py:56-73 | every linked name is an emojilib name |
| SlackNames.GenderedNameWins | emojiserver/emojilib.py:69-73 | a name reached by a gendered key gets that key's Slack name, overriding the first loop |
| SlackNames.SharedNameKept | emojiserver/emojilib.py:56-57 | a name with only a shared charcode keeps the Slack name of a shared charcode |
| SlackNames.Find | emojiserver/emojilib.py:81-82 | the lookup finds an emoji exactly when one has that name, and returns such an emoji |
| SlackNames.FindUnique | emojiserver/emojilib.py:81-82 | with distinct names the lookup returns the emoji of that name |
| SlackNames.LinkedNamesFound | emojiserver/emojilib.py:41 | every linked name is an emojilib emoji whose `char` is not null |
| SlackNames.ParedEmojis | emojiserver/emojilib.py:78-83 | every pared entry carries the `char` and the keywords of the emojilib emoji of that name |
| SlackNames.ParedMembership | emojiserver/emojilib.py:53-83 | a name is in the pared dictionary exactly when it has a shared charcode or a gendered Slack key leads to it |
| SlackNames.ParedSlackName | emojiserver/emojilib.py:56-80 | a pared entry's Slack name is that of a gendered key leading to it if there is one, otherwise that of a shared charcode |
| Reduction.MaxScore | emojiserver/word2vec.py:54 | the row's best similarity is at least every similarity to a reference vector and equals one of them |
| Reduction.ChunkedMaxScores | emojiserver/word2vec.py:52-54 | the loop as written fills exactly the rows of whole chunks with their best similarity and leaves the trailing rows at zero; it fails only when there are rows to fill and no reference vectors |
| Reduction.PartialChunkDropsWords | emojiserver/word2vec.py:52-54 | a word whose row lies in the trailing partial chunk is always filtered out, whatever its similarity (1500 rows cover only 1000) |
| Reduction.ChunkedMaxScoresAllRows | emojiserver/word2vec.py:52-54 | the corrected loop gives every row its best similarity |
| Reduction.AllRowsKeepSimilarWords | emojiserver/word2vec.py:52-54 | with every row computed, a word survives exactly when it is similar enough to some reference word |
| Reduction.FilterMembers | emojiserver/word2vec.py:80-82 | an entry survives the filter exactly when its row scores at least the threshold |
| Reduction.FilterMonotone | emojiserver/word2vec.py:81 | raising the threshold never keeps more entries |
| Reduction.FilterWellFormed | emojiserver/word2vec.py:80-82 | filtering keeps words and row indices distinct and in range |
| Reduction.FilterKeepsAll | emojiserver/word2vec.py:80-82 | when every row meets the threshold nothing is deleted |
| Reduction.Survivors | emojiserver/word2vec.py:84-86 | every sorted survivor is a vocabulary entry that met the threshold |
| Reduction.Reduce | emojiserver/word2vec.py:84-97 | the new vocabulary is indexed 0..k-1, and `indexes` and the new rows have one entry per kept word, each pointing to an old row |
| Reduction.ReduceKeepsExactly | emojiserver/word2vec.py:80-94 | a word is in the reduced vocabulary exactly when its entry's row met the threshold |
| Reduction.ReduceSelectsRows | emojiserver/word2vec.py:84-97 | `indexes` strictly increases, the i-th kept word had old index `indexes[i]`, and new row i is old row `indexes[i]` |
| Reduction.ReduceWellFormed | emojiserver/word2vec.py:84-97 | the reduced vocabulary is well formed over the selected rows |
| Reduction.ReduceIdempotent | emojiserver/word2vec.py:79-97 | reducing a reduced model again with the same scores changes nothing and gives identity indexes |
| Reduction.ReducedRowsQualify | emojiserver/word2vec.py:79-93 | every row the reduction keeps scores at least the threshold |
| Reduction.ReduceReindexed | emojiserver/word2vec.py:84-97 | a vocabulary already indexed 0..k-1 with every row kept is its own reduction |
| Reduction.OneEntryPerWord | emojiserver/word2vec.py:80 | a well-formed vocabulary has one entry per word |
| Reduction.VectorCorpus | emojiserver/word2vec.py:139 | one vector per corpus-map entry in `wcl` order; a word without a vector fails |
| Top.TopCount | emojiserver/emojiserver.py:31 | for a `num` that `argpartition` accepts, the count is the length of the slice `[-num:]` of the R partitioned indices |
| Top.TopCountInRange | emojiserver/emojiserver.py:31 | for an accepted `num` the count is between 0 and the number of scores, and `num == 0` keeps them all |
| Top.RankedIsPermutation | emojiserver/emojiserver.py:31-32 | the ranking lists every index exactly once |
| Top.RankedDescending | emojiserver/emojiserver.py:32 | the ranking lists scores in non-increasing order |
| Top.TopSelectionIsTop | emojiserver/emojiserver.py:31-32 | a prefix of the ranking is a valid `sortedmatches`: distinct in-range indices, best first, none beaten by an index left out |
| Top.Matches | emojiserver/emojiserver.py:31-32 | `sortedmatches` is a valid top selection of the count the slice keeps |
| Selection.SmallLargeMembers | emojiserver/emojiserver.py:40-46 | the first pass expands exactly the categories shorter than CATEGORY_LENGTH, and the rest are set aside |
| Selection.FirstPassFromSmall | emojiserver/emojiserver.py:38-44 | every first-pass emission is a name of a small category, with that category's score |
| Selection.FallbackFromLarge | emojiserver/emojiserver.py:50-55 | every fallback candidate is a name of a large category, with that category's score |
| Selection.FallbackOrder | emojiserver/emojiserver.py:45-51 | the fallback walks the large categories by ascending size, each once, equal sizes in the order the first pass collected them |
| Selection.EmittedDistinct | emojiserver/emojiserver.py:37-55 | the `nameset` guard never lets a name out twice |
| Selection.Select | emojiserver/emojiserver.py:61 | the result has at most `num` entries for a non-negative `num`, distinct names, and each is a name of one of the categories with its score |
| Selection.SelectFromMatches | emojiserver/emojiserver.py:31-55 | every returned name belongs to the category of one of the top matches, paired with that match's score |
| Selection.SelectOrder | emojiserver/emojiserver.py:38-59 | first-pass emissions come first and in order; later entries come from the fallback, which ran only because fewer than NUM_EMOJIS names came out first |
| Selection.FirstPassDescending | emojiserver/emojiserver.py:32-44 | for matches in non-increasing score order the first-pass scores are non-increasing |
| Selection.MatchesDescending | emojiserver/emojiserver.py:31-40 | the categories of a valid `sortedmatches` come in non-increasing score order |
| Selection.SelectedFirstPassDescending | emojiserver/emojiserver.py:31-61 | on a valid `sortedmatches`, the returned names that the first pass supplied come best score first |
| Selection.ShortOfNum | emojiserver/emojiserver.py:49-61 | when the first pass emits at least NUM_EMOJIS but fewer than `num` names the fallback is skipped, and fewer than `num` are returned |
| Selection.ShortOfNumExample | emojiserver/emojiserver.py:49 | a concrete input: asking for 12 returns 10 names although a large category holds more |
| Selection.AddCategory | emojiserver/emojiserver.py:41-44 | the inner loop appends the category's new names in order, keeping `nameset` equal to the emitted names |
| Selection.FirstLoop | emojiserver/emojiserver.py:35-46 | the first loop emits the de-duplicated small categories and sets aside the large ones in order |
| Selection.AddUntil | emojiserver/emojiserver.py:52-57 | the inner fallback loop stops early only when `num` names have been emitted |
| Selection.FallbackLoop | emojiserver/emojiserver.py:50-59 | the fallback loop, with its breaks, agrees up to the cut at `num` with de-duplicating all sorted large categories |
| Selection.Similar | emojiserver/emojiserver.py:35-61 | the loops of `similar` compute the functional selection |
| Server.ParseInt | emojiserver/emojiserver.py:84 | `int()` of a string succeeds exactly on an optionally signed decimal numeral between whitespace |
| Server.ShowNat | emojiserver/emojiserver.py:84 | the decimal numeral of a natural number reads back as that number |
| Server.ParseShowRoundTrip | emojiserver/emojiserver.py:84 | parsing the decimal text of any integer gives that integer |
| Server.NumberParam | emojiserver/emojiserver.py:83-86 | `num` is the parsed first `number` value, or NUM_EMOJIS when the parameter is missing, empty or not an integer |
| Server.DefaultNumber | emojiserver/emojiserver.py:83-86 | a request without a usable `number` is answered like one asking for NUM_EMOJIS |
| Server.FormatSimilar | emojiserver/emojiserver.py:63-73 | the rows keep length, order and similarities and replace each name by its `char` or Slack name; a name without an entry fails |
| Server.UnknownWordIsNull | emojiserver/emojiserver.py:88-91 | an unknown word answers `null` |
| Server.StartupLoaded | emojiserver/emojiserver.py:18-24 | the state built at start-up has one corpus vector per corpus-map entry, and every name the corpus map lists is a pared emoji |
| Server.SelectedAreParedEmojis | emojiserver/emojiserver.py:18-24 | every selected name is a key of the pared dictionary, so `formatsimilar` raises no KeyError |
| Server.NullExactlyForUnknown | emojiserver/emojiserver.py:87-91 | the answer is `null` exactly when the embedding does not know the word |
| Server.FirstPassRowsBestFirst | emojiserver/emojiserver.py:31-61 | the answer's rows that came from the first pass lead it, best similarity first |
| Server.AbortedExactly | emojiserver/emojiserver.py:28-31 | the handler raises exactly when the word is known and `argpartition` rejects `num` |
| Server.AnswerFromMatches | emojiserver/emojiserver.py:78-91 | a known word's answer is a list, not `null`, of at most `num` rows for a non-negative `num`, each an emoji of a top match's category with that match's similarity |
| Server.AnswerDistinct | emojiserver/emojiserver.py:88-89 | the answer formats a selection with distinct names |
| Printing.Render | bymaxdegree.py:189-194 | never more lines than selected names |
| Printing.RenderKnown | bymaxdegree.py:190-191 | with every name in the dictionary, one line per name in order with its `char` and score |
| Printing.RenderUnknown | bymaxdegree.py:190-194 | a name missing from the dictionary ends the output with the apology after the earlier lines |
| Console.Picked | bymaxdegree.py:157-190 | at most NUM_EMOJIS names, no name twice |
| Console.UnknownWordApologises | bymaxdegree.py:157-194 | an unknown word prints only the apology |
| Console.CrashesOnSmallCorpus | bymaxdegree.py:159 | the script dies on a known word exactly when the corpus map has fewer than NUM_EMOJIS entries |
| Console.AtMostNumEmojis | bymaxdegree.py:190-191 | a known word prints at most NUM_EMOJIS lines |
| Console.StartupLoaded | bymaxdegree.py:133-147 | the state built before the loop has one corpus vector per corpus-map entry, and every name the corpus map lists is an emojilib key |
| Console.PrintsPicked | bymaxdegree.py:189-194 | a known word prints one line per selected emoji, in selection order, with its `char` and score; the KeyError handler is never reached while printing |
| Console.StopsAtExit | bymaxdegree.py:152-155 | nothing after `EXIT` is read |
| ReverseMap.FromSimilarMembership | bysimilarlist.py:105-110 | an entry comes from a similar word exactly when that word is in the corpus map, lists the emoji, and has that similarity |
| ReverseMap.ContributionsMembership | bysimilarlist.py:96-110 | every entry under a word is one of its own emojis at 1.0 or an emoji of a similar word at that word's similarity, and all of those are there |
| ReverseMap.OwnComeFirst | bysimilarlist.py:98-102 | the word's own emojis come first, at score 1.0, in corpus-map order |
| ReverseMap.HasEntries | bysimilarlist.py:96-110 | something is appended under a word exactly when it or one of its similar words is in the corpus map |
| ReverseMap.ReverseKeys | bysimilarlist.py:95-110 | a word is a key of `reverse` exactly when it is in `similars` and something was appended under it |
| ReverseMap.ReverseLists | bysimilarlist.py:95-110 | the list under each word is exactly its own emojis followed by its similar words' emojis |
| ReverseMap.Shown | bysimilarlist.py:128-137 | a query shows at most ten entries, no emoji twice |
| ReverseMap.Query | bysimilarlist.py:126-139 | an unknown word prints the apology and changes nothing; a known word prints at most ten lines, keeps the keys, only reorders the list under the word, and leaves every other list unchanged |
| ReverseMap.QueryIsPrintLoop | bysimilarlist.py:127-131 | the query sorts the stored list in place and prints from the sorted list |
| ReverseMap.PrintLoop | bysimilarlist.py:129-139 | the printing loop with its `printed == 10` break prints the first ten distinct entries, or stops with the apology at a name missing from the dictionary |
| ReverseMap.ShownDescending | bysimilarlist.py:128-134 | the shown entries are best first |
| ReverseMap.ShownFromList | bysimilarlist.py:128-134 | every shown entry is an entry of the stored list |
| ReverseMap.ShownBest | bysimilarlist.py:128-134 | each shown emoji carries its highest score in the stored list |
| ReverseMap.ShownAll | bysimilarlist.py:131-137 | with fewer than ten shown, every emoji of the list is shown |
| ReverseMap.ShownTopTen | bysimilarlist.py:128-137 | with ten shown, an emoji not shown scores no more than the tenth shown |
| ReverseMap.QueryPrintsShown | bysimilarlist.py:131-135 | with every shown emoji in the dictionary, one line per shown entry in order with its `char` and score |
| ReverseMap.ReverseNamesListed | bysimilarlist.py:93-110 | every emoji stored under a word of the reverse map is listed under some word of the corpus map |
| ReverseMap.KnownWordNeverApologises | bysimilarlist.py:82-139 | with the reverse map built from the dictionary's corpus map, a word it knows prints one emoji line per shown entry, with its `char` and score, and never the apology |
| ReverseMap.QueryRepeatable | bysimilarlist.py:127-128 | asking again for the same word prints the same lines and leaves the map as it is |
| Sorting.SortBy | bysimilarlist.py:128 | the sort keeps the entries (as a multiset) and orders them by key |
| Sorting.SortByIsStable | bysimilarlist.py:128 | entries with equal keys keep their relative order |
| Sorting.SortByIdempotent | bysimilarlist.py:128 | sorting a sorted list leaves it unchanged |
| Sorting.SortBySortedIsIdentity | bysimilarlist.py:128 | a list already in key order is its own sort |
| Ranking.DedupOntoNames | emojiserver/emojiserver.py:41-44 | the guard emits every candidate name and no other |
| Ranking.DedupOntoDistinct | emojiserver/emojiserver.py:41-44 | the guard never emits a name twice |
| Ranking.DedupKeepsBestScore | bysimilarlist.py:128-134 | on a best-first list each emitted entry has the best score its name has |
| Ranking.DedupKeepsDescending | bysimilarlist.py:128-134 | de-duplicating a best-first list keeps it best first |
| Ranking.DedupDistinctIsIdentity | emojiserver/emojiserver.py:41-44 | a list without repeated names passes the guard unchanged |
| Ranking.Prefix | emojiserver/emojiserver.py:61 | `s[:n]` is a prefix of `s`, of length `min(n, len(s))` for a non-negative `n` |

## Left out

- Downloading emojilib and the Slack emoji list, file caching, and JSON and pickle loading and saving. These are I/O. The downloaded emojilib dictionary and the Slack list are parameters given as sequences in their order.
- The insertion order of the pared dictionary and of the corpus map. `emojicorpusmap` walks the pared dictionary in its insertion order, and `WCL` lists the corpus map's items in theirs. The model takes the walked entries as a parameter and `WCL` as any listing of the corpus map's items, so which index holds which word is not fixed.
- gensim model loading, `init_sims`, `unitvec` normalisation, the numpy memmaps and `np.save`. These are foreign libraries. Vectors are an abstract type and the similarity of two vectors is a parameter.
- Floating point. Similarities are reals. `float(dotprod[index])` and the printing of numbers are not modelled.
- `similar_by_word` in the similar-list script. The similar-word lists are a parameter (`ReverseMap.Similars`). The warning for words missing from the model is output only.
- The HTTP server, response headers, `urlparse`/`parse_qs` and JSON encoding. The request is modelled as its path and parsed query.
- Every `print` other than the printed result lines and the apology.
- The debug print of `charcode(allem['weight_lifting_man'])` in `pared_emojis`. It raises KeyError if that emoji is missing, which is not modelled.
- The cache short-circuiting in `normedmodel` and `emojiserver/paths.py`. Both depend on the filesystem only.
- Top.Matches: `argpartition`/`argsort` do not fix the order of equal scores. The model proves properties for any valid top selection (`Top.IsTopSelection`), but computes answers with one deterministic choice, ties by index.
- Server.ParseInt: accepts only ASCII digits and the ASCII whitespace `int()` strips. Underscores between digits and non-ASCII digits and spaces, which Python also accepts, are not modelled.
- SlackNames.Upper: upper-cases ASCII letters only, which covers the hexadecimal codes it is applied to.
- SlackNames.ParedEmojis: the iteration order of the two Python sets is a parameter. The contracts hold for every order. A name has at most one shared charcode (SlackNames.ByCharcodeInjective), so the order decides the Slack name only when several Slack-only gendered keys, such as the female and male forms of one emoji, strip to the same charcode: the one walked last wins.
- Charcode.CharcodeDropsSelectors: assumes no code point in U+FE0F0..U+FE0FF (private-use characters no emoji uses). For those, `str.replace` would also cut the `-FE0F` prefix out of a longer code.
- The end of console input (`input()` raising EOFError) is modelled only as a crash of the session, without the traceback.
- The fresh memmap's zero fill is modelled as 0.0 for the rows the chunk loop does not write.

## Findings

| source | as written | input that shows it | evidently intended | confidence | as-written member | corrected member |
|---|---|---|---|---|---|---|
| emojiserver/word2vec.py:52-54 | `range(0, int(V/CHUNKSIZE))` visits only whole chunks, so rows past the last multiple of CHUNKSIZE keep the zero of the fresh buffer, and `generate_limittedmodel` then deletes their words, whatever their similarity | a vocabulary of 1500 rows: rows 1000-1499 are never computed and all their words are dropped (the same loop is at bymaxdegree.py:84-86) | every row gets its best similarity; the `min(V, ...)` bound on `cend` already allows a shorter last chunk | not executed | Reduction.PartialChunkDropsWords | Reduction.AllRowsKeepSimilarWords |
