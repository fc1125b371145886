/**
 * The corpus indexer: the set of all emoji names and keywords (`emojicorpus`), the
 * same set restricted to an embedding vocabulary (the reference corpus), and the
 * word -> list-of-emoji-names map (`emojicorpusmap`).  The emoji dictionary is a
 * sequence of entries in its iteration order; the filtered and the unfiltered
 * corpus maps are one fold, parameterised by the vocabulary that admits words.
 */
module Corpus {

  /** One emoji of the dictionary: its name (the dict key) and its keyword list. */
  datatype Entry = Entry(name: string, keywords: seq<string>)

  /** The words a corpus map may hold; `Everything` is the map built without a vocabulary test. */
  datatype Vocabulary = Everything | Only(words: set<string>)

  predicate Admits(v: Vocabulary, w: string)
  {
    v.Everything? || w in v.words
  }

  type CorpusMap = map<string, seq<string>>

  /** `w` is the emoji's own name or one of its keywords. */
  predicate Mentions(e: Entry, w: string)
  {
    w == e.name || w in e.keywords
  }

  ghost predicate InCorpus(emojis: seq<Entry>, w: string)
  {
    exists i :: 0 <= i < |emojis| && Mentions(emojis[i], w)
  }

  lemma InCorpusSnoc(emojis: seq<Entry>, e: Entry)
    ensures forall w :: InCorpus(emojis + [e], w) <==> InCorpus(emojis, w) || Mentions(e, w)
  {
    var all := emojis + [e];
    forall w
      ensures InCorpus(all, w) <==> InCorpus(emojis, w) || Mentions(e, w)
    {
      if InCorpus(emojis, w) {
        var i :| 0 <= i < |emojis| && Mentions(emojis[i], w);
        assert all[i] == emojis[i];
      }
      if Mentions(e, w) {
        assert all[|emojis|] == e;
      }
      if InCorpus(all, w) {
        var i :| 0 <= i < |all| && Mentions(all[i], w);
        if i < |emojis| {
          assert emojis[i] == all[i];
        }
      }
    }
  }

  /** `emojicorpus`: every emoji name and every keyword of every emoji. */
  function EmojiCorpus(emojis: seq<Entry>): (r: set<string>)
    ensures forall w :: w in r <==> InCorpus(emojis, w)
  {
    if |emojis| == 0 then {}
    else
      var e := emojis[|emojis| - 1];
      assert emojis == emojis[..|emojis| - 1] + [e];
      InCorpusSnoc(emojis[..|emojis| - 1], e);
      EmojiCorpus(emojis[..|emojis| - 1]) + {e.name} + (set k | k in e.keywords)
  }

  /** The reference corpus: names and keywords that the embedding vocabulary contains. */
  function ReferenceCorpus(emojis: seq<Entry>, vocab: set<string>): (r: set<string>)
    ensures r == EmojiCorpus(emojis) * vocab
  {
    if |emojis| == 0 then {}
    else
      var e := emojis[|emojis| - 1];
      ReferenceCorpus(emojis[..|emojis| - 1], vocab)
        + (if e.name in vocab then {e.name} else {})
        + (set k | k in e.keywords && k in vocab)
  }

  /** The list stored under `w`, or the empty list the source creates on first use. */
  function Get(m: CorpusMap, w: string): seq<string>
  {
    if w in m then m[w] else []
  }

  /** `corpusmap[w].append(name)`, creating the list first when `w` is new. */
  function AddWord(m: CorpusMap, w: string, name: string): CorpusMap
  {
    m[w := Get(m, w) + [name]]
  }

  /** Well-formed corpus map: every key is admitted and every list is non-empty. */
  predicate Admissible(m: CorpusMap, v: Vocabulary)
  {
    forall w :: w in m ==> Admits(v, w) && |m[w]| > 0
  }

  /** The inner keyword loop for one emoji. */
  function AddKeywords(m: CorpusMap, keywords: seq<string>, name: string, v: Vocabulary): (r: CorpusMap)
    ensures Admissible(m, v) ==> Admissible(r, v)
  {
    if |keywords| == 0 then m
    else
      var m' := AddKeywords(m, keywords[..|keywords| - 1], name, v);
      var k := keywords[|keywords| - 1];
      if Admits(v, k) then AddWord(m', k, name) else m'
  }

  /** One iteration of the outer loop: the emoji's own name first, then its keywords. */
  function AddEmoji(m: CorpusMap, e: Entry, v: Vocabulary): (r: CorpusMap)
    ensures Admissible(m, v) ==> Admissible(r, v)
  {
    AddKeywords(if Admits(v, e.name) then AddWord(m, e.name, e.name) else m, e.keywords, e.name, v)
  }

  /** `emojicorpusmap(emojis, vocab)`; with `Everything` it is the unfiltered map. */
  function CorpusMapOf(emojis: seq<Entry>, v: Vocabulary): (r: CorpusMap)
    ensures Admissible(r, v)
  {
    if |emojis| == 0 then map[]
    else AddEmoji(CorpusMapOf(emojis[..|emojis| - 1], v), emojis[|emojis| - 1], v)
  }

  function Repeat(x: string, n: nat): (r: seq<string>)
    ensures |r| == n && forall i :: 0 <= i < n ==> r[i] == x
  {
    if n == 0 then [] else Repeat(x, n - 1) + [x]
  }

  lemma {:induction false} RepeatAdd(x: string, a: nat, b: nat)
    ensures Repeat(x, a) + Repeat(x, b) == Repeat(x, a + b)
  {
  }

  /** How many times processing `e` appends its name under `w`. */
  function Hits(e: Entry, w: string): nat
  {
    (if w == e.name then 1 else 0) + multiset(e.keywords)[w]
  }

  /**
   * The category of `w` defined independently of the fold: for each emoji in
   * dictionary order, its name once per mention of `w`.
   */
  function Category(emojis: seq<Entry>, w: string): seq<string>
  {
    if |emojis| == 0 then []
    else Category(emojis[..|emojis| - 1], w) + Repeat(emojis[|emojis| - 1].name, Hits(emojis[|emojis| - 1], w))
  }

  lemma {:induction false} AddKeywordsKeys(m: CorpusMap, keywords: seq<string>, name: string, v: Vocabulary, w: string)
    ensures w in AddKeywords(m, keywords, name, v) <==> w in m || (Admits(v, w) && w in keywords)
  {
    if |keywords| > 0 {
      var ks := keywords[..|keywords| - 1];
      assert keywords == ks + [keywords[|keywords| - 1]];
      AddKeywordsKeys(m, ks, name, v, w);
    }
  }

  /** Appending under one key `k` leaves the list of every other word alone. */
  lemma AppendUnder(m: CorpusMap, k: string, name: string, c: nat, w: string, base: seq<string>)
    requires Get(m, w) == base + Repeat(name, c)
    ensures Get(AddWord(m, k, name), w) == base + Repeat(name, if k == w then c + 1 else c)
  {
    if k == w {
      assert Repeat(name, c + 1) == Repeat(name, c) + [name];
    }
  }

  lemma {:induction false} AddKeywordsLists(m: CorpusMap, keywords: seq<string>, name: string, v: Vocabulary, w: string)
    ensures Get(AddKeywords(m, keywords, name, v), w)
            == Get(m, w) + Repeat(name, if Admits(v, w) then multiset(keywords)[w] else 0)
  {
    if |keywords| == 0 {
      assert Get(m, w) + [] == Get(m, w);
    } else {
      var ks := keywords[..|keywords| - 1];
      var k := keywords[|keywords| - 1];
      assert keywords == ks + [k];
      assert multiset(keywords) == multiset(ks) + multiset{k};
      AddKeywordsLists(m, ks, name, v, w);
      var m' := AddKeywords(m, ks, name, v);
      var c := if Admits(v, w) then multiset(ks)[w] else 0;
      assert multiset(keywords)[w] == multiset(ks)[w] + (if k == w then 1 else 0);
      if Admits(v, k) {
        assert AddKeywords(m, keywords, name, v) == AddWord(m', k, name);
        AppendUnder(m', k, name, c, w, Get(m, w));
      } else {
        assert AddKeywords(m, keywords, name, v) == m';
      }
    }
  }

  lemma AddEmojiLists(m: CorpusMap, e: Entry, v: Vocabulary, w: string)
    ensures Get(AddEmoji(m, e, v), w) == Get(m, w) + Repeat(e.name, if Admits(v, w) then Hits(e, w) else 0)
  {
    var m0 := if Admits(v, e.name) then AddWord(m, e.name, e.name) else m;
    assert AddEmoji(m, e, v) == AddKeywords(m0, e.keywords, e.name, v);
    AddKeywordsLists(m0, e.keywords, e.name, v, w);
    var c := if Admits(v, w) then multiset(e.keywords)[w] else 0;
    if Admits(v, w) && w == e.name {
      assert Hits(e, w) == 1 + c;
      assert Get(m0, w) == Get(m, w) + Repeat(e.name, 1);
      RepeatAdd(e.name, 1, c);
    } else {
      assert Get(m0, w) == Get(m, w);
    }
  }

  lemma AddEmojiKeys(m: CorpusMap, e: Entry, v: Vocabulary, w: string)
    ensures w in AddEmoji(m, e, v) <==> w in m || (Admits(v, w) && Mentions(e, w))
  {
    var m0 := if Admits(v, e.name) then AddWord(m, e.name, e.name) else m;
    AddKeywordsKeys(m0, e.keywords, e.name, v, w);
  }

  /**
   * The fold computes the reference category: the list under `w` is exactly
   * `Category(emojis, w)` when `w` is admitted, and `w` is a key exactly when it
   * is admitted and some emoji mentions it.
   */
  lemma {:induction false} CorpusMapIsCategory(emojis: seq<Entry>, v: Vocabulary, w: string)
    ensures Get(CorpusMapOf(emojis, v), w) == if Admits(v, w) then Category(emojis, w) else []
    ensures w in CorpusMapOf(emojis, v) <==> Admits(v, w) && InCorpus(emojis, w)
  {
    if |emojis| > 0 {
      var pre := emojis[..|emojis| - 1];
      var e := emojis[|emojis| - 1];
      assert emojis == pre + [e];
      CorpusMapIsCategory(pre, v, w);
      AddEmojiLists(CorpusMapOf(pre, v), e, v, w);
      AddEmojiKeys(CorpusMapOf(pre, v), e, v, w);
      InCorpusSnoc(pre, e);
    }
  }

  /** Concatenating dictionaries concatenates categories: earlier emojis come first. */
  lemma {:induction false} CategoryAppend(a: seq<Entry>, b: seq<Entry>, w: string)
    ensures Category(a + b, w) == Category(a, w) + Category(b, w)
    decreases |b|
  {
    if |b| == 0 {
      assert a + b == a;
    } else {
      var b' := b[..|b| - 1];
      assert (a + b)[..|a + b| - 1] == a + b';
      CategoryAppend(a, b', w);
    }
  }

  /** One emoji's contribution to the category of `w` lists its name exactly when it mentions `w`. */
  lemma RepeatHitsMembership(e: Entry, w: string, name: string)
    ensures name in Repeat(e.name, Hits(e, w)) <==> name == e.name && Mentions(e, w)
  {
    if name == e.name && Mentions(e, w) {
      assert Repeat(e.name, Hits(e, w))[0] == name;
    }
  }

  /** A name in the category of `w` belongs to an emoji that mentions `w`. */
  lemma {:induction false} CategoryFrom(emojis: seq<Entry>, w: string, name: string)
    requires name in Category(emojis, w)
    ensures exists i :: 0 <= i < |emojis| && emojis[i].name == name && Mentions(emojis[i], w)
  {
    var pre := emojis[..|emojis| - 1];
    var e := emojis[|emojis| - 1];
    RepeatHitsMembership(e, w, name);
    if name in Category(pre, w) {
      CategoryFrom(pre, w, name);
      var i :| 0 <= i < |pre| && pre[i].name == name && Mentions(pre[i], w);
      assert emojis[i] == pre[i];
    }
  }

  /** Every emoji that mentions `w` is listed in the category of `w`. */
  lemma {:induction false} CategoryHas(emojis: seq<Entry>, w: string, i: nat)
    requires i < |emojis| && Mentions(emojis[i], w)
    ensures emojis[i].name in Category(emojis, w)
  {
    var pre := emojis[..|emojis| - 1];
    var e := emojis[|emojis| - 1];
    if i == |emojis| - 1 {
      RepeatHitsMembership(e, w, e.name);
    } else {
      assert pre[i] == emojis[i];
      CategoryHas(pre, w, i);
    }
  }

  /** An emoji name is in the category of `w` exactly when that emoji mentions `w`. */
  lemma {:induction false} CategoryMembership(emojis: seq<Entry>, w: string, name: string)
    ensures name in Category(emojis, w) <==>
            exists i :: 0 <= i < |emojis| && emojis[i].name == name && Mentions(emojis[i], w)
  {
    if name in Category(emojis, w) {
      CategoryFrom(emojis, w, name);
    }
    if exists i :: 0 <= i < |emojis| && emojis[i].name == name && Mentions(emojis[i], w) {
      var i :| 0 <= i < |emojis| && emojis[i].name == name && Mentions(emojis[i], w);
      CategoryHas(emojis, w, i);
    }
  }

  /**
   * `emojicorpusmap`: every key is a vocabulary word, and emoji `name` is listed
   * under `w` exactly when `w` is in the vocabulary and is that emoji's name or
   * one of its keywords.
   */
  lemma CorpusMapMembership(emojis: seq<Entry>, vocab: set<string>, w: string, name: string)
    ensures w in CorpusMapOf(emojis, Only(vocab)) ==> w in vocab
    ensures (w in CorpusMapOf(emojis, Only(vocab)) && name in CorpusMapOf(emojis, Only(vocab))[w]) <==>
            w in vocab && exists i :: 0 <= i < |emojis| && emojis[i].name == name && Mentions(emojis[i], w)
  {
    CorpusMapIsCategory(emojis, Only(vocab), w);
    CategoryMembership(emojis, w, name);
  }

  /** Every name listed anywhere in a corpus map is the name of an emoji of the dictionary. */
  lemma CorpusMapListsEmojis(emojis: seq<Entry>, v: Vocabulary)
    ensures forall w, name :: w in CorpusMapOf(emojis, v) && name in CorpusMapOf(emojis, v)[w] ==>
              exists i :: 0 <= i < |emojis| && emojis[i].name == name
  {
    forall w, name | w in CorpusMapOf(emojis, v) && name in CorpusMapOf(emojis, v)[w]
      ensures exists i :: 0 <= i < |emojis| && emojis[i].name == name
    {
      CorpusMapIsCategory(emojis, v, w);
      CategoryMembership(emojis, w, name);
    }
  }

  /** The unfiltered corpus map has every emoji name as a key, and its list holds the name itself. */
  lemma UnfilteredHasEveryName(emojis: seq<Entry>, i: nat)
    requires i < |emojis|
    ensures emojis[i].name in CorpusMapOf(emojis, Everything)
    ensures emojis[i].name in CorpusMapOf(emojis, Everything)[emojis[i].name]
  {
    var w := emojis[i].name;
    assert Mentions(emojis[i], w);
    CorpusMapIsCategory(emojis, Everything, w);
    CategoryMembership(emojis, w, w);
  }

  /** The unfiltered corpus map's keys are exactly the corpus. */
  lemma UnfilteredKeysAreCorpus(emojis: seq<Entry>)
    ensures CorpusMapOf(emojis, Everything).Keys == EmojiCorpus(emojis)
  {
    forall w
      ensures w in CorpusMapOf(emojis, Everything) <==> w in EmojiCorpus(emojis)
    {
      CorpusMapIsCategory(emojis, Everything, w);
    }
  }

  /** An emoji listing its own name among its keywords is appended twice. */
  lemma NameRepeatedAsKeyword()
    ensures var m := CorpusMapOf([Entry("cat", ["cat", "pet"])], Everything);
            "cat" in m && m["cat"] == ["cat", "cat"]
  {
    var e := Entry("cat", ["cat", "pet"]);
    var emojis := [e];
    CorpusMapIsCategory(emojis, Everything, "cat");
    assert emojis[..0] == [];
    assert Mentions(emojis[0], "cat");
    assert multiset(e.keywords)["cat"] == 1;
    assert Hits(e, "cat") == 2;
    assert Repeat("cat", 2) == ["cat", "cat"];
    CategoryMembership(emojis, "cat", "cat");
  }
}
