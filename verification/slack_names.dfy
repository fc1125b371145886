/**
 * `pared_emojis` without its downloads and caches: link every emojilib emoji to
 * its Slack short name through the emoji's charcode, then keep, per linked
 * emojilib name, the Slack name, the `char` and the keywords.  The source walks
 * two Python sets (`eminter`, `slackdiffs`) whose iteration order is not fixed;
 * here each walk takes that order as a parameter that must enumerate the set.
 */
module SlackNames {

  import opened Options
  import Charcode

  /** An emojilib entry: its name (the dict key), its `char` as `glyph` (JSON null is None) and keywords. */
  datatype LibEmoji = LibEmoji(name: string, glyph: Option<string>, keywords: seq<string>)

  /** A Slack emoji record: its `code` and the first element of its `name` field. */
  datatype SlackEmoji = SlackEmoji(code: string, shortName: string)

  /** An entry of the pared dictionary. */
  datatype Pared = Pared(slackName: string, glyph: string, keywords: seq<string>)

  /** The suffixes that mark a gendered Slack emoji, each ten characters long. */
  const FEMALE_SUFFIX: string := "-200D-2640"
  const MALE_SUFFIX: string := "-200D-2642"

  predicate StartsWith(s: string, prefix: string)
  {
    |prefix| <= |s| && s[..|prefix|] == prefix
  }

  predicate EndsWith(s: string, suffix: string)
  {
    |suffix| <= |s| && s[|s| - |suffix|..] == suffix
  }

  /** A JSON object cannot repeat a key, so emojilib names are distinct. */
  predicate DistinctNames(allem: seq<LibEmoji>)
  {
    forall i, j :: 0 <= i < j < |allem| ==> allem[i].name != allem[j].name
  }

  /** ASCII `str.upper()` on one character. */
  function UpperChar(c: char): char
  {
    if 'a' <= c <= 'z' then (c as int - 32) as char else c
  }

  /** ASCII `str.upper()`. */
  function Upper(s: string): (r: string)
    ensures |r| == |s| && forall i :: 0 <= i < |s| ==> r[i] == UpperChar(s[i])
  {
    seq(|s|, i requires 0 <= i < |s| => UpperChar(s[i]))
  }

  /** The charcode an emoji is filed under in `allemdict`: only an emoji with a `char` has one. */
  function GlyphKey(e: LibEmoji): Option<string>
  {
    if e.glyph.Some? then Some(Charcode.Charcode(e.glyph.value)) else None
  }

  /** Walk the entries in order and store each keyed entry's name under its key; a later entry wins. */
  function ByKey(allem: seq<LibEmoji>, key: LibEmoji -> Option<string>): map<string, string>
  {
    if |allem| == 0 then map[]
    else
      var d' := ByKey(allem[..|allem| - 1], key);
      var e := allem[|allem| - 1];
      if key(e).Some? then d'[key(e).value := e.name] else d'
  }

  /** `allemdict`: charcode -> emojilib name for emojis with a `char`; a later emoji wins a shared charcode. */
  function ByCharcode(allem: seq<LibEmoji>): map<string, string>
  {
    ByKey(allem, GlyphKey)
  }

  /** Every key of the walk belongs to an entry that carries it, and every entry's key is stored. */
  lemma {:induction false} ByKeyEntries(allem: seq<LibEmoji>, key: LibEmoji -> Option<string>)
    ensures forall k :: k in ByKey(allem, key) ==>
              exists i :: 0 <= i < |allem| && allem[i].name == ByKey(allem, key)[k] && key(allem[i]) == Some(k)
    ensures forall i :: 0 <= i < |allem| && key(allem[i]).Some? ==> key(allem[i]).value in ByKey(allem, key)
  {
    if |allem| > 0 {
      var pre := allem[..|allem| - 1];
      var e := allem[|allem| - 1];
      var d := ByKey(allem, key);
      assert forall i :: 0 <= i < |pre| ==> pre[i] == allem[i];
      ByKeyEntries(pre, key);
      forall k | k in d
        ensures exists i :: 0 <= i < |allem| && allem[i].name == d[k] && key(allem[i]) == Some(k)
      {
        if key(e) == Some(k) {
          assert allem[|allem| - 1] == e;
        } else {
          assert k in ByKey(pre, key) && d[k] == ByKey(pre, key)[k];
          var i :| 0 <= i < |pre| && pre[i].name == ByKey(pre, key)[k] && key(pre[i]) == Some(k);
          assert allem[i] == pre[i];
        }
      }
    }
  }

  /**
   * Every charcode of an emoji with a `char` is a key, and every key maps to
   * the name of an emoji with a `char` whose charcode it is.
   */
  lemma ByCharcodeEntries(allem: seq<LibEmoji>)
    ensures forall k :: k in ByCharcode(allem) ==>
              exists i :: 0 <= i < |allem| && allem[i].name == ByCharcode(allem)[k] && allem[i].glyph.Some? &&
                          Charcode.Charcode(allem[i].glyph.value) == k
    ensures forall i :: 0 <= i < |allem| && allem[i].glyph.Some? ==> Charcode.Charcode(allem[i].glyph.value) in ByCharcode(allem)
  {
    ByKeyEntries(allem, GlyphKey);
    forall k | k in ByCharcode(allem)
      ensures exists i :: 0 <= i < |allem| && allem[i].name == ByCharcode(allem)[k] && allem[i].glyph.Some? &&
                          Charcode.Charcode(allem[i].glyph.value) == k
    {
      var i :| 0 <= i < |allem| && allem[i].name == ByCharcode(allem)[k] && GlyphKey(allem[i]) == Some(k);
    }
    forall i | 0 <= i < |allem| && allem[i].glyph.Some?
      ensures Charcode.Charcode(allem[i].glyph.value) in ByCharcode(allem)
    {
      assert GlyphKey(allem[i]).Some?;
    }
  }

  /**
   * With distinct emojilib names no two charcodes name the same emoji (each
   * emoji has one `char`), so the first loop's walk order never decides a name.
   */
  lemma ByCharcodeInjective(allem: seq<LibEmoji>)
    requires DistinctNames(allem)
    ensures forall k1, k2 ::
              (k1 in ByCharcode(allem) && k2 in ByCharcode(allem) && ByCharcode(allem)[k1] == ByCharcode(allem)[k2]) ==>
              k1 == k2
  {
    var d := ByCharcode(allem);
    ByCharcodeEntries(allem);
    forall k1, k2 | k1 in d && k2 in d && d[k1] == d[k2]
      ensures k1 == k2
    {
      var i :| 0 <= i < |allem| && allem[i].name == d[k1] && allem[i].glyph.Some? &&
               Charcode.Charcode(allem[i].glyph.value) == k1;
      var j :| 0 <= j < |allem| && allem[j].name == d[k2] && allem[j].glyph.Some? &&
               Charcode.Charcode(allem[j].glyph.value) == k2;
      assert i == j;
    }
  }

  /** `slackemdict`: upper-cased code -> short name; a later record wins a shared code. */
  function BySlackCode(slack: seq<SlackEmoji>): (d: map<string, string>)
    ensures forall e :: e in slack ==> Upper(e.code) in d
    ensures forall k :: k in d ==> exists e :: e in slack && Upper(e.code) == k && d[k] == e.shortName
  {
    if |slack| == 0 then map[]
    else
      var pre := slack[..|slack| - 1];
      var last := slack[|slack| - 1];
      assert slack == pre + [last];
      BySlackCode(pre)[Upper(last.code) := last.shortName]
  }

  /** The key without its ten-character gender suffix (`key[:-10]`). */
  function Strip(key: string): string
    requires |key| >= 10
  {
    key[..|key| - 10]
  }

  /** The key ends with a female or male gender suffix. */
  predicate Gendered(key: string)
  {
    EndsWith(key, FEMALE_SUFFIX) || EndsWith(key, MALE_SUFFIX)
  }

  /**
   * The emojilib name a Slack-only key is linked to by the second loop, if any:
   * skin-tone modifiers and the bare gender signs are skipped, and a key with a
   * gender suffix is retried without it.
   */
  function Target(key: string, lib: map<string, string>, slack: map<string, string>): (r: Option<string>)
    requires key in slack
    ensures StartsWith(slack[key], "skin-tone") ==> r.None?
    ensures key == "2640" || key == "2642" ==> r.None?
    ensures r.Some? ==> Gendered(key) && Strip(key) in lib && r.value == lib[Strip(key)]
  {
    if StartsWith(slack[key], "skin-tone") then None
    else if key == "2640" || key == "2642" then None
    else if (EndsWith(key, FEMALE_SUFFIX) || EndsWith(key, MALE_SUFFIX)) && Strip(key) in lib then
      Some(lib[Strip(key)])
    else None
  }

  /** Each order lists exactly the members of the set, once each. */
  ghost predicate Enumerates(order: seq<string>, s: set<string>)
  {
    && (forall i :: 0 <= i < |order| ==> order[i] in s)
    && (forall k :: k in s ==> k in order)
    && (forall i, j :: 0 <= i < j < |order| ==> order[i] != order[j])
  }

  /** The first loop: `etoslack[allemdict[k]['name']] = slackname` for each shared charcode. */
  function LinkCommon(order: seq<string>, lib: map<string, string>, slack: map<string, string>): map<string, string>
    requires forall i :: 0 <= i < |order| ==> order[i] in lib && order[i] in slack
  {
    if |order| == 0 then map[]
    else
      var k := order[|order| - 1];
      LinkCommon(order[..|order| - 1], lib, slack)[lib[k] := slack[k]]
  }

  /** The second loop over the Slack-only keys, starting from the first loop's mapping. */
  function LinkRemaining(order: seq<string>, lib: map<string, string>, slack: map<string, string>,
                         acc: map<string, string>): map<string, string>
    requires forall i :: 0 <= i < |order| ==> order[i] in slack
  {
    if |order| == 0 then acc
    else
      var key := order[|order| - 1];
      var e := LinkRemaining(order[..|order| - 1], lib, slack, acc);
      match Target(key, lib, slack)
      case Some(n) => e[n := slack[key]]
      case None => e
  }

  /** Some key of `order` names `n` in emojilib. */
  ghost predicate Names(order: seq<string>, lib: map<string, string>, n: string)
  {
    exists i :: 0 <= i < |order| && order[i] in lib && lib[order[i]] == n
  }

  /** Some key of `order` is linked to `n` by the second loop. */
  ghost predicate Leads(order: seq<string>, lib: map<string, string>, slack: map<string, string>, n: string)
  {
    exists i :: 0 <= i < |order| && order[i] in slack && Target(order[i], lib, slack) == Some(n)
  }

  /** After the first loop, `n` is mapped exactly when a key names it, and to that key's Slack name. */
  lemma {:induction false} LinkCommonAt(order: seq<string>, lib: map<string, string>, slack: map<string, string>,
                                        n: string)
    requires forall i :: 0 <= i < |order| ==> order[i] in lib && order[i] in slack
    ensures n in LinkCommon(order, lib, slack) <==> Names(order, lib, n)
    ensures n in LinkCommon(order, lib, slack) ==>
              exists i :: 0 <= i < |order| && lib[order[i]] == n && LinkCommon(order, lib, slack)[n] == slack[order[i]]
  {
    if |order| > 0 {
      var pre := order[..|order| - 1];
      var k := order[|order| - 1];
      assert forall i :: 0 <= i < |pre| ==> pre[i] == order[i];
      LinkCommonAt(pre, lib, slack, n);
      if Names(order, lib, n) && lib[k] != n {
        var i :| 0 <= i < |order| && order[i] in lib && lib[order[i]] == n;
        assert i < |pre|;
      }
    }
  }

  /**
   * After the second loop, `n` is mapped exactly when it was before or some key
   * leads to it; a key that leads to it supplies its Slack name, and otherwise
   * the earlier entry is kept.
   */
  lemma {:induction false} LinkRemainingAt(order: seq<string>, lib: map<string, string>, slack: map<string, string>,
                                           acc: map<string, string>, n: string)
    requires forall i :: 0 <= i < |order| ==> order[i] in slack
    ensures var e := LinkRemaining(order, lib, slack, acc);
            && (n in e <==> n in acc || Leads(order, lib, slack, n))
            && (n in acc && !Leads(order, lib, slack, n) ==> e[n] == acc[n])
            && (Leads(order, lib, slack, n) ==>
                  exists i :: 0 <= i < |order| && Target(order[i], lib, slack) == Some(n) && e[n] == slack[order[i]])
  {
    if |order| > 0 {
      var pre := order[..|order| - 1];
      var key := order[|order| - 1];
      assert forall i :: 0 <= i < |pre| ==> pre[i] == order[i];
      LinkRemainingAt(pre, lib, slack, acc, n);
      if Target(key, lib, slack) != Some(n) && Leads(order, lib, slack, n) {
        var i :| 0 <= i < |order| && order[i] in slack && Target(order[i], lib, slack) == Some(n);
        assert i < |pre|;
      }
    }
  }

  /** The emojilib entry with the given name. */
  function Find(allem: seq<LibEmoji>, name: string): (r: Option<LibEmoji>)
    ensures r.Some? <==> exists i :: 0 <= i < |allem| && allem[i].name == name
    ensures r.Some? ==> r.value in allem && r.value.name == name
  {
    if |allem| == 0 then None
    else if allem[|allem| - 1].name == name then Some(allem[|allem| - 1])
    else
      var r := Find(allem[..|allem| - 1], name);
      assert forall i :: 0 <= i < |allem| - 1 ==> allem[..|allem| - 1][i] == allem[i];
      r
  }

  /** The entry with a distinct name is the one `Find` returns. */
  lemma {:induction false} FindUnique(allem: seq<LibEmoji>, i: nat)
    requires DistinctNames(allem) && i < |allem|
    ensures Find(allem, allem[i].name) == Some(allem[i])
  {
    if i < |allem| - 1 {
      var pre := allem[..|allem| - 1];
      assert pre[i] == allem[i];
      assert allem[|allem| - 1].name != allem[i].name;
      FindUnique(pre, i);
    }
  }

  /** Both loops in turn, giving `etoslack`: emojilib name -> Slack short name. */
  function EmojiToSlack(lib: map<string, string>, slack: map<string, string>,
                        commonOrder: seq<string>, restOrder: seq<string>): map<string, string>
    requires Enumerates(commonOrder, lib.Keys * slack.Keys)
    requires Enumerates(restOrder, slack.Keys - lib.Keys)
  {
    LinkRemaining(restOrder, lib, slack, LinkCommon(commonOrder, lib, slack))
  }

  /** Some charcode known to both sides names `n`. */
  ghost predicate SharedLink(lib: map<string, string>, slack: map<string, string>, n: string)
  {
    exists k :: k in lib && k in slack && lib[k] == n
  }

  /** Some Slack-only key is linked to `n` by the second loop. */
  ghost predicate GenderedLink(lib: map<string, string>, slack: map<string, string>, n: string)
  {
    exists k :: k in slack && k !in lib && Target(k, lib, slack) == Some(n)
  }

  /** The first loop's keys name exactly the names with a shared charcode. */
  lemma SharedLinkNamed(lib: map<string, string>, slack: map<string, string>, commonOrder: seq<string>, n: string)
    requires Enumerates(commonOrder, lib.Keys * slack.Keys)
    ensures Names(commonOrder, lib, n) <==> SharedLink(lib, slack, n)
  {
    if SharedLink(lib, slack, n) {
      var k :| k in lib && k in slack && lib[k] == n;
      assert k in commonOrder;
      var i :| 0 <= i < |commonOrder| && commonOrder[i] == k;
    }
    if Names(commonOrder, lib, n) {
      var i :| 0 <= i < |commonOrder| && commonOrder[i] in lib && lib[commonOrder[i]] == n;
      assert commonOrder[i] in slack;
    }
  }

  /** The second loop's keys lead exactly to the names with a gendered link. */
  lemma GenderedLinkLed(lib: map<string, string>, slack: map<string, string>, restOrder: seq<string>, n: string)
    requires Enumerates(restOrder, slack.Keys - lib.Keys)
    ensures Leads(restOrder, lib, slack, n) <==> GenderedLink(lib, slack, n)
  {
    if GenderedLink(lib, slack, n) {
      var k :| k in slack && k !in lib && Target(k, lib, slack) == Some(n);
      assert k in restOrder;
      var i :| 0 <= i < |restOrder| && restOrder[i] == k;
    }
    if Leads(restOrder, lib, slack, n) {
      var i :| 0 <= i < |restOrder| && restOrder[i] in slack && Target(restOrder[i], lib, slack) == Some(n);
      assert restOrder[i] !in lib;
    }
  }

  /** The bare gender signs are too short to carry a gender suffix. */
  lemma GenderSignsNotGendered()
    ensures !Gendered("2640") && !Gendered("2642")
  {
  }

  /**
   * The Slack key rules of the second loop: a Slack-only key links `n` exactly
   * when its short name is not a skin tone, it carries a gender suffix, and the
   * key without the suffix is an emojilib charcode of `n`.
   */
  lemma GenderedLinkRule(lib: map<string, string>, slack: map<string, string>, n: string)
    ensures GenderedLink(lib, slack, n) <==>
              exists k :: k in slack && k !in lib && !StartsWith(slack[k], "skin-tone") && Gendered(k) &&
                          Strip(k) in lib && lib[Strip(k)] == n
  {
    GenderSignsNotGendered();
    if exists k :: k in slack && k !in lib && !StartsWith(slack[k], "skin-tone") && Gendered(k) &&
                   Strip(k) in lib && lib[Strip(k)] == n {
      var k :| k in slack && k !in lib && !StartsWith(slack[k], "skin-tone") && Gendered(k) &&
               Strip(k) in lib && lib[Strip(k)] == n;
      assert k != "2640" && k != "2642";
      assert Target(k, lib, slack) == Some(n);
    }
  }

  /** A name is linked exactly when a shared charcode or a Slack-only key leads to it. */
  lemma EmojiToSlackMembership(lib: map<string, string>, slack: map<string, string>,
                               commonOrder: seq<string>, restOrder: seq<string>, n: string)
    requires Enumerates(commonOrder, lib.Keys * slack.Keys)
    requires Enumerates(restOrder, slack.Keys - lib.Keys)
    ensures n in EmojiToSlack(lib, slack, commonOrder, restOrder) <==>
              SharedLink(lib, slack, n) || GenderedLink(lib, slack, n)
  {
    LinkCommonAt(commonOrder, lib, slack, n);
    LinkRemainingAt(restOrder, lib, slack, LinkCommon(commonOrder, lib, slack), n);
    SharedLinkNamed(lib, slack, commonOrder, n);
    GenderedLinkLed(lib, slack, restOrder, n);
  }

  /** Every linked name is the emojilib name of some charcode. */
  lemma LinkedNameIsLibName(lib: map<string, string>, slack: map<string, string>,
                            commonOrder: seq<string>, restOrder: seq<string>, n: string)
    requires Enumerates(commonOrder, lib.Keys * slack.Keys)
    requires Enumerates(restOrder, slack.Keys - lib.Keys)
    requires n in EmojiToSlack(lib, slack, commonOrder, restOrder)
    ensures exists k :: k in lib && lib[k] == n
  {
    EmojiToSlackMembership(lib, slack, commonOrder, restOrder, n);
    if !SharedLink(lib, slack, n) {
      var k :| k in slack && k !in lib && Target(k, lib, slack) == Some(n);
      assert Strip(k) in lib;
    }
  }

  /**
   * When a Slack-only key leads to a name, the name carries the Slack name of
   * such a key: the second loop runs last and overwrites the first.
   */
  lemma GenderedNameWins(lib: map<string, string>, slack: map<string, string>,
                         commonOrder: seq<string>, restOrder: seq<string>, n: string)
    requires Enumerates(commonOrder, lib.Keys * slack.Keys)
    requires Enumerates(restOrder, slack.Keys - lib.Keys)
    requires GenderedLink(lib, slack, n)
    ensures n in EmojiToSlack(lib, slack, commonOrder, restOrder)
    ensures exists k :: k in slack && k !in lib && Target(k, lib, slack) == Some(n) &&
                        EmojiToSlack(lib, slack, commonOrder, restOrder)[n] == slack[k]
  {
    LinkRemainingAt(restOrder, lib, slack, LinkCommon(commonOrder, lib, slack), n);
    GenderedLinkLed(lib, slack, restOrder, n);
    var i :| 0 <= i < |restOrder| && Target(restOrder[i], lib, slack) == Some(n) &&
             EmojiToSlack(lib, slack, commonOrder, restOrder)[n] == slack[restOrder[i]];
    assert restOrder[i] in slack && restOrder[i] !in lib;
  }

  /** Without a Slack-only key leading to it, a linked name carries the Slack name of a charcode it shares. */
  lemma SharedNameKept(lib: map<string, string>, slack: map<string, string>,
                       commonOrder: seq<string>, restOrder: seq<string>, n: string)
    requires Enumerates(commonOrder, lib.Keys * slack.Keys)
    requires Enumerates(restOrder, slack.Keys - lib.Keys)
    requires SharedLink(lib, slack, n) && !GenderedLink(lib, slack, n)
    ensures n in EmojiToSlack(lib, slack, commonOrder, restOrder)
    ensures exists k :: k in lib && k in slack && lib[k] == n && EmojiToSlack(lib, slack, commonOrder, restOrder)[n] == slack[k]
  {
    var common := LinkCommon(commonOrder, lib, slack);
    LinkCommonAt(commonOrder, lib, slack, n);
    LinkRemainingAt(restOrder, lib, slack, common, n);
    SharedLinkNamed(lib, slack, commonOrder, n);
    GenderedLinkLed(lib, slack, restOrder, n);
    var i :| 0 <= i < |commonOrder| && lib[commonOrder[i]] == n && common[n] == slack[commonOrder[i]];
    assert commonOrder[i] in lib && commonOrder[i] in slack;
  }

  /** Every linked name is found in emojilib, with a `char`. */
  lemma LinkedNamesFound(allem: seq<LibEmoji>, slack: seq<SlackEmoji>, commonOrder: seq<string>, restOrder: seq<string>)
    requires DistinctNames(allem)
    requires Enumerates(commonOrder, ByCharcode(allem).Keys * BySlackCode(slack).Keys)
    requires Enumerates(restOrder, BySlackCode(slack).Keys - ByCharcode(allem).Keys)
    ensures forall n :: n in EmojiToSlack(ByCharcode(allem), BySlackCode(slack), commonOrder, restOrder) ==>
              Find(allem, n).Some? && Find(allem, n).value.glyph.Some?
  {
    var lib := ByCharcode(allem);
    var sl := BySlackCode(slack);
    forall n | n in EmojiToSlack(lib, sl, commonOrder, restOrder)
      ensures Find(allem, n).Some? && Find(allem, n).value.glyph.Some?
    {
      LinkedNameIsLibName(lib, sl, commonOrder, restOrder, n);
      var k :| k in lib && lib[k] == n;
      ByCharcodeEntries(allem);
      var i :| 0 <= i < |allem| && allem[i].name == lib[k] && allem[i].glyph.Some? &&
               Charcode.Charcode(allem[i].glyph.value) == k;
      FindUnique(allem, i);
    }
  }

  /** `pared_emojis`' dictionary: linked emojilib name -> Slack name, `char` and keywords. */
  function ParedEmojis(allem: seq<LibEmoji>, slack: seq<SlackEmoji>, commonOrder: seq<string>, restOrder: seq<string>)
    : (r: map<string, Pared>)
    requires DistinctNames(allem)
    requires Enumerates(commonOrder, ByCharcode(allem).Keys * BySlackCode(slack).Keys)
    requires Enumerates(restOrder, BySlackCode(slack).Keys - ByCharcode(allem).Keys)
    ensures forall n :: n in r ==> Find(allem, n).Some? && Find(allem, n).value.glyph == Some(r[n].glyph)
    ensures forall n :: n in r ==> Find(allem, n).Some? && Find(allem, n).value.keywords == r[n].keywords
  {
    LinkedNamesFound(allem, slack, commonOrder, restOrder);
    var links := EmojiToSlack(ByCharcode(allem), BySlackCode(slack), commonOrder, restOrder);
    map n | n in links :: Pared(links[n], Find(allem, n).value.glyph.value, Find(allem, n).value.keywords)
  }

  /**
   * An emojilib name is in the pared dictionary exactly when a charcode it
   * shares with Slack, or a gendered Slack-only key, links it.
   */
  lemma ParedMembership(allem: seq<LibEmoji>, slack: seq<SlackEmoji>, commonOrder: seq<string>, restOrder: seq<string>,
                        n: string)
    requires DistinctNames(allem)
    requires Enumerates(commonOrder, ByCharcode(allem).Keys * BySlackCode(slack).Keys)
    requires Enumerates(restOrder, BySlackCode(slack).Keys - ByCharcode(allem).Keys)
    ensures n in ParedEmojis(allem, slack, commonOrder, restOrder) <==>
              SharedLink(ByCharcode(allem), BySlackCode(slack), n) || GenderedLink(ByCharcode(allem), BySlackCode(slack), n)
  {
    EmojiToSlackMembership(ByCharcode(allem), BySlackCode(slack), commonOrder, restOrder, n);
  }

  /**
   * The Slack name kept for a pared emoji is the short name of a Slack record
   * whose upper-cased code links to it: a gendered key's when there is one,
   * otherwise a shared charcode's.
   */
  lemma ParedSlackName(allem: seq<LibEmoji>, slack: seq<SlackEmoji>, commonOrder: seq<string>, restOrder: seq<string>,
                       n: string)
    requires DistinctNames(allem)
    requires Enumerates(commonOrder, ByCharcode(allem).Keys * BySlackCode(slack).Keys)
    requires Enumerates(restOrder, BySlackCode(slack).Keys - ByCharcode(allem).Keys)
    requires n in ParedEmojis(allem, slack, commonOrder, restOrder)
    ensures var lib := ByCharcode(allem);
            var sl := BySlackCode(slack);
            var name := ParedEmojis(allem, slack, commonOrder, restOrder)[n].slackName;
            if GenderedLink(lib, sl, n)
            then exists k :: k in sl && k !in lib && Target(k, lib, sl) == Some(n) && name == sl[k]
            else exists k :: k in lib && k in sl && lib[k] == n && name == sl[k]
  {
    var lib := ByCharcode(allem);
    var sl := BySlackCode(slack);
    EmojiToSlackMembership(lib, sl, commonOrder, restOrder, n);
    if GenderedLink(lib, sl, n) {
      GenderedNameWins(lib, sl, commonOrder, restOrder, n);
    } else {
      SharedNameKept(lib, sl, commonOrder, restOrder, n);
    }
  }
}
