/**
 * What the two console matchers print for one query: a line
 * `'{}: {}'.format(emojis[name]['char'], similarity)` per selected emoji, or the
 * apology `Sorry: I could not find any good emojis` when a KeyError escapes.
 * The emoji dictionary lookup is the only step of the printing that can raise.
 */
module Printing {

  import opened Options
  import opened Ranking

  /** One printed line: an emoji's `char` (None prints as `None`) and its score, or the apology. */
  datatype Line = Emoji(glyph: Option<string>, score: real) | Sorry

  /**
   * Print each selected emoji in turn; a name missing from the dictionary
   * raises KeyError after the earlier lines are out, and the apology follows.
   */
  function Render(names: seq<Scored>, chars: map<string, Option<string>>): (out: seq<Line>)
    ensures |out| <= |names|
  {
    if |names| == 0 then []
    else if names[0].name in chars then [Emoji(chars[names[0].name], names[0].score)] + Render(names[1..], chars)
    else [Sorry]
  }

  /** With every name in the dictionary, one emoji line per name, in order, with its score. */
  lemma {:induction false} RenderKnown(names: seq<Scored>, chars: map<string, Option<string>>)
    requires forall i :: 0 <= i < |names| ==> names[i].name in chars
    ensures |Render(names, chars)| == |names|
    ensures forall i :: 0 <= i < |names| ==> Render(names, chars)[i] == Emoji(chars[names[i].name], names[i].score)
  {
    if |names| > 0 {
      assert forall i :: 1 <= i < |names| ==> names[1..][i - 1] == names[i];
      RenderKnown(names[1..], chars);
    }
  }

  /** Otherwise the lines before the first unknown name, then the apology. */
  lemma {:induction false} RenderUnknown(names: seq<Scored>, chars: map<string, Option<string>>, k: nat)
    requires k < |names| && names[k].name !in chars
    requires forall i :: 0 <= i < k ==> names[i].name in chars
    ensures |Render(names, chars)| == k + 1 && Render(names, chars)[k] == Sorry
    ensures forall i :: 0 <= i < k ==> Render(names, chars)[i] == Emoji(chars[names[i].name], names[i].score)
  {
    if k > 0 {
      assert forall i :: 1 <= i < |names| ==> names[1..][i - 1] == names[i];
      RenderUnknown(names[1..], chars, k - 1);
    }
  }
}
