/**
 * The emojilib key `charcode`: each code point of an emoji's `char` written as
 * upper-case hexadecimal padded to at least four digits (`'{:04X}'`), the pieces
 * joined with `-`, and then every occurrence of `-FE0F` (a dash followed by the
 * emoji variation selector) removed in one left-to-right pass, as `str.replace`
 * does.  A leading `FE0F` has no dash before it and survives.
 */
module Charcode {

  /** The code point of the emoji variation selector, U+FE0F. */
  const VARIATION_SELECTOR: int := 0xFE0F

  /** The text removed from a joined charcode. */
  const SELECTOR_PIECE: string := "-FE0F"

  /** An upper-case hexadecimal digit, as `{:X}` writes them. */
  predicate IsHexDigit(c: char)
  {
    '0' <= c <= '9' || 'A' <= c <= 'F'
  }

  predicate AllHex(s: string)
  {
    forall i :: 0 <= i < |s| ==> IsHexDigit(s[i])
  }

  function DigitChar(d: nat): (c: char)
    requires d < 16
    ensures IsHexDigit(c)
  {
    if d < 10 then ('0' as int + d) as char else ('A' as int + d - 10) as char
  }

  function DigitValue(c: char): (d: nat)
    requires IsHexDigit(c)
    ensures d < 16 && DigitChar(d) == c
  {
    if '0' <= c <= '9' then (c as int) - ('0' as int) else (c as int) - ('A' as int) + 10
  }

  /** The number an upper-case hexadecimal numeral denotes (leading zeros allowed). */
  function HexValue(s: string): nat
    requires AllHex(s)
  {
    if |s| == 0 then 0 else HexValue(s[..|s| - 1]) * 16 + DigitValue(s[|s| - 1])
  }

  lemma HexValueSnoc(s: string, c: char)
    requires AllHex(s) && IsHexDigit(c)
    ensures AllHex(s + [c]) && HexValue(s + [c]) == HexValue(s) * 16 + DigitValue(c)
  {
    assert (s + [c])[..|s|] == s;
  }

  /** The shortest upper-case hexadecimal numeral of `n`. */
  function Hex(n: nat): (s: string)
    ensures |s| >= 1 && AllHex(s) && HexValue(s) == n
    ensures n > 0 ==> s[0] != '0'
  {
    if n < 16 then [DigitChar(n)]
    else
      HexValueSnoc(Hex(n / 16), DigitChar(n % 16));
      Hex(n / 16) + [DigitChar(n % 16)]
  }

  function Zeros(k: nat): (s: string)
    ensures |s| == k && AllHex(s)
    ensures forall i :: 0 <= i < k ==> s[i] == '0'
  {
    if k == 0 then "" else Zeros(k - 1) + "0"
  }

  lemma {:induction false} LeadingZeroValue(s: string)
    requires AllHex(s)
    ensures AllHex("0" + s) && HexValue("0" + s) == HexValue(s)
  {
    if |s| > 0 {
      var s' := s[..|s| - 1];
      var c := s[|s| - 1];
      assert s == s' + [c];
      assert "0" + s == ("0" + s') + [c];
      LeadingZeroValue(s');
      HexValueSnoc("0" + s', c);
      HexValueSnoc(s', c);
    }
  }

  lemma {:induction false} ZerosValue(k: nat, s: string)
    requires AllHex(s)
    ensures AllHex(Zeros(k) + s) && HexValue(Zeros(k) + s) == HexValue(s)
  {
    if k == 0 {
      assert Zeros(k) + s == s;
    } else {
      var z := Zeros(k - 1);
      assert Zeros(k) + s == z + ("0" + s);
      LeadingZeroValue(s);
      ZerosValue(k - 1, "0" + s);
    }
  }

  function Pow16(k: nat): nat
  {
    if k == 0 then 1 else 16 * Pow16(k - 1)
  }

  lemma {:induction false} HexLength(n: nat, k: nat)
    requires k >= 1 && n < Pow16(k)
    ensures |Hex(n)| <= k
  {
    if n >= 16 {
      HexLength(n / 16, k - 1);
    }
  }

  lemma ShortHex(n: nat)
    ensures n < 0x10000 ==> |Hex(n)| <= 4
  {
    if n < 0x10000 {
      assert Pow16(4) == 0x10000;
      HexLength(n, 4);
    }
  }

  /** `'{:04X}'.format(n)`: zeros are added only to reach four digits. */
  function Format04X(n: nat): (s: string)
    ensures |s| >= 4 && AllHex(s) && HexValue(s) == n
    ensures n < 0x10000 ==> |s| == 4
    ensures |s| > 4 ==> s[0] != '0'
  {
    var h := Hex(n);
    ShortHex(n);
    if |h| < 4 then
      ZerosValue(4 - |h|, h);
      Zeros(4 - |h|) + h
    else h
  }

  /** `splitchar`: one formatted code point per character. */
  function Splitchar(s: string): (parts: seq<string>)
    ensures |parts| == |s|
  {
    if |s| == 0 then [] else [Format04X(s[0] as int)] + Splitchar(s[1..])
  }

  /** Each piece preceded by a dash: the text `'-'.join` puts after the first piece. */
  function Dashed(parts: seq<string>): string
  {
    if |parts| == 0 then "" else "-" + parts[0] + Dashed(parts[1..])
  }

  /** `'-'.join(parts)`. */
  function Join(parts: seq<string>): string
  {
    if |parts| == 0 then "" else parts[0] + Dashed(parts[1..])
  }

  /** `s.replace(pat, '')`: leftmost, non-overlapping occurrences, one pass. */
  function RemoveAll(s: string, pat: string): string
    requires |pat| > 0
    decreases |s|
  {
    if |s| < |pat| then s
    else if s[..|pat|] == pat then RemoveAll(s[|pat|..], pat)
    else [s[0]] + RemoveAll(s[1..], pat)
  }

  /** `charcode`: the emojilib key of an emoji character sequence. */
  function Charcode(s: string): string
  {
    RemoveAll(Join(Splitchar(s)), SELECTOR_PIECE)
  }

  /** Reference: the characters of `s` other than U+FE0F, in order. */
  function DropSelectors(s: string): (r: string)
    ensures forall i :: 0 <= i < |r| ==> r[i] as int != VARIATION_SELECTOR && r[i] in s
  {
    if |s| == 0 then ""
    else if s[0] as int == VARIATION_SELECTOR then DropSelectors(s[1..])
    else [s[0]] + DropSelectors(s[1..])
  }

  /** Code points whose numeral starts with FE0F but is longer than four digits. */
  predicate SelectorLookalike(c: char)
  {
    0xFE0F0 <= c as int <= 0xFE0FF
  }

  lemma {:induction false} RemoveAllAfterDashFree(u: string, v: string)
    requires '-' !in u
    ensures RemoveAll(u + v, SELECTOR_PIECE) == u + RemoveAll(v, SELECTOR_PIECE)
  {
    if |u| == 0 {
      assert u + v == v;
    } else {
      var w := u + v;
      assert w[0] == u[0] && w[0] != '-';
      if |w| < |SELECTOR_PIECE| {
        assert RemoveAll(v, SELECTOR_PIECE) == v;
      } else {
        assert w[..|SELECTOR_PIECE|] != SELECTOR_PIECE;
        assert w[1..] == u[1..] + v;
        RemoveAllAfterDashFree(u[1..], v);
      }
    }
  }

  lemma {:induction false} PrefixValue(s: string, k: nat)
    requires AllHex(s) && k <= |s|
    ensures AllHex(s[..k]) && HexValue(s[..k]) <= HexValue(s)
    decreases |s| - k
  {
    if k == |s| {
      assert s[..k] == s;
    } else {
      var s' := s[..|s| - 1];
      assert s == s' + [s[|s| - 1]];
      HexValueSnoc(s', s[|s| - 1]);
      assert s'[..k] == s[..k];
      PrefixValue(s', k);
    }
  }

  lemma ProperPrefixValue(s: string, k: nat)
    requires AllHex(s) && k < |s|
    ensures AllHex(s[..k]) && 16 * HexValue(s[..k]) <= HexValue(s)
  {
    var s' := s[..|s| - 1];
    assert s == s' + [s[|s| - 1]];
    HexValueSnoc(s', s[|s| - 1]);
    assert s'[..k] == s[..k];
    PrefixValue(s', k);
  }

  lemma SelectorValue()
    ensures AllHex("FE0F") && HexValue("FE0F") == VARIATION_SELECTOR
  {
    assert "F" == [] + ['F'];
    HexValueSnoc([], 'F');
    assert "FE" == "F" + ['E'];
    HexValueSnoc("F", 'E');
    assert "FE0" == "FE" + ['0'];
    HexValueSnoc("FE", '0');
    assert "FE0F" == "FE0" + ['F'];
    HexValueSnoc("FE0", 'F');
  }

  /** A formatted code point starts with FE0F only if it is FE0F itself or a look-alike. */
  lemma FormatStartingWithSelector(c: char)
    requires !SelectorLookalike(c)
    ensures Format04X(c as int)[..4] == "FE0F" ==> Format04X(c as int) == "FE0F"
  {
    var t := Format04X(c as int);
    if t[..4] == "FE0F" && |t| > 4 {
      SelectorValue();
      var u := t[..5];
      assert u[..4] == t[..4];
      ProperPrefixValue(u, 4);
      if |t| > 5 {
        ProperPrefixValue(t, 5);
      }
    }
  }

  lemma FormatOfSelector()
    ensures Format04X(VARIATION_SELECTOR) == "FE0F"
  {
    assert Hex(0xFE) == Hex(0xF) + "E";
    assert Hex(0xFE0) == Hex(0xFE) + "0";
    assert Hex(0xFE0F) == Hex(0xFE0) + "F";
  }

  lemma FormatIsSelector(c: char)
    ensures Format04X(c as int) == "FE0F" <==> c as int == VARIATION_SELECTOR
  {
    if c as int == VARIATION_SELECTOR {
      FormatOfSelector();
    }
    if Format04X(c as int) == "FE0F" {
      SelectorValue();
    }
  }

  lemma HexHasNoDash(t: string)
    requires AllHex(t)
    ensures '-' !in t
  {
  }

  /** A dashed FE0F piece is removed. */
  lemma RemoveSelectorPiece(rest: string)
    ensures RemoveAll(SELECTOR_PIECE + rest, SELECTOR_PIECE) == RemoveAll(rest, SELECTOR_PIECE)
  {
    var w := SELECTOR_PIECE + rest;
    assert w[..|SELECTOR_PIECE|] == SELECTOR_PIECE;
    assert w[|SELECTOR_PIECE|..] == rest;
  }

  /** Any other dashed piece is kept. */
  lemma KeepOtherPiece(t: string, rest: string)
    requires '-' !in t && |t| >= 4 && t[..4] != "FE0F"
    ensures RemoveAll("-" + t + rest, SELECTOR_PIECE) == "-" + t + RemoveAll(rest, SELECTOR_PIECE)
  {
    var w := "-" + t + rest;
    assert w[..|SELECTOR_PIECE|] != SELECTOR_PIECE by {
      assert w[1..5] == t[..4];
      assert SELECTOR_PIECE[1..] == "FE0F";
    }
    assert w[1..] == t + rest;
    RemoveAllAfterDashFree(t, rest);
    assert [w[0]] + (t + RemoveAll(rest, SELECTOR_PIECE)) == "-" + t + RemoveAll(rest, SELECTOR_PIECE);
  }

  /** One dashed piece: removed when it is exactly FE0F, kept otherwise. */
  lemma RemoveDashedPiece(t: string, rest: string)
    requires '-' !in t && |t| >= 4
    requires t[..4] == "FE0F" ==> t == "FE0F"
    ensures RemoveAll("-" + t + rest, SELECTOR_PIECE) ==
            if t == "FE0F" then RemoveAll(rest, SELECTOR_PIECE) else "-" + t + RemoveAll(rest, SELECTOR_PIECE)
  {
    if t == "FE0F" {
      RemoveSelectorPiece(rest);
    } else {
      KeepOtherPiece(t, rest);
    }
  }

  lemma {:induction false} RemoveFromDashed(s: string)
    requires forall i :: 0 <= i < |s| ==> !SelectorLookalike(s[i])
    ensures RemoveAll(Dashed(Splitchar(s)), SELECTOR_PIECE) == Dashed(Splitchar(DropSelectors(s)))
  {
    if |s| > 0 {
      var t := Format04X(s[0] as int);
      var rest := Dashed(Splitchar(s[1..]));
      assert Splitchar(s) == [t] + Splitchar(s[1..]);
      assert Dashed(Splitchar(s)) == "-" + t + rest;
      assert forall i :: 0 <= i < |s[1..]| ==> !SelectorLookalike(s[1..][i]);
      RemoveFromDashed(s[1..]);
      FormatStartingWithSelector(s[0]);
      FormatIsSelector(s[0]);
      HexHasNoDash(t);
      RemoveDashedPiece(t, rest);
    }
  }

  /**
   * The charcode is the first code point followed by the remaining code points
   * other than U+FE0F: every variation selector after the first character is
   * dropped, a leading one is kept.
   */
  lemma CharcodeDropsSelectors(s: string)
    requires |s| > 0
    requires forall i :: 0 <= i < |s| ==> !SelectorLookalike(s[i])
    ensures Charcode(s) == Join([Format04X(s[0] as int)] + Splitchar(DropSelectors(s[1..])))
  {
    var t := Format04X(s[0] as int);
    HexHasNoDash(t);
    assert forall i :: 0 <= i < |s[1..]| ==> !SelectorLookalike(s[1..][i]);
    RemoveAllAfterDashFree(t, Dashed(Splitchar(s[1..])));
    RemoveFromDashed(s[1..]);
    assert ([t] + Splitchar(DropSelectors(s[1..])))[1..] == Splitchar(DropSelectors(s[1..]));
  }

  /** A numeral of `k` digits is below `16^k`. */
  lemma {:induction false} HexValueBelow(s: string)
    requires AllHex(s)
    ensures HexValue(s) < Pow16(|s|)
  {
    if |s| > 0 {
      var s' := s[..|s| - 1];
      HexValueBelow(s');
      assert HexValue(s') + 1 <= Pow16(|s'|);
      assert HexValue(s) < (HexValue(s') + 1) * 16;
    }
  }

  /** A numeral of `k` digits without a leading zero is at least `16^(k-1)`. */
  lemma {:induction false} HexValueAbove(s: string)
    requires AllHex(s) && |s| >= 1 && s[0] != '0'
    ensures HexValue(s) >= Pow16(|s| - 1)
  {
    if |s| > 1 {
      var s' := s[..|s| - 1];
      assert s'[0] == s[0];
      HexValueAbove(s');
      assert HexValue(s) >= HexValue(s') * 16;
    } else {
      assert s == s[..0] + [s[0]];
    }
  }

  lemma {:induction false} Pow16Monotone(a: nat, b: nat)
    requires a <= b
    ensures Pow16(a) <= Pow16(b)
    decreases b
  {
    if a < b {
      Pow16Monotone(a, b - 1);
    }
  }

  /** The numerals `'{:04X}'` may write: at least four digits, and no zero beyond the padding. */
  predicate IsPadded4(s: string)
  {
    AllHex(s) && |s| >= 4 && (|s| > 4 ==> s[0] != '0')
  }

  /** Such a numeral has at most `m >= 4` digits exactly when its value is below `16^m`. */
  lemma PaddedLength(s: string, m: nat)
    requires IsPadded4(s) && m >= 4
    ensures HexValue(s) < Pow16(m) <==> |s| <= m
  {
    if |s| <= m {
      HexValueBelow(s);
      Pow16Monotone(|s|, m);
    } else {
      HexValueAbove(s);
      Pow16Monotone(m, |s| - 1);
    }
  }

  /** Equal-length numerals with equal values are equal: the digits are determined. */
  lemma {:induction false} HexDigitsDetermined(s: string, t: string)
    requires AllHex(s) && AllHex(t) && |s| == |t| && HexValue(s) == HexValue(t)
    ensures s == t
  {
    if |s| > 0 {
      var s', t' := s[..|s| - 1], t[..|t| - 1];
      var a, b := DigitValue(s[|s| - 1]), DigitValue(t[|t| - 1]);
      var x, y := HexValue(s'), HexValue(t');
      assert x * 16 + a == y * 16 + b;
      assert x == y && a == b;
      HexDigitsDetermined(s', t');
      assert s == s' + [s[|s| - 1]] && t == t' + [t[|t| - 1]];
    }
  }

  /**
   * `'{:04X}'` is the only numeral of `n` with at least four digits and no
   * zero beyond the padding: in particular U+1F600 is `1F600`, not `01F600`.
   */
  lemma FormatUnique(n: nat, s: string)
    requires IsPadded4(s) && HexValue(s) == n
    ensures s == Format04X(n)
  {
    var f := Format04X(n);
    HexValueBelow(f);
    HexValueBelow(s);
    PaddedLength(s, |f|);
    PaddedLength(f, |s|);
    HexDigitsDetermined(s, f);
  }

  /** A lone variation selector is a leading piece and is not removed. */
  lemma LeadingSelectorKept()
    ensures Charcode("\U{FE0F}") == "FE0F"
  {
    var s := "\U{FE0F}";
    FormatIsSelector(s[0]);
    assert Splitchar(s) == ["FE0F"];
    assert Join(["FE0F"]) == "FE0F" + Dashed([]);
  }
}
