/**
 * The text features of src/utils/string.js (the userscript's copies in
 * script/script.js are the same code). Each counts the characters `for…of`
 * visits that satisfy a test and divides by `text.length`, which counts
 * UTF-16 code units. A ratio is kept as that pair of integers; the rules only
 * ever compare it with `0` or `0.5`, and for empty text it is `0 / 0`, `NaN`,
 * which every comparison rejects.
 */
module Ratios {
  import opened Js

  /** `count / length`. */
  datatype Ratio = Ratio(count: nat, length: nat)

  /** `ratio >= 0.5`. */
  predicate AtLeastHalf(r: Ratio) {
    r.length > 0 && 2 * r.count >= r.length
  }

  /** `ratio > 0`. */
  predicate Positive(r: Ratio) {
    r.length > 0 && r.count > 0
  }

  /** The quotient as a real number, for non-empty text. */
  function Quotient(r: Ratio): (q: real)
    requires r.length > 0
    ensures q * r.length as real == r.count as real
  {
    r.count as real / r.length as real
  }

  /** The integer forms of the two comparisons mean what the source writes. */
  lemma ComparisonsMeanQuotient(r: Ratio)
    requires r.length > 0
    ensures AtLeastHalf(r) <==> Quotient(r) >= 0.5
    ensures Positive(r) <==> Quotient(r) > 0.0
  {
    var n := r.length as real;
    var q := Quotient(r);
    SignOfProduct(q - 0.5, n);
    assert (q - 0.5) * n == r.count as real - 0.5 * n;
    SignOfProduct(q, n);
  }

  lemma SignOfProduct(x: real, n: real)
    requires n > 0.0
    ensures x >= 0.0 <==> x * n >= 0.0
    ensures x > 0.0 <==> x * n > 0.0
  {
  }

  /** Hiragana (U+3040 to U+309F), katakana (U+30A0 to U+30FF), half-width katakana (U+FF65 to U+FF9F). */
  predicate IsKana(c: char) {
    0x3040 <= c as int <= 0x309F || 0x30A0 <= c as int <= 0x30FF || 0xFF65 <= c as int <= 0xFF9F
  }

  /** The Arabic block, U+0600 to U+06FF. */
  predicate IsArabic(c: char) {
    0x0600 <= c as int <= 0x06FF
  }

  /** The number of characters of `text` that satisfy `p`. */
  function CountIf(text: string, p: char -> bool): (n: nat)
    ensures n <= |text|
  {
    if text == [] then 0
    else CountIf(text[..|text| - 1], p) + if p(text[|text| - 1]) then 1 else 0
  }

  // ---------------------------------------------------------------- the loops

  /** `calcJapaneseRatio(text)`. */
  method CalcJapaneseRatio(text: string) returns (r: Ratio)
    ensures r == Ratio(CountIf(text, IsKana), Utf16Length(text))
  {
    var japaneseCount := CountMatching(text, IsKana);
    r := Ratio(japaneseCount, Utf16Length(text));
  }

  /** `calcArabicRatio(text)`. */
  method CalcArabicRatio(text: string) returns (r: Ratio)
    ensures r == Ratio(CountIf(text, IsArabic), Utf16Length(text))
  {
    var arabicCount := CountMatching(text, IsArabic);
    r := Ratio(arabicCount, Utf16Length(text));
  }

  /** `calcEmojiCount(text)`, with `/\p{Emoji}/u` as the predicate `isEmoji`. */
  method CalcEmojiCount(text: string, isEmoji: char -> bool) returns (emojiCount: nat)
    ensures emojiCount == CountIf(text, isEmoji)
  {
    emojiCount := CountMatching(text, isEmoji);
  }

  /** `calcEmojiRatio(text)`. */
  method CalcEmojiRatio(text: string, isEmoji: char -> bool) returns (r: Ratio)
    ensures r == Ratio(CountIf(text, isEmoji), Utf16Length(text))
  {
    var emojiCount := CalcEmojiCount(text, isEmoji);
    r := Ratio(emojiCount, Utf16Length(text));
  }

  /** The `for (const element of text) if (test) count++` loop the three functions share. */
  method CountMatching(text: string, p: char -> bool) returns (count: nat)
    ensures count == CountIf(text, p)
  {
    count := 0;
    for i := 0 to |text|
      invariant count == CountIf(text[..i], p)
    {
      assert text[..i + 1][..i] == text[..i];
      if p(text[i]) {
        count := count + 1;
      }
    }
    assert text[..|text|] == text;
  }

  // ---------------------------------------------------------------- properties

  /** Each counted character takes at least one code unit: every ratio lies in `[0, 1]`. */
  lemma RatioAtMostOne(text: string, p: char -> bool)
    ensures CountIf(text, p) <= Utf16Length(text)
  {
    Utf16LengthBounds(text);
  }

  lemma {:induction false} CountIfPositiveIff(text: string, p: char -> bool)
    ensures CountIf(text, p) > 0 <==> exists i :: 0 <= i < |text| && p(text[i])
  {
    if text != [] {
      var init := text[..|text| - 1];
      CountIfPositiveIff(init, p);
      if exists i :: 0 <= i < |text| && p(text[i]) {
        var i :| 0 <= i < |text| && p(text[i]);
        if i < |init| {
          assert init[i] == text[i];
        }
      }
      if exists i :: 0 <= i < |init| && p(init[i]) {
        var i :| 0 <= i < |init| && p(init[i]);
        assert text[i] == init[i];
      }
    }
  }

  /** `calcArabicRatio(t) > 0` exactly when `t` holds an Arabic-block character. */
  lemma ArabicPositiveIff(text: string)
    ensures Positive(Ratio(CountIf(text, IsArabic), Utf16Length(text))) <==>
      exists i :: 0 <= i < |text| && IsArabic(text[i])
  {
    CountIfPositiveIff(text, IsArabic);
    Utf16LengthBounds(text);
  }

  /** Empty text: `0 / 0` is `NaN`, and neither comparison holds. */
  lemma EmptyTextNeverCompares(p: char -> bool)
    ensures !Positive(Ratio(CountIf("", p), Utf16Length("")))
    ensures !AtLeastHalf(Ratio(CountIf("", p), Utf16Length("")))
  {
    assert Utf16("") == [];
  }

  lemma {:induction false} CountIfAll(text: string, p: char -> bool)
    requires forall i :: 0 <= i < |text| ==> p(text[i])
    ensures CountIf(text, p) == |text|
  {
    if text != [] {
      CountIfAll(text[..|text| - 1], p);
    }
  }

  lemma {:induction false} CountIfNone(text: string, p: char -> bool)
    requires forall i :: 0 <= i < |text| ==> !p(text[i])
    ensures CountIf(text, p) == 0
  {
    if text != [] {
      CountIfNone(text[..|text| - 1], p);
    }
  }

  /**
   * Text made only of astral-plane emoji: every emoji is counted once but is
   * two code units long, so the ratio is exactly one half and `>= 0.5` holds.
   */
  lemma AstralEmojiHalf(text: string, isEmoji: char -> bool)
    requires text != []
    requires forall i :: 0 <= i < |text| ==> isEmoji(text[i]) && text[i] as int >= 0x1_0000
    ensures 2 * CountIf(text, isEmoji) == Utf16Length(text)
    ensures AtLeastHalf(Ratio(CountIf(text, isEmoji), Utf16Length(text)))
  {
    CountIfAll(text, isEmoji);
    Utf16LengthAstral(text);
  }

  /** Kanji (U+4E00 to U+9FFF) are not counted as Japanese: all-kanji text has ratio 0. */
  lemma KanjiNotJapanese(text: string)
    requires forall i :: 0 <= i < |text| ==> 0x4E00 <= text[i] as int <= 0x9FFF
    ensures CountIf(text, IsKana) == 0
  {
    CountIfNone(text, IsKana);
  }
}
