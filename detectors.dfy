/**
 * The two language detectors side by side: they agree on plain Latin text,
 * and part ways on emoji, which the current tree counts as `emoji` and the
 * userscript, reading UTF-16 code units, as `unknown`.
 */
module Detectors {
  import opened Wrappers
  import opened Scripts
  import opened Shares
  import Language
  import ScriptLanguage

  lemma EmojiIsEmoji(c: char)
    requires 0x1_F000 <= c as int <= 0x1_F9FF
    ensures Classify(Language.SrcTable, c as int) == Emoji
  {
    forall j | 0 <= j < 12 ensures !InSpans(c as int, Language.SrcTable[j]) {
    }
    assert Language.SrcTable[12][0].lo <= c as int <= Language.SrcTable[12][0].hi;
    ClassifyIsFirstMatch(Language.SrcTable, c as int, Emoji);
  }

  /** An emoji of the block U+1F000 to U+1F9FF on its own: `emoji` now, `unknown` in the userscript. */
  lemma EmojiDisagreement(c: char)
    requires 0x1_F000 <= c as int <= 0x1_F9FF
    ensures Language.Guess([c]) == LangInfo(Emoji, Some(Ja))
    ensures ScriptLanguage.ScriptGuess([c]) == LangInfo(Unknown, Some(Ja))
  {
    EmojiIsEmoji(c);
    Language.SingleScript([c], Emoji);
    ScriptLanguage.AstralIsUnknown(c);
  }

  /** Both detectors call "Hello" English with `ja` second. */
  lemma HelloAgreement()
    ensures Language.Guess("Hello") == ScriptLanguage.ScriptGuess("Hello") == LangInfo(En, Some(Ja))
  {
    Language.HelloIsEnglish();
    ScriptLanguage.HelloIsEnglish();
  }
}
