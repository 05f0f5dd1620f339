/**
 * `calcSpamScore` of the userscript (script/script.js). It applies the same
 * seven rules with the same weights and reasons as the current tree, to the
 * flat `tweetData` records the userscript stores; the badge rule reads the
 * `isBlueVerified` flag directly, the root-language rule has no author guard,
 * and the repeated-author rule counts entries by screen name. The thread list
 * `tweetDatas`, the page address and the `\p{Emoji}` test are parameters.
 */
module ScriptChecker {
  import opened Wrappers
  import opened Js
  import opened Rules
  import Ratios
  import Scripts
  import Shares
  import ScriptLanguage
  import CommonValues
  import SpamWords

  /** The fields of a stored `tweetData` the scorer reads; `null` is `None`. */
  datatype TweetData = TweetData(
    lang: Option<string>,
    screenName: Option<string>,     // `quotedScreenName`
    userName: Option<string>,       // `quotedUserName`
    text: Option<string>,           // `quotedText`
    description: Option<string>,    // `quotedUserDescription`
    isBlueVerified: Value)

  const StatusPath := "/status/"

  const NotIterable := TypeError("object null is not iterable")
  const NoRoot := TypeError("Cannot read properties of undefined (reading 'lang')")

  /** The entries of `tweetDatas` whose screen name is `name` (`==` on strings and `null`). */
  function ScreenNameCount(tweetDatas: seq<TweetData>, name: Option<string>): (n: nat)
    ensures n <= |tweetDatas|
  {
    if tweetDatas == [] then 0
    else ScreenNameCount(tweetDatas[..|tweetDatas| - 1], name)
         + if tweetDatas[|tweetDatas| - 1].screenName == name then 1 else 0
  }

  /** The userscript's guesses for the post and for the profile share no value but `'unknown'`. */
  predicate LanguagesDiffer(text: string, description: string) {
    !CommonValues.ShareValue(CommonValues.Values(ScriptLanguage.ScriptGuess(text)),
                             CommonValues.Values(ScriptLanguage.ScriptGuess(description)))
  }

  /** On a post page, with the thread's root entry at hand. */
  predicate OnThread(tweetDatas: seq<TweetData>, href: string) {
    Includes(href, StatusPath) && tweetDatas != []
  }

  /** The condition of each rule, as the userscript evaluates it. */
  predicate Fires(r: Rule, d: TweetData, tweetDatas: seq<TweetData>, href: string, isEmoji: char -> bool)
    requires d.text.Some? && d.description.Some?
  {
    var text := d.text.value;
    match r
    case SpamPhrase => SpamWords.AnyIncluded(text, SpamWords.SpamWords)
    case EmojiHeavy => Ratios.AtLeastHalf(Ratios.Ratio(Ratios.CountIf(text, isEmoji), Utf16Length(text)))
    case LangMismatch => LanguagesDiffer(text, d.description.value)
    case ArabicText => Ratios.Positive(Ratios.Ratio(Ratios.CountIf(text, Ratios.IsArabic), Utf16Length(text)))
    case PaidBadge => Truthy(d.isBlueVerified)
    case RootLang => OnThread(tweetDatas, href) && tweetDatas[0].lang != d.lang
    case RepeatedAuthor =>
      OnThread(tweetDatas, href) && tweetDatas[0].screenName != d.screenName
      && ScreenNameCount(tweetDatas, d.screenName) >= 2
  }

  function Fired(d: TweetData, tweetDatas: seq<TweetData>, href: string, isEmoji: char -> bool): set<Rule>
    requires d.text.Some? && d.description.Some?
  {
    set r | r in Order && Fires(r, d, tweetDatas, href, isEmoji)
  }

  lemma InFired(r: Rule, d: TweetData, tweetDatas: seq<TweetData>, href: string, isEmoji: char -> bool)
    requires d.text.Some? && d.description.Some?
    ensures r in Fired(d, tweetDatas, href, isEmoji) <==> Fires(r, d, tweetDatas, href, isEmoji)
  {
    assert r == Order[RankOf(r)];
  }

  lemma ContentFired(d: TweetData, tweetDatas: seq<TweetData>, href: string, isEmoji: char -> bool)
    requires d.text.Some? && d.description.Some?
    ensures var fired := Fired(d, tweetDatas, href, isEmoji);
            var text := d.text.value;
            && (SpamPhrase in fired <==> SpamWords.AnyIncluded(text, SpamWords.SpamWords))
            && (EmojiHeavy in fired <==> Ratios.AtLeastHalf(Ratios.Ratio(Ratios.CountIf(text, isEmoji), Utf16Length(text))))
            && (ArabicText in fired <==> Ratios.Positive(Ratios.Ratio(Ratios.CountIf(text, Ratios.IsArabic), Utf16Length(text))))
            && (PaidBadge in fired <==> Truthy(d.isBlueVerified))
  {
    InFired(SpamPhrase, d, tweetDatas, href, isEmoji);
    InFired(EmojiHeavy, d, tweetDatas, href, isEmoji);
    InFired(ArabicText, d, tweetDatas, href, isEmoji);
    InFired(PaidBadge, d, tweetDatas, href, isEmoji);
  }

  lemma LanguageFired(d: TweetData, tweetDatas: seq<TweetData>, href: string, isEmoji: char -> bool)
    requires d.text.Some? && d.description.Some?
    ensures LangMismatch in Fired(d, tweetDatas, href, isEmoji) <==> LanguagesDiffer(d.text.value, d.description.value)
  {
    InFired(LangMismatch, d, tweetDatas, href, isEmoji);
  }

  /**
   * The reference result: the first `TypeError` in evaluation order, otherwise
   * the weights and reasons of the rules whose conditions hold.
   */
  function SpamScore(d: TweetData, tweetDatas: seq<TweetData>, href: string, isEmoji: char -> bool): Result<SpamInfo, Error> {
    if d.text.None? || d.description.None? || d.userName.None? then Err(NotIterable)
    else if Includes(href, StatusPath) && tweetDatas == [] then Err(NoRoot)
    else Ok(Verdict(Fired(d, tweetDatas, href, isEmoji)))
  }

  /** `calcSpamScore(tweetData)`. */
  method CalcSpamScore(d: TweetData, tweetDatas: seq<TweetData>, href: string, isEmoji: char -> bool)
    returns (r: Result<SpamInfo, Error>)
    ensures r == SpamScore(d, tweetDatas, href, isEmoji)
  {
    if d.text.None? {
      return Err(NotIterable);
    }
    var text := d.text.value;
    var arabicRatio := Ratios.CalcArabicRatio(text);
    var emojiRatio := Ratios.CalcEmojiRatio(text, isEmoji);
    if d.description.None? {
      return Err(NotIterable);
    }
    var description := d.description.value;
    var arabicRatioProfile := Ratios.CalcArabicRatio(description);
    var profileLength := Utf16Length(description);
    if d.userName.None? {
      return Err(NotIterable);
    }
    var arabicRatioName := Ratios.CalcArabicRatio(d.userName.value);

    ghost var fired := Fired(d, tweetDatas, href, isEmoji);
    ContentFired(d, tweetDatas, href, isEmoji);
    LanguageFired(d, tweetDatas, href, isEmoji);
    var spamScore, spamReason := PhraseAndEmojiRules(text, emojiRatio, fired);
    spamScore, spamReason := LanguageRule(text, description, spamScore, spamReason, fired);
    spamScore, spamReason := ArabicAndBadgeRules(arabicRatio, Truthy(d.isBlueVerified), spamScore, spamReason, fired);
    if Includes(href, StatusPath) && tweetDatas == [] {
      return Err(NoRoot);
    }
    spamScore, spamReason := ThreadRules(d, tweetDatas, href, isEmoji, spamScore, spamReason);
    return Ok(SpamInfo(spamScore, spamReason));
  }

  /** The language rule: `!haveCommonValues(detect_lang(text), detect_lang(description))`. */
  method LanguageRule(text: string, description: string, score0: int, reason0: string, ghost fired: set<Rule>)
    returns (spamScore: int, spamReason: string)
    requires LangMismatch in fired <==> LanguagesDiffer(text, description)
    requires SpamInfo(score0, reason0) == Partial(fired, 2)
    ensures SpamInfo(spamScore, spamReason) == Partial(fired, 3)
  {
    spamScore, spamReason := score0, reason0;
    var langTweet := ScriptLanguage.DetectLangScript(text);
    var langProfile := ScriptLanguage.DetectLangScript(description);
    var common := CommonValues.HaveCommonValues(CommonValues.Values(langTweet), CommonValues.Values(langProfile));
    if !common {
      spamReason := spamReason + Reason(LangMismatch);
      spamScore := spamScore + Weight(LangMismatch);
    }
  }

  /** The two thread rules, evaluated on a post page. */
  method ThreadRules(d: TweetData, tweetDatas: seq<TweetData>, href: string, ghost isEmoji: char -> bool,
                     score0: int, reason0: string)
    returns (spamScore: int, spamReason: string)
    requires d.text.Some? && d.description.Some?
    requires Includes(href, StatusPath) ==> tweetDatas != []
    requires SpamInfo(score0, reason0) == Partial(Fired(d, tweetDatas, href, isEmoji), 5)
    ensures SpamInfo(spamScore, spamReason) == Verdict(Fired(d, tweetDatas, href, isEmoji))
  {
    ghost var fired := Fired(d, tweetDatas, href, isEmoji);
    InFired(RootLang, d, tweetDatas, href, isEmoji);
    InFired(RepeatedAuthor, d, tweetDatas, href, isEmoji);
    spamScore, spamReason := score0, reason0;
    var quotedScreenNameCount := 0;
    if Includes(href, StatusPath) {
      if tweetDatas[0].lang != d.lang {
        spamReason := spamReason + Reason(RootLang);
        spamScore := spamScore + Weight(RootLang);
      }
      assert SpamInfo(spamScore, spamReason) == Partial(fired, 6);
      if tweetDatas[0].screenName != d.screenName {
        quotedScreenNameCount := CountScreenName(tweetDatas, d.screenName);
        if quotedScreenNameCount >= 2 {
          spamReason := spamReason + Reason(RepeatedAuthor);
          spamScore := spamScore + Weight(RepeatedAuthor);
        }
      }
    } else {
      assert Partial(fired, 6) == Partial(fired, 5);
    }
  }

  /** The `quotedScreenNameCount` loop. */
  method CountScreenName(tweetDatas: seq<TweetData>, name: Option<string>) returns (count: nat)
    ensures count == ScreenNameCount(tweetDatas, name)
  {
    count := 0;
    for i := 0 to |tweetDatas|
      invariant count == ScreenNameCount(tweetDatas[..i], name)
    {
      assert tweetDatas[..i + 1][..i] == tweetDatas[..i];
      if tweetDatas[i].screenName == name {
        count := count + 1;
      }
    }
    assert tweetDatas[..|tweetDatas|] == tweetDatas;
  }

  // ---------------------------------------------------------------- properties

  /** Every successful score lies in `[0, 180]` and is a multiple of 10. */
  lemma ScoreInRange(d: TweetData, tweetDatas: seq<TweetData>, href: string, isEmoji: char -> bool)
    requires SpamScore(d, tweetDatas, href, isEmoji).Ok?
    ensures 0 <= SpamScore(d, tweetDatas, href, isEmoji).value.score <= 180
    ensures SpamScore(d, tweetDatas, href, isEmoji).value.score % 10 == 0
  {
    ScoreBounds(Fired(d, tweetDatas, href, isEmoji));
  }

  /** A `null` text, profile or name throws, whatever else the record holds. */
  lemma NullFieldThrows(d: TweetData, tweetDatas: seq<TweetData>, href: string, isEmoji: char -> bool)
    ensures SpamScore(d, tweetDatas, href, isEmoji) == Err(NotIterable) <==>
            d.text.None? || d.description.None? || d.userName.None?
  {
  }

  /** The badge rule fires exactly when `isBlueVerified` is truthy: `true`, never `false` or `null`. */
  lemma BadgeRuleIff(d: TweetData, tweetDatas: seq<TweetData>, href: string, isEmoji: char -> bool)
    requires d.text.Some? && d.description.Some?
    ensures PaidBadge in Fired(d, tweetDatas, href, isEmoji) <==> Truthy(d.isBlueVerified)
    ensures d.isBlueVerified == Bool(true) ==> PaidBadge in Fired(d, tweetDatas, href, isEmoji)
    ensures d.isBlueVerified in {Bool(false), Null} ==> PaidBadge !in Fired(d, tweetDatas, href, isEmoji)
  {
    InFired(PaidBadge, d, tweetDatas, href, isEmoji);
  }

  /** A post containing one of the stock phrases always reaches the highlight threshold. */
  lemma SpamPhraseHighlights(d: TweetData, tweetDatas: seq<TweetData>, href: string, isEmoji: char -> bool)
    requires SpamScore(d, tweetDatas, href, isEmoji).Ok?
    requires SpamWords.AnyIncluded(d.text.value, SpamWords.SpamWords)
    ensures SpamScore(d, tweetDatas, href, isEmoji).value.score >= 50
  {
    InFired(SpamPhrase, d, tweetDatas, href, isEmoji);
    PhraseRuleHighlights(Fired(d, tweetDatas, href, isEmoji));
  }

  /**
   * When neither guess has a secondary label, both value lists hold `null`,
   * which counts as a common value: the language rule does not fire.
   */
  lemma NoSecondariesNoMismatch(text: string, description: string)
    requires ScriptLanguage.ScriptGuess(text).secondary.None?
    requires ScriptLanguage.ScriptGuess(description).secondary.None?
    ensures !LanguagesDiffer(text, description)
  {
    var g1 := ScriptLanguage.ScriptGuess(text);
    var g2 := ScriptLanguage.ScriptGuess(description);
    assert g1 == Shares.LangInfo(g1.primary, None) && g2 == Shares.LangInfo(g2.primary, None);
    CommonValues.NullIsCommon(g1.primary, g2.primary);
  }

  /** For instance, a non-empty text and profile whose code units all fall in the Japanese ranges. */
  lemma JapaneseTextAndProfileAgree(text: string, description: string)
    requires text != [] && description != []
    requires forall i | 0 <= i < |Utf16(text)| :: Scripts.Classify(ScriptLanguage.ScriptTable, Utf16(text)[i]) == Scripts.Ja
    requires forall i | 0 <= i < |Utf16(description)| ::
      Scripts.Classify(ScriptLanguage.ScriptTable, Utf16(description)[i]) == Scripts.Ja
    ensures !LanguagesDiffer(text, description)
  {
    ScriptLanguage.SecondaryAbsentIff(text);
    ScriptLanguage.SecondaryAbsentIff(description);
    NoSecondariesNoMismatch(text, description);
  }

  /** The root entry scored against its own thread fires neither thread rule. */
  lemma RootNotCharged(tweetDatas: seq<TweetData>, href: string, isEmoji: char -> bool)
    requires tweetDatas != [] && tweetDatas[0].text.Some? && tweetDatas[0].description.Some?
    ensures RootLang !in Fired(tweetDatas[0], tweetDatas, href, isEmoji)
    ensures RepeatedAuthor !in Fired(tweetDatas[0], tweetDatas, href, isEmoji)
  {
    InFired(RootLang, tweetDatas[0], tweetDatas, href, isEmoji);
    InFired(RepeatedAuthor, tweetDatas[0], tweetDatas, href, isEmoji);
  }

  /**
   * Unlike the current tree, a reply by the root's own author in another
   * language is charged with the root-language rule.
   */
  lemma RootAuthorChargedExample()
    ensures var root := TweetData(Some("ja"), Some("a"), Some(""), Some(""), Some(""), Null);
            var reply := TweetData(Some("en"), Some("a"), Some(""), Some(""), Some(""), Null);
            RootLang in Fired(reply, [root, reply], "https://x.com/a/status/1", _ => false)
  {
    var root := TweetData(Some("ja"), Some("a"), Some(""), Some(""), Some(""), Null);
    var reply := TweetData(Some("en"), Some("a"), Some(""), Some(""), Some(""), Null);
    var href := "https://x.com/a/status/1";
    assert OccursAt(href, StatusPath, 15);
    InFired(RootLang, reply, [root, reply], href, _ => false);
  }

  lemma {:induction false} ScreenNameCountIff(tweetDatas: seq<TweetData>, name: Option<string>)
    ensures ScreenNameCount(tweetDatas, name) >= 2 <==>
      exists i, j | 0 <= i < j < |tweetDatas| :: tweetDatas[i].screenName == name && tweetDatas[j].screenName == name
    ensures ScreenNameCount(tweetDatas, name) >= 1 <==> exists i | 0 <= i < |tweetDatas| :: tweetDatas[i].screenName == name
  {
    if tweetDatas != [] {
      var init := tweetDatas[..|tweetDatas| - 1];
      var last := |tweetDatas| - 1;
      ScreenNameCountIff(init, name);
      if exists i, j | 0 <= i < j < |tweetDatas| :: tweetDatas[i].screenName == name && tweetDatas[j].screenName == name {
        var i, j :| 0 <= i < j < |tweetDatas| && tweetDatas[i].screenName == name && tweetDatas[j].screenName == name;
        if j < last {
          assert init[i].screenName == name && init[j].screenName == name;
        } else {
          assert init[i].screenName == name;
        }
      }
      if exists i | 0 <= i < |tweetDatas| :: tweetDatas[i].screenName == name {
        var i :| 0 <= i < |tweetDatas| && tweetDatas[i].screenName == name;
        if i < last {
          assert init[i].screenName == name;
        }
      }
      if ScreenNameCount(init, name) >= 1 && tweetDatas[last].screenName == name {
        var i :| 0 <= i < |init| && init[i].screenName == name;
        assert tweetDatas[i].screenName == name;
      }
    }
  }

  /**
   * The repeated-author rule fires exactly for a post, on a post page, whose
   * author is not the root's and has at least two entries in the thread.
   */
  lemma RepeatedAuthorIff(d: TweetData, tweetDatas: seq<TweetData>, href: string, isEmoji: char -> bool)
    requires d.text.Some? && d.description.Some?
    ensures RepeatedAuthor in Fired(d, tweetDatas, href, isEmoji) <==>
      OnThread(tweetDatas, href) && tweetDatas[0].screenName != d.screenName &&
      exists i, j | 0 <= i < j < |tweetDatas| :: tweetDatas[i].screenName == d.screenName && tweetDatas[j].screenName == d.screenName
  {
    InFired(RepeatedAuthor, d, tweetDatas, href, isEmoji);
    ScreenNameCountIff(tweetDatas, d.screenName);
  }
}
