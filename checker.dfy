/**
 * `calcSpamScore` of the current tree (src/checker/checker.js). The post is a
 * value; the thread list the code reads from an unbound global `tweets`, the
 * page address `window.location.href` and the `\p{Emoji}` test are
 * parameters. Reading a `null` text with `for…of`, or `tweets[0]` of an empty
 * list, throws a `TypeError`, which is the `Err` result.
 */
module Checker {
  import opened Wrappers
  import opened Js
  import opened Rules
  import Ratios
  import Language
  import Shares
  import CommonValues
  import SpamWords
  import Badges

  /** The fields of a `Tweet` the scorer reads; `null` or `undefined` is `None`. */
  datatype Tweet = Tweet(
    id: string,
    authorId: string,
    name: Option<string>,
    description: Option<string>,
    verifyType: Option<string>,   // `author.verifyStatus?.type`
    language: Option<string>,
    content: Option<string>)

  const StatusPath := "/status/"

  const NotIterable := TypeError("object null is not iterable")
  const NoRoot := TypeError("Cannot read properties of undefined (reading 'author')")

  /** A reply on a post page whose root was written by someone else. */
  predicate InThreadReply(tweet: Tweet, tweets: seq<Tweet>, href: string) {
    Includes(href, StatusPath) && tweets != [] && tweets[0].authorId != tweet.authorId
  }

  /** The entries of `tweets` with the same `id` and the same author id as `tweet`. */
  function SameTweetCount(tweets: seq<Tweet>, tweet: Tweet): (n: nat)
    ensures n <= |tweets|
  {
    if tweets == [] then 0
    else SameTweetCount(tweets[..|tweets| - 1], tweet)
         + if tweets[|tweets| - 1].id == tweet.id && tweets[|tweets| - 1].authorId == tweet.authorId then 1 else 0
  }

  /** The condition of each rule, as the code evaluates it. */
  predicate Fires(r: Rule, tweet: Tweet, tweets: seq<Tweet>, href: string, isEmoji: char -> bool)
    requires tweet.content.Some? && tweet.description.Some?
  {
    var content := tweet.content.value;
    match r
    case SpamPhrase => SpamWords.AnyIncluded(content, SpamWords.SpamWords)
    case EmojiHeavy => Ratios.AtLeastHalf(Ratios.Ratio(Ratios.CountIf(content, isEmoji), Utf16Length(content)))
    case LangMismatch => LanguagesDiffer(content, tweet.description.value)
    case ArabicText => Ratios.Positive(Ratios.Ratio(Ratios.CountIf(content, Ratios.IsArabic), Utf16Length(content)))
    case PaidBadge => tweet.verifyType == Some("Blue")
    case RootLang => InThreadReply(tweet, tweets, href) && tweets[0].language != tweet.language
    case RepeatedAuthor => InThreadReply(tweet, tweets, href) && SameTweetCount(tweets, tweet) >= 2
  }

  /** The guesses for the post and for the profile share no value but `'unknown'`. */
  predicate LanguagesDiffer(content: string, description: string) {
    !CommonValues.ShareValue(CommonValues.Values(Language.Guess(content)),
                             CommonValues.Values(Language.Guess(description)))
  }

  function Fired(tweet: Tweet, tweets: seq<Tweet>, href: string, isEmoji: char -> bool): set<Rule>
    requires tweet.content.Some? && tweet.description.Some?
  {
    set r | r in Order && Fires(r, tweet, tweets, href, isEmoji)
  }

  lemma InFired(r: Rule, tweet: Tweet, tweets: seq<Tweet>, href: string, isEmoji: char -> bool)
    requires tweet.content.Some? && tweet.description.Some?
    ensures r in Fired(tweet, tweets, href, isEmoji) <==> Fires(r, tweet, tweets, href, isEmoji)
  {
    assert r == Order[RankOf(r)];
  }

  /** Which of the other content rules fired, in the terms the scorer computes them. */
  lemma ContentFired(tweet: Tweet, tweets: seq<Tweet>, href: string, isEmoji: char -> bool)
    requires tweet.content.Some? && tweet.description.Some?
    ensures var fired := Fired(tweet, tweets, href, isEmoji);
            var content := tweet.content.value;
            && (SpamPhrase in fired <==> SpamWords.AnyIncluded(content, SpamWords.SpamWords))
            && (EmojiHeavy in fired <==> Ratios.AtLeastHalf(Ratios.Ratio(Ratios.CountIf(content, isEmoji), Utf16Length(content))))
            && (ArabicText in fired <==> Ratios.Positive(Ratios.Ratio(Ratios.CountIf(content, Ratios.IsArabic), Utf16Length(content))))
            && (PaidBadge in fired <==> tweet.verifyType == Some("Blue"))
  {
    InFired(SpamPhrase, tweet, tweets, href, isEmoji);
    InFired(EmojiHeavy, tweet, tweets, href, isEmoji);
    InFired(ArabicText, tweet, tweets, href, isEmoji);
    InFired(PaidBadge, tweet, tweets, href, isEmoji);
  }

  lemma LanguageFired(tweet: Tweet, tweets: seq<Tweet>, href: string, isEmoji: char -> bool)
    requires tweet.content.Some? && tweet.description.Some?
    ensures LangMismatch in Fired(tweet, tweets, href, isEmoji) <==>
            LanguagesDiffer(tweet.content.value, tweet.description.value)
  {
    InFired(LangMismatch, tweet, tweets, href, isEmoji);
  }

  /**
   * The reference result: the first `TypeError` in evaluation order, otherwise
   * the weights and reasons of the rules whose conditions hold.
   */
  function SpamScore(tweet: Tweet, tweets: seq<Tweet>, href: string, isEmoji: char -> bool): Result<SpamInfo, Error> {
    if tweet.content.None? || tweet.description.None? || tweet.name.None? then Err(NotIterable)
    else if Includes(href, StatusPath) && tweets == [] then Err(NoRoot)
    else Ok(Verdict(Fired(tweet, tweets, href, isEmoji)))
  }

  /** `calcSpamScore(tweet)`. */
  method CalcSpamScore(tweet: Tweet, tweets: seq<Tweet>, href: string, isEmoji: char -> bool)
    returns (r: Result<SpamInfo, Error>)
    ensures r == SpamScore(tweet, tweets, href, isEmoji)
  {
    if tweet.content.None? {
      return Err(NotIterable);
    }
    var content := tweet.content.value;
    var arabicRatio := Ratios.CalcArabicRatio(content);
    var emojiRatio := Ratios.CalcEmojiRatio(content, isEmoji);
    if tweet.description.None? {
      return Err(NotIterable);
    }
    var description := tweet.description.value;
    var arabicRatioProfile := Ratios.CalcArabicRatio(description);
    var profileLength := Utf16Length(description);
    if tweet.name.None? {
      return Err(NotIterable);
    }
    var arabicRatioName := Ratios.CalcArabicRatio(tweet.name.value);

    ghost var fired := Fired(tweet, tweets, href, isEmoji);
    ContentFired(tweet, tweets, href, isEmoji);
    LanguageFired(tweet, tweets, href, isEmoji);
    var spamScore, spamReason := PhraseAndEmojiRules(content, emojiRatio, fired);
    spamScore, spamReason := LanguageRule(content, description, spamScore, spamReason, fired);
    spamScore, spamReason := ArabicAndBadgeRules(arabicRatio, tweet.verifyType == Some("Blue"), spamScore, spamReason, fired);
    if Includes(href, StatusPath) && tweets == [] {
      return Err(NoRoot);
    }
    spamScore, spamReason := ThreadRules(tweet, tweets, href, isEmoji, spamScore, spamReason);
    return Ok(SpamInfo(spamScore, spamReason));
  }

  /** The language rule: `!haveCommonValues(detectLang(content), detectLang(description))`. */
  method LanguageRule(content: string, description: string, score0: int, reason0: string, ghost fired: set<Rule>)
    returns (spamScore: int, spamReason: string)
    requires LangMismatch in fired <==> LanguagesDiffer(content, description)
    requires SpamInfo(score0, reason0) == Partial(fired, 2)
    ensures SpamInfo(spamScore, spamReason) == Partial(fired, 3)
  {
    spamScore, spamReason := score0, reason0;
    var tweetLang := Language.DetectLang(content);
    var profileLang := Language.DetectLang(description);
    var common := CommonValues.HaveCommonValues(CommonValues.Values(tweetLang), CommonValues.Values(profileLang));
    if !common {
      spamReason := spamReason + Reason(LangMismatch);
      spamScore := spamScore + Weight(LangMismatch);
    }
  }

  /** The two thread rules, evaluated on a post page when the root was written by someone else. */
  method ThreadRules(tweet: Tweet, tweets: seq<Tweet>, href: string, ghost isEmoji: char -> bool,
                     score0: int, reason0: string)
    returns (spamScore: int, spamReason: string)
    requires tweet.content.Some? && tweet.description.Some?
    requires Includes(href, StatusPath) ==> tweets != []
    requires SpamInfo(score0, reason0) == Partial(Fired(tweet, tweets, href, isEmoji), 5)
    ensures SpamInfo(spamScore, spamReason) == Verdict(Fired(tweet, tweets, href, isEmoji))
  {
    ghost var fired := Fired(tweet, tweets, href, isEmoji);
    InFired(RootLang, tweet, tweets, href, isEmoji);
    InFired(RepeatedAuthor, tweet, tweets, href, isEmoji);
    spamScore, spamReason := score0, reason0;
    if Includes(href, StatusPath) && tweets[0].authorId != tweet.authorId {
      if tweets[0].language != tweet.language {
        spamReason := spamReason + Reason(RootLang);
        spamScore := spamScore + Weight(RootLang);
      }
      assert SpamInfo(spamScore, spamReason) == Partial(fired, 6);
      var tweetCount := CountSameTweet(tweets, tweet);
      if tweetCount >= 2 {
        spamReason := spamReason + Reason(RepeatedAuthor);
        spamScore := spamScore + Weight(RepeatedAuthor);
      }
    } else {
      assert Partial(fired, 6) == Partial(fired, 5);
    }
  }

  /** The `tweetCount` loop. */
  method CountSameTweet(tweets: seq<Tweet>, tweet: Tweet) returns (tweetCount: nat)
    ensures tweetCount == SameTweetCount(tweets, tweet)
  {
    tweetCount := 0;
    for i := 0 to |tweets|
      invariant tweetCount == SameTweetCount(tweets[..i], tweet)
    {
      assert tweets[..i + 1][..i] == tweets[..i];
      if tweet.id == tweets[i].id && tweet.authorId == tweets[i].authorId {
        tweetCount := tweetCount + 1;
      }
    }
    assert tweets[..|tweets|] == tweets;
  }

  // ---------------------------------------------------------------- properties

  /** Off a post page the thread list plays no part: the result is that of an empty list. */
  lemma ThreadIgnoredOffStatusPage(tweet: Tweet, tweets: seq<Tweet>, href: string, isEmoji: char -> bool)
    requires !Includes(href, StatusPath)
    ensures SpamScore(tweet, tweets, href, isEmoji) == SpamScore(tweet, [], "", isEmoji)
  {
    NoStatusInEmpty();
    if tweet.content.Some? && tweet.description.Some? {
      assert Fired(tweet, tweets, href, isEmoji) == Fired(tweet, [], "", isEmoji);
    }
  }

  /** The root's author is never charged with the thread rules. */
  lemma RootAuthorNotCharged(tweet: Tweet, tweets: seq<Tweet>, href: string, isEmoji: char -> bool)
    requires tweets != [] && tweets[0].authorId == tweet.authorId
    ensures SpamScore(tweet, tweets, href, isEmoji) == SpamScore(tweet, [], "", isEmoji)
  {
    NoStatusInEmpty();
    if tweet.content.Some? && tweet.description.Some? {
      assert Fired(tweet, tweets, href, isEmoji) == Fired(tweet, [], "", isEmoji);
    }
  }

  lemma NoStatusInEmpty()
    ensures !Includes("", StatusPath)
  {
  }

  /** On a post page with an empty thread list, scoring a readable post throws. */
  lemma EmptyThreadThrows(tweet: Tweet, href: string, isEmoji: char -> bool)
    requires tweet.content.Some? && tweet.description.Some? && tweet.name.Some?
    ensures SpamScore(tweet, [], href, isEmoji).Err? <==> Includes(href, StatusPath)
  {
  }

  /** A `null` profile text throws, whatever else the post holds. */
  lemma NullDescriptionThrows(tweet: Tweet, tweets: seq<Tweet>, href: string, isEmoji: char -> bool)
    requires tweet.description.None?
    ensures SpamScore(tweet, tweets, href, isEmoji) == Err(NotIterable)
  {
  }

  /** Empty content is `NaN` for both ratios: neither the emoji nor the Arabic rule fires. */
  lemma EmptyContentNoRatioRules(tweet: Tweet, tweets: seq<Tweet>, href: string, isEmoji: char -> bool)
    requires tweet.content == Some("") && tweet.description.Some?
    ensures EmojiHeavy !in Fired(tweet, tweets, href, isEmoji)
    ensures ArabicText !in Fired(tweet, tweets, href, isEmoji)
  {
  }

  /** Every successful score lies in `[0, 180]` and is a multiple of 10. */
  lemma ScoreInRange(tweet: Tweet, tweets: seq<Tweet>, href: string, isEmoji: char -> bool)
    requires SpamScore(tweet, tweets, href, isEmoji).Ok?
    ensures 0 <= SpamScore(tweet, tweets, href, isEmoji).value.score <= 180
    ensures SpamScore(tweet, tweets, href, isEmoji).value.score % 10 == 0
  {
    ScoreBounds(Fired(tweet, tweets, href, isEmoji));
  }

  /** A post containing one of the stock phrases always reaches the highlight threshold. */
  lemma SpamPhraseHighlights(tweet: Tweet, tweets: seq<Tweet>, href: string, isEmoji: char -> bool)
    requires SpamScore(tweet, tweets, href, isEmoji).Ok?
    requires SpamWords.AnyIncluded(tweet.content.value, SpamWords.SpamWords)
    ensures SpamScore(tweet, tweets, href, isEmoji).value.score >= 50
  {
    InFired(SpamPhrase, tweet, tweets, href, isEmoji);
    PhraseRuleHighlights(Fired(tweet, tweets, href, isEmoji));
  }

  // ---------------------------------------------------------------- the badge rule

  /**
   * Whatever user flags `Tweet.from` read, the type it stores is never
   * `'Blue'`, so the badge rule as written never fires.
   */
  lemma BadgeRuleNeverFires(u: Badges.UserFlags, tweet: Tweet, tweets: seq<Tweet>, href: string, isEmoji: char -> bool)
    requires Badges.VerifyType(u) == Ok(tweet.verifyType)
    requires tweet.content.Some? && tweet.description.Some?
    ensures PaidBadge !in Fired(tweet, tweets, href, isEmoji)
  {
    Badges.VerifyTypeIsBadgeName(u);
  }

  /** The badge rule as evidently intended: the stored type is the `BLUE` badge. */
  predicate PaidBadgeIntended(tweet: Tweet) {
    tweet.verifyType == Some(Badges.Badge.members["BLUE"])
  }

  /** The intended rule fires for a paid badge, however `verified_type` is spelled. */
  lemma PaidBadgeIntendedFires(u: Badges.UserFlags, tweet: Tweet)
    requires Badges.VerifyType(u) == Ok(tweet.verifyType)
    ensures PaidBadgeIntended(tweet) <==>
      (if Truthy(u.verifiedType) then u.verifiedType.Str? && ToUpperCase(u.verifiedType.s) == "BLUE"
       else Truthy(u.isBlueVerified))
  {
    if Truthy(u.verifiedType) && u.verifiedType.Str? {
      Badges.VerifyTypePrefersVerifiedType(u);
    } else if Truthy(u.verifiedType) {
      assert false;
    } else if Truthy(u.isBlueVerified) {
      Badges.VerifyTypeBlueOnly(u);
    } else if Truthy(u.verified) {
      Badges.VerifyTypeLegacyVerifiedThrows(u);
    } else {
      Badges.VerifyTypeNull(u);
    }
  }

  // ---------------------------------------------------------------- the repeated-author rule

  /** No two entries share an `id`, as the thread list keeps it. */
  predicate UniqueIds(tweets: seq<Tweet>) {
    forall i, j | 0 <= i < j < |tweets| :: tweets[i].id != tweets[j].id
  }

  lemma {:induction false} SameTweetCountAtMostOne(tweets: seq<Tweet>, tweet: Tweet)
    requires UniqueIds(tweets)
    ensures SameTweetCount(tweets, tweet) <= 1
  {
    if tweets != [] {
      var init := tweets[..|tweets| - 1];
      SameTweetCountAtMostOne(init, tweet);
      if tweets[|tweets| - 1].id == tweet.id && SameTweetCount(init, tweet) == 1 {
        var i := SameTweetWitness(init, tweet);
        assert false;
      }
    }
  }

  lemma {:induction false} SameTweetWitness(tweets: seq<Tweet>, tweet: Tweet) returns (i: nat)
    requires SameTweetCount(tweets, tweet) > 0
    ensures i < |tweets| && tweets[i].id == tweet.id
  {
    var init := tweets[..|tweets| - 1];
    if SameTweetCount(init, tweet) > 0 {
      i := SameTweetWitness(init, tweet);
    } else {
      i := |tweets| - 1;
    }
  }

  /** Over a list unique by `id`, the repeated-author rule as written never fires. */
  lemma RepeatedAuthorNeverFires(tweet: Tweet, tweets: seq<Tweet>, href: string, isEmoji: char -> bool)
    requires UniqueIds(tweets)
    requires tweet.content.Some? && tweet.description.Some?
    ensures RepeatedAuthor !in Fired(tweet, tweets, href, isEmoji)
  {
    SameTweetCountAtMostOne(tweets, tweet);
  }

  /** The entries of `tweets` written by `authorId`. */
  function AuthorPostCount(tweets: seq<Tweet>, authorId: string): (n: nat)
    ensures n <= |tweets|
  {
    if tweets == [] then 0
    else AuthorPostCount(tweets[..|tweets| - 1], authorId) + if tweets[|tweets| - 1].authorId == authorId then 1 else 0
  }

  /** The repeated-author rule as evidently intended: the post's author has two entries in the thread. */
  predicate RepeatedAuthorIntended(tweet: Tweet, tweets: seq<Tweet>, href: string) {
    InThreadReply(tweet, tweets, href) && AuthorPostCount(tweets, tweet.authorId) >= 2
  }

  lemma {:induction false} AuthorPostCountIff(tweets: seq<Tweet>, a: string)
    ensures AuthorPostCount(tweets, a) >= 2 <==>
      exists i, j | 0 <= i < j < |tweets| :: tweets[i].authorId == a && tweets[j].authorId == a
    ensures AuthorPostCount(tweets, a) >= 1 <==> exists i | 0 <= i < |tweets| :: tweets[i].authorId == a
  {
    if tweets != [] {
      var init := tweets[..|tweets| - 1];
      var last := |tweets| - 1;
      AuthorPostCountIff(init, a);
      if exists i, j | 0 <= i < j < |tweets| :: tweets[i].authorId == a && tweets[j].authorId == a {
        var i, j :| 0 <= i < j < |tweets| && tweets[i].authorId == a && tweets[j].authorId == a;
        if j < last {
          assert init[i].authorId == a && init[j].authorId == a;
        } else {
          assert init[i].authorId == a;
        }
      }
      if exists i | 0 <= i < |tweets| :: tweets[i].authorId == a {
        var i :| 0 <= i < |tweets| && tweets[i].authorId == a;
        if i < last {
          assert init[i].authorId == a;
        }
      }
      if AuthorPostCount(init, a) >= 1 && tweets[last].authorId == a {
        var i :| 0 <= i < |init| && init[i].authorId == a;
        assert tweets[i].authorId == a;
      }
    }
  }

  /** The intended rule fires exactly when the reply's author wrote at least two entries of the thread. */
  lemma RepeatedAuthorIntendedIff(tweet: Tweet, tweets: seq<Tweet>, href: string)
    ensures RepeatedAuthorIntended(tweet, tweets, href) <==>
      InThreadReply(tweet, tweets, href) &&
      exists i, j | 0 <= i < j < |tweets| :: tweets[i].authorId == tweet.authorId && tweets[j].authorId == tweet.authorId
  {
    AuthorPostCountIff(tweets, tweet.authorId);
  }

  /**
   * A thread in which author `b` replied twice to `a`'s root: the intended rule
   * fires for `b`'s reply, the rule as written does not.
   */
  lemma RepeatedAuthorExample()
    ensures var root := Tweet("1", "a", Some(""), Some(""), None, Some("ja"), Some(""));
            var r1 := Tweet("2", "b", Some(""), Some(""), None, Some("ja"), Some(""));
            var r2 := Tweet("3", "b", Some(""), Some(""), None, Some("ja"), Some(""));
            var thread := [root, r1, r2];
            UniqueIds(thread) &&
            RepeatedAuthorIntended(r1, thread, "https://x.com/a/status/1") &&
            RepeatedAuthor !in Fired(r1, thread, "https://x.com/a/status/1", _ => false)
  {
    var root := Tweet("1", "a", Some(""), Some(""), None, Some("ja"), Some(""));
    var r1 := Tweet("2", "b", Some(""), Some(""), None, Some("ja"), Some(""));
    var r2 := Tweet("3", "b", Some(""), Some(""), None, Some("ja"), Some(""));
    var thread := [root, r1, r2];
    var href := "https://x.com/a/status/1";
    assert OccursAt(href, StatusPath, 15);
    AuthorPostCountIff(thread, "b");
    assert thread[1].authorId == "b" && thread[2].authorId == "b";
    RepeatedAuthorNeverFires(r1, thread, href, _ => false);
  }

  // ---------------------------------------------------------------- the corrected scorer

  /** The rules the corrected scorer fires: the badge and repeated-author tests replaced by the intended ones. */
  function IntendedFired(tweet: Tweet, tweets: seq<Tweet>, href: string, isEmoji: char -> bool): set<Rule>
    requires tweet.content.Some? && tweet.description.Some?
  {
    (Fired(tweet, tweets, href, isEmoji) - {PaidBadge, RepeatedAuthor})
    + (if PaidBadgeIntended(tweet) then {PaidBadge} else {})
    + (if RepeatedAuthorIntended(tweet, tweets, href) then {RepeatedAuthor} else {})
  }

  /** `calcSpamScore` with both corrections: the same errors, the corrected rules. */
  function IntendedSpamScore(tweet: Tweet, tweets: seq<Tweet>, href: string, isEmoji: char -> bool): Result<SpamInfo, Error> {
    match SpamScore(tweet, tweets, href, isEmoji)
    case Err(e) => Err(e)
    case Ok(_) => Ok(Verdict(IntendedFired(tweet, tweets, href, isEmoji)))
  }

  /**
   * For a post read by `Tweet.from` and a thread list unique by `id`, the
   * corrected scorer fails exactly when the scorer as written does, and
   * otherwise adds 20 for a paid badge and 30 for a repeated author to what
   * the scorer as written returns.
   */
  lemma CorrectionAddsMissedWeights(u: Badges.UserFlags, tweet: Tweet, tweets: seq<Tweet>, href: string, isEmoji: char -> bool)
    requires Badges.VerifyType(u) == Ok(tweet.verifyType)
    requires UniqueIds(tweets)
    ensures IntendedSpamScore(tweet, tweets, href, isEmoji).Err? <==> SpamScore(tweet, tweets, href, isEmoji).Err?
    ensures SpamScore(tweet, tweets, href, isEmoji).Ok? ==>
      IntendedSpamScore(tweet, tweets, href, isEmoji).value.score
      == SpamScore(tweet, tweets, href, isEmoji).value.score
         + (if PaidBadgeIntended(tweet) then Weight(PaidBadge) else 0)
         + (if RepeatedAuthorIntended(tweet, tweets, href) then Weight(RepeatedAuthor) else 0)
  {
    if SpamScore(tweet, tweets, href, isEmoji).Ok? {
      var fired := Fired(tweet, tweets, href, isEmoji);
      BadgeRuleNeverFires(u, tweet, tweets, href, isEmoji);
      RepeatedAuthorNeverFires(tweet, tweets, href, isEmoji);
      assert fired - {PaidBadge, RepeatedAuthor} == fired;
      var withBadge := fired + (if PaidBadgeIntended(tweet) then {PaidBadge} else {});
      if PaidBadgeIntended(tweet) {
        RulesIndependent(fired, PaidBadge);
      } else {
        assert withBadge == fired;
      }
      assert RepeatedAuthor !in withBadge;
      if RepeatedAuthorIntended(tweet, tweets, href) {
        RulesIndependent(withBadge, RepeatedAuthor);
      } else {
        assert withBadge + {} == withBadge;
      }
      assert IntendedFired(tweet, tweets, href, isEmoji)
          == withBadge + (if RepeatedAuthorIntended(tweet, tweets, href) then {RepeatedAuthor} else {});
    }
  }
}
