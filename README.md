# block-twitter-spam, modelled in Dafny

block-twitter-spam is a browser extension. It gives every post of a Twitter/X
timeline a spam score and turns a post red when the score reaches 50. The
scoring engine exists twice:

- **The current tree** (`src/`):
  - `detectLang` is a guesser that picks the most likely script from a table of
    code-point ranges.
  - Four ratio helpers count Japanese, Arabic and emoji characters and divide
    by `text.length`.
  - `haveCommonValues` compares two language guesses.
  - `checkSpamWords` tests for a fixed list of phrases.
  - `calcSpamScore` applies seven rules with weights 50/10/20/20/20/30/30 and
    appends one `<p>…</p>` reason line per rule that fires.
  - `main` keeps a list of the posts seen on the current page and is meant to
    score each one once. As written, its lookup of a post's article never
    succeeds (see "## Findings"), so a call of `main` scores the first pending
    post, then throws before marking it.
  - Two small value classes: `Range` and `Enum`. `Enum` backs the `Badge`
    constant. `Tweet.from` maps a user's verification flags to a badge.
- **The older userscript** (`script/`): the same engine, with its own
  `detect_lang` (a scan by UTF-16 code unit with lazily created keys) and its
  own thread list `tweetDatas`.

The model follows the code file by file:

- **Guessers**:
  - `Scripts` holds the first-match range table that both guessers share.
  - `Shares` holds the share entries, an in-place sort on an `array` and the
    choice of primary and secondary.
  - `Language` models `detectLang`; `ScriptLanguage` models `detect_lang`.
  - `Detectors` compares the two guessers.
- **Ratio helpers and lexicon**:
  - `Ratios` holds the ratio helpers, as `(count, length)` pairs.
  - `CommonValues` models `haveCommonValues`; `SpamWords` models
    `checkSpamWords`.
- **Scorers**:
  - `Rules` holds the rule order, weights and reasons, and the two
    accumulators.
  - `Checker` and `ScriptChecker` model the two `calcSpamScore`. Each is a
    method with the accumulators and the counting loop, proved equal to a
    specification function. That function says which rules fire and what they
    add up to.
- **Thread lists**: `Timeline` and `ScriptTimeline` are classes over the thread
  list and the page address, as `main` mutates them.
- **Value types**:
  - `Ranges` models `Range`; `Enums` models `Enum`.
  - `Badges` models `Badge` and the badge mapping of `Tweet.from`.
  - `Js` holds the JavaScript semantics used throughout: truthiness, UTF-16
    length, `includes`, and `toUpperCase` for every character that can
    upper-case onto `A`–`Z`.

Inputs from the environment are parameters:

- `href` is `window.location.href`.
- `isEmoji` is the `\p{Emoji}` property test.
- The posts read from the page are a sequence of records.
- `tweets` is the thread list. The current scorer reads it as a global that
  its module does not bind (see "## Left out").
- `located` is the page's answer to the article lookup of the processing
  pass.

A `TypeError` that the code throws is an `Err` result.

## Model

| member | source | states |
|---|---|---|
| Js.Utf16LengthBounds | src/utils/string.js:16 | `text.length` counts at least one and at most two UTF-16 units per code point |
| Js.Utf16LengthAstral | src/utils/string.js:67 | a text made only of astral code points has a length of twice its code-point count |
| Js.Utf16Append | script/detect_lang.js:37-38 | the code units of a concatenation are the code units of the parts, in order |
| Js.DecodeUtf16 | src/utils/string.js:10 | decoding the UTF-16 units gives back exactly the code points that `for…of` visits |
| Js.IncludesWidened | src/checker/word.js:16 | a substring of `s` stays a substring of `before + s + after` |
| Js.ToUpperCaseIdempotent | src/utils/enum.js:49 | upper-casing twice is upper-casing once |
| Js.ToUpperCaseFixesUpper | src/utils/enum.js:49 | a string of `A`–`Z` is its own upper-case form |
| Js.ToUpperCaseAppend | src/utils/enum.js:49 | upper-casing works character by character: the form of a concatenation is the concatenation of the forms |
| Js.UpperAsciiIff | src/utils/enum.js:49 | a key's upper-case form is made of `A`–`Z` only exactly when every character is an ASCII letter, sharp s, dotless i, long s or a Latin ligature U+FB00–U+FB06 |
| Ranges.NewRange | src/utils/range.js:17-28 | construction succeeds exactly when both arguments are non-zero numbers, and the fields are then the arguments; otherwise the `start` error comes first, then the `end` error |
| Ranges.ZeroStartRejected | src/utils/range.js:18-20 | `new Range(0, end)` throws the `start` error whatever `end` is |
| Ranges.ContainedIntegers | src/utils/range.js:36-38 | a range built on whole-number bounds contains exactly the integers from `start` to `end`, `end - start + 1` of them (none when `start > end`), as the usage example `new Range(1, 5)` ↦ 1, 2, 3, 4, 5 at line 10 says |
| Ranges.InvertedRangeIsEmpty | src/utils/range.js:17-38 | a range with `start > end` is accepted and contains no value |
| Enums.NewEnum | src/utils/enum.js:24-36 | the validating loop returns the error of the first rejected argument, or the enum whose values are the arguments |
| Enums.FirstErrorAt | src/utils/enum.js:25-30 | the error thrown is the one for the first bad argument: the type error for a non-string, the case error for a string that is not `^[A-Z]+$` |
| Enums.ConstructSucceedsIff | src/utils/enum.js:25-31 | construction succeeds exactly when every argument is a string matching `^[A-Z]+$` |
| Enums.ConstructFields | src/utils/enum.js:32-35 | on success `values` is the argument list in order, and `this[v] == v` exactly for its elements |
| Enums.ConstructWellFormed | src/utils/enum.js:28-32 | every member of a constructed enum is an upper-case name that maps to itself |
| Enums.OfFindsUpperCase | src/utils/enum.js:45-54 | `of(key)` succeeds exactly when the key is non-empty and its upper-case form is an element, and then returns that form |
| Enums.OfRejectsFalsy | src/utils/enum.js:46-48 | every falsy key (`''`, `null`, `undefined`, `0`, `NaN`, `false`) throws the key error |
| Enums.OfRejectsNonMember | src/utils/enum.js:49-52 | a key whose upper-case form is not an element throws, quoting the key |
| Enums.OfIdempotent | src/utils/enum.js:49-53 | looking up what `of` returned returns it again |
| Badges.BadgeConstructs | src/twitter/badge.js:11-16 | `new Enum('ORIGINAL','BLUE','BUSINESS','GOVERNMENT')` succeeds, with exactly those values in that order |
| Badges.BadgeWellFormed | src/twitter/badge.js:11-16 | the badge enum is well formed |
| Badges.BadgeOfBlue | src/twitter/badge.js:11-16 | `Badge.of('Blue')` is `'BLUE'` |
| Badges.BadgeOfCaseVariants | src/twitter/badge.js:11-16 | `Badge.of(k)` succeeds exactly when the upper-case form of `k` is one of the four names, and returns that name |
| Badges.BadgeOfFoldedKeys | src/twitter/badge.js:11-16 | `Badge.of` accepts `'busineß'` and `'buſiness'` as `'BUSINESS'` and `'orıgınal'` as `'ORIGINAL'` |
| Badges.VerifyTypeNull | src/twitter/tweet.js:113-118 | `verifyStatus` is `null` exactly when none of `verified`, `verified_type`, `is_blue_verified` is truthy |
| Badges.VerifyTypePrefersVerifiedType | src/twitter/tweet.js:115 | a truthy string `verified_type` wins: the type is its upper-case form when that is a badge, otherwise `Badge.of` throws |
| Badges.VerifyTypeBlueOnly | src/twitter/tweet.js:115 | with `is_blue_verified` alone the type is `'BLUE'` |
| Badges.VerifyTypeLegacyVerifiedThrows | src/twitter/tweet.js:113-115 | with only `verified` truthy, `Badge.of(null)` throws and so does `Tweet.from` |
| Badges.VerifyTypeIsBadgeName | src/twitter/tweet.js:115 | a stored type is always one of the four badge names, never `'Blue'` |
| Scripts.NameInjective | src/utils/language.js:11-28 | the fourteen label names are distinct |
| Scripts.RankIsPosition | src/utils/language.js:38-40 | each label's rank is its position in declaration order, `unknown` last |
| Scripts.ClassifyIsFirstMatch | src/utils/language.js:46-54 | a code point is counted for the first label in declaration order whose ranges contain it, and for `unknown` when none does |
| Scripts.CountsPartition | src/utils/language.js:43-55 | the counts of the fourteen labels add up to the number of scanned characters |
| Scripts.CountPermutation | src/utils/language.js:43-55 | the counts depend only on the multiset of scanned characters |
| Scripts.ShadowedNeverCounted | src/utils/language.js:46-54 | a label whose ranges lie inside an earlier label's ranges is never counted |
| Shares.SortByShare | src/utils/language.js:65-67 | the in-place sort leaves the entries in descending count, ties in declaration order, as a permutation of the input |
| Shares.SortedHeadIsBest | src/utils/language.js:65-69 | after the sort the first entry is the most frequent label, the earliest on a tie |
| Shares.SortedSecondIsRunnerUp | src/utils/language.js:69 | after the sort the second entry is the most frequent of the remaining labels |
| Shares.PickEqualCounts | src/utils/language.js:65-69 | when every count is equal (as with the NaN shares of empty text) the order is unchanged |
| Shares.PickSingle | src/utils/language.js:65-69 | when one label alone is counted it is primary, and the first other label is secondary |
| Language.DetectLang | src/utils/language.js:36-70 | `detectLang` returns the guess the counting specification picks |
| Language.Tally | src/utils/language.js:38-55 | the counting loop gives every label, `unknown` included, its first-match count |
| Language.CountChar | src/utils/language.js:43-54 | one character adds one to the first label whose pattern matches it, or to `unknown` when none does |
| Language.StatsEntries | src/utils/language.js:59-62 | `langRatios` gets one entry per label, in declaration order, holding that label's count |
| Language.StatsRankOrdered | src/utils/language.js:59-62 | `langRatios` holds one entry per label, in declaration order |
| Language.CountsCoverText | src/utils/language.js:43-55 | every code point of the text is counted in exactly one bucket |
| Language.ShadowedLabels | src/utils/language.js:14-26 | `zh`, `fa` and `es` always count 0, because `ja`, `ar` and `de` come first and cover their ranges |
| Language.PrimaryIsMostFrequent | src/utils/language.js:65-69 | `primary` has the maximum count; ties go to the label declared first |
| Language.SecondaryIsRunnerUp | src/utils/language.js:59-69 | `secondary` is never null, differs from `primary`, and has the maximum count among the other labels, ties to the first declared |
| Language.SingleScript | src/utils/language.js:65-69 | single-script text has that script as `primary` and the first other label (`ja`, or `en` for Japanese) as `secondary` |
| Language.AsciiLettersAreEnglish | src/utils/language.js:16 | ASCII letters are counted as `en` |
| Language.HelloIsEnglish | src/utils/language.js:65-69 | `detectLang("Hello")` is `{en, ja}` |
| Language.EmptyText | src/utils/language.js:61-69 | empty text gives `{ja, en}` |
| Language.OrderIrrelevant | src/utils/language.js:43-55 | two texts with the same characters in any order get the same guess |
| ScriptLanguage.DetectLangScript | script/detect_lang.js:32-99 | `detect_lang` returns the guess the code-unit specification picks |
| ScriptLanguage.ScanUnits | script/detect_lang.js:37-76 | the scan creates exactly the keys the specification lists, in insertion order, each holding its first-match count |
| ScriptLanguage.Percentages | script/detect_lang.js:79-83 | `langPercentages` gets one entry per key, in key order, holding that key's count |
| ScriptLanguage.CountUnit | script/detect_lang.js:38-75 | one code unit adds one to its first-matching label, creating the keys of the labels visited before it |
| ScriptLanguage.VisitRow | script/detect_lang.js:41-69 | visiting one table row creates that row's key when it is missing |
| ScriptLanguage.CountUnmatched | script/detect_lang.js:72-75 | a unit matching no row adds one to `unknown`, creating the key at the end |
| ScriptLanguage.SortAndPick | script/detect_lang.js:79-98 | a single entry gives a null `secondary`; otherwise the sorted first and second entries are returned |
| ScriptLanguage.KeysShape | script/detect_lang.js:41-44 | the keys are a prefix of the table order, followed by `unknown` only when something went unmatched; there are none only for empty text |
| ScriptLanguage.UnknownKeyIff | script/detect_lang.js:72-73 | the `unknown` key exists exactly when some code unit matched no row |
| ScriptLanguage.CountsCoverUnits | script/detect_lang.js:51-75 | every code unit is counted once, so the counts sum to `text.length` |
| ScriptLanguage.EmojiNeverCounted | script/detect_lang.js:29 | the `emoji` row (U+1F300–U+1F5FF) is never counted, because `charCodeAt` is at most 0xFFFF |
| ScriptLanguage.ShadowedLabels | script/detect_lang.js:6-28 | `zh`, `fa` and `es` are never counted |
| ScriptLanguage.EmptyText | script/detect_lang.js:85-98 | empty text gives `{unknown, null}` |
| ScriptLanguage.AllJapaneseIff | script/detect_lang.js:41-44 | only the `ja` key is created exactly when every code unit is in a Japanese range |
| ScriptLanguage.SecondaryAbsentIff | script/detect_lang.js:96 | for non-empty text `secondary` is null exactly when every code unit is in a Japanese range |
| ScriptLanguage.PrimaryIsMostFrequent | script/detect_lang.js:91-98 | `primary` has the maximum count; ties go to the key created first |
| ScriptLanguage.SingleScript | script/detect_lang.js:91-98 | single-script text has that script as `primary`, and `ja` (or null for Japanese) as `secondary` |
| ScriptLanguage.SurrogateUnmatched | script/detect_lang.js:38-75 | a surrogate code unit matches no row |
| ScriptLanguage.AstralIsUnknown | script/detect_lang.js:37-98 | one astral character is two unmatched units: `{unknown, ja}` |
| ScriptLanguage.AsciiLettersAreEnglish | script/detect_lang.js:8-11 | ASCII letters are counted as `en` |
| ScriptLanguage.HelloIsEnglish | script/detect_lang.js:91-98 | `detect_lang("Hello")` is `{en, ja}` |
| Detectors.EmojiIsEmoji | src/utils/language.js:27 | the current guesser counts U+1F000–U+1F9FF as `emoji` |
| Detectors.EmojiDisagreement | src/utils/language.js:27 | on one emoji the current guesser says `{emoji, ja}`, the userscript's says `{unknown, ja}` |
| Detectors.HelloAgreement | script/detect_lang.js:32-99 | both guessers give `{en, ja}` for "Hello" |
| Ratios.Quotient | src/utils/string.js:16 | for non-empty text the quotient times the length is the count |
| Ratios.ComparisonsMeanQuotient | src/checker/checker.js:49 | the integer tests are `ratio >= 0.5` and `ratio > 0` on the quotient |
| Ratios.CountIf | src/utils/string.js:45-54 | a count never exceeds the number of code points |
| Ratios.CountMatching | src/utils/string.js:10-14 | the counting loop counts the characters that pass the test |
| Ratios.CalcJapaneseRatio | src/utils/string.js:7-17 | kana count over UTF-16 length |
| Ratios.CalcArabicRatio | src/utils/string.js:26-36 | U+0600–U+06FF count over UTF-16 length |
| Ratios.CalcEmojiCount | src/utils/string.js:45-54 | number of code points with the emoji property |
| Ratios.CalcEmojiRatio | src/utils/string.js:63-68 | emoji count over UTF-16 length |
| Ratios.RatioAtMostOne | src/utils/string.js:10-16 | count ≤ UTF-16 length, so every ratio of non-empty text lies in [0, 1] |
| Ratios.CountIfPositiveIff | src/utils/string.js:29-33 | the count is positive exactly when some character passes |
| Ratios.ArabicPositiveIff | src/utils/string.js:29-35 | `calcArabicRatio(t) > 0` exactly when `t` has an Arabic-block character |
| Ratios.EmptyTextNeverCompares | src/utils/string.js:16 | on empty text (0/0, NaN) neither `> 0` nor `>= 0.5` holds |
| Ratios.AstralEmojiHalf | src/utils/string.js:48-67 | a text of astral emoji only has emoji ratio exactly 1/2, so the emoji rule fires |
| Ratios.KanjiNotJapanese | src/utils/string.js:11 | kanji are not counted as Japanese |
| CommonValues.ValueOfInjective | src/utils/object.js:10-11 | the dictionary values identify the labels and `null`; only `unknown` gives `'unknown'` |
| CommonValues.HaveCommonValues | src/utils/object.js:8-34 | the two loops return true exactly when a value other than `'unknown'` is in both lists |
| CommonValues.Symmetric | src/utils/object.js:20-33 | the result does not depend on the order of the arguments |
| CommonValues.UnknownNotCommon | src/utils/object.js:21-28 | `'unknown'` is never a common value: for any two value lists, adding `'unknown'` to one or both leaves the answer unchanged |
| CommonValues.NullIsCommon | src/utils/object.js:21-28 | two guesses with a `null` secondary always share a value |
| CommonValues.SwapInvariant | src/utils/object.js:10-11 | swapping primary and secondary does not change the result |
| CommonValues.LabelsInCommon | src/utils/object.js:20-33 | the result holds exactly when the guesses share a label other than `unknown` or both secondaries are null |
| SpamWords.CheckSpamWords | src/checker/word.js:7-21 | the loop returns whether some phrase is a substring |
| SpamWords.AnyIncludedIff | src/checker/word.js:15-19 | true exactly when some listed phrase occurs in the text |
| SpamWords.SpamIff | src/checker/word.js:12-20 | true exactly when the text contains 'お前のプロフ抜けるわ' or 'よかったらプロフ見て' |
| SpamWords.EmptyNotSpam | src/checker/word.js:14-20 | empty text is not spam |
| SpamWords.NotIncludedInShorter | src/checker/word.js:16 | a phrase longer than the text never occurs in it |
| SpamWords.Monotone | src/checker/word.js:16 | text containing a phrase still does after anything is added around it |
| SpamWords.OrderIrrelevant | src/checker/word.js:14-19 | the order of the phrase list does not matter |
| Rules.PhraseAndEmojiRules | src/checker/checker.js:42-53 | the first two rules leave the accumulators at what the fired rules among them add up to |
| Rules.ArabicAndBadgeRules | src/checker/checker.js:69-80 | the fourth and fifth rules extend the accumulators the same way |
| Rules.PartialFacts | src/checker/checker.js:42-103 | after any prefix of the rules the score lies between 0 and those rules' total weight, is a multiple of 10, and is 0 exactly when the reason is empty and none of them fired |
| Rules.ScoreBounds | src/checker/checker.js:42-103 | `0 <= score <= 180` and the score is a multiple of 10 |
| Rules.ScoreZeroIff | src/checker/checker.js:44-101 | score 0 exactly when the reason is empty, exactly when no rule fired |
| Rules.RulesIndependent | src/checker/checker.js:42-104 | firing one more rule adds exactly its weight |
| Rules.ReasonListsFired | src/checker/checker.js:44-101 | every fired rule's line is in the reason |
| Rules.ReasonInRuleOrder | src/checker/checker.js:44-101 | the reason is the fired rules' lines concatenated in rule order |
| Rules.PhraseRuleHighlights | src/checker/checker.js:42-46 | the phrase rule alone brings the score to 50 |
| Rules.SingleRuleHighlights | src/checker/checker.js:42-103 | a single fired rule reaches 50 exactly when it is the phrase rule |
| Checker.CalcSpamScore | src/checker/checker.js:22-107 | the scorer returns the specified result: `TypeError` for null content, description or name, or for an empty thread list on a post page; otherwise the weights and reasons of the fired rules |
| Checker.ContentFired | src/checker/checker.js:42-80 | the phrase, emoji, Arabic and badge rules fire exactly on their conditions |
| Checker.LanguageFired | src/checker/checker.js:56-66 | the language rule fires exactly when the two guesses share no value |
| Checker.LanguageRule | src/checker/checker.js:56-66 | the language step extends the accumulators by the language rule |
| Checker.ThreadRules | src/checker/checker.js:82-104 | the thread step completes the accumulators to the full verdict |
| Checker.CountSameTweet | src/checker/checker.js:95-97 | the loop counts the entries with the post's `id` and author |
| Checker.ThreadIgnoredOffStatusPage | src/checker/checker.js:85 | off a `/status/` page the thread list does not affect the result |
| Checker.RootAuthorNotCharged | src/checker/checker.js:85 | a post by the root's author scores as if there were no thread |
| Checker.EmptyThreadThrows | src/checker/checker.js:85 | with an empty thread list, scoring throws exactly on a `/status/` page |
| Checker.NullDescriptionThrows | src/checker/checker.js:33 | a null profile description throws |
| Checker.EmptyContentNoRatioRules | src/checker/checker.js:49 | empty content fires neither the emoji nor the Arabic rule |
| Checker.ScoreInRange | src/checker/checker.js:23-106 | a returned score lies in [0, 180] and is a multiple of 10 |
| Checker.SpamPhraseHighlights | src/checker/checker.js:42-46 | a post with a spam phrase scores at least 50 |
| Checker.BadgeRuleNeverFires | src/checker/checker.js:76 | for any post `Tweet.from` produced, the badge rule as written never fires |
| Checker.PaidBadgeIntendedFires | src/checker/checker.js:76 | the corrected badge test fires exactly for a Blue badge, whether it comes from `verified_type` or `is_blue_verified` |
| Checker.SameTweetCountAtMostOne | src/checker/checker.js:95-97 | over a list unique by `id` the count as written is at most 1 |
| Checker.RepeatedAuthorNeverFires | src/checker/checker.js:95-103 | over a list unique by `id` the repeated-author rule as written never fires |
| Checker.AuthorPostCountIff | src/checker/checker.js:95-97 | the corrected count is at least 2 (at least 1) exactly when the author has two (one) entries |
| Checker.RepeatedAuthorIntendedIff | src/checker/checker.js:95-103 | the corrected rule fires exactly for a reply on a post page, not by the root's author, whose author has two entries |
| Checker.RepeatedAuthorExample | src/checker/checker.js:95-103 | a root by `a` with two replies by `b`: the corrected rule fires for `b`, the rule as written does not |
| Checker.CorrectionAddsMissedWeights | src/checker/checker.js:76-103 | the corrected scorer fails exactly when the one as written does, and otherwise adds exactly 20 for a Blue badge and 30 for a repeated author |
| ScriptChecker.CalcSpamScore | script/script.js:155-338 | the scorer returns the specified result: `TypeError` for null text, description or user name, or for an empty list on a post page; otherwise the weights and reasons of the fired rules |
| ScriptChecker.ContentFired | script/script.js:268-305 | the phrase, emoji, Arabic and badge rules fire exactly on their conditions |
| ScriptChecker.LanguageFired | script/script.js:280-292 | the language rule fires exactly when the two guesses share no value |
| ScriptChecker.LanguageRule | script/script.js:280-292 | the language step extends the accumulators by the language rule |
| ScriptChecker.ThreadRules | script/script.js:307-336 | the thread step completes the accumulators to the full verdict |
| ScriptChecker.CountScreenName | script/script.js:325-329 | the loop counts the entries with the post's screen name (`==`, so `null` matches `null`) |
| ScriptChecker.ScoreInRange | script/script.js:188-337 | a returned score lies in [0, 180] and is a multiple of 10 |
| ScriptChecker.NullFieldThrows | script/script.js:195-206 | scoring throws the not-iterable error exactly when the text, description or user name is null |
| ScriptChecker.BadgeRuleIff | script/script.js:301-305 | the badge rule fires exactly when `isBlueVerified` is truthy |
| ScriptChecker.SpamPhraseHighlights | script/script.js:268-272 | a post with a spam phrase scores at least 50 |
| ScriptChecker.NoSecondariesNoMismatch | script/script.js:288 | two guesses with null secondaries never fire the language rule |
| ScriptChecker.JapaneseTextAndProfileAgree | script/script.js:280-292 | all-Japanese text and profile never fire the language rule |
| ScriptChecker.RootNotCharged | script/script.js:310-335 | the root entry scored against its own list fires neither thread rule |
| ScriptChecker.RootAuthorChargedExample | script/script.js:310-317 | a reply by the root's own author in another language is charged with the root-language rule |
| ScriptChecker.ScreenNameCountIff | script/script.js:325-329 | the count is at least 2 (at least 1) exactly when two (one) entries have the screen name |
| ScriptChecker.RepeatedAuthorIff | script/script.js:324-335 | the repeated-author rule fires exactly for a post on a post page, not by the root's author, whose author has two entries |
| Timeline.ThreadList.constructor | src/main.js:8-9 | the list starts empty, at the page address at load time |
| Timeline.ThreadList.SyncUrl | src/main.js:17-22 | a new address empties the list and is stored; the same address changes nothing |
| Timeline.ThreadList.Contains | src/main.js:28-33 | the `isExists` loop finds whether the `id` is stored |
| Timeline.ThreadList.Add | src/main.js:28-36 | the post is appended exactly when its `id` is not stored; `id`s stay unique |
| Timeline.ThreadList.Scan | src/main.js:23-40 | the page's posts are added in order, rejected articles skipped |
| Timeline.ThreadList.ProcessPending | src/main.js:43-74 | the pass scores each unprocessed entry against the list. When the article lookup finds the post, it records the outcome and marks the entry; otherwise it throws before marking. It stops at the first error |
| Timeline.ThreadList.Refresh | src/main.js:14-75 | one call of `main`: address check, scan, processing pass, with the page's answer to the article lookup as input |
| Timeline.AddedKeepsUnique | src/main.js:28-36 | adding keeps the `id`s unique |
| Timeline.AddedAppends | src/main.js:34-36 | adding only appends, and the list grows exactly when the `id` was not stored |
| Timeline.AddedIdempotent | src/main.js:29-36 | adding the same post twice is adding it once |
| Timeline.ScannedKeepsUnique | src/main.js:25-40 | reading a page keeps the `id`s unique |
| Timeline.ScannedAppends | src/main.js:35 | the list before a scan is a prefix of the list after, so the first entry stays first |
| Timeline.ScannedStoresAll | src/main.js:25-40 | after a scan every post read from the page is stored |
| Timeline.ScannedIdempotent | src/main.js:25-40 | reading the same page twice is reading it once |
| Timeline.ProcessFacts | src/main.js:43-74 | whatever the lookup answers, a pass changes only `processed` flags and never clears one. It marks everything when it ends without error and highlights exactly the outcomes scoring 50 or more. Each outcome, even in a pass that then throws, belongs to an entry that was pending and is now marked, whose article was found, and whose `calcSpamScore` result is the outcome's score and reason |
| Timeline.ProcessDoneIsNoop | src/main.js:47 | a fully processed list is left alone and nothing is scored |
| Timeline.ScoredAtMostOnce | src/main.js:47-72 | on one address, no post that a pass scored is scored by the next call of `main`, whether or not the first pass stopped at an error and whatever the page adds; after a pass without error the next pass scores nothing |
| Timeline.HighlightIffThreshold | src/main.js:59 | whatever the lookup answers, a post with an outcome is highlighted exactly when its score is at least 50 |
| Timeline.UnsetLabelMarksNothing | src/main.js:56-72 | as written the lookup asks for an article labelled `'undefined'`. On a page without one, a pass marks nothing and records no outcome, and it ends without error only when nothing was pending |
| Timeline.LocatedPassCompletes | src/main.js:43-74 | when each post's own article is found, a pass ends without error exactly when every pending post scores without a `TypeError` |
| Timeline.StoredListNeverRepeats | src/checker/checker.js:95-103 | over the stored list the repeated-author rule as written never fires |
| ScriptTimeline.DataList.constructor | script/script.js:344-345 | the list starts empty, at the page address at load time |
| ScriptTimeline.DataList.SyncUrl | script/script.js:357-362 | a new address empties the list and is stored; the same address changes nothing |
| ScriptTimeline.DataList.Contains | script/script.js:460-465 | the `isExist` loop finds whether the text is stored |
| ScriptTimeline.DataList.Add | script/script.js:459-468 | the record is appended exactly when its `quotedText` is not stored; texts stay unique |
| ScriptTimeline.DataList.Scan | script/script.js:364-470 | the page's records are added in order, articles without React properties skipped |
| ScriptTimeline.DataList.ProcessPending | script/script.js:476-507 | the pass scores each unprocessed record against the list. When the article labelled with its `ariaLabelledby` is found, it records the outcome and marks the record; otherwise it throws before marking. It stops at the first error |
| ScriptTimeline.DataList.Refresh | script/script.js:350-508 | one call of `main`: `saveProperties`, then the processing pass, with the page's answer to the article lookup as input |
| ScriptTimeline.AddedAppends | script/script.js:466-468 | adding only appends, and the list grows exactly when the text was not stored |
| ScriptTimeline.IdenticalTextStoredOnce | script/script.js:459-468 | two different posts with the same text are stored once |
| ScriptTimeline.AddedKeepsUnique | script/script.js:459-468 | adding keeps the texts unique |
| ScriptTimeline.AddedIdempotent | script/script.js:459-468 | adding the same record twice is adding it once |
| ScriptTimeline.ScannedKeepsUnique | script/script.js:364-470 | reading a page keeps the texts unique |
| ScriptTimeline.ScannedAppends | script/script.js:466-468 | the list before a scan is a prefix of the list after |
| ScriptTimeline.ScannedStoresAll | script/script.js:364-470 | after a scan every record read from the page has its text stored |
| ScriptTimeline.ScannedIdempotent | script/script.js:364-470 | reading the same page twice is reading it once |
| ScriptTimeline.ProcessFacts | script/script.js:476-507 | whatever the lookup answers, a pass changes only `processed` flags and never clears one. It marks everything when it ends without error and highlights exactly the outcomes scoring 50 or more. Each outcome, even in a pass that then throws, belongs to a record that was pending and is now marked, whose article was found, and whose `calcSpamScore` result is the outcome's score and reason |
| ScriptTimeline.ProcessDoneIsNoop | script/script.js:478 | a fully processed list is left alone and nothing is scored |
| ScriptTimeline.ScoredAtMostOnce | script/script.js:478-505 | on one address, no record that a pass scored is scored by the next call of `main`. This holds whether or not the first pass stopped at an error, for example at a stored record with a null text, which throws on every pass, and whatever the page adds. After a pass without error the next pass scores nothing |
| ScriptTimeline.HighlightIffThreshold | script/script.js:493 | whatever the lookup answers, a post with an outcome is highlighted exactly when its score is at least 50 |

The userscript's ratio helpers, `haveCommonValues` and `checkSpamWord`
(script/script.js:33-147) are copies of the current tree's
(src/utils/string.js, src/utils/object.js, src/checker/word.js). Both scorers
use the one model of each.

## Left out

- DOM and UI effects are not modelled: `MutationObserver`, the red background, the reason `<div>`, and `console.log`/`console.error`. Processing returns, for each scored post, its result and whether it is highlighted. The article lookup of the processing pass (`document.querySelector`) is the parameter `located`. A post whose article is not found throws, after scoring, before it is marked.
- Page-data extraction is not modelled. This covers `Tweet.from`, apart from the badge mapping, and the React-property reading of `saveProperties`. A post arrives as a record, and an article the code skips or rejects arrives as `None`.
- ScriptTimeline.DataList.Scan and ScriptTimeline.DataList.Refresh: a throw inside the userscript's extraction (script/script.js:366-385, which has no `try`/`catch`) would end that call of `main`. It is not modelled.
- Network code (script/twitter/api.js, the `verifiedAt` getter), script injection (content.js, src/entry/content.js) and the abstract checker (src/checker/base.js) are not part of this model.
- The `\p{Emoji}` property is the parameter `isEmoji`. The Unicode emoji data is not part of this model.
- Division is not modelled as floating point. A ratio is the pair (count, UTF-16 length), and the comparisons are `length > 0 && 2*count >= length` and `length > 0 && count > 0`. This is exact, including the NaN of empty text.
- Strings are sequences of Unicode scalar values. Lone surrogates, which a JavaScript string can hold, are not modelled.
- Regular expressions are code-point range tests.
- Js.ToUpperCase: the model maps the ASCII letters and the ten characters whose JavaScript upper-case form is made of `A`–`Z` only. Those ten are sharp s, dotless i, long s and the ligatures U+FB00–U+FB06. Every other character is left unchanged, although JavaScript upper-cases many of them (`é` becomes `É`). The upper-case form of such a character is never made of `A`–`Z` only, in JavaScript or in the model. So whether a key's upper-case form is an enum member, and which member `Enum.of` returns, are exact. Only upper-case forms that are not members differ, and the code uses those only to fail the lookup.
- Enums.NewEnum: the non-string error message interpolates the rejected value (`"${value}"`). The model leaves the value out of the message, because turning an arbitrary JavaScript value into a string is not modelled.
- The messages of the engine's own `TypeError`s (iterating `null`, reading a property of `undefined`) are stand-ins. Which input throws is exact.
- Checker.SpamScore and ScriptChecker.SpamScore decide both errors (a `null` field, a missing root entry) before they apply `Verdict`, while the code meets the missing root only after rules 1–5. These functions are pure and the rules only log, so the result is the same. The methods `CalcSpamScore` keep the code's own order.
- Checker.CalcSpamScore and Checker.SpamScore: src/checker/checker.js:85 reads `tweets`, which its module does not bind. src/main.js:8 declares `tweets` as a `const` of its own module and does not export it. So, as written, on a `/status/` page the read throws a `ReferenceError` before the thread rules run, and that call of `main` ends. Off such pages the `&&` never reaches the read. The model passes the scorer the thread list that `main` holds, which is what the thread rules evidently mean to read. The `ReferenceError` is not modelled.
- Timeline.ThreadList.Refresh, Timeline.ThreadList.ProcessPending, Timeline.ProcessFacts, Timeline.HighlightIffThreshold and Timeline.ScoredAtMostOnce hold for every answer `located` of the article lookup. As written, src/main.js:56 asks for an article labelled `'undefined'`, which is `Timeline.LookupAsWritten`. On a page without such an article, `Timeline.UnsetLabelMarksNothing` gives what these passes then do (see "## Findings").
- Timeline.ProcessFacts: as written, "marks everything when it ends without error" applies only to a pass over posts that are all marked already (see `Timeline.UnsetLabelMarksNothing`).
- Timeline.HighlightIffThreshold: as written, a post scoring 50 or more throws at src/main.js:63 before it is highlighted, so the lemma concerns the lookup that finds the post (`Timeline.LocatedPassCompletes`).
- Ranges.NewRange: JavaScript numbers are modelled as reals plus `NaN`. `Infinity` and `-Infinity`, which the constructor accepts as truthy numbers, cannot be represented, so ranges with an infinite bound are not modelled.
- Post `id`s and author ids are modelled as always-present strings.
- The commented-out historical rules of the userscript (script/script.js:209-265) are not modelled.

## Findings

| source | as written | input that shows it | evidently intended | confidence | as-written member | corrected member |
|---|---|---|---|---|---|---|
| src/checker/checker.js:76 | the badge rule tests `verifyStatus?.type === 'Blue'` | any Blue subscriber: `is_blue_verified` true and no `verified_type`. `Tweet.from` stores `Badge.of('Blue')`, which is `'BLUE'`, so the test is false | test for the `BLUE` badge | not executed | Checker.BadgeRuleNeverFires | Checker.PaidBadgeIntendedFires |
| src/checker/checker.js:95-97 | the repeated-author loop counts entries with the post's `id` and the same author | a root by `a`, then two replies by `b` (ids 1, 2, 3) on a `/status/` page. `main` stores ids only once, so the count for each reply is 1 and the +30 never applies. As written, the read of the unbound `tweets` at line 85 throws first (see "## Left out"); the loop is wrong even once that is fixed | count the author's entries, as the userscript does with the screen name | not executed | Checker.RepeatedAuthorNeverFires | Checker.RepeatedAuthorIntendedIff |
| src/main.js:56 | the article lookup is built from `tweet._ariaLabelledby`, which nothing in src/ assigns, so the selector is `article[aria-labelledby='undefined']` | any page with a pending post. The selector matches nothing, so `tweetElement` is `null` and `tweetElement.after` at line 69 throws (or `tweetElement.style` at line 63 when the score is 50 or more) before line 72 marks the post. Nothing is ever marked or highlighted, the first pending post is scored again on every call, and later posts are never scored | store the article's `aria-labelledby` when the post is read, as the userscript does (script/script.js:383,441), and look the post up by it | not executed | Timeline.UnsetLabelMarksNothing | Timeline.LocatedPassCompletes |

The two corrections together form `Checker.IntendedSpamScore`.
`Checker.CorrectionAddsMissedWeights` shows how it differs from the scorer as
written: on every list that the thread list can hold, it adds exactly the
weights the two defects lose.
