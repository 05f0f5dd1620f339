/**
 * The seven scoring rules both versions of `calcSpamScore` apply, in the
 * order they are evaluated, with the weight each adds to `spamScore` and the
 * `<p>…</p>` line each appends to `spamReason`. Which rules fire is decided by
 * the two scorers; what a set of fired rules adds up to is decided here.
 */
module Rules {
  import opened Js
  import Ratios
  import SpamWords

  /** `{score, reason}`, the `SpamInfo` the scorers return. */
  datatype SpamInfo = SpamInfo(score: int, reason: string)

  datatype Rule = SpamPhrase | EmojiHeavy | LangMismatch | ArabicText | PaidBadge | RootLang | RepeatedAuthor

  /** The order in which the rules are evaluated. */
  const Order: seq<Rule> := [SpamPhrase, EmojiHeavy, LangMismatch, ArabicText, PaidBadge, RootLang, RepeatedAuthor]

  function Weight(r: Rule): nat {
    match r
    case SpamPhrase => 50
    case EmojiHeavy => 10
    case LangMismatch => 20
    case ArabicText => 20
    case PaidBadge => 20
    case RootLang => 30
    case RepeatedAuthor => 30
  }

  function Reason(r: Rule): string {
    match r
    case SpamPhrase => "<p>スパムによくある文言が含まれています</p>"
    case EmojiHeavy => "<p>絵文字の割合が0.5以上</p>"
    case LangMismatch => "<p>ツイート言語とプロフィール言語が異なる</p>"
    case ArabicText => "<p>アラビア語が含まれている</p>"
    case PaidBadge => "<p>blue verified</p>"
    case RootLang => "<p>元ツイとツイート言語が異なる</p>"
    case RepeatedAuthor => "<p>リプに同じ人が2個以上いる</p>"
  }

  /** The rules of `rs` that are in `fired`, in the order of `rs`. */
  function Select(rs: seq<Rule>, fired: set<Rule>): (s: seq<Rule>)
    ensures |s| <= |rs|
    ensures forall r :: r in s <==> r in rs && r in fired
  {
    if rs == [] then []
    else Select(rs[..|rs| - 1], fired) + if rs[|rs| - 1] in fired then [rs[|rs| - 1]] else []
  }

  /** What firing rule `r` does to the two accumulators. */
  function Add(info: SpamInfo, r: Rule): SpamInfo {
    SpamInfo(info.score + Weight(r), info.reason + Reason(r))
  }

  /** The accumulators once the first `k` rules have been evaluated, from `0` and `''`. */
  function Partial(fired: set<Rule>, k: nat): SpamInfo
    requires k <= |Order|
  {
    if k == 0 then SpamInfo(0, "")
    else if Order[k - 1] in fired then Add(Partial(fired, k - 1), Order[k - 1])
    else Partial(fired, k - 1)
  }

  /** The result of a scorer whose fired rules are `fired`. */
  function Verdict(fired: set<Rule>): SpamInfo {
    Partial(fired, |Order|)
  }

  // ---------------------------------------------------------------- the shared steps

  /**
   * The phrase rule and the emoji rule, the first two steps of either scorer;
   * `fired` says which rules hold.
   */
  method PhraseAndEmojiRules(text: string, emojiRatio: Ratios.Ratio, ghost fired: set<Rule>)
    returns (spamScore: int, spamReason: string)
    requires SpamPhrase in fired <==> SpamWords.AnyIncluded(text, SpamWords.SpamWords)
    requires EmojiHeavy in fired <==> Ratios.AtLeastHalf(emojiRatio)
    ensures SpamInfo(spamScore, spamReason) == Partial(fired, 2)
  {
    spamScore := 0;
    spamReason := "";
    var isSpam := SpamWords.CheckSpamWords(text);
    if isSpam {
      spamReason := spamReason + Reason(SpamPhrase);
      spamScore := spamScore + Weight(SpamPhrase);
    }
    assert SpamInfo(spamScore, spamReason) == Partial(fired, 1);
    if Ratios.AtLeastHalf(emojiRatio) {
      spamReason := spamReason + Reason(EmojiHeavy);
      spamScore := spamScore + Weight(EmojiHeavy);
    }
  }

  /**
   * The Arabic rule and the badge rule, steps four and five; the scorers
   * differ only in what `paidBadge` tests.
   */
  method ArabicAndBadgeRules(arabicRatio: Ratios.Ratio, paidBadge: bool, score0: int, reason0: string,
                             ghost fired: set<Rule>)
    returns (spamScore: int, spamReason: string)
    requires ArabicText in fired <==> Ratios.Positive(arabicRatio)
    requires PaidBadge in fired <==> paidBadge
    requires SpamInfo(score0, reason0) == Partial(fired, 3)
    ensures SpamInfo(spamScore, spamReason) == Partial(fired, 5)
  {
    spamScore, spamReason := score0, reason0;
    if Ratios.Positive(arabicRatio) {
      spamReason := spamReason + Reason(ArabicText);
      spamScore := spamScore + Weight(ArabicText);
    }
    assert SpamInfo(spamScore, spamReason) == Partial(fired, 4);
    if paidBadge {
      spamReason := spamReason + Reason(PaidBadge);
      spamScore := spamScore + Weight(PaidBadge);
    }
  }

  // ---------------------------------------------------------------- properties

  /** The sum of the weights of the first `k` rules. */
  function MaxPartial(k: nat): nat
    requires k <= |Order|
  {
    if k == 0 then 0 else MaxPartial(k - 1) + Weight(Order[k - 1])
  }

  lemma PartialFacts(fired: set<Rule>, k: nat)
    requires k <= |Order|
    ensures 0 <= Partial(fired, k).score <= MaxPartial(k)
    ensures Partial(fired, k).score % 10 == 0
    ensures Partial(fired, k).score == 0 <==> Partial(fired, k).reason == ""
    ensures Partial(fired, k).score == 0 <==> forall i | 0 <= i < k :: Order[i] !in fired
  {
    PartialBounds(fired, k);
    PartialZero(fired, k);
  }

  lemma {:induction false} PartialBounds(fired: set<Rule>, k: nat)
    requires k <= |Order|
    ensures 0 <= Partial(fired, k).score <= MaxPartial(k)
    ensures Partial(fired, k).score % 10 == 0
  {
    if k > 0 {
      PartialBounds(fired, k - 1);
    }
  }

  lemma {:induction false} PartialZero(fired: set<Rule>, k: nat)
    requires k <= |Order|
    ensures Partial(fired, k).score == 0 <==> Partial(fired, k).reason == ""
    ensures Partial(fired, k).score == 0 <==> forall i | 0 <= i < k :: Order[i] !in fired
  {
    if k > 0 {
      PartialZero(fired, k - 1);
      PartialBounds(fired, k - 1);
    }
  }

  /** `0 <= score <= 180`, and the score is a multiple of 10. */
  lemma ScoreBounds(fired: set<Rule>)
    ensures 0 <= Verdict(fired).score <= 180
    ensures Verdict(fired).score % 10 == 0
  {
    PartialFacts(fired, |Order|);
    assert MaxPartial(1) == 50;
    assert MaxPartial(2) == 60;
    assert MaxPartial(3) == 80;
    assert MaxPartial(4) == 100;
    assert MaxPartial(5) == 120;
    assert MaxPartial(6) == 150;
  }

  /** The score is `0` exactly when the reason is empty, exactly when no rule fired. */
  lemma ScoreZeroIff(fired: set<Rule>)
    ensures Verdict(fired).score == 0 <==> Verdict(fired).reason == ""
    ensures Verdict(fired).score == 0 <==> fired == {}
  {
    PartialFacts(fired, |Order|);
    if fired != {} {
      var r :| r in fired;
      assert r == Order[RankOf(r)];
    }
  }

  /** The position of `r` in `Order`. */
  function RankOf(r: Rule): (i: nat)
    ensures i < |Order| && Order[i] == r
  {
    match r
    case SpamPhrase => 0
    case EmojiHeavy => 1
    case LangMismatch => 2
    case ArabicText => 3
    case PaidBadge => 4
    case RootLang => 5
    case RepeatedAuthor => 6
  }

  lemma {:induction false} PartialAddsWeight(fired: set<Rule>, r: Rule, k: nat)
    requires k <= |Order| && r !in fired
    ensures Partial(fired + {r}, k).score == Partial(fired, k).score + if RankOf(r) < k then Weight(r) else 0
  {
    if k > 0 {
      PartialAddsWeight(fired, r, k - 1);
      var last := Order[k - 1];
      PartialStep(fired, k);
      PartialStep(fired + {r}, k);
      if last == r {
        OrderDistinct(RankOf(r), k - 1);
      } else {
        assert RankOf(r) != k - 1;
      }
    }
  }

  /** Evaluating rule `k` adds its weight when it fired and nothing otherwise. */
  lemma PartialStep(fired: set<Rule>, k: nat)
    requires 0 < k <= |Order|
    ensures Partial(fired, k).score == Partial(fired, k - 1).score + if Order[k - 1] in fired then Weight(Order[k - 1]) else 0
  {
  }

  lemma OrderDistinct(i: nat, j: nat)
    requires i < |Order| && j < |Order| && Order[i] == Order[j]
    ensures i == j
  {
  }

  /** The rules do not interact: firing one more rule adds exactly its weight. */
  lemma RulesIndependent(fired: set<Rule>, r: Rule)
    requires r !in fired
    ensures Verdict(fired + {r}).score == Verdict(fired).score + Weight(r)
  {
    PartialAddsWeight(fired, r, |Order|);
  }

  lemma {:induction false} PartialListsReason(fired: set<Rule>, r: Rule, k: nat)
    requires k <= |Order| && r in fired && RankOf(r) < k
    ensures Includes(Partial(fired, k).reason, Reason(r))
  {
    var before := Partial(fired, k - 1).reason;
    var last := Order[k - 1];
    if RankOf(r) < k - 1 {
      PartialListsReason(fired, r, k - 1);
      if last in fired {
        IncludesExtended(before, Reason(r), Reason(last));
      }
    } else {
      assert last == r;
      IncludesSuffix(before, Reason(r));
    }
  }

  lemma IncludesSuffix(s: string, w: string)
    ensures Includes(s + w, w)
  {
    assert OccursAt(s + w, w, |s|);
  }

  lemma IncludesExtended(s: string, w: string, t: string)
    requires Includes(s, w)
    ensures Includes(s + t, w)
  {
    IncludesWidened(s, w, "", t);
    assert "" + s + t == s + t;
  }

  /** Every rule that fired has its line in the reason. */
  lemma ReasonListsFired(fired: set<Rule>, r: Rule)
    requires r in fired
    ensures Includes(Verdict(fired).reason, Reason(r))
  {
    PartialListsReason(fired, r, |Order|);
  }

  /** The reason is the fired rules' lines, concatenated in rule order. */
  lemma ReasonInRuleOrder(fired: set<Rule>)
    ensures Verdict(fired).reason == Lines(Select(Order, fired))
  {
    PartialReason(fired, |Order|);
    assert Order[..|Order|] == Order;
  }

  /** The lines of `rs`, concatenated. */
  function Lines(rs: seq<Rule>): string {
    if rs == [] then "" else Reason(rs[0]) + Lines(rs[1..])
  }

  lemma {:induction false} LinesAppend(a: seq<Rule>, b: seq<Rule>)
    ensures Lines(a + b) == Lines(a) + Lines(b)
  {
    if a == [] {
      assert a + b == b;
    } else {
      assert (a + b)[0] == a[0];
      assert (a + b)[1..] == a[1..] + b;
      LinesAppend(a[1..], b);
    }
  }

  lemma {:induction false} PartialReason(fired: set<Rule>, k: nat)
    requires k <= |Order|
    ensures Partial(fired, k).reason == Lines(Select(Order[..k], fired))
  {
    if k > 0 {
      PartialReason(fired, k - 1);
      var last := Order[k - 1];
      assert Order[..k][..k - 1] == Order[..k - 1];
      var s := Select(Order[..k - 1], fired);
      if last in fired {
        assert Select(Order[..k], fired) == s + [last];
        LinesAppend(s, [last]);
        assert Lines([last]) == Reason(last);
      } else {
        assert Select(Order[..k], fired) == s;
      }
    }
  }

  /** The phrase rule alone reaches the highlight threshold of 50. */
  lemma PhraseRuleHighlights(fired: set<Rule>)
    requires SpamPhrase in fired
    ensures Verdict(fired).score >= 50
  {
    RulesIndependent(fired - {SpamPhrase}, SpamPhrase);
    ScoreBounds(fired - {SpamPhrase});
    assert fired - {SpamPhrase} + {SpamPhrase} == fired;
  }

  /** A post is highlighted on one rule alone only when that rule is the phrase rule. */
  lemma SingleRuleHighlights(r: Rule)
    ensures Verdict({r}).score >= 50 <==> r == SpamPhrase
  {
    RulesIndependent({}, r);
    ScoreZeroIff({});
    assert {} + {r} == {r};
  }
}
