/**
 * `checkSpamWords` (src/checker/word.js; `checkSpamWord` in script/script.js):
 * does the text contain one of the stock spam phrases? The loop only ever
 * sets its flag, so the answer is "some phrase occurs".
 */
module SpamWords {
  import opened Js

  /** `spamWords`. */
  const SpamWords: seq<string> := ["お前のプロフ抜けるわ", "よかったらプロフ見て"]

  /** The flag after the loop has seen the phrases `ws`, in order. */
  function AnyIncluded(text: string, ws: seq<string>): bool {
    if ws == [] then false
    else AnyIncluded(text, ws[..|ws| - 1]) || Includes(text, ws[|ws| - 1])
  }

  /** `checkSpamWords(text)`. */
  method CheckSpamWords(text: string) returns (isSpam: bool)
    ensures isSpam == AnyIncluded(text, SpamWords)
  {
    isSpam := false;
    for i := 0 to |SpamWords|
      invariant isSpam == AnyIncluded(text, SpamWords[..i])
    {
      assert SpamWords[..i + 1][..i] == SpamWords[..i];
      if Includes(text, SpamWords[i]) {
        isSpam := true;
      }
    }
    assert SpamWords[..|SpamWords|] == SpamWords;
  }

  // ---------------------------------------------------------------- properties

  /** The flag ends up set exactly when some phrase occurs. */
  lemma {:induction false} AnyIncludedIff(text: string, ws: seq<string>)
    ensures AnyIncluded(text, ws) <==> exists k :: 0 <= k < |ws| && Includes(text, ws[k])
  {
    if ws != [] {
      var init := ws[..|ws| - 1];
      AnyIncludedIff(text, init);
      if exists k :: 0 <= k < |ws| && Includes(text, ws[k]) {
        var k :| 0 <= k < |ws| && Includes(text, ws[k]);
        if k < |init| {
          assert init[k] == ws[k];
        }
      }
      if exists k :: 0 <= k < |init| && Includes(text, init[k]) {
        var k :| 0 <= k < |init| && Includes(text, init[k]);
        assert ws[k] == init[k];
      }
    }
  }

  /** Spam exactly when one of the two phrases is a substring. */
  lemma SpamIff(text: string)
    ensures AnyIncluded(text, SpamWords) <==>
      Includes(text, "お前のプロフ抜けるわ") || Includes(text, "よかったらプロフ見て")
  {
    AnyIncludedIff(text, SpamWords);
  }

  /** A phrase is never a substring of a shorter text. */
  lemma NotIncludedInShorter(text: string, w: string)
    requires |text| < |w|
    ensures !Includes(text, w)
  {
  }

  /** Empty text is not spam. */
  lemma EmptyNotSpam()
    ensures !AnyIncluded("", SpamWords)
  {
    SpamIff("");
    NotIncludedInShorter("", SpamWords[0]);
    NotIncludedInShorter("", SpamWords[1]);
  }

  /** Adding text on either side of spam keeps it spam. */
  lemma Monotone(text: string, before: string, after: string)
    requires AnyIncluded(text, SpamWords)
    ensures AnyIncluded(before + text + after, SpamWords)
  {
    AnyIncludedIff(text, SpamWords);
    AnyIncludedIff(before + text + after, SpamWords);
    var k :| 0 <= k < |SpamWords| && Includes(text, SpamWords[k]);
    IncludesWidened(text, SpamWords[k], before, after);
  }

  /** The order of the phrase list does not matter, nor do repeated phrases. */
  lemma OrderIrrelevant(text: string, ws1: seq<string>, ws2: seq<string>)
    requires forall w :: w in ws1 <==> w in ws2
    ensures AnyIncluded(text, ws1) == AnyIncluded(text, ws2)
  {
    AnyIncludedIff(text, ws1);
    AnyIncludedIff(text, ws2);
    if AnyIncluded(text, ws1) {
      var k :| 0 <= k < |ws1| && Includes(text, ws1[k]);
      assert ws1[k] in ws2;
    }
    if AnyIncluded(text, ws2) {
      var k :| 0 <= k < |ws2| && Includes(text, ws2[k]);
      assert ws2[k] in ws1;
    }
  }
}
