/**
 * `detectLang` of the current tree: every character (code point) is counted
 * for the first label of the table whose ranges contain it, all fourteen
 * labels get an entry, the entries are sorted by share, and the first two
 * become `primary` and `secondary`.
 */
module Language {
  import opened Wrappers
  import opened Scripts
  import opened Shares

  /** `characterRanges`, one row per label of `Labels`. */
  const SrcTable: Table := [
    [Span(0x3040, 0x30FF), Span(0xFF65, 0xFF9F), Span(0x4E00, 0x9FFF)],      // ja
    [Span(0x0041, 0x005A), Span(0x0061, 0x007A)],                            // en
    [Span(0x0600, 0x06FF)],                                                  // ar
    [Span(0x4E00, 0x9FFF)],                                                  // zh
    [Span(0xAC00, 0xD7AF)],                                                  // ko
    [Span(0x0400, 0x04FF)],                                                  // ru
    [Span(0x0590, 0x05FF)],                                                  // he
    [Span(0x0900, 0x097F)],                                                  // hi
    [Span(0x0E00, 0x0E7F)],                                                  // th
    [Span(0x0600, 0x06FF)],                                                  // fa
    [Span(0x00C0, 0x00FF), Span(0x0152, 0x0152), Span(0x0153, 0x0153), Span(0x20A0, 0x20CF)], // de
    [Span(0x00C0, 0x00FF), Span(0x20A0, 0x20CF)],                            // es
    [Span(0x1_F000, 0x1_F9FF)]                                               // emoji
  ]

  /** The code points `for (const char of text)` visits. */
  function CodePoints(text: string): (cs: seq<int>)
    ensures |cs| == |text|
  {
    seq(|text|, i requires 0 <= i < |text| => text[i] as int)
  }

  /** The entries pushed into `langRatios`, in declaration order. */
  function Stats(t: Table, cs: seq<int>): (s: seq<Share>)
    ensures |s| == 14
  {
    RankIsPosition();
    seq(14, i requires 0 <= i < 14 => Share(AllLabels[i], Count(t, cs, AllLabels[i])))
  }

  /**
   * The reference answer: `primary` is the first label of maximal count and
   * `secondary` the first label of maximal count among the others.
   */
  function Guess(text: string): LangInfo {
    Pick(Stats(SrcTable, CodePoints(text)))
  }

  lemma StatsRankOrdered(t: Table, cs: seq<int>)
    ensures RankOrdered(Stats(t, cs))
    ensures forall i :: 0 <= i < 14 ==> Stats(t, cs)[i].lang == AllLabels[i] && Rank(Stats(t, cs)[i].lang) == i
  {
    RankIsPosition();
  }

  /** `detectLang(text)`. */
  method DetectLang(text: string) returns (info: LangInfo)
    ensures info == Guess(text)
  {
    RankIsPosition();
    var cs := CodePoints(text);
    var langStats := Tally(cs);
    var langRatios := StatsEntries(SrcTable, cs, langStats);
    var a := new Share[|langRatios|](j requires 0 <= j < |langRatios| => langRatios[j]);
    assert a[..] == Stats(SrcTable, cs);
    SortByShare(a);
    StatsRankOrdered(SrcTable, cs);
    SortedHeadIsBest(a[..], Stats(SrcTable, cs));
    SortedSecondIsRunnerUp(a[..], Stats(SrcTable, cs));
    info := LangInfo(a[0].lang, Some(a[1].lang));
  }

  /** The loop over the keys of `langStats` that fills `langRatios`. */
  method StatsEntries(t: Table, ghost cs: seq<int>, langStats: map<Lang, nat>) returns (langRatios: seq<Share>)
    requires forall l :: l in langStats && langStats[l] == Count(t, cs, l)
    ensures langRatios == Stats(t, cs)
  {
    RankIsPosition();
    langRatios := [];
    for n := 0 to |AllLabels|
      invariant |langRatios| == n
      invariant forall i :: 0 <= i < n ==> langRatios[i] == Share(AllLabels[i], Count(t, cs, AllLabels[i]))
    {
      langRatios := langRatios + [Share(AllLabels[n], langStats[AllLabels[n]])];
    }
  }

  /** The counting loop of `detectLang`: `langStats` starts at zero for every label and `unknown`. */
  method Tally(cs: seq<int>) returns (langStats: map<Lang, nat>)
    ensures forall l :: l in langStats && langStats[l] == Count(SrcTable, cs, l)
  {
    langStats := map l | l in AllLabels :: 0;
    RankIsPosition();
    for i := 0 to |cs|
      invariant forall l :: l in langStats && langStats[l] == Count(SrcTable, cs[..i], l)
    {
      assert cs[..i + 1] == cs[..i] + [cs[i]];
      langStats := CountChar(SrcTable, langStats, cs[..i], cs[i]);
    }
    assert cs[..|cs|] == cs;
  }

  /** One pass of the outer loop: the inner loop over the patterns for the character `c`. */
  method CountChar(t: Table, langStats: map<Lang, nat>, ghost cs: seq<int>, c: int) returns (langStats': map<Lang, nat>)
    requires forall l :: l in langStats && langStats[l] == Count(t, cs, l)
    ensures forall l :: l in langStats' && langStats'[l] == Count(t, cs + [c], l)
  {
    assert (cs + [c])[..|cs|] == cs;
    langStats' := langStats;
    var isFound := false;
    var k := 0;
    while k < |Labels|
      invariant 0 <= k <= |Labels|
      invariant forall j :: 0 <= j < k ==> !InSpans(c, t[j])
      invariant !isFound
    {
      if InSpans(c, t[k]) {
        RankIsPosition();
        ClassifyIsFirstMatch(t, c, Labels[k]);
        langStats' := langStats'[Labels[k] := langStats'[Labels[k]] + 1];
        isFound := true;
        break;
      }
      k := k + 1;
    }
    if !isFound {
      ClassifyIsFirstMatch(t, c, Unknown);
      langStats' := langStats'[Unknown := langStats'[Unknown] + 1];
    }
  }

  // ---------------------------------------------------------------- properties

  /** Every character is counted for exactly one label. */
  lemma CountsCoverText(text: string)
    ensures SumCounts(SrcTable, CodePoints(text), AllLabels) == |text|
  {
    CountsPartition(SrcTable, CodePoints(text));
  }

  /** `zh`, `fa` and `es` never get a character: `ja`, `ar` and `de` already cover their ranges. */
  lemma ShadowedLabels(cs: seq<int>)
    ensures Count(SrcTable, cs, Zh) == 0
    ensures Count(SrcTable, cs, Fa) == 0
    ensures Count(SrcTable, cs, Es) == 0
  {
    ZhInsideJa();
    ShadowedNeverCounted(SrcTable, cs, Zh, Ja);
    FaInsideAr();
    ShadowedNeverCounted(SrcTable, cs, Fa, Ar);
    EsInsideDe();
    ShadowedNeverCounted(SrcTable, cs, Es, De);
  }

  lemma ZhInsideJa()
    ensures forall c :: InSpans(c, SrcTable[Rank(Zh)]) ==> InSpans(c, SrcTable[Rank(Ja)])
  {
    forall c | InSpans(c, SrcTable[Rank(Zh)]) ensures InSpans(c, SrcTable[Rank(Ja)]) {
      assert SrcTable[0][2].lo <= c <= SrcTable[0][2].hi;
    }
  }

  lemma FaInsideAr()
    ensures forall c :: InSpans(c, SrcTable[Rank(Fa)]) ==> InSpans(c, SrcTable[Rank(Ar)])
  {
    forall c | InSpans(c, SrcTable[Rank(Fa)]) ensures InSpans(c, SrcTable[Rank(Ar)]) {
      assert SrcTable[2][0].lo <= c <= SrcTable[2][0].hi;
    }
  }

  lemma EsInsideDe()
    ensures forall c :: InSpans(c, SrcTable[Rank(Es)]) ==> InSpans(c, SrcTable[Rank(De)])
  {
    forall c | InSpans(c, SrcTable[Rank(Es)]) ensures InSpans(c, SrcTable[Rank(De)]) {
      if c <= 0xFF {
        assert SrcTable[10][0].lo <= c <= SrcTable[10][0].hi;
      } else {
        assert SrcTable[10][3].lo <= c <= SrcTable[10][3].hi;
      }
    }
  }

  /** A label's entry in the statistics. */
  lemma StatsAt(t: Table, cs: seq<int>, l: Lang)
    ensures Stats(t, cs)[Rank(l)] == Share(l, Count(t, cs, l))
  {
    RankIsPosition();
    RankInjective(AllLabels[Rank(l)], l);
  }

  /**
   * `primary` has the largest count, and among the labels with that count it
   * is the earliest in declaration order (`unknown` last).
   */
  lemma PrimaryIsMostFrequent(text: string, l: Lang)
    ensures Count(SrcTable, CodePoints(text), l) <= Count(SrcTable, CodePoints(text), Guess(text).primary)
    ensures Count(SrcTable, CodePoints(text), l) == Count(SrcTable, CodePoints(text), Guess(text).primary)
            ==> Rank(Guess(text).primary) <= Rank(l)
  {
    BestStats(SrcTable, CodePoints(text), l);
  }

  lemma BestStats(t: Table, cs: seq<int>, l: Lang)
    ensures Count(t, cs, l) <= Count(t, cs, Pick(Stats(t, cs)).primary)
    ensures Count(t, cs, l) == Count(t, cs, Pick(Stats(t, cs)).primary) ==> Rank(Pick(Stats(t, cs)).primary) <= Rank(l)
  {
    var s := Stats(t, cs);
    var k := BestIndex(s);
    StatsRankOrdered(t, cs);
    StatsAt(t, cs, l);
    StatsAt(t, cs, s[k].lang);
  }

  /**
   * `secondary` is always present, differs from `primary`, and is the most
   * frequent of the other labels, ties again going to the earliest.
   */
  lemma SecondaryIsRunnerUp(text: string, l: Lang)
    ensures Guess(text).secondary.Some?
    ensures Guess(text).secondary.value != Guess(text).primary
    ensures l != Guess(text).primary ==>
      Count(SrcTable, CodePoints(text), l) <= Count(SrcTable, CodePoints(text), Guess(text).secondary.value)
    ensures l != Guess(text).primary &&
      Count(SrcTable, CodePoints(text), l) == Count(SrcTable, CodePoints(text), Guess(text).secondary.value)
      ==> Rank(Guess(text).secondary.value) <= Rank(l)
  {
    RunnerUpStats(SrcTable, CodePoints(text), l);
  }

  lemma RunnerUpStats(t: Table, cs: seq<int>, l: Lang)
    ensures Pick(Stats(t, cs)).secondary.Some?
    ensures Pick(Stats(t, cs)).secondary.value != Pick(Stats(t, cs)).primary
    ensures l != Pick(Stats(t, cs)).primary ==>
      Count(t, cs, l) <= Count(t, cs, Pick(Stats(t, cs)).secondary.value)
    ensures l != Pick(Stats(t, cs)).primary && Count(t, cs, l) == Count(t, cs, Pick(Stats(t, cs)).secondary.value)
      ==> Rank(Pick(Stats(t, cs)).secondary.value) <= Rank(l)
  {
    var s := Stats(t, cs);
    StatsRankOrdered(t, cs);
    var k := BestIndex(s);
    var j := if l != s[k].lang then Rank(l) else (if k == 0 then 1 else 0);
    StatsAt(t, cs, l);
    RunnerUp(s, j);
    var w := Best(RemoveAt(s, k));
    var i :| 0 <= i < 14 && s[i] == w;
    assert w == Share(w.lang, Count(t, cs, w.lang)) by {
      StatsAt(t, cs, w.lang);
    }
  }

  /**
   * Text written in one script only: that label is `primary`, and `secondary`
   * is the first label with a zero count, `ja` (or `en` when the script is `ja`).
   */
  lemma SingleScript(text: string, l: Lang)
    requires |text| > 0
    requires forall i :: 0 <= i < |text| ==> Classify(SrcTable, text[i] as int) == l
    ensures Guess(text) == LangInfo(l, Some(if l == Ja then En else Ja))
  {
    SingleLabelStats(SrcTable, CodePoints(text), l);
  }

  lemma SingleLabelStats(t: Table, cs: seq<int>, l: Lang)
    requires |cs| > 0
    requires forall i :: 0 <= i < |cs| ==> Classify(t, cs[i]) == l
    ensures Pick(Stats(t, cs)) == LangInfo(l, Some(if l == Ja then En else Ja))
  {
    var s := Stats(t, cs);
    CountAll(t, cs, l);
    StatsRankOrdered(t, cs);
    forall j | 0 <= j < 14 && j != Rank(l) ensures s[j].count == 0 {
      StatsAt(t, cs, s[j].lang);
      CountZero(t, cs, s[j].lang);
    }
    StatsAt(t, cs, l);
    PickSingle(s, Rank(l));
  }

  /** Latin letters are counted for `en`. */
  lemma AsciiLettersAreEnglish(c: char)
    requires 'A' <= c <= 'Z' || 'a' <= c <= 'z'
    ensures Classify(SrcTable, c as int) == En
  {
    assert !InSpans(c as int, SrcTable[0]);
    if c <= 'Z' {
      assert SrcTable[1][0].lo <= c as int <= SrcTable[1][0].hi;
    } else {
      assert SrcTable[1][1].lo <= c as int <= SrcTable[1][1].hi;
    }
    ClassifyIsFirstMatch(SrcTable, c as int, En);
  }

  /** `detectLang("Hello")` is `{primary: 'en', secondary: 'ja'}`. */
  lemma HelloIsEnglish()
    ensures Guess("Hello") == LangInfo(En, Some(Ja))
  {
    forall i | 0 <= i < 5 ensures Classify(SrcTable, "Hello"[i] as int) == En {
      AsciiLettersAreEnglish("Hello"[i]);
    }
    SingleScript("Hello", En);
  }

  /**
   * Empty text: every share is `0 / 0`, the comparator answers `NaN`, which
   * the sort reads as "equal", so declaration order survives: `ja`, then `en`.
   */
  lemma EmptyText()
    ensures Guess("") == LangInfo(Ja, Some(En))
  {
    var s := Stats(SrcTable, CodePoints(""));
    assert s[0].lang == Ja && s[1].lang == En by {
      StatsRankOrdered(SrcTable, CodePoints(""));
    }
    assert forall j :: 0 <= j < 14 ==> s[j].count == 0;
    PickEqualCounts(s);
  }

  lemma CodePointsAppend(a: string, b: string)
    ensures CodePoints(a + b) == CodePoints(a) + CodePoints(b)
  {
  }

  lemma {:induction false} CodePointsPermutation(a: string, b: string)
    requires multiset(a) == multiset(b)
    ensures multiset(CodePoints(a)) == multiset(CodePoints(b))
    decreases |a|
  {
    if a == [] {
      assert |b| == |multiset(b)| == 0;
      assert CodePoints(a) == CodePoints(b) == [];
    } else {
      var x := a[|a| - 1];
      var a' := a[..|a| - 1];
      assert a == a' + [x];
      assert x in multiset(b);
      var k :| 0 <= k < |b| && b[k] == x;
      assert a == a' + [b[k]];
      var b' := b[..k] + b[k + 1..];
      MultisetRemoveAt(a, |a| - 1);
      MultisetRemoveAt(b, k);
      assert a[..|a| - 1] + a[|a|..] == a';
      CodePointsPermutation(a', b');
      CodePointsInsert(a', b, k);
    }
  }

  lemma CodePointsInsert(a: string, b: string, k: nat)
    requires k < |b|
    requires multiset(CodePoints(a)) == multiset(CodePoints(b[..k] + b[k + 1..]))
    ensures multiset(CodePoints(a + [b[k]])) == multiset(CodePoints(b))
  {
    var x := b[k];
    var front, back := CodePoints(b[..k]), CodePoints(b[k + 1..]);
    assert CodePoints(a + [x]) == CodePoints(a) + [x as int] by {
      CodePointsAppend(a, [x]);
    }
    assert CodePoints(b) == front + [x as int] + back by {
      assert b == b[..k] + [x] + b[k + 1..];
      CodePointsAppend(b[..k] + [x], b[k + 1..]);
      CodePointsAppend(b[..k], [x]);
    }
    assert CodePoints(b[..k] + b[k + 1..]) == front + back by {
      CodePointsAppend(b[..k], b[k + 1..]);
    }
  }

  /** The answer depends only on how often each character occurs, not on their order. */
  lemma OrderIrrelevant(a: string, b: string)
    requires multiset(a) == multiset(b)
    ensures Guess(a) == Guess(b)
  {
    CodePointsPermutation(a, b);
    forall l ensures Count(SrcTable, CodePoints(a), l) == Count(SrcTable, CodePoints(b), l) {
      CountPermutation(SrcTable, CodePoints(a), CodePoints(b), l);
    }
    assert Stats(SrcTable, CodePoints(a)) == Stats(SrcTable, CodePoints(b));
  }
}
