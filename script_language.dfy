/**
 * `detect_lang` of the userscript (script/detect_lang.js). It differs from the
 * current tree's `detectLang` in three ways: it walks UTF-16 code units with
 * `charCodeAt`, so an astral-plane character counts as two `unknown` units and
 * the `emoji` row (above U+FFFF) never matches; a label gets an entry only once
 * the inner loop has visited its row, so `langStats` holds a prefix of the
 * labels, plus `unknown` once a unit matched nothing; and with a single entry
 * `secondary` is `null`.
 */
module ScriptLanguage {
  import opened Wrappers
  import opened Js
  import opened Scripts
  import opened Shares

  /**
   * `characterRanges`, one row per label. A row written as one flat pair
   * (`'ar': [0x0600, 0x06FF]`) is read by the `else` branch of the range loop,
   * which tests that same pair at both positions; it is the single range here.
   */
  const ScriptTable: Table := [
    [Span(0x3040, 0x309F), Span(0x30A0, 0x30FF), Span(0xFF65, 0xFF9F), Span(0x4E00, 0x9FFF)], // ja
    [Span(0x0041, 0x005A), Span(0x0061, 0x007A)],                            // en
    [Span(0x0600, 0x06FF)],                                                  // ar
    [Span(0x4E00, 0x9FFF)],                                                  // zh
    [Span(0xAC00, 0xD7AF)],                                                  // ko
    [Span(0x0400, 0x04FF)],                                                  // ru
    [Span(0x0590, 0x05FF)],                                                  // he
    [Span(0x0900, 0x097F)],                                                  // hi
    [Span(0x0E00, 0x0E7F)],                                                  // th
    [Span(0x0600, 0x06FF)],                                                  // fa
    [Span(0x00C0, 0x00FF), Span(0x0152, 0x0153), Span(0x20A0, 0x20CF)],      // de
    [Span(0x00C0, 0x00FF), Span(0x20A0, 0x20CF)],                            // es
    [Span(0x1_F300, 0x1_F5FF)]                                               // emoji
  ]

  // ---------------------------------------------------------------- reference

  /** How many rows the inner loop visits (and so initialises) for one code unit. */
  function Reach(t: Table, c: int): (n: nat)
    ensures 1 <= n <= 13
  {
    var k := FirstRow(t, c, 0);
    if k < 13 then k + 1 else 13
  }

  /** The number of labels that have an entry after scanning `us`. */
  function MaxReach(t: Table, us: seq<int>): (n: nat)
    ensures n <= 13
    ensures us != [] ==> n >= 1
  {
    if us == [] then 0
    else
      var m := MaxReach(t, us[..|us| - 1]);
      var r := Reach(t, us[|us| - 1]);
      if m < r then r else m
  }

  /** Some unit of `us` matched no row. */
  predicate HasUnmatched(t: Table, us: seq<int>) {
    us != [] && (HasUnmatched(t, us[..|us| - 1]) || Classify(t, us[|us| - 1]) == Unknown)
  }

  /** The keys of `langStats` after scanning `us`, in insertion order. */
  function Keys(t: Table, us: seq<int>): seq<Lang> {
    Labels[..MaxReach(t, us)] + (if HasUnmatched(t, us) then [Unknown] else [])
  }

  /** The entries pushed into `langPercentages`, one per key. */
  function ScriptStats(us: seq<int>): (s: seq<Share>)
    ensures |s| == |Keys(ScriptTable, us)|
  {
    Entries(ScriptTable, us)
  }

  /** One entry per key of the scan of `us` with table `t`, holding that key's count. */
  function Entries(t: Table, us: seq<int>): (s: seq<Share>)
    ensures |s| == |Keys(t, us)|
  {
    var keys := Keys(t, us);
    seq(|keys|, i requires 0 <= i < |keys| => Share(keys[i], Count(t, us, keys[i])))
  }

  /**
   * The reference answer: `unknown` alone for empty text; otherwise the first
   * entry of maximal count, and the best of the others when there are others.
   */
  function ScriptGuess(text: string): LangInfo {
    var us := Utf16(text);
    if us == [] then LangInfo(Unknown, None)
    else
      var s := ScriptStats(us);
      if |s| < 2 then LangInfo(s[0].lang, None) else Pick(s)
  }

  // ---------------------------------------------------------------- the scan

  /** `langStats` and its key order after scanning `us`. */
  ghost predicate Tallied(t: Table, langStats: map<Lang, nat>, keys: seq<Lang>, us: seq<int>) {
    && keys == Keys(t, us)
    && (forall l :: l in langStats <==> l in keys)
    && (forall l :: l in langStats ==> langStats[l] == Count(t, us, l))
  }

  /** `detect_lang(text)`. */
  method DetectLangScript(text: string) returns (info: LangInfo)
    ensures info == ScriptGuess(text)
  {
    var us := Utf16(text);
    var langStats, keys := ScanUnits(us);
    var entries := Percentages(ScriptTable, us, langStats, keys);
    assert entries == ScriptStats(us);
    KeysShape(ScriptTable, us);
    EntriesRankOrdered(ScriptTable, us);
    if |entries| == 0 {
      entries := [Share(Unknown, 1)];
    }
    info := SortAndPick(entries);
  }

  /** The loop over the keys of `langStats` that fills `langPercentages`. */
  method Percentages(t: Table, ghost us: seq<int>, langStats: map<Lang, nat>, keys: seq<Lang>)
    returns (entries: seq<Share>)
    requires Tallied(t, langStats, keys, us)
    ensures entries == Entries(t, us)
  {
    entries := [];
    for n := 0 to |keys|
      invariant |entries| == n
      invariant forall i :: 0 <= i < n ==> entries[i] == Share(keys[i], Count(t, us, keys[i]))
    {
      entries := entries + [Share(keys[n], langStats[keys[n]])];
    }
    forall i | 0 <= i < |keys| ensures entries[i] == Entries(t, us)[i] {
      EntriesAt(t, us, i);
    }
  }

  /** The counting loop over `text.charCodeAt(i)`, `i < text.length`. */
  method ScanUnits(us: seq<int>) returns (langStats: map<Lang, nat>, keys: seq<Lang>)
    ensures Tallied(ScriptTable, langStats, keys, us)
  {
    langStats, keys := map[], [];
    var totalCount := 0;
    for i := 0 to |us|
      invariant Tallied(ScriptTable, langStats, keys, us[..i])
      invariant totalCount == i
    {
      assert us[..i + 1] == us[..i] + [us[i]];
      langStats, keys := CountUnit(ScriptTable, langStats, keys, us[..i], us[i]);
      totalCount := totalCount + 1;
    }
    assert us[..|us|] == us;
  }

  /** Sorting `langPercentages` and reading off the first entry and, if there is one, the second. */
  method SortAndPick(entries: seq<Share>) returns (info: LangInfo)
    requires |entries| > 0 && RankOrdered(entries)
    ensures |entries| == 1 ==> info == LangInfo(entries[0].lang, None)
    ensures |entries| >= 2 ==> info == Pick(entries)
  {
    var a := new Share[|entries|](j requires 0 <= j < |entries| => entries[j]);
    assert a[..] == entries;
    SortByShare(a);
    SortedHeadIsBest(a[..], entries);
    if a.Length >= 2 {
      SortedSecondIsRunnerUp(a[..], entries);
    }
    info := LangInfo(a[0].lang, if a.Length >= 2 then Some(a[1].lang) else None);
  }

  /** The keys after scanning `us` with `k` rows of the next unit visited. */
  function KeysAt(t: Table, us: seq<int>, k: nat): seq<Lang>
    requires k <= 13
  {
    var m := MaxReach(t, us);
    Labels[..if m < k then k else m] + (if HasUnmatched(t, us) then [Unknown] else [])
  }

  /** `langStats` and its key order after scanning `us` and visiting `k` rows for the next unit. */
  ghost predicate Visited(t: Table, langStats: map<Lang, nat>, keys: seq<Lang>, us: seq<int>, k: nat)
    requires k <= 13
  {
    && keys == KeysAt(t, us, k)
    && (forall l :: l in langStats <==> l in keys)
    && (forall l :: l in langStats ==> langStats[l] == Count(t, us, l))
  }

  /** One pass of the outer loop: the inner loop over the rows for the unit `c`. */
  method CountUnit(t: Table, langStats: map<Lang, nat>, keys: seq<Lang>, ghost us: seq<int>, c: int)
    returns (langStats': map<Lang, nat>, keys': seq<Lang>)
    requires Tallied(t, langStats, keys, us)
    ensures Tallied(t, langStats', keys', us + [c])
  {
    langStats', keys' := langStats, keys;
    KeysAtStart(t, us);
    var found := false;
    var k := 0;
    while k < |Labels|
      invariant 0 <= k <= 13 && k <= FirstRow(t, c, 0)
      invariant !found && Visited(t, langStats', keys', us, k)
    {
      langStats', keys' := VisitRow(t, langStats', keys', us, k);
      if InSpans(c, t[k]) {
        MatchStep(t, us, c, k);
        langStats' := langStats'[Labels[k] := langStats'[Labels[k]] + 1];
        found := true;
        break;
      }
      PastRow(t, c, k);
      k := k + 1;
    }
    if !found {
      langStats', keys' := CountUnmatched(t, langStats', keys', us, c);
    }
  }

  /** `if (!langStats[lang]) langStats[lang] = 0;` for row `k`. */
  method VisitRow(t: Table, langStats: map<Lang, nat>, keys: seq<Lang>, ghost us: seq<int>, k: nat)
    returns (langStats': map<Lang, nat>, keys': seq<Lang>)
    requires k < 13 && Visited(t, langStats, keys, us, k)
    ensures Visited(t, langStats', keys', us, k + 1)
  {
    langStats', keys' := langStats, keys;
    KeysAtStep(t, us, k);
    var lang := Labels[k];
    if lang !in langStats' {
      CountOutsideKeys(t, us, lang);
      langStats' := langStats'[lang := 0];
      keys' := keys' + [lang];
    }
  }

  /** `langStats['unknown'] = (langStats['unknown'] || 0) + 1;` */
  method CountUnmatched(t: Table, langStats: map<Lang, nat>, keys: seq<Lang>, ghost us: seq<int>, c: int)
    returns (langStats': map<Lang, nat>, keys': seq<Lang>)
    requires FirstRow(t, c, 0) == 13 && Visited(t, langStats, keys, us, 13)
    ensures Tallied(t, langStats', keys', us + [c])
  {
    langStats', keys' := langStats, keys;
    MissStep(t, us, c);
    if Unknown !in langStats' {
      CountOutsideKeys(t, us, Unknown);
      langStats' := langStats'[Unknown := 0];
      keys' := keys' + [Unknown];
    }
    langStats' := langStats'[Unknown := langStats'[Unknown] + 1];
  }

  lemma KeysAtStart(t: Table, us: seq<int>)
    ensures KeysAt(t, us, 0) == Keys(t, us)
  {
  }

  /** Visiting row `k` adds its label at the end exactly when it is not yet a key. */
  lemma KeysAtStep(t: Table, us: seq<int>, k: nat)
    requires k < 13
    ensures Labels[k] in KeysAt(t, us, k) ==> KeysAt(t, us, k + 1) == KeysAt(t, us, k)
    ensures Labels[k] !in KeysAt(t, us, k) ==>
      KeysAt(t, us, k + 1) == KeysAt(t, us, k) + [Labels[k]] && Labels[k] !in Keys(t, us)
  {
    UnmatchedReachesAll(t, us);
    RankIsPosition();
    var m := MaxReach(t, us);
    if k < m {
      assert Labels[..m][k] == Labels[k];
    } else {
      assert Labels[..k] + [Labels[k]] == Labels[..k + 1];
      assert Labels[..k][..m] == Labels[..m];
    }
  }

  lemma PastRow(t: Table, c: int, k: nat)
    requires k < 13 && k <= FirstRow(t, c, 0) && !InSpans(c, t[k])
    ensures k + 1 <= FirstRow(t, c, 0)
  {
  }

  /** The count of `l` after one more unit. */
  lemma CountStep(t: Table, us: seq<int>, c: int, l: Lang)
    ensures Count(t, us + [c], l) == Count(t, us, l) + if Classify(t, c) == l then 1 else 0
  {
    assert (us + [c])[..|us|] == us;
  }

  /** A unit whose first matching row is `k`. */
  lemma MatchStep(t: Table, us: seq<int>, c: int, k: nat)
    requires k < 13 && InSpans(c, t[k]) && k <= FirstRow(t, c, 0)
    ensures Classify(t, c) == Labels[k]
    ensures Keys(t, us + [c]) == KeysAt(t, us, k + 1)
    ensures forall l :: Count(t, us + [c], l) == Count(t, us, l) + if l == Labels[k] then 1 else 0
  {
    assert FirstRow(t, c, 0) == k;
    assert (us + [c])[..|us|] == us;
    forall l ensures Count(t, us + [c], l) == Count(t, us, l) + if l == Labels[k] then 1 else 0 {
      CountStep(t, us, c, l);
    }
  }

  /** A unit that matches no row. */
  lemma MissStep(t: Table, us: seq<int>, c: int)
    requires FirstRow(t, c, 0) == 13
    ensures Classify(t, c) == Unknown
    ensures Keys(t, us + [c]) == KeysAt(t, us, 13) + if HasUnmatched(t, us) then [] else [Unknown]
    ensures forall l :: Count(t, us + [c], l) == Count(t, us, l) + if l == Unknown then 1 else 0
  {
    assert (us + [c])[..|us|] == us;
    UnmatchedReachesAll(t, us);
    forall l ensures Count(t, us + [c], l) == Count(t, us, l) + if l == Unknown then 1 else 0 {
      CountStep(t, us, c, l);
    }
  }

  // ---------------------------------------------------------------- key shape

  /** A unit matching nothing makes the inner loop visit every row. */
  lemma {:induction false} UnmatchedReachesAll(t: Table, us: seq<int>)
    ensures HasUnmatched(t, us) ==> MaxReach(t, us) == 13
  {
    if us != [] {
      UnmatchedReachesAll(t, us[..|us| - 1]);
      var c := us[|us| - 1];
      if Classify(t, c) == Unknown {
        assert FirstRow(t, c, 0) == 13;
      }
    }
  }

  /** Every unit's label is among the keys. */
  lemma {:induction false} ClassifiedWithinReach(t: Table, us: seq<int>, i: nat)
    requires i < |us|
    ensures Classify(t, us[i]) in Keys(t, us)
  {
    UnmatchedReachesAll(t, us);
    if i == |us| - 1 {
      var c := us[i];
      var k := FirstRow(t, c, 0);
      if k < 13 {
        assert Labels[..MaxReach(t, us)][k] == Labels[k];
      }
    } else {
      ClassifiedWithinReach(t, us[..|us| - 1], i);
      assert us[..|us| - 1][i] == us[i];
      UnmatchedReachesAll(t, us[..|us| - 1]);
      var l := Classify(t, us[i]);
      if l != Unknown {
        var j :| 0 <= j < MaxReach(t, us[..|us| - 1]) && Labels[j] == l;
        assert Labels[..MaxReach(t, us)][j] == l;
      }
    }
  }

  /** A label without an entry has count zero, so giving it `0` on first visit is exact. */
  lemma CountOutsideKeys(t: Table, us: seq<int>, l: Lang)
    requires l !in Keys(t, us)
    ensures Count(t, us, l) == 0
  {
    forall i | 0 <= i < |us| ensures Classify(t, us[i]) != l {
      ClassifiedWithinReach(t, us, i);
    }
    CountZero(t, us, l);
  }

  /** The keys come in declaration order, each once; there are none only for empty input. */
  lemma KeysShape(t: Table, us: seq<int>)
    ensures forall i :: 0 <= i < |Keys(t, us)| ==> Rank(Keys(t, us)[i]) == if i < MaxReach(t, us) then i else 13
    ensures |Keys(t, us)| == 0 <==> us == []
  {
    RankIsPosition();
    UnmatchedReachesAll(t, us);
  }

  lemma EntriesRankOrdered(t: Table, us: seq<int>)
    ensures RankOrdered(Entries(t, us))
  {
    KeysShape(t, us);
    var s := Entries(t, us);
    forall i, j | 0 <= i < j < |s| ensures Rank(s[i].lang) < Rank(s[j].lang) {
      assert s[i].lang == Keys(t, us)[i] && s[j].lang == Keys(t, us)[j];
    }
  }

  // ---------------------------------------------------------------- properties

  /** Every code unit is counted exactly once: the counts add up to `text.length`. */
  lemma CountsCoverUnits(text: string)
    ensures SumCounts(ScriptTable, Utf16(text), AllLabels) == Utf16Length(text)
  {
    CountsPartition(ScriptTable, Utf16(text));
  }

  /** `charCodeAt` never exceeds U+FFFF, so the `emoji` row (U+1F300 to U+1F5FF) never matches. */
  lemma EmojiNeverCounted(text: string)
    ensures Count(ScriptTable, Utf16(text), Emoji) == 0
  {
    var us := Utf16(text);
    forall i | 0 <= i < |us| ensures Classify(ScriptTable, us[i]) != Emoji {
      ClassifyIsFirstMatch(ScriptTable, us[i], Emoji);
    }
    CountZero(ScriptTable, us, Emoji);
  }

  /** `zh`, `fa` and `es` never get a unit: `ja`, `ar` and `de` already cover their ranges. */
  lemma ShadowedLabels(us: seq<int>)
    ensures Count(ScriptTable, us, Zh) == 0
    ensures Count(ScriptTable, us, Fa) == 0
    ensures Count(ScriptTable, us, Es) == 0
  {
    ZhInsideJa();
    ShadowedNeverCounted(ScriptTable, us, Zh, Ja);
    FaInsideAr();
    ShadowedNeverCounted(ScriptTable, us, Fa, Ar);
    EsInsideDe();
    ShadowedNeverCounted(ScriptTable, us, Es, De);
  }

  lemma ZhInsideJa()
    ensures forall c :: InSpans(c, ScriptTable[Rank(Zh)]) ==> InSpans(c, ScriptTable[Rank(Ja)])
  {
    forall c | InSpans(c, ScriptTable[Rank(Zh)]) ensures InSpans(c, ScriptTable[Rank(Ja)]) {
      assert ScriptTable[0][3].lo <= c <= ScriptTable[0][3].hi;
    }
  }

  lemma FaInsideAr()
    ensures forall c :: InSpans(c, ScriptTable[Rank(Fa)]) ==> InSpans(c, ScriptTable[Rank(Ar)])
  {
    forall c | InSpans(c, ScriptTable[Rank(Fa)]) ensures InSpans(c, ScriptTable[Rank(Ar)]) {
      assert ScriptTable[2][0].lo <= c <= ScriptTable[2][0].hi;
    }
  }

  lemma EsInsideDe()
    ensures forall c :: InSpans(c, ScriptTable[Rank(Es)]) ==> InSpans(c, ScriptTable[Rank(De)])
  {
    forall c | InSpans(c, ScriptTable[Rank(Es)]) ensures InSpans(c, ScriptTable[Rank(De)]) {
      if c <= 0xFF {
        assert ScriptTable[10][0].lo <= c <= ScriptTable[10][0].hi;
      } else {
        assert ScriptTable[10][2].lo <= c <= ScriptTable[10][2].hi;
      }
    }
  }

  /** Empty text: no entries at all, so the fallback `{lang: 'unknown', percentage: 1}` alone. */
  lemma EmptyText()
    ensures ScriptGuess("") == LangInfo(Unknown, None)
  {
    assert Utf16("") == [];
  }

  /** `HasUnmatched` is "some unit matches no row". */
  lemma {:induction false} HasUnmatchedIff(t: Table, us: seq<int>)
    ensures HasUnmatched(t, us) <==> exists i :: 0 <= i < |us| && Classify(t, us[i]) == Unknown
  {
    if us != [] {
      var init := us[..|us| - 1];
      HasUnmatchedIff(t, init);
      assert us == init + [us[|us| - 1]];
      ExistsSplit(init, us[|us| - 1], c => Classify(t, c) == Unknown);
    }
  }

  /** Some unit of `front + [last]` passes `p` exactly when one of `front` does or `last` does. */
  lemma ExistsSplit(front: seq<int>, last: int, p: int -> bool)
    ensures (exists i :: 0 <= i < |front| + 1 && p((front + [last])[i])) <==>
      (exists i :: 0 <= i < |front| && p(front[i])) || p(last)
  {
    if exists i :: 0 <= i < |front| + 1 && p((front + [last])[i]) {
      var i :| 0 <= i < |front| + 1 && p((front + [last])[i]);
      if i < |front| {
        assert (front + [last])[i] == front[i];
      }
    }
    if exists i :: 0 <= i < |front| && p(front[i]) {
      var i :| 0 <= i < |front| && p(front[i]);
      assert (front + [last])[i] == front[i];
    }
    if p(last) {
      assert (front + [last])[|front|] == last;
    }
  }

  /** `langStats` has an `unknown` entry exactly when some code unit matched no row. */
  lemma UnknownKeyIff(text: string)
    ensures Unknown in Keys(ScriptTable, Utf16(text)) <==>
      exists i :: 0 <= i < |Utf16(text)| && Classify(ScriptTable, Utf16(text)[i]) == Unknown
  {
    UnknownInKeys(ScriptTable, Utf16(text));
    HasUnmatchedIff(ScriptTable, Utf16(text));
  }

  lemma UnknownInKeys(t: Table, us: seq<int>)
    ensures Unknown in Keys(t, us) <==> HasUnmatched(t, us)
  {
    RankIsPosition();
    assert Unknown !in Labels[..MaxReach(t, us)];
  }

  /** Only `ja` units keep the inner loop at the first row. */
  lemma {:induction false} AllJapaneseIff(t: Table, us: seq<int>)
    ensures MaxReach(t, us) <= 1 <==> forall i :: 0 <= i < |us| ==> Classify(t, us[i]) == Ja
  {
    if us != [] {
      var init := us[..|us| - 1];
      AllJapaneseIff(t, init);
      var c := us[|us| - 1];
      assert Reach(t, c) == 1 <==> Classify(t, c) == Ja;
      if forall i :: 0 <= i < |us| ==> Classify(t, us[i]) == Ja {
        assert forall i :: 0 <= i < |init| ==> init[i] == us[i];
      }
      if (forall i :: 0 <= i < |init| ==> Classify(t, init[i]) == Ja) && Classify(t, c) == Ja {
        forall i | 0 <= i < |us| ensures Classify(t, us[i]) == Ja {
          if i < |init| {
            assert us[i] == init[i];
          }
        }
      }
    }
  }

  lemma CountPositive(t: Table, us: seq<int>, i: nat)
    requires i < |us|
    ensures Count(t, us, Classify(t, us[i])) >= 1
  {
    var l := Classify(t, us[i]);
    assert us == us[..i] + [us[i]] + us[i + 1..];
    CountAppend(t, us[..i] + [us[i]], us[i + 1..], l);
    CountAppend(t, us[..i], [us[i]], l);
    CountSingleton(t, us[i], l);
  }

  /** The entry of a key. */
  lemma EntriesAt(t: Table, us: seq<int>, j: nat)
    requires j < |Keys(t, us)|
    ensures Entries(t, us)[j] == Share(Keys(t, us)[j], Count(t, us, Keys(t, us)[j]))
  {
  }

  /** Without a second entry `secondary` is `null`; that happens exactly for all-`ja` text. */
  lemma SecondaryAbsentIff(text: string)
    requires text != []
    ensures ScriptGuess(text).secondary == None <==>
      forall i :: 0 <= i < |Utf16(text)| ==> Classify(ScriptTable, Utf16(text)[i]) == Ja
  {
    var us := Utf16(text);
    assert us != [] by {
      assert Utf16(text) == Units(text[0]) + Utf16(text[1..]);
    }
    AllJapaneseIff(ScriptTable, us);
    UnmatchedReachesAll(ScriptTable, us);
    assert |Keys(ScriptTable, us)| == 1 <==> MaxReach(ScriptTable, us) <= 1;
  }

  /** The first entry of maximal count holds the largest count of all labels, with or without an entry. */
  lemma BestEntryIsMostFrequent(t: Table, us: seq<int>, l: Lang)
    requires us != []
    ensures |Entries(t, us)| > 0
    ensures Best(Entries(t, us)).count == Count(t, us, Best(Entries(t, us)).lang)
    ensures Count(t, us, l) <= Best(Entries(t, us)).count
    ensures Count(t, us, l) == Best(Entries(t, us)).count ==> Rank(Best(Entries(t, us)).lang) <= Rank(l)
  {
    var s := Entries(t, us);
    var keys := Keys(t, us);
    KeysShape(t, us);
    EntriesRankOrdered(t, us);
    var k := BestIndex(s);
    EntriesAt(t, us, k);
    if l in keys {
      var j :| 0 <= j < |keys| && keys[j] == l;
      EntriesAt(t, us, j);
    } else {
      CountOutsideKeys(t, us, l);
      BestPositive(t, us);
    }
  }

  /** The first unit's label has an entry with a positive count, so the best count is positive. */
  lemma BestPositive(t: Table, us: seq<int>)
    requires us != []
    ensures |Entries(t, us)| > 0 && Best(Entries(t, us)).count > 0
  {
    var keys := Keys(t, us);
    ClassifiedWithinReach(t, us, 0);
    var f :| 0 <= f < |keys| && keys[f] == Classify(t, us[0]);
    CountPositive(t, us, 0);
    EntriesAt(t, us, f);
  }

  /**
   * `primary` has the largest count of all labels, with or without an entry,
   * and among the labels with that count it is the earliest.
   */
  lemma PrimaryIsMostFrequent(text: string, l: Lang)
    requires Utf16(text) != []
    ensures Count(ScriptTable, Utf16(text), l) <= Count(ScriptTable, Utf16(text), ScriptGuess(text).primary)
    ensures Count(ScriptTable, Utf16(text), l) == Count(ScriptTable, Utf16(text), ScriptGuess(text).primary)
            ==> Rank(ScriptGuess(text).primary) <= Rank(l)
  {
    var us := Utf16(text);
    BestEntryIsMostFrequent(ScriptTable, us, l);
    assert ScriptGuess(text).primary == Best(ScriptStats(us)).lang;
  }

  /**
   * Text in one script only: that label is `primary`; `secondary` is `ja`, the
   * first entry, unless the script is `ja` itself, which leaves a single entry.
   */
  lemma SingleScript(text: string, l: Lang)
    requires Utf16(text) != []
    requires forall i :: 0 <= i < |Utf16(text)| ==> Classify(ScriptTable, Utf16(text)[i]) == l
    ensures ScriptGuess(text) == LangInfo(l, if l == Ja then None else Some(Ja))
  {
    SingleLabelEntries(ScriptTable, Utf16(text), l);
  }

  /** Units of one label only: `ja` alone is a single entry; any other label wins over a `ja` entry of count 0. */
  lemma SingleLabelEntries(t: Table, us: seq<int>, l: Lang)
    requires us != []
    requires forall i :: 0 <= i < |us| ==> Classify(t, us[i]) == l
    ensures l == Ja ==> |Entries(t, us)| == 1 && Entries(t, us)[0].lang == Ja
    ensures l != Ja ==> |Entries(t, us)| >= 2 && Pick(Entries(t, us)) == LangInfo(l, Some(Ja))
  {
    var s := Entries(t, us);
    var keys := Keys(t, us);
    KeysShape(t, us);
    RankIsPosition();
    ClassifiedWithinReach(t, us, 0);
    var r :| 0 <= r < |keys| && keys[r] == l;
    CountAll(t, us, l);
    EntriesAt(t, us, r);
    AllJapaneseIff(t, us);
    UnmatchedReachesAll(t, us);
    if l != Ja {
      assert keys[0] == Ja;
      forall j | 0 <= j < |s| && j != r ensures s[j].count == 0 {
        EntriesAt(t, us, j);
        CountZero(t, us, keys[j]);
      }
      PickSingle(s, r);
    }
  }

  /** A UTF-16 surrogate matches no row. */
  lemma SurrogateUnmatched(u: int)
    requires 0xD800 <= u <= 0xDFFF
    ensures Classify(ScriptTable, u) == Unknown
  {
    forall j | 0 <= j < 13 ensures !InSpans(u, ScriptTable[j]) {
      forall k | 0 <= k < |ScriptTable[j]| ensures ScriptTable[j][k].hi < 0xD800 || 0xDFFF < ScriptTable[j][k].lo {
      }
    }
    ClassifyIsFirstMatch(ScriptTable, u, Unknown);
  }

  /** An astral-plane character (an emoji, say) is two surrogate units, both `unknown`. */
  lemma AstralIsUnknown(c: char)
    requires c as int >= 0x1_0000
    ensures ScriptGuess([c]) == LangInfo(Unknown, Some(Ja))
  {
    var us := Utf16([c]);
    assert us == Units(c);
    SurrogateUnmatched(us[0]);
    SurrogateUnmatched(us[1]);
    SingleScript([c], Unknown);
  }

  /** Latin letters are counted for `en`. */
  lemma AsciiLettersAreEnglish(u: int)
    requires 'A' as int <= u <= 'Z' as int || 'a' as int <= u <= 'z' as int
    ensures Classify(ScriptTable, u) == En
  {
    assert !InSpans(u, ScriptTable[0]);
    if u <= 'Z' as int {
      assert ScriptTable[1][0].lo <= u <= ScriptTable[1][0].hi;
    } else {
      assert ScriptTable[1][1].lo <= u <= ScriptTable[1][1].hi;
    }
    ClassifyIsFirstMatch(ScriptTable, u, En);
  }

  /** `detect_lang("Hello")` is `{primary: 'en', secondary: 'ja'}`. */
  lemma HelloIsEnglish()
    ensures ScriptGuess("Hello") == LangInfo(En, Some(Ja))
  {
    var us := Utf16("Hello");
    assert us == [0x48, 0x65, 0x6C, 0x6C, 0x6F];
    forall i | 0 <= i < 5 ensures Classify(ScriptTable, us[i]) == En {
      AsciiLettersAreEnglish(us[i]);
    }
    SingleScript("Hello", En);
  }
}
