/**
 * Script labels and the ordered code-point range tables both language
 * detectors share: a character belongs to the first label, in declaration
 * order, whose ranges contain it, and to `unknown` when none does.
 */
module Scripts {

  /** The labels, in the tables' declaration order, with `unknown` last. */
  datatype Lang = Ja | En | Ar | Zh | Ko | Ru | He | Hi | Th | Fa | De | Es | Emoji | Unknown

  /** Position of a label in declaration order (`unknown` is added after the table). */
  function Rank(l: Lang): nat {
    match l
    case Ja => 0 case En => 1 case Ar => 2 case Zh => 3 case Ko => 4 case Ru => 5 case He => 6
    case Hi => 7 case Th => 8 case Fa => 9 case De => 10 case Es => 11 case Emoji => 12
    case Unknown => 13
  }

  /** The label as the source spells it. */
  function Name(l: Lang): string {
    match l
    case Ja => "ja" case En => "en" case Ar => "ar" case Zh => "zh" case Ko => "ko" case Ru => "ru"
    case He => "he" case Hi => "hi" case Th => "th" case Fa => "fa" case De => "de" case Es => "es"
    case Emoji => "emoji" case Unknown => "unknown"
  }

  /** Different labels are spelled differently. */
  lemma NameInjective(a: Lang, b: Lang)
    requires Name(a) == Name(b)
    ensures a == b
  {
    assert Name(a)[0] == Name(b)[0];
    if |Name(a)| > 1 {
      assert Name(a)[1] == Name(b)[1];
    }
  }

  /** The labels that have a row in a range table, in order. */
  const Labels: seq<Lang> := [Ja, En, Ar, Zh, Ko, Ru, He, Hi, Th, Fa, De, Es, Emoji]

  /** Every label, in the order the statistics hold them. */
  const AllLabels: seq<Lang> := Labels + [Unknown]

  lemma RankIsPosition()
    ensures |AllLabels| == 14
    ensures forall i :: 0 <= i < 14 ==> Rank(AllLabels[i]) == i
    ensures forall l :: l in AllLabels
    ensures forall i :: 0 <= i < 13 ==> AllLabels[i] == Labels[i]
  {
    forall l ensures l in AllLabels {
      assert AllLabels[Rank(l)] == l;
    }
  }

  lemma RankInjective(a: Lang, b: Lang)
    requires Rank(a) == Rank(b)
    ensures a == b
  {
  }

  /** An inclusive code-point range. */
  datatype Span = Span(lo: int, hi: int)

  /** `regex.test(char)` for a character class made of the given ranges. */
  predicate InSpans(c: int, spans: seq<Span>) {
    exists k | 0 <= k < |spans| :: spans[k].lo <= c <= spans[k].hi
  }

  /** A range table: row `i` holds the ranges of `Labels[i]`. */
  type Table = t: seq<seq<Span>> | |t| == 13 witness seq(13, i => [])

  /** The first row at or after `from` that contains `c`, or `|t|` when none does. */
  function FirstRow(t: Table, c: int, from: nat): (k: nat)
    requires from <= |t|
    ensures from <= k <= |t|
    ensures k < |t| ==> InSpans(c, t[k])
    ensures forall j :: from <= j < k ==> !InSpans(c, t[j])
    decreases |t| - from
  {
    if from == |t| then |t|
    else if InSpans(c, t[from]) then from
    else FirstRow(t, c, from + 1)
  }

  /** The label a character is counted for. */
  function Classify(t: Table, c: int): Lang {
    var k := FirstRow(t, c, 0);
    if k < |t| then Labels[k] else Unknown
  }

  /** A character is counted for the first label whose ranges contain it, and for `unknown` when none does. */
  lemma ClassifyIsFirstMatch(t: Table, c: int, l: Lang)
    ensures Classify(t, c) == l <==>
      if l == Unknown then forall j :: 0 <= j < |t| ==> !InSpans(c, t[j])
      else InSpans(c, t[Rank(l)]) && forall j :: 0 <= j < Rank(l) ==> !InSpans(c, t[j])
  {
    RankIsPosition();
    var k := FirstRow(t, c, 0);
    if l != Unknown {
      if InSpans(c, t[Rank(l)]) && forall j :: 0 <= j < Rank(l) ==> !InSpans(c, t[j]) {
        assert k == Rank(l);
      }
      if Classify(t, c) == l {
        RankInjective(Labels[k], l);
      }
    }
  }

  /** The number of characters of `cs` counted for `l`. */
  function Count(t: Table, cs: seq<int>, l: Lang): (n: nat)
    ensures n <= |cs|
  {
    if cs == [] then 0
    else Count(t, cs[..|cs| - 1], l) + (if Classify(t, cs[|cs| - 1]) == l then 1 else 0)
  }

  lemma {:induction false} CountAppend(t: Table, a: seq<int>, b: seq<int>, l: Lang)
    ensures Count(t, a + b, l) == Count(t, a, l) + Count(t, b, l)
  {
    if b == [] {
      assert a + b == a;
    } else {
      assert (a + b)[..|a + b| - 1] == a + b[..|b| - 1];
      CountAppend(t, a, b[..|b| - 1], l);
    }
  }

  /** No character of `cs` is counted for `l`. */
  lemma {:induction false} CountZero(t: Table, cs: seq<int>, l: Lang)
    requires forall i :: 0 <= i < |cs| ==> Classify(t, cs[i]) != l
    ensures Count(t, cs, l) == 0
  {
    if cs != [] {
      CountZero(t, cs[..|cs| - 1], l);
    }
  }

  /** Every character of `cs` is counted for `l`. */
  lemma {:induction false} CountAll(t: Table, cs: seq<int>, l: Lang)
    requires forall i :: 0 <= i < |cs| ==> Classify(t, cs[i]) == l
    ensures Count(t, cs, l) == |cs|
  {
    if cs != [] {
      CountAll(t, cs[..|cs| - 1], l);
    }
  }

  lemma CountSingleton(t: Table, x: int, l: Lang)
    ensures Count(t, [x], l) == if Classify(t, x) == l then 1 else 0
  {
    assert [x][..0] == [];
  }

  /** Removing one character from the middle removes its contribution. */
  lemma CountRemoveAt(t: Table, b: seq<int>, k: nat, l: Lang)
    requires k < |b|
    ensures Count(t, b, l) == Count(t, b[..k] + b[k + 1..], l) + (if Classify(t, b[k]) == l then 1 else 0)
  {
    assert b == (b[..k] + [b[k]]) + b[k + 1..];
    CountAppend(t, b[..k], [b[k]], l);
    CountAppend(t, b[..k] + [b[k]], b[k + 1..], l);
    CountAppend(t, b[..k], b[k + 1..], l);
    CountSingleton(t, b[k], l);
  }

  lemma MultisetRemoveAt<T>(b: seq<T>, k: nat)
    requires k < |b|
    ensures multiset(b[..k] + b[k + 1..]) == multiset(b) - multiset{b[k]}
  {
    assert b == b[..k] + [b[k]] + b[k + 1..];
    assert multiset(b) == multiset(b[..k]) + multiset{b[k]} + multiset(b[k + 1..]);
  }

  /** Counts depend only on the multiset of characters, not on their order. */
  lemma {:induction false} CountPermutation(t: Table, a: seq<int>, b: seq<int>, l: Lang)
    requires multiset(a) == multiset(b)
    ensures Count(t, a, l) == Count(t, b, l)
    decreases |a|
  {
    if a == [] {
      assert |b| == |multiset(b)| == 0;
    } else {
      var x := a[|a| - 1];
      var k := IndexOfLast(a, b);
      DropLast(a);
      MultisetRemoveAt(b, k);
      CountPermutation(t, a[..|a| - 1], b[..k] + b[k + 1..], l);
      CountRemoveAt(t, b, k, l);
    }
  }

  /** The last element of `a` is at some position `k` of any permutation `b` of `a`. */
  lemma IndexOfLast<T>(a: seq<T>, b: seq<T>) returns (k: nat)
    requires a != [] && multiset(a) == multiset(b)
    ensures k < |b| && b[k] == a[|a| - 1]
  {
    assert a == a[..|a| - 1] + [a[|a| - 1]];
    assert a[|a| - 1] in multiset(b);
    k :| 0 <= k < |b| && b[k] == a[|a| - 1];
  }

  lemma DropLast<T>(a: seq<T>)
    requires a != []
    ensures multiset(a[..|a| - 1]) == multiset(a) - multiset{a[|a| - 1]}
  {
    assert a == a[..|a| - 1] + [a[|a| - 1]];
  }

  /** The sum of the counts of a list of labels. */
  function SumCounts(t: Table, cs: seq<int>, ls: seq<Lang>): nat {
    if ls == [] then 0 else Count(t, cs, ls[0]) + SumCounts(t, cs, ls[1..])
  }

  /** How often `l` occurs in `ls`. */
  function Occurrences(ls: seq<Lang>, l: Lang): nat {
    if ls == [] then 0 else (if ls[0] == l then 1 else 0) + Occurrences(ls[1..], l)
  }

  lemma {:induction false} SumCountsStep(t: Table, cs: seq<int>, ls: seq<Lang>)
    requires cs != []
    ensures SumCounts(t, cs, ls) ==
      SumCounts(t, cs[..|cs| - 1], ls) + Occurrences(ls, Classify(t, cs[|cs| - 1]))
  {
    if ls != [] {
      SumCountsStep(t, cs, ls[1..]);
    }
  }

  /** Every character is counted exactly once: the counts of all labels add up to the length. */
  lemma {:induction false} CountsPartition(t: Table, cs: seq<int>)
    ensures SumCounts(t, cs, AllLabels) == |cs|
  {
    if cs == [] {
      ZeroSum(t, AllLabels);
    } else {
      CountsPartition(t, cs[..|cs| - 1]);
      SumCountsStep(t, cs, AllLabels);
      var l := Classify(t, cs[|cs| - 1]);
      assert Occurrences(AllLabels, l) == 1 by {
        OccurrencesOnce(l);
      }
    }
  }

  lemma {:induction false} ZeroSum(t: Table, ls: seq<Lang>)
    ensures SumCounts(t, [], ls) == 0
  {
    if ls != [] {
      ZeroSum(t, ls[1..]);
    }
  }

  lemma OccurrencesOnce(l: Lang)
    ensures Occurrences(AllLabels, l) == 1
  {
    RankIsPosition();
    forall i, j | 0 <= i < j < |AllLabels| ensures AllLabels[i] != AllLabels[j] {
      assert Rank(AllLabels[i]) != Rank(AllLabels[j]);
    }
    OccurrencesDistinct(AllLabels, l);
  }

  lemma {:induction false} OccurrencesDistinct(ls: seq<Lang>, l: Lang)
    requires forall i, j :: 0 <= i < j < |ls| ==> ls[i] != ls[j]
    ensures Occurrences(ls, l) == if l in ls then 1 else 0
  {
    if ls != [] {
      OccurrencesDistinct(ls[1..], l);
      if ls[0] == l {
        assert l !in ls[1..] by {
          forall j | 0 <= j < |ls[1..]| ensures ls[1..][j] != l {
            assert ls[1..][j] == ls[j + 1];
          }
        }
      }
    }
  }

  /**
   * A label whose ranges all lie inside those of an earlier label never wins a
   * character, so its count is always zero.
   */
  lemma {:induction false} ShadowedNeverCounted(t: Table, cs: seq<int>, l: Lang, earlier: Lang)
    requires l != Unknown && earlier != Unknown && Rank(earlier) < Rank(l)
    requires forall c :: InSpans(c, t[Rank(l)]) ==> InSpans(c, t[Rank(earlier)])
    ensures Count(t, cs, l) == 0
  {
    forall i | 0 <= i < |cs| ensures Classify(t, cs[i]) != l {
      ClassifyIsFirstMatch(t, cs[i], l);
    }
    CountZero(t, cs, l);
  }
}
