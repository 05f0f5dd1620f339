/**
 * The per-label shares and their ordering. Both detectors push one entry per
 * label in declaration order and sort with `(a, b) => b.percentage - a.percentage`.
 * All shares of one text have the same denominator, so comparing shares is
 * comparing counts, and because `Array.prototype.sort` is stable (section
 * 23.1.3.30 of ECMA-262) entries with equal counts keep declaration order.
 */
module Shares {
  import opened Wrappers
  import opened Scripts

  /** One pushed entry: a label and its count (its share is `count / length`). */
  datatype Share = Share(lang: Lang, count: nat)

  /** `a` may stand before `b` after the stable descending sort. */
  predicate Precedes(a: Share, b: Share) {
    a.count > b.count || (a.count == b.count && Rank(a.lang) <= Rank(b.lang))
  }

  predicate Sorted(s: seq<Share>) {
    forall i, j :: 0 <= i < j < |s| ==> Precedes(s[i], s[j])
  }

  /** Entries pushed in declaration order, each label once. */
  predicate RankOrdered(s: seq<Share>) {
    forall i, j :: 0 <= i < j < |s| ==> Rank(s[i].lang) < Rank(s[j].lang)
  }

  /**
   * The in-place sort. A stable sort of entries that arrive in declaration
   * order is the sort that breaks ties in count by declaration order, which is
   * what the comparison below does.
   */
  method SortByShare(a: array<Share>)
    modifies a
    ensures Sorted(a[..])
    ensures multiset(a[..]) == multiset(old(a[..]))
  {
    var i := 0;
    while i < a.Length
      invariant 0 <= i <= a.Length
      invariant Sorted(a[..i])
      invariant multiset(a[..]) == multiset(old(a[..]))
    {
      InsertLast(a, i);
      i := i + 1;
    }
    assert a[..a.Length] == a[..];
  }

  /** One insertion step: moves `a[i]` left past the entries it must precede. */
  method InsertLast(a: array<Share>, i: nat)
    requires i < a.Length && Sorted(a[..i])
    modifies a
    ensures Sorted(a[..i + 1])
    ensures multiset(a[..]) == multiset(old(a[..]))
  {
    var j := i;
    while j > 0 && !Precedes(a[j - 1], a[j])
      invariant 0 <= j <= i
      invariant multiset(a[..]) == multiset(old(a[..]))
      invariant forall p, q :: 0 <= p < q <= i && p != j && q != j ==> Precedes(a[p], a[q])
      invariant forall q :: j < q <= i ==> Precedes(a[j], a[q])
      invariant 0 < j < i ==> Precedes(a[j - 1], a[j + 1])
    {
      SwapDown(a, j);
      j := j - 1;
    }
  }

  /** Exchanges `a[j - 1]` and `a[j]`. */
  method SwapDown(a: array<Share>, j: nat)
    requires 0 < j < a.Length
    modifies a
    ensures a[..] == old(a[..])[j - 1 := old(a[j])][j := old(a[j - 1])]
    ensures multiset(a[..]) == multiset(old(a[..]))
  {
    a[j - 1], a[j] := a[j], a[j - 1];
  }

  /** The first entry of maximal count: the head of the sorted list. */
  function BestIndex(s: seq<Share>): (k: nat)
    requires |s| > 0
    ensures k < |s|
    ensures forall j :: 0 <= j < |s| ==> s[j].count <= s[k].count
    ensures forall j :: 0 <= j < k ==> s[j].count < s[k].count
  {
    if |s| == 1 then 0
    else
      var r := BestIndex(s[1..]) + 1;
      if s[0].count >= s[r].count then 0 else r
  }

  function Best(s: seq<Share>): Share
    requires |s| > 0
  {
    s[BestIndex(s)]
  }

  function RemoveAt(s: seq<Share>, k: nat): (r: seq<Share>)
    requires k < |s|
    ensures |r| == |s| - 1
  {
    s[..k] + s[k + 1..]
  }

  /** On entries in declaration order, the best one may stand before every other. */
  lemma BestPrecedesAll(s: seq<Share>)
    requires |s| > 0 && RankOrdered(s)
    ensures forall x :: x in s ==> Precedes(Best(s), x)
  {
    var k := BestIndex(s);
    forall x | x in s ensures Precedes(Best(s), x) {
      var j :| 0 <= j < |s| && s[j] == x;
      if j > k {
        assert Rank(s[k].lang) < Rank(s[j].lang);
      }
    }
  }

  lemma PrecedesAntisymmetric(x: Share, y: Share)
    requires Precedes(x, y) && Precedes(y, x)
    ensures x == y
  {
    RankInjective(x.lang, y.lang);
  }

  /** Sorting entries in declaration order puts the best one first. */
  lemma SortedHeadIsBest(a: seq<Share>, s: seq<Share>)
    requires Sorted(a) && multiset(a) == multiset(s)
    requires |s| > 0 && RankOrdered(s)
    ensures |a| == |s| && a[0] == Best(s)
  {
    assert |a| == |multiset(a)| == |multiset(s)| == |s|;
    assert a[0] in multiset(s);
    assert Best(s) in multiset(a);
    var k :| 0 <= k < |a| && a[k] == Best(s);
    BestPrecedesAll(s);
    if k != 0 {
      assert Precedes(a[0], a[k]);
    }
    PrecedesAntisymmetric(a[0], Best(s));
  }

  lemma RemoveAtRankOrdered(s: seq<Share>, k: nat)
    requires k < |s| && RankOrdered(s)
    ensures RankOrdered(RemoveAt(s, k))
  {
    var r := RemoveAt(s, k);
    forall i, j | 0 <= i < j < |r| ensures Rank(r[i].lang) < Rank(r[j].lang) {
      var i' := if i < k then i else i + 1;
      var j' := if j < k then j else j + 1;
      assert r[i] == s[i'] && r[j] == s[j'];
    }
  }

  lemma RemoveAtMultiset(b: seq<Share>, k: nat)
    requires k < |b|
    ensures multiset(RemoveAt(b, k)) == multiset(b) - multiset{b[k]}
  {
    assert b == b[..k] + [b[k]] + b[k + 1..];
    assert multiset(b) == multiset(b[..k]) + multiset{b[k]} + multiset(b[k + 1..]);
  }

  /** The second sorted entry is the best of the others. */
  lemma SortedSecondIsRunnerUp(a: seq<Share>, s: seq<Share>)
    requires Sorted(a) && multiset(a) == multiset(s)
    requires |s| >= 2 && RankOrdered(s)
    ensures |a| == |s| && a[1] == Best(RemoveAt(s, BestIndex(s)))
  {
    SortedHeadIsBest(a, s);
    var k := BestIndex(s);
    RemoveAtMultiset(s, k);
    RemoveAtMultiset(a, 0);
    assert RemoveAt(a, 0) == a[1..];
    RemoveAtRankOrdered(s, k);
    SortedHeadIsBest(a[1..], RemoveAt(s, k));
  }

  /**
   * The best of the others differs from the best, and may stand before every
   * other entry.
   */
  lemma BestPrecedes(s: seq<Share>, i: nat)
    requires i < |s| && RankOrdered(s)
    ensures Precedes(Best(s), s[i])
  {
    var k := BestIndex(s);
    if i > k {
      assert Rank(s[k].lang) < Rank(s[i].lang);
    }
  }

  lemma RunnerUp(s: seq<Share>, j: nat)
    requires |s| >= 2 && RankOrdered(s)
    requires j < |s| && j != BestIndex(s)
    ensures Best(RemoveAt(s, BestIndex(s))) in s
    ensures Best(RemoveAt(s, BestIndex(s))).lang != Best(s).lang
    ensures Precedes(Best(RemoveAt(s, BestIndex(s))), s[j])
  {
    var k := BestIndex(s);
    var r := RemoveAt(s, k);
    var m := BestIndex(r);
    var m' := if m < k then m else m + 1;
    var j' := if j < k then j else j - 1;
    assert r[m] == s[m'] && r[j'] == s[j];
    assert Rank(s[m'].lang) != Rank(s[k].lang);
    RemoveAtRankOrdered(s, k);
    BestPrecedes(r, j');
  }

  // ---------------------------------------------------------------- the answer

  /** `{primary, secondary}`. */
  datatype LangInfo = LangInfo(primary: Lang, secondary: Option<Lang>)

  /** The labels of the first two entries once sorted. */
  function Pick(s: seq<Share>): LangInfo
    requires |s| >= 2
  {
    var k := BestIndex(s);
    LangInfo(s[k].lang, Some(Best(RemoveAt(s, k)).lang))
  }

  /** When all counts are equal the first entry wins. */
  lemma BestOfEqualCounts(s: seq<Share>)
    requires |s| > 0
    requires forall j :: 0 <= j < |s| ==> s[j].count == s[0].count
    ensures BestIndex(s) == 0
  {
  }

  /** When all counts are equal the sort keeps the order, so the first two entries are picked. */
  lemma PickEqualCounts(s: seq<Share>)
    requires |s| >= 2
    requires forall j :: 0 <= j < |s| ==> s[j].count == s[0].count
    ensures Pick(s) == LangInfo(s[0].lang, Some(s[1].lang))
  {
    BestOfEqualCounts(s);
    var r := RemoveAt(s, 0);
    assert r == s[1..];
    BestOfEqualCounts(r);
  }

  /** One entry with a positive count, all others zero: it comes first, then the first of the rest. */
  lemma PickSingle(s: seq<Share>, k: nat)
    requires |s| >= 2 && k < |s| && s[k].count > 0
    requires forall j :: 0 <= j < |s| && j != k ==> s[j].count == 0
    ensures Pick(s) == LangInfo(s[k].lang, Some(if k == 0 then s[1].lang else s[0].lang))
  {
    assert BestIndex(s) == k;
    var r := RemoveAt(s, k);
    forall j | 0 <= j < |r| ensures r[j].count == 0 {
      assert r[j] == if j < k then s[j] else s[j + 1];
    }
    BestOfEqualCounts(r);
    assert r[0] == if k == 0 then s[1] else s[0];
  }
}
