/**
 * `haveCommonValues` (src/utils/object.js, and its copy in script/script.js):
 * do two language guesses share a value other than `'unknown'`? The values of
 * a guess are `[primary, secondary]`, with `null` as `None`; `!==` and
 * `Set.prototype.has` on strings and `null` are plain equality.
 */
module CommonValues {
  import opened Wrappers
  import opened Scripts
  import opened Shares

  const UnknownValue: Option<string> := Some("unknown")

  /** A label as a value of the guess: its name, or `null`. */
  function ValueOf(l: Option<Lang>): Option<string> {
    if l.Some? then Some(Name(l.value)) else None
  }

  /** `Object.values({primary, secondary})`. */
  function Values(info: LangInfo): (vs: seq<Option<string>>)
    ensures |vs| == 2
  {
    [ValueOf(Some(info.primary)), ValueOf(info.secondary)]
  }

  lemma ValueOfInjective(x: Option<Lang>, y: Option<Lang>)
    ensures ValueOf(x) == ValueOf(y) <==> x == y
    ensures ValueOf(x) == UnknownValue <==> x == Some(Unknown)
  {
    if x.Some? && y.Some? && Name(x.value) == Name(y.value) {
      NameInjective(x.value, y.value);
    }
    if x.Some? && Name(x.value) == Name(Unknown) {
      NameInjective(x.value, Unknown);
    }
  }

  /** Some value other than `'unknown'` occurs in both lists. */
  predicate ShareValue(values1: seq<Option<string>>, values2: seq<Option<string>>) {
    exists v :: v in values1 && v in values2 && v != UnknownValue
  }

  /** `haveCommonValues(dict1, dict2)` on the two value lists. */
  method HaveCommonValues(values1: seq<Option<string>>, values2: seq<Option<string>>) returns (b: bool)
    ensures b == ShareValue(values1, values2)
  {
    var commonValues: set<Option<string>> := {};
    for i := 0 to |values1|
      invariant commonValues == set k | 0 <= k < i && values1[k] != UnknownValue :: values1[k]
    {
      if values1[i] != UnknownValue {
        commonValues := commonValues + {values1[i]};
      }
    }
    for j := 0 to |values2|
      invariant forall k :: 0 <= k < j ==> values2[k] == UnknownValue || values2[k] !in commonValues
    {
      if values2[j] != UnknownValue && values2[j] in commonValues {
        assert values2[j] in values1 && values2[j] in values2;
        return true;
      }
    }
    return false;
  }

  // ---------------------------------------------------------------- properties

  /** The answer does not depend on which guess comes first. */
  lemma Symmetric(values1: seq<Option<string>>, values2: seq<Option<string>>)
    ensures ShareValue(values1, values2) == ShareValue(values2, values1)
  {
  }

  /**
   * `'unknown'` is never a common value: whatever the two lists, adding
   * `'unknown'` to one of them or to both leaves the answer as it was.
   */
  lemma UnknownNotCommon(values1: seq<Option<string>>, values2: seq<Option<string>>)
    ensures ShareValue(values1 + [UnknownValue], values2 + [UnknownValue]) == ShareValue(values1, values2)
    ensures ShareValue(values1 + [UnknownValue], values2) == ShareValue(values1, values2)
    ensures ShareValue(values1, values2 + [UnknownValue]) == ShareValue(values1, values2)
  {
    forall v | v != UnknownValue
      ensures v in values1 + [UnknownValue] <==> v in values1
      ensures v in values2 + [UnknownValue] <==> v in values2
    {
    }
  }

  /** `null` is an ordinary value: two guesses without a `secondary` always agree. */
  lemma NullIsCommon(a: Lang, b: Lang)
    ensures ShareValue(Values(LangInfo(a, None)), Values(LangInfo(b, None)))
  {
    assert None in Values(LangInfo(a, None)) && None in Values(LangInfo(b, None));
  }

  /** Exchanging `primary` and `secondary` in either guess changes nothing. */
  lemma SwapInvariant(p: Lang, s: Lang, info: LangInfo)
    ensures ShareValue(Values(LangInfo(p, Some(s))), Values(info)) ==
            ShareValue(Values(LangInfo(s, Some(p))), Values(info))
  {
    var v := Values(LangInfo(p, Some(s)));
    var w := Values(LangInfo(s, Some(p)));
    assert forall x :: x in v <==> x in w;
  }

  /** The guesses agree exactly when some label other than `unknown`, or `null`, occurs in both. */
  lemma LabelsInCommon(i1: LangInfo, i2: LangInfo)
    ensures ShareValue(Values(i1), Values(i2)) <==>
      exists x, y :: x in [Some(i1.primary), i1.secondary] && y in [Some(i2.primary), i2.secondary] &&
        x == y && x != Some(Unknown)
  {
    var l1 := [Some(i1.primary), i1.secondary];
    var l2 := [Some(i2.primary), i2.secondary];
    forall j, k | 0 <= j < 2 && 0 <= k < 2
      ensures Values(i1)[j] == Values(i2)[k] <==> l1[j] == l2[k]
      ensures Values(i1)[j] == UnknownValue <==> l1[j] == Some(Unknown)
    {
      ValueOfInjective(l1[j], l2[k]);
    }
    if ShareValue(Values(i1), Values(i2)) {
      var v :| v in Values(i1) && v in Values(i2) && v != UnknownValue;
      var j :| 0 <= j < 2 && Values(i1)[j] == v;
      var k :| 0 <= k < 2 && Values(i2)[k] == v;
      assert l1[j] in l1 && l2[k] in l2;
    }
    if exists x, y :: x in l1 && y in l2 && x == y && x != Some(Unknown) {
      var x, y :| x in l1 && y in l2 && x == y && x != Some(Unknown);
      var j :| 0 <= j < 2 && l1[j] == x;
      var k :| 0 <= k < 2 && l2[k] == y;
      assert Values(i1)[j] in Values(i1) && Values(i2)[k] in Values(i2);
    }
  }
}
