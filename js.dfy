/**
 * The few JavaScript built-ins the scoring engine leans on: truthiness, the
 * UTF-16 view of a string, `String.prototype.includes` and
 * `String.prototype.toUpperCase`.
 *
 * A JavaScript string is modelled as a Dafny `string`, a sequence of Unicode
 * scalar values; `for (const c of text)` visits exactly these characters, while
 * `text.length` and `text.charCodeAt(i)` see the UTF-16 encoding `Utf16(text)`.
 */
module Js {

  /** A JavaScript value, as far as the engine looks at one. */
  datatype Value = Undefined | Null | Bool(b: bool) | Number(x: real) | NaN | Str(s: string)

  /** The exception the source throws (every throw in the core is a `TypeError`). */
  datatype Error = TypeError(message: string)

  /** ToBoolean, section 7.1.2 of ECMA-262. */
  predicate Truthy(v: Value) {
    match v
    case Undefined => false
    case Null => false
    case NaN => false
    case Bool(b) => b
    case Number(x) => x != 0.0
    case Str(s) => s != ""
  }

  // ---------------------------------------------------------------- UTF-16

  /** The UTF-16 code units of one scalar value (section 3.9 of the Unicode Standard). */
  function Units(c: char): (u: seq<int>)
    ensures |u| == (if c as int < 0x1_0000 then 1 else 2)
    ensures forall k :: 0 <= k < |u| ==> 0 <= u[k] < 0x1_0000
  {
    if c as int < 0x1_0000 then [c as int]
    else [0xD800 + (c as int - 0x1_0000) / 0x400, 0xDC00 + (c as int - 0x1_0000) % 0x400]
  }

  /** The code units `charCodeAt` walks through. */
  function Utf16(s: string): (u: seq<int>)
    ensures forall k :: 0 <= k < |u| ==> 0 <= u[k] < 0x1_0000
  {
    if s == [] then [] else Units(s[0]) + Utf16(s[1..])
  }

  /** `text.length`: the number of UTF-16 code units. */
  function Utf16Length(s: string): nat {
    |Utf16(s)|
  }

  /** Every scalar value takes one or two code units. */
  lemma {:induction false} Utf16LengthBounds(s: string)
    ensures |s| <= Utf16Length(s) <= 2 * |s|
  {
    if s != [] {
      Utf16LengthBounds(s[1..]);
    }
  }

  /** A text of astral-plane characters only is twice as long in code units. */
  lemma {:induction false} Utf16LengthAstral(s: string)
    requires forall k :: 0 <= k < |s| ==> s[k] as int >= 0x1_0000
    ensures Utf16Length(s) == 2 * |s|
  {
    if s != [] {
      Utf16LengthAstral(s[1..]);
    }
  }

  /** Utf16 distributes over concatenation. */
  lemma {:induction false} Utf16Append(a: string, b: string)
    ensures Utf16(a + b) == Utf16(a) + Utf16(b)
  {
    if a != [] {
      assert (a + b)[0] == a[0] && (a + b)[1..] == a[1..] + b;
      Utf16Append(a[1..], b);
      calc {
        Utf16(a + b);
        Units(a[0]) + Utf16(a[1..] + b);
        Units(a[0]) + (Utf16(a[1..]) + Utf16(b));
        (Units(a[0]) + Utf16(a[1..])) + Utf16(b);
        Utf16(a) + Utf16(b);
      }
    } else {
      assert a + b == b;
    }
  }

  /** Decoding a code-unit sequence back into scalar values, as the string iterator does. */
  function Decode(u: seq<int>): seq<int>
  {
    if u == [] then []
    else if |u| >= 2 && 0xD800 <= u[0] <= 0xDBFF && 0xDC00 <= u[1] <= 0xDFFF then
      [0x1_0000 + (u[0] - 0xD800) * 0x400 + (u[1] - 0xDC00)] + Decode(u[2..])
    else [u[0]] + Decode(u[1..])
  }

  /** The string iterator recovers exactly the characters that were encoded. */
  lemma {:induction false} DecodeUtf16(s: string)
    ensures Decode(Utf16(s)) == seq(|s|, k requires 0 <= k < |s| => s[k] as int)
  {
    if s != [] {
      DecodeUtf16(s[1..]);
      var rest := Utf16(s[1..]);
      assert Utf16(s) == Units(s[0]) + rest;
      if s[0] as int < 0x1_0000 {
        assert !(0xD800 <= s[0] as int <= 0xDFFF);
        assert (Units(s[0]) + rest)[1..] == rest;
      } else {
        assert (Units(s[0]) + rest)[2..] == rest;
      }
    }
  }

  // ---------------------------------------------------------------- includes

  /**
   * `s.includes(w)`. JavaScript compares code units; on well-formed strings that
   * is the same as comparing characters, because a match can neither start on a
   * low surrogate nor end on a high one.
   */
  predicate Includes(s: string, w: string) {
    exists i | 0 <= i <= |s| :: OccursAt(s, w, i)
  }

  /** `w` occurs in `s` starting at index `i`. */
  predicate OccursAt(s: string, w: string, i: int) {
    0 <= i <= |s| - |w| && s[i..i + |w|] == w
  }

  /** Adding text on either side keeps every occurrence. */
  lemma IncludesWidened(s: string, w: string, before: string, after: string)
    requires Includes(s, w)
    ensures Includes(before + s + after, w)
  {
    var i :| 0 <= i <= |s| && OccursAt(s, w, i);
    assert 0 <= i <= |s| - |w| && s[i..i + |w|] == w;
    var t := before + s + after;
    var j := |before| + i;
    assert t[j..j + |w|] == s[i..i + |w|];
    assert OccursAt(t, w, j);
  }

  // ---------------------------------------------------------------- toUpperCase

  /**
   * The non-ASCII characters whose full upper-case mapping (UnicodeData.txt
   * and the unconditional rows of SpecialCasing.txt) is made of `A`-`Z` only:
   * sharp s, dotless i, long s and the seven Latin ligatures U+FB00-U+FB06.
   */
  predicate FoldsToAscii(c: char) {
    c == SharpS || c == DotlessI || c == LongS || '\U{FB00}' <= c <= '\U{FB06}'
  }

  /** U+00DF LATIN SMALL LETTER SHARP S, upper-cased to `SS`. */
  const SharpS: char := '\U{00DF}'
  /** U+0131 LATIN SMALL LETTER DOTLESS I, upper-cased to `I`. */
  const DotlessI: char := '\U{0131}'
  /** U+017F LATIN SMALL LETTER LONG S, upper-cased to `S`. */
  const LongS: char := '\U{017F}'

  /** The upper-case form of a character of `FoldsToAscii`. */
  function Folded(c: char): (u: string)
    requires FoldsToAscii(c)
    ensures u != []
  {
    if c == SharpS then "SS"
    else if c == DotlessI then "I"
    else if c == LongS then "S"
    else if c == '\U{FB00}' then "FF"
    else if c == '\U{FB01}' then "FI"
    else if c == '\U{FB02}' then "FL"
    else if c == '\U{FB03}' then "FFI"
    else if c == '\U{FB04}' then "FFL"
    else "ST"
  }

  /** `s` is made of the letters `A`-`Z` only. */
  predicate AllAsciiUpper(s: string) {
    forall k :: 0 <= k < |s| ==> 'A' <= s[k] <= 'Z'
  }

  /** A character whose upper-case form is made of `A`-`Z` only. */
  predicate UpperIsAscii(c: char) {
    'a' <= c <= 'z' || 'A' <= c <= 'Z' || FoldsToAscii(c)
  }

  /**
   * The upper-case form of one character: ASCII letters and the characters of
   * `FoldsToAscii` are mapped as JavaScript maps them, and every other
   * character is left unchanged.
   */
  function UpperChar(c: char): (u: string)
    ensures u != []
  {
    if 'a' <= c <= 'z' then [(c as int - 32) as char]
    else if FoldsToAscii(c) then Folded(c)
    else [c]
  }

  /** A character's upper-case form is made of `A`-`Z` only exactly for the characters of `UpperIsAscii`. */
  lemma UpperCharAscii(c: char)
    ensures AllAsciiUpper(UpperChar(c)) <==> UpperIsAscii(c)
  {
    if FoldsToAscii(c) {
      assert AllAsciiUpper(Folded(c));
    } else if !UpperIsAscii(c) {
      assert UpperChar(c)[0] == c;
    }
  }

  /** `s.toUpperCase()`: the upper-case forms of the characters, in order. */
  function ToUpperCase(s: string): (r: string)
    ensures s == [] <==> r == []
  {
    if s == [] then [] else UpperChar(s[0]) + ToUpperCase(s[1..])
  }

  /** Upper-casing works character by character, so it distributes over concatenation. */
  lemma {:induction false} ToUpperCaseAppend(a: string, b: string)
    ensures ToUpperCase(a + b) == ToUpperCase(a) + ToUpperCase(b)
  {
    if a != [] {
      assert (a + b)[0] == a[0];
      assert (a + b)[1..] == a[1..] + b;
      ToUpperCaseAppend(a[1..], b);
      assert UpperChar(a[0]) + (ToUpperCase(a[1..]) + ToUpperCase(b))
          == (UpperChar(a[0]) + ToUpperCase(a[1..])) + ToUpperCase(b);
    } else {
      assert a + b == b;
    }
  }

  /**
   * The upper-case form of a key is made of `A`-`Z` only exactly when each of
   * its characters is an ASCII letter, sharp s, dotless i, long s or a Latin
   * ligature; so these are the keys an upper-case name can be looked up by.
   */
  lemma {:induction false} UpperAsciiIff(s: string)
    ensures AllAsciiUpper(ToUpperCase(s)) <==> forall k :: 0 <= k < |s| ==> UpperIsAscii(s[k])
  {
    if s != [] {
      UpperAsciiIff(s[1..]);
      UpperCharAscii(s[0]);
      var head := UpperChar(s[0]);
      var tail := ToUpperCase(s[1..]);
      assert forall k :: 0 <= k < |head| ==> (head + tail)[k] == head[k];
      assert forall k :: 0 <= k < |tail| ==> (head + tail)[|head| + k] == tail[k];
      assert forall k :: 1 <= k < |s| ==> s[k] == s[1..][k - 1];
    }
  }

  /** A name made only of `A`-`Z` is its own upper-case form. */
  lemma {:induction false} ToUpperCaseFixesUpper(s: string)
    requires AllAsciiUpper(s)
    ensures ToUpperCase(s) == s
  {
    if s != [] {
      ToUpperCaseFixesUpper(s[1..]);
    }
  }

  /** Upper-casing twice is upper-casing once. */
  lemma {:induction false} ToUpperCaseIdempotent(s: string)
    ensures ToUpperCase(ToUpperCase(s)) == ToUpperCase(s)
  {
    if s != [] {
      var head := UpperChar(s[0]);
      ToUpperCaseAppend(head, ToUpperCase(s[1..]));
      ToUpperCaseIdempotent(s[1..]);
      if UpperIsAscii(s[0]) {
        UpperCharAscii(s[0]);
        ToUpperCaseFixesUpper(head);
      } else {
        assert head == [s[0]];
        assert ToUpperCase(head) == head;
      }
    }
  }
}
