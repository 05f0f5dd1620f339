/**
 * The `Enum` value class: a validated list of upper-case names, each stored as
 * a property whose value is the name itself, and a case-insensitive lookup `of`.
 */
module Enums {
  import opened Wrappers
  import opened Js

  /**
   * A constructed enum: `values` is the argument list, `members` the own
   * properties `this[v] = v` that the constructor adds.
   */
  datatype Enum = Enum(values: seq<string>, members: map<string, string>)

  const NotAString := TypeError("無効な引数: 文字列ではありません")
  const NotUpperCase := TypeError("無効な引数: 各要素は大文字である必要があります")
  const InvalidKey := TypeError("無効な引数: \"key\"")
  const NotAFunction := TypeError("key.toUpperCase is not a function")

  /** The error `of` throws for a key that names no member; the message quotes the key. */
  function NoSuchElement(key: string): Error {
    TypeError("無効な引数: 要素 \"" + key + "\" は存在しません")
  }

  /** `/^[A-Z]+$/.test(s)`. */
  predicate IsName(s: string) {
    |s| > 0 && forall k :: 0 <= k < |s| ==> 'A' <= s[k] <= 'Z'
  }

  /** An argument the constructor accepts. */
  predicate IsNameValue(v: Value) {
    v.Str? && IsName(v.s)
  }

  /** The error the constructor throws for a rejected argument. */
  function ErrorFor(v: Value): Error {
    if !v.Str? then NotAString else NotUpperCase
  }

  /** The error of the first rejected argument, if any. */
  function FirstError(args: seq<Value>): Option<Error> {
    if args == [] then None
    else if !IsNameValue(args[0]) then Some(ErrorFor(args[0]))
    else FirstError(args[1..])
  }

  /** The names of a list of string arguments. */
  function Names(args: seq<Value>): (names: seq<string>)
    requires forall k :: 0 <= k < |args| ==> args[k].Str?
    ensures |names| == |args|
  {
    seq(|args|, k requires 0 <= k < |args| => args[k].s)
  }

  /** `new Enum(...args)`, as a value. */
  function Construct(args: seq<Value>): Result<Enum, Error> {
    match FirstError(args)
    case Some(e) => Err(e)
    case None =>
      NoErrorMeansNames(args);
      var names := Names(args);
      Ok(Enum(names, map n | n in names :: n))
  }

  lemma {:induction false} NoErrorMeansNames(args: seq<Value>)
    requires FirstError(args) == None
    ensures forall k :: 0 <= k < |args| ==> IsNameValue(args[k])
  {
    if args != [] {
      NoErrorMeansNames(args[1..]);
      forall k | 1 <= k < |args| ensures IsNameValue(args[k]) {
        assert args[k] == args[1..][k - 1];
      }
    }
  }

  lemma {:induction false} FirstErrorAt(args: seq<Value>, i: nat)
    requires i < |args| && !IsNameValue(args[i])
    requires forall k :: 0 <= k < i ==> IsNameValue(args[k])
    ensures FirstError(args) == Some(ErrorFor(args[i]))
  {
    if i > 0 {
      FirstErrorAt(args[1..], i - 1);
    }
  }

  lemma {:induction false} AllNamesNoError(args: seq<Value>)
    requires forall k :: 0 <= k < |args| ==> IsNameValue(args[k])
    ensures FirstError(args) == None
  {
    if args != [] {
      AllNamesNoError(args[1..]);
    }
  }

  /**
   * The constructor: validates the arguments one by one and records
   * `this[v] = v`; the first argument that is not a string or not upper-case
   * throws.
   */
  method NewEnum(args: seq<Value>) returns (r: Result<Enum, Error>)
    ensures r == Construct(args)
  {
    var members: map<string, string> := map[];
    var i := 0;
    while i < |args|
      invariant 0 <= i <= |args|
      invariant forall k :: 0 <= k < i ==> IsNameValue(args[k])
      invariant members == map n | n in Names(args[..i]) :: n
    {
      var value := args[i];
      if !value.Str? || !IsName(value.s) {
        FirstErrorAt(args, i);
        return Err(ErrorFor(value));
      }
      assert Names(args[..i + 1]) == Names(args[..i]) + [value.s];
      members := members[value.s := value.s];
      i := i + 1;
    }
    AllNamesNoError(args);
    assert args[..i] == args;
    r := Ok(Enum(Names(args), members));
  }

  /** Construction succeeds exactly when every argument is an upper-case ASCII name. */
  lemma ConstructSucceedsIff(args: seq<Value>)
    ensures Construct(args).Ok? <==> forall k :: 0 <= k < |args| ==> IsNameValue(args[k])
  {
    if Construct(args).Ok? {
      NoErrorMeansNames(args);
    } else if forall k :: 0 <= k < |args| ==> IsNameValue(args[k]) {
      AllNamesNoError(args);
    }
  }

  /** A built enum keeps its arguments in order and maps each name to itself. */
  lemma ConstructFields(args: seq<Value>)
    requires Construct(args).Ok?
    ensures |Construct(args).value.values| == |args|
    ensures forall k :: 0 <= k < |args| ==> args[k] == Str(Construct(args).value.values[k])
    ensures forall n :: n in Construct(args).value.members <==> n in Construct(args).value.values
    ensures forall n :: n in Construct(args).value.members ==> Construct(args).value.members[n] == n
  {
    NoErrorMeansNames(args);
  }

  /** What a constructed enum looks like: every member is a name standing for itself. */
  ghost predicate WellFormed(e: Enum) {
    && (forall n :: n in e.members <==> n in e.values)
    && (forall n :: n in e.members ==> e.members[n] == n && IsName(n))
  }

  lemma ConstructWellFormed(args: seq<Value>)
    requires Construct(args).Ok?
    ensures WellFormed(Construct(args).value)
  {
    NoErrorMeansNames(args);
  }

  /**
   * `this[name]` for a name that is already upper-case. Every other property of
   * the object (`values`, `of`, `constructor` and those of `Object.prototype`)
   * has a lower-case letter in its name, so only the members can be reached.
   */
  function Property(e: Enum, name: string): Value {
    if name in e.members then Str(e.members[name]) else Undefined
  }

  /** `Enum.prototype.of(key)`. */
  function Of(e: Enum, key: Value): Result<string, Error> {
    if !Truthy(key) then Err(InvalidKey)
    else if !key.Str? then Err(NotAFunction)
    else
      var value := Property(e, ToUpperCase(key.s));
      if !Truthy(value) then Err(NoSuchElement(key.s)) else Ok(value.s)
  }

  /** Lookup is case-insensitive: a key is found exactly when its upper-case form is a member, which is returned. */
  lemma OfFindsUpperCase(e: Enum, key: string)
    requires WellFormed(e)
    ensures Of(e, Str(key)).Ok? <==> key != "" && ToUpperCase(key) in e.values
    ensures Of(e, Str(key)).Ok? ==> Of(e, Str(key)).value == ToUpperCase(key)
  {
    if key == "" {
      assert ToUpperCase(key) == "";
    }
  }

  /** A falsy key (`''`, `null`, `undefined`, `0`, `false`, `NaN`) throws. */
  lemma OfRejectsFalsy(e: Enum, key: Value)
    requires !Truthy(key)
    ensures Of(e, key) == Err(InvalidKey)
  {
  }

  /** A string whose upper-case form is not a member throws. */
  lemma OfRejectsNonMember(e: Enum, key: string)
    requires WellFormed(e)
    requires key != "" && ToUpperCase(key) !in e.values
    ensures Of(e, Str(key)) == Err(NoSuchElement(key))
  {
  }

  /** Looking up what `of` returned gives it back. */
  lemma OfIdempotent(e: Enum, key: Value)
    requires WellFormed(e)
    requires Of(e, key).Ok?
    ensures Of(e, Str(Of(e, key).value)) == Of(e, key)
  {
    var n := Of(e, key).value;
    assert n in e.members;
    assert IsName(n);
    ToUpperCaseFixesUpper(n);
  }
}
