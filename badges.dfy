/** The `Badge` enum and the verification-badge mapping done while reading a post. */
module Badges {
  import opened Wrappers
  import opened Js
  import opened Enums

  /** The constructor arguments of `Badge`, in declaration order. */
  const BadgeArgs: seq<Value> := [Str("ORIGINAL"), Str("BLUE"), Str("BUSINESS"), Str("GOVERNMENT")]

  /** The enum those arguments build. */
  const Badge: Enum := Enum(
    ["ORIGINAL", "BLUE", "BUSINESS", "GOVERNMENT"],
    map["ORIGINAL" := "ORIGINAL", "BLUE" := "BLUE", "BUSINESS" := "BUSINESS", "GOVERNMENT" := "GOVERNMENT"])

  /** Building `Badge` does not throw, and yields exactly the four names in order. */
  lemma BadgeConstructs()
    ensures Construct(BadgeArgs) == Ok(Badge)
  {
    BadgeArgsAreNames();
    BadgeMembers();
  }

  /** The four arguments are all accepted, and their names are `Badge.values`. */
  lemma BadgeArgsAreNames()
    ensures FirstError(BadgeArgs) == None
    ensures Names(BadgeArgs) == Badge.values
  {
    assert IsName("ORIGINAL") && IsName("BLUE") && IsName("BUSINESS") && IsName("GOVERNMENT");
    AllNamesNoError(BadgeArgs);
  }

  /** `this[v] = v` for each of the four names gives `Badge.members`. */
  lemma BadgeMembers()
    ensures (map n | n in Badge.values :: n) == Badge.members
  {
  }

  lemma BadgeWellFormed()
    ensures WellFormed(Badge)
  {
    BadgeConstructs();
    ConstructWellFormed(BadgeArgs);
  }

  /** `Badge.of('Blue')` is `'BLUE'`. */
  lemma BadgeOfBlue()
    ensures Of(Badge, Str("Blue")) == Ok("BLUE")
  {
    assert ToUpperCase("Blue") == "BLUE";
  }

  /**
   * `Badge.of` accepts exactly the keys whose upper-case form is one of the
   * four names, and returns that name: the case variants of the names, and
   * spellings with sharp s, dotless i, long s or a Latin ligature in them.
   */
  lemma BadgeOfCaseVariants(key: string)
    ensures Of(Badge, Str(key)).Ok? <==> ToUpperCase(key) in Badge.values
    ensures Of(Badge, Str(key)).Ok? ==> Of(Badge, Str(key)).value == ToUpperCase(key)
  {
    BadgeWellFormed();
    OfFindsUpperCase(Badge, key);
    if key == "" {
      assert ToUpperCase(key) == "";
    }
  }

  /** Sharp s upper-cases to `SS`. */
  lemma SharpSUpper()
    ensures ToUpperCase("busine" + [SharpS]) == "BUSINESS"
  {
    UpperJoin("busine", [SharpS], "BUSINE", "SS");
  }

  /** Long s upper-cases to `S`. */
  lemma LongSUpper()
    ensures ToUpperCase("bu" + [LongS] + "iness") == "BUSINESS"
  {
    UpperJoin("bu", [LongS], "BU", "S");
    UpperJoin("bu" + [LongS], "iness", "BUS", "INESS");
  }

  /** Dotless i upper-cases to `I`. */
  lemma DotlessIUpper()
    ensures ToUpperCase("or" + [DotlessI] + "g" + [DotlessI] + "nal") == "ORIGINAL"
  {
    UpperJoin("or", [DotlessI], "OR", "I");
    UpperJoin("or" + [DotlessI], "g", "ORI", "G");
    UpperJoin("or" + [DotlessI] + "g", [DotlessI], "ORIG", "I");
    UpperJoin("or" + [DotlessI] + "g" + [DotlessI], "nal", "ORIGI", "NAL");
  }

  /** Upper-casing two pieces and joining them is upper-casing the whole. */
  lemma UpperJoin(a: string, b: string, ua: string, ub: string)
    requires ToUpperCase(a) == ua && ToUpperCase(b) == ub
    ensures ToUpperCase(a + b) == ua + ub
  {
    ToUpperCaseAppend(a, b);
  }

  /** `Badge.of` accepts `'busineß'`, `'buſiness'` and `'orıgınal'`, as JavaScript upper-cases them onto badge names. */
  lemma BadgeOfFoldedKeys()
    ensures Of(Badge, Str("busine" + [SharpS])) == Ok("BUSINESS")
    ensures Of(Badge, Str("bu" + [LongS] + "iness")) == Ok("BUSINESS")
    ensures Of(Badge, Str("or" + [DotlessI] + "g" + [DotlessI] + "nal")) == Ok("ORIGINAL")
  {
    SharpSUpper();
    LongSUpper();
    DotlessIUpper();
    BadgeOfName("busine" + [SharpS], "BUSINESS");
    BadgeOfName("bu" + [LongS] + "iness", "BUSINESS");
    BadgeOfName("or" + [DotlessI] + "g" + [DotlessI] + "nal", "ORIGINAL");
  }

  /** A key that upper-cases to a badge name finds that name. */
  lemma BadgeOfName(key: string, name: string)
    requires name in Badge.values && ToUpperCase(key) == name
    ensures Of(Badge, Str(key)) == Ok(name)
  {
    BadgeOfCaseVariants(key);
  }

  /** The user flags `Tweet.from` reads to fill in the verification badge. */
  datatype UserFlags = UserFlags(verified: Value, verifiedType: Value, isBlueVerified: Value)

  /**
   * The badge type of `author.verifyStatus`: `None` when `verifyStatus` is set to
   * `null`, otherwise `Badge.of(verified_type || (is_blue_verified ? 'Blue' : null))`,
   * which may throw.
   */
  function VerifyType(u: UserFlags): Result<Option<string>, Error> {
    if Truthy(u.verified) || Truthy(u.verifiedType) || Truthy(u.isBlueVerified) then
      var key := if Truthy(u.verifiedType) then u.verifiedType
                 else if Truthy(u.isBlueVerified) then Str("Blue") else Null;
      match Of(Badge, key)
      case Ok(t) => Ok(Some(t))
      case Err(e) => Err(e)
    else Ok(None)
  }

  /** `verifyStatus` is `null` exactly when none of the three flags is truthy. */
  lemma VerifyTypeNull(u: UserFlags)
    ensures VerifyType(u) == Ok(None) <==> !Truthy(u.verified) && !Truthy(u.verifiedType) && !Truthy(u.isBlueVerified)
  {
  }

  /** A truthy string `verified_type` wins, and the type is its upper-case form when that is a badge. */
  lemma VerifyTypePrefersVerifiedType(u: UserFlags)
    requires Truthy(u.verifiedType) && u.verifiedType.Str?
    ensures VerifyType(u) == (if ToUpperCase(u.verifiedType.s) in Badge.values
                              then Ok(Some(ToUpperCase(u.verifiedType.s)))
                              else Err(NoSuchElement(u.verifiedType.s)))
  {
    BadgeWellFormed();
    OfFindsUpperCase(Badge, u.verifiedType.s);
  }

  /** Only `is_blue_verified` set: the type is `'BLUE'`. */
  lemma VerifyTypeBlueOnly(u: UserFlags)
    requires !Truthy(u.verifiedType) && Truthy(u.isBlueVerified)
    ensures VerifyType(u) == Ok(Some("BLUE"))
  {
    BadgeOfBlue();
  }

  /** Only `verified` set: `Badge.of(null)` throws, so reading the post throws. */
  lemma VerifyTypeLegacyVerifiedThrows(u: UserFlags)
    requires Truthy(u.verified) && !Truthy(u.verifiedType) && !Truthy(u.isBlueVerified)
    ensures VerifyType(u) == Err(InvalidKey)
  {
  }

  /** Whatever the flags, a produced type is one of the four upper-case names, never `'Blue'`. */
  lemma VerifyTypeIsBadgeName(u: UserFlags)
    ensures VerifyType(u).Ok? && VerifyType(u).value.Some? ==> VerifyType(u).value.value in Badge.values
    ensures VerifyType(u) != Ok(Some("Blue"))
  {
    BadgeWellFormed();
    var key := if Truthy(u.verifiedType) then u.verifiedType
               else if Truthy(u.isBlueVerified) then Str("Blue") else Null;
    if key.Str? {
      OfFindsUpperCase(Badge, key.s);
    }
  }
}
