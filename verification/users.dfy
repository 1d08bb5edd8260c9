/**
 The user package's own logic: the primary key derived from a user's ID,
 and the validation of a user and of its family members into a validator.
 Go's `len` on a string counts UTF-8 bytes, and `fmt.Sprintf("%d")` writes
 decimal digits; both are spelled out here because validation keys and the
 country-code rule depend on them.
 */
module Users {
  import opened Basics
  import opened Entities
  import opened Attributes
  import opened Validation

  /** A primary key: attribute name to value. */
  type Key = map<string, Value>

  /** `GetKey`: the single-attribute primary key holding the user's ID. */
  function GetKey(u: User): (k: Key)
    ensures forall a :: a in k <==> a == KeyAttribute
    ensures KeyAttribute == "userID"
    ensures k[KeyAttribute] == S(u.id)
  {
    map[KeyAttribute := S(u.id)]
  }

  /** Two users get the same key exactly when they have the same ID; nothing else about them matters. */
  lemma GetKeyIdentifies(u: User, w: User)
    ensures GetKey(u) == GetKey(w) <==> u.id == w.id
  {
    if GetKey(u) == GetKey(w) {
      assert GetKey(u)[KeyAttribute] == GetKey(w)[KeyAttribute];
    }
  }

  // ---------------------------------------------------------------------------
  // Byte length and decimal formatting

  /** Bytes the UTF-8 encoding of `c` takes. */
  function Utf8Width(c: char): nat {
    if c as int < 0x80 then 1
    else if c as int < 0x800 then 2
    else if c as int < 0x1_0000 then 3
    else 4
  }

  /** Go's `len(s)`: the number of bytes of the UTF-8 encoding. */
  function ByteLength(s: string): nat {
    if |s| == 0 then 0 else Utf8Width(s[0]) + ByteLength(s[1..])
  }

  lemma {:induction false} ByteLengthAtLeastLength(s: string)
    ensures ByteLength(s) >= |s|
    ensures ByteLength(s) == |s| <==> forall i :: 0 <= i < |s| ==> s[i] as int < 0x80
  {
    if |s| > 0 {
      ByteLengthAtLeastLength(s[1..]);
      assert forall i :: 1 <= i < |s| ==> s[i] == s[1..][i - 1];
    }
  }

  /** The country-code rule accepts two ASCII characters, or one character that takes two bytes. */
  lemma {:induction false} TwoBytes(s: string)
    ensures ByteLength(s) == 2 <==>
      (|s| == 2 && s[0] as int < 0x80 && s[1] as int < 0x80) ||
      (|s| == 1 && 0x80 <= s[0] as int < 0x800)
  {
    ByteLengthAtLeastLength(s);
    if |s| == 2 {
      ByteLengthAtLeastLength(s[1..]);
      assert ByteLength(s[1..][1..]) == 0;
    }
  }

  function Digit(d: nat): (c: char)
    requires d < 10
    ensures '0' <= c <= '9'
  {
    ('0' as int + d) as char
  }

  /** `fmt.Sprintf("%d", n)` for a non-negative `n`. */
  function Decimal(n: nat): (r: string)
    ensures |r| >= 1
    ensures n >= 10 ==> |r| >= 2
    ensures forall i :: 0 <= i < |r| ==> '0' <= r[i] <= '9'
  {
    if n < 10 then [Digit(n)] else Decimal(n / 10) + [Digit(n % 10)]
  }

  /** Different numbers print differently. */
  lemma {:induction false} DecimalInjective(a: nat, b: nat)
    requires Decimal(a) == Decimal(b)
    ensures a == b
  {
    var da, db := Decimal(a), Decimal(b);
    if a < 10 && b < 10 {
      assert da[0] == db[0];
    } else if a >= 10 && b >= 10 {
      assert da[|da| - 1] == db[|db| - 1];
      assert Decimal(a / 10) == da[..|da| - 1] == db[..|db| - 1] == Decimal(b / 10);
      DecimalInjective(a / 10, b / 10);
    }
  }

  /** The number of leading decimal digits of `s`. */
  function LeadingDigits(s: string): nat {
    if |s| > 0 && '0' <= s[0] <= '9' then 1 + LeadingDigits(s[1..]) else 0
  }

  lemma {:induction false} LeadingDigitsOfNumber(a: string, x: string)
    requires forall i :: 0 <= i < |a| ==> '0' <= a[i] <= '9'
    requires |x| > 0 && x[0] == '_'
    ensures LeadingDigits(a + x) == |a|
  {
    if |a| > 0 {
      assert (a + x)[1..] == a[1..] + x;
      LeadingDigitsOfNumber(a[1..], x);
    }
  }

  /**
   A string of digits followed by `_…` splits uniquely: equal concatenations
   have equal digit parts and equal tails.
   */
  lemma DigitsThenUnderscore(a: string, x: string, b: string, y: string)
    requires forall i :: 0 <= i < |a| ==> '0' <= a[i] <= '9'
    requires forall i :: 0 <= i < |b| ==> '0' <= b[i] <= '9'
    requires |x| > 0 && x[0] == '_' && |y| > 0 && y[0] == '_'
    requires a + x == b + y
    ensures a == b && x == y
  {
    LeadingDigitsOfNumber(a, x);
    LeadingDigitsOfNumber(b, y);
    assert a == (a + x)[..|a|] == (b + y)[..|b|] == b;
    assert x == (a + x)[|a|..] == (b + y)[|b|..] == y;
  }

  // ---------------------------------------------------------------------------
  // Validation keys

  const TypeSuffix: string := "_type"
  const FirstNameSuffix: string := "_first_name"
  const DependentPrefix: string := "dependent_"

  /** The prefix of the dependent at 0-based index `i`: `dependent_{i+1}`. */
  function DependentLabel(i: nat): string {
    DependentPrefix + Decimal(i + 1)
  }

  /** The keys the top-level checks use. */
  const TopLevelKeys: set<string> :=
    {"email", "first_name", "country_code_alpha_2", "province_code", "spouse"}

  /** Distinct dependents, and the two checks of one dependent, never share a key. */
  lemma {:induction false} DependentKeysIdentify(i: nat, j: nat, s: string, t: string)
    requires s in {TypeSuffix, FirstNameSuffix} && t in {TypeSuffix, FirstNameSuffix}
    requires DependentLabel(i) + s == DependentLabel(j) + t
    ensures i == j && s == t
  {
    var a, b := Decimal(i + 1), Decimal(j + 1);
    assert DependentLabel(i) + s == DependentPrefix + (a + s);
    assert DependentLabel(j) + t == DependentPrefix + (b + t);
    assert a + s == (DependentLabel(i) + s)[|DependentPrefix|..];
    assert b + t == (DependentLabel(j) + t)[|DependentPrefix|..];
    DigitsThenUnderscore(a, s, b, t);
    DecimalInjective(i + 1, j + 1);
  }

  /** A dependent's keys record the generic message. */
  lemma DependentKeyMessages(i: nat)
    ensures MessageFor(DependentLabel(i) + TypeSuffix) == "must be provided"
    ensures MessageFor(DependentLabel(i) + FirstNameSuffix) == "must be provided"
  {
    DependentKeysApart(i, TypeSuffix, "email");
    DependentKeysApart(i, TypeSuffix, "country_code_alpha_2");
    DependentKeysApart(i, FirstNameSuffix, "email");
    DependentKeysApart(i, FirstNameSuffix, "country_code_alpha_2");
  }

  /** A dependent's key never equals a top-level or spouse key. */
  lemma DependentKeysApart(i: nat, s: string, k: string)
    requires s in {TypeSuffix, FirstNameSuffix}
    requires k in TopLevelKeys || k in {"spouse" + TypeSuffix, "spouse" + FirstNameSuffix}
    ensures DependentLabel(i) + s != k
  {
    assert (DependentLabel(i) + s)[0] == 'd';
  }

  // ---------------------------------------------------------------------------
  // Validation

  /** The family-member check that fails under key `k` for a member prefixed `prefix`. */
  predicate MemberFailure(m: FamilyMember, prefix: string, k: string) {
    || (k == prefix + TypeSuffix && m.kind == "")
    || (k == prefix + FirstNameSuffix && m.firstName == "")
  }

  /** Some dependent fails under key `k`. */
  ghost predicate DependentFailure(deps: seq<FamilyMember>, k: string) {
    exists i :: 0 <= i < |deps| && MemberFailure(deps[i], DependentLabel(i), k)
  }

  /** Every rule a user breaks, by the key its failure is recorded under. */
  ghost predicate UserFailure(u: User, emailRx: string -> bool, k: string) {
    || (k == "email" && !emailRx(u.email))
    || (k == "first_name" && u.firstName == "")
    || (k == "country_code_alpha_2" && ByteLength(u.countryCodeAlpha2) != 2)
    || (k == "province_code" && u.provinceCode == "")
    || (u.isMarried && u.spouse.None? && k == "spouse")
    || (u.isMarried && u.spouse.Some? && MemberFailure(u.spouse.value, "spouse", k))
    || DependentFailure(u.dependents.Elements(), k)
  }

  /** The message each key's rule records. */
  function MessageFor(k: string): string {
    if k == "email" then "must be valid"
    else if k == "country_code_alpha_2" then "must be two letters"
    else "must be provided"
  }

  /** `ValidateFamilyMember`: checks the member's type and first name, under the caller's prefix. */
  function ValidateFamilyMember(v: Validator, m: FamilyMember, prefix: string): (r: Validator)
    ensures Extends(v, r)
    ensures forall k :: k in r.errors <==> k in v.errors || MemberFailure(m, prefix, k)
    ensures forall k :: k in r.errors && k !in v.errors ==> r.errors[k] == "must be provided"
  {
    var v1 := Check(v, m.kind != "", prefix + TypeSuffix, "must be provided");
    Check(v1, m.firstName != "", prefix + FirstNameSuffix, "must be provided")
  }

  /** The loop over `Dependents`, from index `i` on. */
  function ValidateDependents(v: Validator, deps: seq<FamilyMember>, i: nat): (r: Validator)
    requires i <= |deps|
    ensures Extends(v, r)
    ensures forall k :: k in r.errors <==>
      k in v.errors || exists j :: i <= j < |deps| && MemberFailure(deps[j], DependentLabel(j), k)
    ensures forall k :: k in r.errors && k !in v.errors ==> r.errors[k] == MessageFor(k)
    decreases |deps| - i
  {
    if i == |deps| then v
    else
      DependentKeyMessages(i);
      ValidateDependents(ValidateFamilyMember(v, deps[i], DependentLabel(i)), deps, i + 1)
  }

  /** The identity checks: a valid email and a first name. */
  function ValidateIdentity(v: Validator, u: User, emailRx: string -> bool): (r: Validator)
    ensures Extends(v, r)
    ensures forall k :: k in r.errors <==> (k in v.errors ||
      (k == "email" && !emailRx(u.email)) || (k == "first_name" && u.firstName == ""))
    ensures forall k :: k in r.errors && k !in v.errors ==> r.errors[k] == MessageFor(k)
  {
    var v1 := Check(v, emailRx(u.email), "email", "must be valid");
    Check(v1, u.firstName != "", "first_name", "must be provided")
  }

  /** The region checks: a two-byte country code and a province code. */
  function ValidateRegion(v: Validator, u: User): (r: Validator)
    ensures Extends(v, r)
    ensures forall k :: k in r.errors <==> (k in v.errors ||
      (k == "country_code_alpha_2" && ByteLength(u.countryCodeAlpha2) != 2) ||
      (k == "province_code" && u.provinceCode == ""))
    ensures forall k :: k in r.errors && k !in v.errors ==> r.errors[k] == MessageFor(k)
  {
    var v1 := Check(v, ByteLength(u.countryCodeAlpha2) == 2, "country_code_alpha_2", "must be two letters");
    Check(v1, u.provinceCode != "", "province_code", "must be provided")
  }

  /** The spouse checks, made only for a married user. */
  function ValidateSpouse(v: Validator, u: User): (r: Validator)
    ensures Extends(v, r)
    ensures forall k :: k in r.errors <==> (k in v.errors ||
      (u.isMarried && u.spouse.None? && k == "spouse") ||
      (u.isMarried && u.spouse.Some? && MemberFailure(u.spouse.value, "spouse", k)))
    ensures forall k :: k in r.errors && k !in v.errors ==> r.errors[k] == MessageFor(k)
  {
    if u.isMarried then
      var w := Check(v, u.spouse.Some?, "spouse", "must be provided");
      if u.spouse.Some? then ValidateFamilyMember(w, u.spouse.value, "spouse") else w
    else v
  }

  /**
   `ValidateUser`: runs every check, none short-circuiting. The spouse is
   looked at only for a married user; dependents are checked whether or not
   the user is married. The user's last name is not checked.
   */
  function ValidateUser(v: Validator, u: User, emailRx: string -> bool): (r: Validator)
    ensures Extends(v, r)
    ensures forall k :: k in r.errors <==> k in v.errors || UserFailure(u, emailRx, k)
    ensures forall k :: k in r.errors && k !in v.errors ==> r.errors[k] == MessageFor(k)
  {
    var v5 := ValidateSpouse(ValidateRegion(ValidateIdentity(v, u, emailRx), u), u);
    if u.dependents.Slice? then ValidateDependents(v5, u.dependents.items, 0) else v5
  }
}

module UserScenarios {
  import opened Basics
  import opened Entities
  import opened Validation
  import opened Users

  /** Validating into a fresh validator records exactly the broken rules, each with its message. */
  lemma FreshValidation(u: User, emailRx: string -> bool, e: map<string, string>)
    requires forall k :: UserFailure(u, emailRx, k) <==> k in e
    requires forall k :: k in e ==> e[k] == MessageFor(k)
    ensures ValidateUser(New(), u, emailRx).errors == e
  {
    var v := New();
    var r := ValidateUser(v, u, emailRx);
    assert forall k :: k !in v.errors;
    assert forall k :: k in r.errors <==> k in e;
    assert forall k :: k in e ==> r.errors[k] == e[k];
    MapsAgree(r.errors, e);
  }

  lemma MapsAgree(a: map<string, string>, b: map<string, string>)
    requires forall k :: k in a <==> k in b
    requires forall k :: k in b ==> a[k] == b[k]
    ensures a == b
  {
  }

  /**
   A user who satisfies every rule passes validation, whatever the fields no
   rule reads hold (its last name, income, goals, …).
   */
  lemma ValidUserPasses(u: User, emailRx: string -> bool)
    requires emailRx(u.email) && u.firstName == "John"
    requires u.countryCodeAlpha2 == "US" && u.provinceCode == "CA"
    requires u.isMarried && u.spouse == Some(FamilyMember("spouse", "Jane", "Doe", "", "", ""))
    requires u.dependents == Nil
    ensures ValidateUser(New(), u, emailRx).errors == map[]
  {
    var r := ValidateUser(New(), u, emailRx);
    TwoBytes(u.countryCodeAlpha2);
    assert forall k :: k !in r.errors;
  }

  /** Every top-level rule broken at once records all five keys, nothing else, and no check stops the others. */
  lemma InvalidUserFailsEverywhere(u: User, emailRx: string -> bool)
    requires !emailRx(u.email) && u.firstName == ""
    requires u.countryCodeAlpha2 == "USA" && u.provinceCode == ""
    requires u.isMarried && u.spouse == None && u.dependents == Nil
    ensures ValidateUser(New(), u, emailRx).errors == map[
        "email" := "must be valid",
        "first_name" := "must be provided",
        "country_code_alpha_2" := "must be two letters",
        "province_code" := "must be provided",
        "spouse" := "must be provided"]
  {
    var e := map[
        "email" := "must be valid",
        "first_name" := "must be provided",
        "country_code_alpha_2" := "must be two letters",
        "province_code" := "must be provided",
        "spouse" := "must be provided"];
    ByteLengthAtLeastLength(u.countryCodeAlpha2);
    assert u.dependents.Elements() == [];
    forall k ensures UserFailure(u, emailRx, k) <==> k in e {
      assert !DependentFailure([], k);
    }
    FreshValidation(u, emailRx, e);
  }

  lemma FirstDependentLabels()
    ensures DependentLabel(0) == "dependent_1" && DependentLabel(1) == "dependent_2"
  {
    assert Decimal(1) == "1" && Decimal(2) == "2";
  }

  /** The failures of the test's two dependents: the first lacks a first name, the second a type. */
  lemma TwoDependents(deps: seq<FamilyMember>)
    requires deps == [FamilyMember("dependent", "", "", "", "", ""), FamilyMember("", "John", "Doe", "", "", "")]
    ensures forall k :: DependentFailure(deps, k) <==> k == "dependent_1_first_name" || k == "dependent_2_type"
  {
    FirstDependentLabels();
    forall k ensures DependentFailure(deps, k) <==> k == "dependent_1_first_name" || k == "dependent_2_type" {
      assert MemberFailure(deps[0], DependentLabel(0), k) <==> k == "dependent_1_first_name";
      assert MemberFailure(deps[1], DependentLabel(1), k) <==> k == "dependent_2_type";
    }
  }

  /** Family members are checked under the prefixes `spouse`, `dependent_1`, `dependent_2`, … */
  lemma InvalidFamilyMembersReported(u: User, emailRx: string -> bool)
    requires emailRx(u.email) && u.firstName == "John"
    requires u.countryCodeAlpha2 == "US" && u.provinceCode == "CA"
    requires u.isMarried && u.spouse == Some(FamilyMember("spouse", "", "Doe", "", "", ""))
    requires u.dependents == Slice([FamilyMember("dependent", "", "", "", "", ""),
                                    FamilyMember("", "John", "Doe", "", "", "")])
    ensures ValidateUser(New(), u, emailRx).errors == map[
        "spouse_first_name" := "must be provided",
        "dependent_1_first_name" := "must be provided",
        "dependent_2_type" := "must be provided"]
  {
    var e := map[
        "spouse_first_name" := "must be provided",
        "dependent_1_first_name" := "must be provided",
        "dependent_2_type" := "must be provided"];
    TwoBytes(u.countryCodeAlpha2);
    TwoDependents(u.dependents.Elements());
    assert "spouse" + FirstNameSuffix == "spouse_first_name";
    forall k ensures UserFailure(u, emailRx, k) <==> k in e {
      assert MemberFailure(u.spouse.value, "spouse", k) <==> k == "spouse_first_name";
    }
    FreshValidation(u, emailRx, e);
  }

  /**
   Validation reads only the email, first name, country and province codes,
   marital status, spouse and dependents: users that agree on those validate
   alike, so the last name in particular is never checked.
   */
  lemma {:induction false} UnreadFieldsIgnored(v: Validator, u: User, w: User, emailRx: string -> bool)
    requires u.email == w.email && u.firstName == w.firstName
    requires u.countryCodeAlpha2 == w.countryCodeAlpha2 && u.provinceCode == w.provinceCode
    requires u.isMarried == w.isMarried && u.spouse == w.spouse && u.dependents == w.dependents
    ensures ValidateUser(v, u, emailRx) == ValidateUser(v, w, emailRx)
  {
  }

  /** An unmarried user's spouse is never examined. */
  lemma {:induction false} SpouseIgnoredUnlessMarried(v: Validator, u: User, spouse: Option<FamilyMember>, emailRx: string -> bool)
    requires !u.isMarried
    ensures ValidateUser(v, u, emailRx) == ValidateUser(v, u.(spouse := spouse), emailRx)
  {
  }
}
