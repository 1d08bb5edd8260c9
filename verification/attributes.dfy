/**
 The user record as stored attributes. Each field of the Go struct carries a
 `dynamodbav` tag naming its attribute; a record in the table is a map from
 attribute names to attribute values. Marshalling writes one attribute per
 field, leaving out the zero-valued fields whose tag says `omitempty`;
 unmarshalling overlays the attributes it recognises onto a starting user,
 and fails on an attribute whose value has the wrong type.
 */
module Attributes {
  import opened Basics
  import opened Entities

  /**
   An attribute value. Nested entities travel as whole values: their own
   attribute-level encoding belongs to the marshalling library and is taken
   to be lossless.
   */
  datatype Value =
    | Null
    | S(s: string)
    | N(n: int64)
    | Bool(b: bool)
    | Member(member: FamilyMember)
    | MemberList(memberItems: seq<FamilyMember>)
    | MilestoneList(milestoneItems: seq<Milestone>)
    | GoalList(goalItems: seq<Goal>)
    | ProtectionList(protectionItems: seq<Protection>)
    | DebtList(debtItems: seq<Debt>)
    | MetaList(metaItems: seq<MetaField>)
    // Values of the `data` package's types, which carry numbers where the
    // user package's types hold strings: no field of `User` accepts them.
    | DataMember(dataMember: DataFamilyMember)
    | DataMemberList(dataMemberItems: seq<DataFamilyMember>)
    | DataDebtList(dataDebtItems: seq<DataDebt>)

  /** A stored record: attribute name to value. */
  type Item = map<string, Value>

  /** The fields of the Go `User` struct, in declaration order. */
  datatype Field =
    | ID | Email | FirstName | LastName | ProvinceCode | CountryCodeAlpha2
    | Currency | AdministrativeDivision | DateOfBirth | Occupation | Income
    | Expenses | FamilyMemberNumber | IsMarried | Spouse | Dependents
    | Milestones | Goals | Protections | Debts | RiskTolerance | CreatedAt
    | Version | Meta

  /** What reflection enumerates, in order. */
  const Fields: seq<Field> :=
    [ID, Email, FirstName, LastName, ProvinceCode, CountryCodeAlpha2,
     Currency, AdministrativeDivision, DateOfBirth, Occupation, Income,
     Expenses, FamilyMemberNumber, IsMarried, Spouse, Dependents,
     Milestones, Goals, Protections, Debts, RiskTolerance, CreatedAt,
     Version, Meta]

  lemma EveryFieldListed(f: Field)
    ensures f in Fields
  {
  }

  /** The Go field name. */
  function GoName(f: Field): string {
    match f
    case ID => "ID"
    case Email => "Email"
    case FirstName => "FirstName"
    case LastName => "LastName"
    case ProvinceCode => "ProvinceCode"
    case CountryCodeAlpha2 => "CountryCodeAlpha2"
    case Currency => "Currency"
    case AdministrativeDivision => "AdministrativeDivision"
    case DateOfBirth => "DateOfBirth"
    case Occupation => "Occupation"
    case Income => "Income"
    case Expenses => "Expenses"
    case FamilyMemberNumber => "FamilyMemberNumber"
    case IsMarried => "IsMarried"
    case Spouse => "Spouse"
    case Dependents => "Dependents"
    case Milestones => "Milestones"
    case Goals => "Goals"
    case Protections => "Protections"
    case Debts => "Debts"
    case RiskTolerance => "RiskTolerance"
    case CreatedAt => "CreatedAt"
    case Version => "Version"
    case Meta => "Meta"
  }

  /** The stored attribute name, from the field's `dynamodbav` tag. */
  function AttributeName(f: Field): string {
    match f
    case ID => "userID"
    case Email => "email"
    case FirstName => "firstName"
    case LastName => "lastName"
    case ProvinceCode => "provinceCode"
    case CountryCodeAlpha2 => "countryCodeAlpha2"
    case Currency => "currency"
    case AdministrativeDivision => "administrativeDivision"
    case DateOfBirth => "dateOfBirth"
    case Occupation => "occupation"
    case Income => "income"
    case Expenses => "expenses"
    case FamilyMemberNumber => "familyMemberNumber"
    case IsMarried => "isMarried"
    case Spouse => "spouse"
    case Dependents => "dependents"
    case Milestones => "milestones"
    case Goals => "goals"
    case Protections => "protections"
    case Debts => "debts"
    case RiskTolerance => "riskTolerance"
    case CreatedAt => "createdAt"
    case Version => "version"
    case Meta => "meta"
  }

  /** The primary-key attribute and the optimistic-concurrency counter. */
  const KeyAttribute: string := AttributeName(ID)
  const VersionAttribute: string := AttributeName(Version)

  /** The field's tag carries `omitempty`: a zero value is left out of the record. */
  predicate OmitEmpty(f: Field) {
    match f
    case ID | Email | FirstName | LastName | ProvinceCode | CountryCodeAlpha2
       | Currency | AdministrativeDivision | CreatedAt | Version => false
    case _ => true
  }

  // ---------------------------------------------------------------------------
  // Finding the field an attribute name fills

  /** The first element of `fs` that satisfies `p`, if there is one. */
  function First<F>(p: F -> bool, fs: seq<F>): (r: Option<F>)
    ensures r.Some? ==> r.value in fs && p(r.value)
    ensures r.None? ==> forall x :: x in fs ==> !p(x)
  {
    if |fs| == 0 then None
    else if p(fs[0]) then Some(fs[0])
    else
      var r := First(p, fs[1..]);
      assert forall x :: x in fs ==> x == fs[0] || x in fs[1..];
      r
  }

  /** `unicode.ToLower` on one character, for the ASCII capitals. */
  function LowerAscii(c: char): (r: char)
    ensures 'A' <= c <= 'Z' ==> r as int == c as int + 32
    ensures !('A' <= c <= 'Z') ==> r == c
  {
    if 'A' <= c <= 'Z' then (c as int + 32) as char else c
  }

  /**
   The character a character folds to when case is ignored, for a comparison
   with ASCII text: each capital folds to its small letter, and the Kelvin
   sign and the long s fold to `k` and `s`, the only other characters whose
   case orbit holds an ASCII letter.
   */
  function FoldChar(c: char): char {
    if c == '\U{212A}' then 'k'
    else if c == '\U{017F}' then 's'
    else LowerAscii(c)
  }

  /**
   `strings.EqualFold(a, b)` for a `b` made of ASCII letters and digits, as
   every attribute name is: the same length, and the same letters ignoring case.
   */
  predicate FoldEqual(a: string, b: string) {
    |a| == |b| && forall i :: 0 <= i < |a| ==> FoldChar(a[i]) == FoldChar(b[i])
  }

  /**
   The decoder's lookup from an attribute name to the field it fills: the
   field whose tag is exactly the name, or else the first whose tag equals it
   ignoring case.
   */
  function FieldOfAttribute(name: string): (r: Option<Field>)
    ensures r.Some? ==> FoldEqual(name, AttributeName(r.value))
    ensures r.None? ==> forall f :: !FoldEqual(name, AttributeName(f))
  {
    var exact := First(f => AttributeName(f) == name, Fields);
    if exact.Some? then
      FoldEqualReflexive(name);
      exact
    else
      AllFieldsListed();
      FirstFolding(name, Fields)
  }

  lemma FoldEqualReflexive(a: string)
    ensures FoldEqual(a, a)
  {
  }

  lemma AllFieldsListed()
    ensures forall f :: f in Fields
  {
    forall f ensures f in Fields { EveryFieldListed(f); }
  }

  /** The first field of `fs` whose tag equals `name` ignoring case. */
  function FirstFolding(name: string, fs: seq<Field>): (r: Option<Field>)
    ensures r.Some? ==> FoldEqual(name, AttributeName(r.value))
    ensures r.None? ==> forall f :: f in fs ==> !FoldEqual(name, AttributeName(f))
  {
    First(f => FoldEqual(name, AttributeName(f)), fs)
  }

  /** Two names equal to a third ignoring case are equal to each other ignoring case. */
  lemma FoldEqualThrough(a: string, b: string, c: string)
    requires FoldEqual(a, b) && FoldEqual(a, c)
    ensures FoldEqual(b, c)
  {
  }

  /** The field whose attribute name has length `n` and, folded, first character `c`. */
  function FieldOfShape(n: int, c: char): Option<Field> {
    if n == 6 then (if c == 'u' then Some(ID) else if c == 'i' then Some(Income) else if c == 's' then Some(Spouse) else None)
    else if n == 5 then (if c == 'e' then Some(Email) else if c == 'g' then Some(Goals) else if c == 'd' then Some(Debts) else None)
    else if n == 9 then (if c == 'f' then Some(FirstName) else if c == 'i' then Some(IsMarried) else if c == 'c' then Some(CreatedAt) else None)
    else if n == 8 then (if c == 'l' then Some(LastName) else if c == 'c' then Some(Currency) else if c == 'e' then Some(Expenses) else None)
    else if n == 11 then (if c == 'd' then Some(DateOfBirth) else if c == 'p' then Some(Protections) else None)
    else if n == 10 then (if c == 'o' then Some(Occupation) else if c == 'd' then Some(Dependents) else if c == 'm' then Some(Milestones) else None)
    else if n == 12 && c == 'p' then Some(ProvinceCode)
    else if n == 17 && c == 'c' then Some(CountryCodeAlpha2)
    else if n == 22 && c == 'a' then Some(AdministrativeDivision)
    else if n == 18 && c == 'f' then Some(FamilyMemberNumber)
    else if n == 13 && c == 'r' then Some(RiskTolerance)
    else if n == 7 && c == 'v' then Some(Version)
    else if n == 4 && c == 'm' then Some(Meta)
    else None
  }

  /** An attribute name's length and folded first character. */
  function Shape(f: Field): (int, char) {
    (|AttributeName(f)|, FoldChar(AttributeName(f)[0]))
  }

  /** Every field is found again from the shape of its attribute name. */
  lemma ShapeIdentifies(f: Field)
    ensures FieldOfShape(Shape(f).0, Shape(f).1) == Some(f)
  {
    match f
    case ID | Email | FirstName | LastName => IdentityShapes();
    case ProvinceCode | CountryCodeAlpha2 | Currency | AdministrativeDivision => LocaleShapes();
    case DateOfBirth | Occupation | Income | Expenses => ProfileShapes();
    case FamilyMemberNumber | IsMarried | Spouse | Dependents => HouseholdShapes();
    case Milestones | Goals | Protections | Debts => PlanningShapes();
    case RiskTolerance | CreatedAt | Version | Meta => RecordShapes();
  }

  lemma IdentityShapes()
    ensures Shape(ID) == (6, 'u') && Shape(Email) == (5, 'e')
    ensures Shape(FirstName) == (9, 'f') && Shape(LastName) == (8, 'l')
  {
  }

  lemma LocaleShapes()
    ensures Shape(ProvinceCode) == (12, 'p') && Shape(CountryCodeAlpha2) == (17, 'c')
    ensures Shape(Currency) == (8, 'c') && Shape(AdministrativeDivision) == (22, 'a')
  {
  }

  lemma ProfileShapes()
    ensures Shape(DateOfBirth) == (11, 'd') && Shape(Occupation) == (10, 'o')
    ensures Shape(Income) == (6, 'i') && Shape(Expenses) == (8, 'e')
  {
  }

  lemma HouseholdShapes()
    ensures Shape(FamilyMemberNumber) == (18, 'f') && Shape(IsMarried) == (9, 'i')
    ensures Shape(Spouse) == (6, 's') && Shape(Dependents) == (10, 'd')
  {
  }

  lemma PlanningShapes()
    ensures Shape(Milestones) == (10, 'm') && Shape(Goals) == (5, 'g')
    ensures Shape(Protections) == (11, 'p') && Shape(Debts) == (5, 'd')
  {
  }

  lemma RecordShapes()
    ensures Shape(RiskTolerance) == (13, 'r') && Shape(CreatedAt) == (9, 'c')
    ensures Shape(Version) == (7, 'v') && Shape(Meta) == (4, 'm')
  {
  }

  /** No two attribute names are equal ignoring case, and none is shorter than four characters. */
  lemma {:induction false} TagsFoldApart(f: Field, g: Field)
    ensures |AttributeName(f)| >= 4
    ensures FoldEqual(AttributeName(f), AttributeName(g)) ==> f == g
  {
    ShapeIdentifies(f);
    ShapeIdentifies(g);
    if FoldEqual(AttributeName(f), AttributeName(g)) {
      assert Shape(f) == Shape(g);
    }
  }

  /**
   The decoder fills field `f` from an attribute exactly when the attribute's
   name is `f`'s tag in some capitalisation.
   */
  lemma {:induction false} FieldOfAttributeFolds(name: string, f: Field)
    ensures FieldOfAttribute(name) == Some(f) <==> FoldEqual(name, AttributeName(f))
  {
    var r := FieldOfAttribute(name);
    if FoldEqual(name, AttributeName(f)) {
      var g := r.value;
      FoldEqualThrough(name, AttributeName(g), AttributeName(f));
      TagsFoldApart(g, f);
    }
  }

  /** Every field is found again from its attribute name. */
  lemma AttributeNamesIdentifyFields(f: Field)
    ensures FieldOfAttribute(AttributeName(f)) == Some(f)
  {
    FieldOfAttributeFolds(AttributeName(f), f);
  }

  lemma AttributeNameInjective()
    ensures forall f, g :: AttributeName(f) == AttributeName(g) ==> f == g
  {
    forall f, g | AttributeName(f) == AttributeName(g)
      ensures f == g
    {
      AttributeNamesIdentifyFields(f);
      AttributeNamesIdentifyFields(g);
    }
  }

  /** The attribute value a field marshals to (`nil` pointers and slices become `Null`). */
  function Encode(u: User, f: Field): Value {
    match f
    case ID => S(u.id)
    case Email => S(u.email)
    case FirstName => S(u.firstName)
    case LastName => S(u.lastName)
    case ProvinceCode => S(u.provinceCode)
    case CountryCodeAlpha2 => S(u.countryCodeAlpha2)
    case Currency => S(u.currency)
    case AdministrativeDivision => S(u.administrativeDivision)
    case DateOfBirth => S(u.dateOfBirth)
    case Occupation => S(u.occupation)
    case Income => S(u.income)
    case Expenses => S(u.expenses)
    case FamilyMemberNumber => N(u.familyMemberNumber)
    case IsMarried => Bool(u.isMarried)
    case Spouse => if u.spouse.None? then Null else Member(u.spouse.value)
    case Dependents => if u.dependents.Nil? then Null else MemberList(u.dependents.items)
    case Milestones => if u.milestones.Nil? then Null else MilestoneList(u.milestones.items)
    case Goals => if u.goals.Nil? then Null else GoalList(u.goals.items)
    case Protections => if u.protections.Nil? then Null else ProtectionList(u.protections.items)
    case Debts => if u.debts.Nil? then Null else DebtList(u.debts.items)
    case RiskTolerance => S(u.riskTolerance)
    case CreatedAt => S(u.createdAt)
    case Version => N(u.version)
    case Meta => if u.meta.Nil? then Null else MetaList(u.meta.items)
  }

  /** Reflection's `IsZero`: the field holds its type's zero value. */
  predicate IsZero(u: User, f: Field) {
    Encode(u, f) == Encode(ZeroUser, f)
  }

  /** The value has the Go type of field `f` (`Null` only for pointers and slices). */
  predicate Typed(f: Field, v: Value) {
    match f
    case FamilyMemberNumber => v.N?
    case Version => v.N?
    case IsMarried => v.Bool?
    case Spouse => v.Null? || v.Member?
    case Dependents => v.Null? || v.MemberList?
    case Milestones => v.Null? || v.MilestoneList?
    case Goals => v.Null? || v.GoalList?
    case Protections => v.Null? || v.ProtectionList?
    case Debts => v.Null? || v.DebtList?
    case Meta => v.Null? || v.MetaList?
    case ID => v.S?
    case Email => v.S?
    case FirstName => v.S?
    case LastName => v.S?
    case ProvinceCode => v.S?
    case CountryCodeAlpha2 => v.S?
    case Currency => v.S?
    case AdministrativeDivision => v.S?
    case DateOfBirth => v.S?
    case Occupation => v.S?
    case Income => v.S?
    case Expenses => v.S?
    case RiskTolerance => v.S?
    case CreatedAt => v.S?
  }

  lemma EncodeTyped(u: User, f: Field)
    ensures Typed(f, Encode(u, f))
  {
  }

  // What a decoded attribute value becomes in a Go field of each type;
  // a value of another type (only `Null` once decoding has checked types)
  // becomes the type's zero value.

  function StrOf(v: Value): string { if v.S? then v.s else "" }
  function IntOf(v: Value): int64 { if v.N? then v.n else 0 }
  function BoolOf(v: Value): bool { v.Bool? && v.b }
  function MemberOf(v: Value): Option<FamilyMember> { if v.Member? then Some(v.member) else None }
  function MembersOf(v: Value): GoSlice<FamilyMember> { if v.MemberList? then Slice(v.memberItems) else Nil }
  function MilestonesOf(v: Value): GoSlice<Milestone> { if v.MilestoneList? then Slice(v.milestoneItems) else Nil }
  function GoalsOf(v: Value): GoSlice<Goal> { if v.GoalList? then Slice(v.goalItems) else Nil }
  function ProtectionsOf(v: Value): GoSlice<Protection> { if v.ProtectionList? then Slice(v.protectionItems) else Nil }
  function DebtsOf(v: Value): GoSlice<Debt> { if v.DebtList? then Slice(v.debtItems) else Nil }
  function MetaOf(v: Value): GoSlice<MetaField> { if v.MetaList? then Slice(v.metaItems) else Nil }

  /** The user whose fields hold the values `vals` gives them. */
  function Assemble(vals: Field -> Value): User {
    User(
      StrOf(vals(ID)), StrOf(vals(Email)), StrOf(vals(FirstName)), StrOf(vals(LastName)),
      StrOf(vals(ProvinceCode)), StrOf(vals(CountryCodeAlpha2)), StrOf(vals(Currency)),
      StrOf(vals(AdministrativeDivision)), StrOf(vals(DateOfBirth)), StrOf(vals(Occupation)),
      StrOf(vals(Income)), StrOf(vals(Expenses)), IntOf(vals(FamilyMemberNumber)),
      BoolOf(vals(IsMarried)), MemberOf(vals(Spouse)), MembersOf(vals(Dependents)),
      MilestonesOf(vals(Milestones)), GoalsOf(vals(Goals)), ProtectionsOf(vals(Protections)),
      DebtsOf(vals(Debts)), StrOf(vals(RiskTolerance)), StrOf(vals(CreatedAt)),
      IntOf(vals(Version)), MetaOf(vals(Meta)))
  }

  /** A field given a value of its type encodes back to that value. */
  lemma AssembleEncodes(vals: Field -> Value, f: Field)
    requires Typed(f, vals(f))
    ensures Encode(Assemble(vals), f) == vals(f)
  {
  }

  /** Two users with equal fields are equal. */
  lemma FieldsDetermine(u: User, w: User)
    requires u.id == w.id && u.email == w.email && u.firstName == w.firstName && u.lastName == w.lastName
    requires u.provinceCode == w.provinceCode && u.countryCodeAlpha2 == w.countryCodeAlpha2 && u.currency == w.currency
    requires u.administrativeDivision == w.administrativeDivision && u.dateOfBirth == w.dateOfBirth
    requires u.occupation == w.occupation && u.income == w.income && u.expenses == w.expenses
    requires u.familyMemberNumber == w.familyMemberNumber && u.isMarried == w.isMarried && u.spouse == w.spouse
    requires u.dependents == w.dependents && u.milestones == w.milestones && u.goals == w.goals
    requires u.protections == w.protections && u.debts == w.debts && u.riskTolerance == w.riskTolerance
    requires u.createdAt == w.createdAt && u.version == w.version && u.meta == w.meta
    ensures u == w
  {
  }

  /** A user is determined by the values its fields encode to. */
  lemma {:induction false} EncodeDetermines(u: User, w: User)
    requires forall f :: Encode(u, f) == Encode(w, f)
    ensures u == w
  {
    IdentityFieldsAgree(u, w);
    LocaleFieldsAgree(u, w);
    ProfileFieldsAgree(u, w);
    HouseholdFieldsAgree(u, w);
    PlanningFieldsAgree(u, w);
    RecordFieldsAgree(u, w);
    FieldsDetermine(u, w);
  }

  lemma IdentityFieldsAgree(u: User, w: User)
    requires forall f :: Encode(u, f) == Encode(w, f)
    ensures u.id == w.id && u.email == w.email && u.firstName == w.firstName && u.lastName == w.lastName
  {
    assert Encode(u, ID) == Encode(w, ID);
    assert Encode(u, Email) == Encode(w, Email);
    assert Encode(u, FirstName) == Encode(w, FirstName);
    assert Encode(u, LastName) == Encode(w, LastName);
  }

  lemma LocaleFieldsAgree(u: User, w: User)
    requires forall f :: Encode(u, f) == Encode(w, f)
    ensures u.provinceCode == w.provinceCode && u.countryCodeAlpha2 == w.countryCodeAlpha2 && u.currency == w.currency && u.administrativeDivision == w.administrativeDivision
  {
    assert Encode(u, ProvinceCode) == Encode(w, ProvinceCode);
    assert Encode(u, CountryCodeAlpha2) == Encode(w, CountryCodeAlpha2);
    assert Encode(u, Currency) == Encode(w, Currency);
    assert Encode(u, AdministrativeDivision) == Encode(w, AdministrativeDivision);
  }

  lemma ProfileFieldsAgree(u: User, w: User)
    requires forall f :: Encode(u, f) == Encode(w, f)
    ensures u.dateOfBirth == w.dateOfBirth && u.occupation == w.occupation && u.income == w.income && u.expenses == w.expenses
  {
    assert Encode(u, DateOfBirth) == Encode(w, DateOfBirth);
    assert Encode(u, Occupation) == Encode(w, Occupation);
    assert Encode(u, Income) == Encode(w, Income);
    assert Encode(u, Expenses) == Encode(w, Expenses);
  }

  lemma HouseholdFieldsAgree(u: User, w: User)
    requires forall f :: Encode(u, f) == Encode(w, f)
    ensures u.familyMemberNumber == w.familyMemberNumber && u.isMarried == w.isMarried && u.spouse == w.spouse && u.dependents == w.dependents
  {
    assert Encode(u, FamilyMemberNumber) == Encode(w, FamilyMemberNumber);
    assert Encode(u, IsMarried) == Encode(w, IsMarried);
    assert Encode(u, Spouse) == Encode(w, Spouse);
    assert Encode(u, Dependents) == Encode(w, Dependents);
  }

  lemma PlanningFieldsAgree(u: User, w: User)
    requires forall f :: Encode(u, f) == Encode(w, f)
    ensures u.milestones == w.milestones && u.goals == w.goals && u.protections == w.protections && u.debts == w.debts
  {
    assert Encode(u, Milestones) == Encode(w, Milestones);
    assert Encode(u, Goals) == Encode(w, Goals);
    assert Encode(u, Protections) == Encode(w, Protections);
    assert Encode(u, Debts) == Encode(w, Debts);
  }

  lemma RecordFieldsAgree(u: User, w: User)
    requires forall f :: Encode(u, f) == Encode(w, f)
    ensures u.riskTolerance == w.riskTolerance && u.createdAt == w.createdAt && u.version == w.version && u.meta == w.meta
  {
    assert Encode(u, RiskTolerance) == Encode(w, RiskTolerance);
    assert Encode(u, CreatedAt) == Encode(w, CreatedAt);
    assert Encode(u, Version) == Encode(w, Version);
    assert Encode(u, Meta) == Encode(w, Meta);
  }

  /** Whether marshalling writes an attribute for `f`: always, unless the tag says `omitempty` and the field is zero. */
  predicate Written(u: User, f: Field) {
    !(OmitEmpty(f) && IsZero(u, f))
  }

  /** `attributevalue.MarshalMap`: one attribute per written field, under its tag name. */
  function Marshal(u: User): (item: Item)
    ensures item.Keys == set f | f in Fields && Written(u, f) :: AttributeName(f)
    ensures forall f :: AttributeName(f) in item <==> Written(u, f)
    ensures forall f :: Written(u, f) ==> item[AttributeName(f)] == Encode(u, f)
  {
    AttributeNameInjective();
    forall f ensures f in Fields { EveryFieldListed(f); }
    map f | f in Fields && Written(u, f) :: AttributeName(f) := Encode(u, f)
  }

  /** A marshalled record always carries the user's version and ID under their attribute names. */
  lemma MarshalledVersionAndKey(u: User)
    ensures VersionAttribute in Marshal(u) && Marshal(u)[VersionAttribute] == N(u.version)
    ensures KeyAttribute in Marshal(u) && Marshal(u)[KeyAttribute] == S(u.id)
  {
    MarshalledVersion(u);
    MarshalledKey(u);
  }

  lemma MarshalledVersion(u: User)
    ensures VersionAttribute in Marshal(u) && Marshal(u)[VersionAttribute] == N(u.version)
  {
    VersionAndKeyWritten(u);
    MarshalledField(u, Version);
    assert Encode(u, Version) == N(u.version);
  }

  lemma MarshalledKey(u: User)
    ensures KeyAttribute in Marshal(u) && Marshal(u)[KeyAttribute] == S(u.id)
  {
    VersionAndKeyWritten(u);
    MarshalledField(u, ID);
  }

  /** Neither the version's nor the ID's tag says `omitempty`. */
  lemma VersionAndKeyWritten(u: User)
    ensures Written(u, Version) && Written(u, ID)
  {
  }

  /** A written field is marshalled under its attribute name. */
  lemma MarshalledField(u: User, f: Field)
    requires Written(u, f)
    ensures AttributeName(f) in Marshal(u) && Marshal(u)[AttributeName(f)] == Encode(u, f)
  {
  }

  /** A marshalled record never holds `Null`: the fields that could marshal to it are all `omitempty`. */
  lemma MarshalWritesNoNull(u: User, f: Field)
    requires Written(u, f)
    ensures AttributeName(f) in Marshal(u) && !Marshal(u)[AttributeName(f)].Null?
  {
  }

  // ---------------------------------------------------------------------------
  // Decoding

  /** `a` comes no later than `b` in the order of their character codes. */
  predicate LexLe(a: string, b: string) {
    |a| == 0 || (|b| > 0 && (a[0] < b[0] || (a[0] == b[0] && LexLe(a[1..], b[1..]))))
  }

  lemma {:induction false} LexLeTotal(a: string, b: string)
    ensures LexLe(a, b) || LexLe(b, a)
  {
    if |a| > 0 && |b| > 0 && a[0] == b[0] {
      LexLeTotal(a[1..], b[1..]);
    }
  }

  lemma {:induction false} LexLeAntisymmetric(a: string, b: string)
    requires LexLe(a, b) && LexLe(b, a)
    ensures a == b
  {
    if |a| > 0 {
      LexLeAntisymmetric(a[1..], b[1..]);
      assert a == [a[0]] + a[1..];
      assert b == [b[0]] + b[1..];
    }
  }

  lemma {:induction false} LexLeTransitive(a: string, b: string, c: string)
    requires LexLe(a, b) && LexLe(b, c)
    ensures LexLe(a, c)
  {
    if |a| > 0 && a[0] == b[0] && b[0] == c[0] {
      LexLeTransitive(a[1..], b[1..], c[1..]);
    }
  }

  /** `k` comes no later than any name of `ks`. */
  predicate IsLeast(k: string, ks: set<string>) {
    forall j :: j in ks ==> LexLe(k, j)
  }

  /** Adding a name to a set with a least name keeps a least name: the old one or the new. */
  lemma AddToLeast(x: string, m: string, rest: set<string>)
    requires IsLeast(m, rest)
    ensures IsLeast(x, rest + {x}) || IsLeast(m, rest + {x})
  {
    LexLeTotal(x, m);
    LexLeTotal(x, x);
    if LexLe(x, m) {
      forall j | j in rest ensures LexLe(x, j) {
        LexLeTransitive(x, m, j);
      }
    }
  }

  /** A non-empty finite set of names has a least one. */
  lemma {:induction false} LeastExists(ks: set<string>)
    requires ks != {}
    ensures exists k :: k in ks && IsLeast(k, ks)
    decreases |ks|
  {
    var x :| x in ks;
    if ks == {x} {
      LexLeTotal(x, x);
      assert IsLeast(x, ks);
    } else {
      var rest := ks - {x};
      LeastExists(rest);
      var m :| m in rest && IsLeast(m, rest);
      AddToLeast(x, m, rest);
      assert rest + {x} == ks;
    }
  }

  /** The least name of a non-empty set. */
  function Least(ks: set<string>): (k: string)
    requires ks != {}
    ensures k in ks
  {
    LeastExists(ks);
    assert forall a, b :: a in ks && b in ks && LexLe(a, b) && LexLe(b, a) ==> a == b by {
      forall a, b | a in ks && b in ks && LexLe(a, b) && LexLe(b, a) ensures a == b {
        LexLeAntisymmetric(a, b);
      }
    }
    var k :| k in ks && IsLeast(k, ks);
    k
  }

  /** The attributes of `item` the decoder reads into `f`: its tag, in any capitalisation. */
  function Spellings(item: Item, f: Field): set<string> {
    set k | k in item && FieldOfAttribute(k) == Some(f)
  }

  /** Every attribute read into `f` is `Null` or of the field's type. */
  predicate Decodable(item: Item, f: Field) {
    forall k :: k in Spellings(item, f) ==> item[k].Null? || Typed(f, item[k])
  }

  /**
   What field `f` ends up holding: the starting value when no attribute names
   it, otherwise the attribute's value, or the type's zero for `Null`. When
   several capitalisations of the tag are present, the decoder writes each in
   map order and the last one stays; the model takes the least name.
   */
  function Resolve(item: Item, start: User, f: Field): Value {
    var ks := Spellings(item, f);
    if ks == {} then Encode(start, f)
    else
      var k := Least(ks);
      if item[k].Null? then Encode(ZeroUser, f) else item[k]
  }

  lemma ResolvedValuesTyped(item: Item, start: User)
    requires forall f | f in Fields :: Decodable(item, f)
    ensures forall f :: Typed(f, Resolve(item, start, f))
  {
    forall f ensures Typed(f, Resolve(item, start, f)) {
      EveryFieldListed(f);
      EncodeTyped(start, f);
      EncodeTyped(ZeroUser, f);
    }
  }

  /**
   `attributevalue.UnmarshalMap` into `start`: each attribute whose name is a
   field's tag in any capitalisation is written into that field, the other
   fields keep their value in `start`, other attributes are ignored, and an
   attribute of the wrong type fails the whole decoding.
   */
  function Unmarshal(item: Item, start: User): Option<User> {
    if forall f | f in Fields :: Decodable(item, f) then
      Some(Assemble(f => Resolve(item, start, f)))
    else
      None
  }

  /** Decoding succeeds exactly when every field's attributes are decodable, and then each field holds its resolved value. */
  lemma {:induction false} UnmarshalFields(item: Item, start: User)
    ensures Unmarshal(item, start).Some? <==> forall f :: Decodable(item, f)
    ensures Unmarshal(item, start).Some? ==>
      forall f :: Encode(Unmarshal(item, start).value, f) == Resolve(item, start, f)
  {
    forall f ensures f in Fields { EveryFieldListed(f); }
    if forall f :: Decodable(item, f) {
      var vals := f => Resolve(item, start, f);
      ResolvedValuesTyped(item, start);
      forall f ensures Encode(Unmarshal(item, start).value, f) == Resolve(item, start, f) {
        AssembleEncodes(vals, f);
      }
    }
  }

  /** With no attribute naming `f`, the field keeps its starting value. */
  lemma NoSpelling(item: Item, start: User, f: Field)
    requires Spellings(item, f) == {}
    ensures Decodable(item, f) && Resolve(item, start, f) == Encode(start, f)
  {
  }

  /** With one attribute naming `f`, the field takes its value, or its zero for `Null`. */
  lemma OneSpelling(item: Item, start: User, f: Field, k: string)
    requires Spellings(item, f) == {k}
    ensures k in item
    ensures Decodable(item, f) <==> item[k].Null? || Typed(f, item[k])
    ensures Resolve(item, start, f) == if item[k].Null? then Encode(ZeroUser, f) else item[k]
  {
    OneSpellingDecodable(item, f, k);
    OneSpellingResolves(item, start, f, k);
  }

  lemma OneSpellingDecodable(item: Item, f: Field, k: string)
    requires Spellings(item, f) == {k}
    ensures k in item
    ensures Decodable(item, f) <==> item[k].Null? || Typed(f, item[k])
  {
    var ks := Spellings(item, f);
    assert k in ks;
    SingletonTyped(ks, item, f, k);
  }

  lemma OneSpellingResolves(item: Item, start: User, f: Field, k: string)
    requires Spellings(item, f) == {k}
    ensures k in item
    ensures Resolve(item, start, f) == if item[k].Null? then Encode(ZeroUser, f) else item[k]
  {
    var ks := Spellings(item, f);
    assert k in ks;
    LeastSingleton(k);
  }

  lemma SingletonTyped(ks: set<string>, item: Item, f: Field, k: string)
    requires ks == {k} && k in item
    ensures (forall j :: j in ks ==> item[j].Null? || Typed(f, item[j])) <==> item[k].Null? || Typed(f, item[k])
  {
  }


  lemma LeastSingleton(k: string)
    ensures Least({k}) == k
  {
  }

  /** Two records that name `f` by the same attributes, holding the same values, resolve `f` alike. */
  lemma SameSpellings(a: Item, b: Item, start: User, f: Field)
    requires Spellings(a, f) == Spellings(b, f)
    requires forall k :: k in Spellings(a, f) ==> a[k] == b[k]
    ensures Decodable(a, f) == Decodable(b, f) && Resolve(a, start, f) == Resolve(b, start, f)
  {
  }

  /** Merging in attributes none of which names `f` leaves `f`'s spellings and their values as they were. */
  lemma MergedSpellings(a: Item, b: Item, f: Field)
    requires forall k :: k in b ==> FieldOfAttribute(k) != Some(f)
    ensures Spellings(a + b, f) == Spellings(a, f)
    ensures forall k :: k in Spellings(a, f) ==> (a + b)[k] == a[k]
  {
  }

  /** An attribute the lookup finds no field for is not among any field's spellings. */
  lemma IgnoredNameSpellings(item: Item, name: string, v: Value, f: Field)
    requires FieldOfAttribute(name).None?
    ensures Spellings(item[name := v], f) == Spellings(item, f)
    ensures forall k :: k in Spellings(item, f) ==> item[name := v][k] == item[k]
  {
    IgnoredNameSameSpellings(item, name, v, f);
  }

  lemma IgnoredNameSameSpellings(item: Item, name: string, v: Value, f: Field)
    requires FieldOfAttribute(name).None?
    ensures Spellings(item[name := v], f) == Spellings(item, f)
  {
    var a := Spellings(item[name := v], f);
    var b := Spellings(item, f);
    forall k | k in a ensures k in b {
      assert k != name;
      assert k in item;
    }
    forall k | k in b ensures k in a {
      assert k != name;
      assert k in item[name := v];
    }
  }


  /** A field encodes to `Null` only when it holds its zero value. */
  lemma NullIsZero(u: User, f: Field)
    requires Encode(u, f).Null?
    ensures IsZero(u, f)
  {
  }

  /** A record whose every field resolves to `w`'s value decodes to `w`. */
  lemma {:induction false} DecodesTo(item: Item, start: User, w: User)
    requires forall f :: Decodable(item, f) && Resolve(item, start, f) == Encode(w, f)
    ensures Unmarshal(item, start) == Some(w)
  {
    UnmarshalFields(item, start);
    EncodeDetermines(Unmarshal(item, start).value, w);
  }

  /** Records whose fields all resolve alike decode alike. */
  lemma {:induction false} SameResolutions(a: Item, b: Item, start: User)
    requires forall f :: Decodable(a, f) == Decodable(b, f) && Resolve(a, start, f) == Resolve(b, start, f)
    ensures Unmarshal(a, start) == Unmarshal(b, start)
  {
    UnmarshalFields(a, start);
    UnmarshalFields(b, start);
    if Unmarshal(a, start).Some? {
      EncodeDetermines(Unmarshal(a, start).value, Unmarshal(b, start).value);
    }
  }

  /** Every attribute of `item` that names a field names it by the field's exact tag. */
  ghost predicate ExactlySpelled(item: Item) {
    forall k :: k in item && FieldOfAttribute(k).Some? ==> k == AttributeName(FieldOfAttribute(k).value)
  }

  /** A single attribute under a field's tag is exactly spelled. */
  lemma TagExactlySpelled(f: Field, v: Value)
    ensures ExactlySpelled(map[AttributeName(f) := v])
  {
    AttributeNamesIdentifyFields(f);
  }

  /** Merging two exactly spelled items gives an exactly spelled item. */
  lemma MergeExactlySpelled(a: Item, b: Item)
    requires ExactlySpelled(a) && ExactlySpelled(b)
    ensures ExactlySpelled(a + b)
  {
  }

  /** In an exactly spelled item the decoder reads `f` from the attribute under its tag alone. */
  lemma ExactSpellings(item: Item, f: Field)
    requires ExactlySpelled(item)
    ensures Spellings(item, f) == if AttributeName(f) in item then {AttributeName(f)} else {}
  {
    AttributeNamesIdentifyFields(f);
  }

  /** A marshalled record names every field by its exact tag. */
  lemma MarshalExactlySpelled(u: User)
    ensures ExactlySpelled(Marshal(u))
  {
    var item := Marshal(u);
    forall k | k in item && FieldOfAttribute(k).Some?
      ensures k == AttributeName(FieldOfAttribute(k).value)
    {
      var g :| g in Fields && Written(u, g) && AttributeName(g) == k;
      AttributeNamesIdentifyFields(g);
    }
  }

  /** A starting user that holds the zero value in every `omitempty` field. */
  predicate ZeroWhereOmitted(start: User) {
    forall f :: OmitEmpty(f) ==> IsZero(start, f)
  }

  /** `User{ID: id}`, the value the repository decodes into, is zero where fields may be omitted. */
  lemma IdOnlyIsZeroWhereOmitted(id: string)
    ensures ZeroWhereOmitted(ZeroUser.(id := id))
  {
  }

  /** Each field of a marshalled record resolves to the value it was marshalled from. */
  lemma MarshalResolves(u: User, start: User, f: Field)
    requires ZeroWhereOmitted(start)
    ensures Decodable(Marshal(u), f)
    ensures Resolve(Marshal(u), start, f) == Encode(u, f)
  {
    MarshalExactlySpelled(u);
    ExactSpellings(Marshal(u), f);
    EncodeTyped(u, f);
    if Written(u, f) {
      OneSpelling(Marshal(u), start, f, AttributeName(f));
    } else {
      NoSpelling(Marshal(u), start, f);
      assert OmitEmpty(f) && IsZero(u, f) && IsZero(start, f);
    }
  }

  /**
   Marshalling loses nothing when the record is decoded over a user that is
   zero in the `omitempty` fields: a left-out field is zero in both.
   */
  lemma {:induction false} MarshalRoundTrip(u: User, start: User)
    requires ZeroWhereOmitted(start)
    ensures Unmarshal(Marshal(u), start) == Some(u)
  {
    forall f ensures Decodable(Marshal(u), f) && Resolve(Marshal(u), start, f) == Encode(u, f) {
      MarshalResolves(u, start, f);
    }
    DecodesTo(Marshal(u), start, u);
  }

  /**
   Over any other starting user the round trip fails already for the zero
   user: a field left out for being zero keeps the starting user's value.
   */
  lemma {:induction false} OmittedFieldKeepsStart(start: User)
    requires !ZeroWhereOmitted(start)
    ensures Unmarshal(Marshal(ZeroUser), start) != Some(ZeroUser)
  {
    var item := Marshal(ZeroUser);
    var f :| OmitEmpty(f) && !IsZero(start, f);
    assert !Written(ZeroUser, f);
    MarshalExactlySpelled(ZeroUser);
    ExactSpellings(item, f);
    UnmarshalFields(item, start);
    if Unmarshal(item, start).Some? {
      assert Encode(Unmarshal(item, start).value, f) == Encode(start, f);
    }
  }

  /** An attribute whose name is no field's tag in any capitalisation changes nothing the decoder produces. */
  lemma {:induction false} UnknownAttributeIgnored(item: Item, start: User, name: string, v: Value)
    requires forall f :: !FoldEqual(name, AttributeName(f))
    ensures Unmarshal(item[name := v], start) == Unmarshal(item, start)
  {
    var item' := item[name := v];
    assert FieldOfAttribute(name).None? by {
      if FieldOfAttribute(name).Some? {
        FieldOfAttributeFolds(name, FieldOfAttribute(name).value);
      }
    }
    forall f ensures Decodable(item', f) == Decodable(item, f) && Resolve(item', start, f) == Resolve(item, start, f) {
      IgnoredNameSpellings(item, name, v, f);
      SameSpellings(item', item, start, f);
    }
    SameResolutions(item', item, start);
  }

  /**
   An attribute whose name is a field's tag in another capitalisation fills
   that field, and only that one.
   */
  lemma {:induction false} FoldedNameDecodes(start: User, name: string, f: Field, v: Value)
    requires FoldEqual(name, AttributeName(f))
    requires Typed(f, v) && !v.Null?
    ensures Unmarshal(map[name := v], start).Some?
    ensures Encode(Unmarshal(map[name := v], start).value, f) == v
    ensures forall g :: g != f ==> Encode(Unmarshal(map[name := v], start).value, g) == Encode(start, g)
  {
    var item := map[name := v];
    FieldOfAttributeFolds(name, f);
    assert Spellings(item, f) == {name};
    OneSpelling(item, start, f, name);
    forall g | g != f ensures Decodable(item, g) && Resolve(item, start, g) == Encode(start, g) {
      assert Spellings(item, g) == {};
      NoSpelling(item, start, g);
    }
    UnmarshalFields(item, start);
  }

  /** Decoding a record with no attributes (Go's `nil` item) leaves the starting user as it was. */
  lemma {:induction false} UnmarshalEmpty(start: User)
    ensures Unmarshal(map[], start) == Some(start)
  {
    var item: Item := map[];
    forall f ensures Decodable(item, f) && Resolve(item, start, f) == Encode(start, f) {
      assert Spellings(item, f) == {};
      NoSpelling(item, start, f);
    }
    DecodesTo(item, start, start);
  }

  /**
   A marshalled record with some attributes overwritten by the values another
   user holds in those fields decodes to that user, once the two users agree
   on every field the overwrite leaves alone and the overwrite names fields by
   their exact tags.
   */
  lemma {:induction false} OverwriteDecodes(u: User, w: User, p: Item, start: User)
    requires ZeroWhereOmitted(start)
    requires ExactlySpelled(p)
    requires forall g :: AttributeName(g) in p ==> p[AttributeName(g)] == Encode(w, g)
    requires forall g :: AttributeName(g) !in p ==> Encode(u, g) == Encode(w, g)
    ensures Unmarshal(Marshal(u) + p, start) == Some(w)
  {
    var item := Marshal(u) + p;
    MarshalExactlySpelled(u);
    assert ExactlySpelled(item);
    forall f ensures Decodable(item, f) && Resolve(item, start, f) == Encode(w, f) {
      OverwrittenField(u, w, p, start, f);
    }
    DecodesTo(item, start, w);
  }

  /** One field of the overwritten record resolves to `w`'s value. */
  lemma OverwrittenField(u: User, w: User, p: Item, start: User, f: Field)
    requires ZeroWhereOmitted(start)
    requires ExactlySpelled(p) && ExactlySpelled(Marshal(u) + p)
    requires AttributeName(f) in p ==> p[AttributeName(f)] == Encode(w, f)
    requires AttributeName(f) !in p ==> Encode(u, f) == Encode(w, f)
    ensures Decodable(Marshal(u) + p, f) && Resolve(Marshal(u) + p, start, f) == Encode(w, f)
  {
    var item := Marshal(u) + p;
    ExactSpellings(item, f);
    if AttributeName(f) in p {
      OneSpelling(item, start, f, AttributeName(f));
      EncodeTyped(w, f);
      if Encode(w, f).Null? {
        NullIsZero(w, f);
      }
    } else {
      MarshalResolves(u, start, f);
      MarshalExactlySpelled(u);
      ExactSpellings(Marshal(u), f);
      if AttributeName(f) in item {
        OneSpelling(item, start, f, AttributeName(f));
        OneSpelling(Marshal(u), start, f, AttributeName(f));
      } else {
        NoSpelling(item, start, f);
        NoSpelling(Marshal(u), start, f);
      }
    }
  }
}
