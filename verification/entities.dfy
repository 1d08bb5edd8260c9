/**
 The user record and its nested financial sub-entities, one datatype per Go
 struct of the user package. Go's `Type` fields are called `kind` here
 (`type` is a Dafny keyword); `time.Duration` is its underlying `int64`
 nanosecond count.
 */
module Entities {
  import opened Basics

  datatype FamilyMember = FamilyMember(
    kind: string,          // "spouse" or "child"
    firstName: string,
    lastName: string,
    dateOfBirth: string,
    income: string,
    expenses: string)

  datatype Goal = Goal(
    date: string,
    title: string,
    progressLevel: string,
    estimatedDuration: int64,
    description: string)

  datatype Milestone = Milestone(
    date: string,
    title: string,
    kind: string,
    description: string)

  datatype Protection = Protection(
    kind: string,
    premium: int64,
    claimedDate: string,
    expirationDate: string,
    description: string)

  datatype Debt = Debt(
    kind: string,
    cost: string,
    interestRate: int64,
    term: int64,
    collateral: string,
    description: string)

  /** A free-form, intentionally untyped extension attribute. */
  datatype MetaField = MetaField(
    key: string,
    namespace: string,
    value: string,
    kind: string)

  /** The user record, fields in the order the Go struct declares them. */
  datatype User = User(
    id: string,
    email: string,
    firstName: string,
    lastName: string,
    provinceCode: string,
    countryCodeAlpha2: string,
    currency: string,
    administrativeDivision: string,
    dateOfBirth: string,
    occupation: string,
    income: string,
    expenses: string,
    familyMemberNumber: int64,
    isMarried: bool,
    spouse: Option<FamilyMember>,
    dependents: GoSlice<FamilyMember>,
    milestones: GoSlice<Milestone>,
    goals: GoSlice<Goal>,
    protections: GoSlice<Protection>,
    debts: GoSlice<Debt>,
    riskTolerance: string,
    createdAt: string,
    version: int64,
    meta: GoSlice<MetaField>)

  /** Go's `User{}`: every field at its zero value. */
  const ZeroUser: User :=
    User("", "", "", "", "", "", "", "", "", "", "", "", 0, false, None,
         Nil, Nil, Nil, Nil, Nil, "", "", 0, Nil)

  // The `data` package's variants of these types, which the update handler
  // decodes its body into. Its goals, milestones, protections and meta fields
  // have the same field types as the user package's.

  /** `data.FamilyMember`: like `FamilyMember`, but income and expenses are `int64`. */
  datatype DataFamilyMember = DataFamilyMember(
    kind: string,
    firstName: string,
    lastName: string,
    dateOfBirth: string,
    income: int64,
    expenses: int64)

  /** `data.Debt`: like `Debt`, but the cost is an `int64`. */
  datatype DataDebt = DataDebt(
    kind: string,
    cost: int64,
    interestRate: int64,
    term: int64,
    collateral: string,
    description: string)

  /**
   `data.User`, the update body's type: no occupation, risk tolerance or
   version; income and expenses are `int64`; the date of birth, a
   `time.Time`, is its text form.
   */
  datatype Body = Body(
    id: string,
    email: string,
    firstName: string,
    lastName: string,
    provinceCode: string,
    countryCodeAlpha2: string,
    currency: string,
    administrativeDivision: string,
    dateOfBirth: string,
    income: int64,
    expenses: int64,
    familyMemberNumber: int64,
    isMarried: bool,
    spouse: Option<DataFamilyMember>,
    dependents: GoSlice<DataFamilyMember>,
    milestones: GoSlice<Milestone>,
    goals: GoSlice<Goal>,
    protections: GoSlice<Protection>,
    debts: GoSlice<DataDebt>,
    createdAt: string,
    meta: GoSlice<MetaField>)

  /** `data.User{}`. */
  const ZeroBody: Body :=
    Body("", "", "", "", "", "", "", "", "", 0, 0, 0, false, None,
         Nil, Nil, Nil, Nil, Nil, "", Nil)
}
