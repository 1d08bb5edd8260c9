/**
 The user endpoints of the HTTP API: create, show, update and delete. Path
 parameters arrive already parsed as UUIDs (`None` when parsing failed) and
 request bodies already decoded (`None` when decoding failed); clocks and
 the UUID generator are parameters. A response is what the handler decides
 to send; writing it out is not modelled.
 */
module Handlers {
  import opened Basics
  import opened Entities
  import opened Attributes
  import opened Validation
  import opened Users
  import opened Repository

  /** What a handler answers. */
  datatype Response =
    | Created(user: User, location: string)        // 201 with a `Location` header
    | Shown(user: User)                             // 200 `{"user": …}`
    | Updated(attributes: map<string, Value>)       // 200 `{"user": …}` with the updated attributes
    | Deleted(message: string)                      // 200 `{"message": …}`
    | BadRequest
    | NotFound
    | EditConflictResponse
    | FailedValidation(errors: map<string, string>)
    | ServerError

  /** The table after a request, and the response. */
  datatype Outcome = Outcome(table: Table, response: Response)

  /** The canonical text of a parsed UUID: 36 characters, so never empty. */
  type UuidText = s: string | |s| == 36 witness "00000000-0000-0000-0000-000000000000"

  /** The fields the create endpoint reads from its JSON body. */
  datatype CreateInput = CreateInput(
    email: string,
    firstName: string,
    lastName: string,
    provinceCode: string,
    countryCodeAlpha2: string)

  // ---------------------------------------------------------------------------
  // Create

  /** The fields a create request sets; the user it builds leaves every other field zero. */
  predicate SetOnCreate(f: Field) {
    match f
    case ID | Email | FirstName | LastName | ProvinceCode | CountryCodeAlpha2 => true
    case AdministrativeDivision | Currency | CreatedAt | Version => true
    case _ => false
  }

  /** The user a create request builds: the body's fields plus the server-chosen defaults. */
  function NewUser(input: CreateInput, freshId: UuidText, today: string): (u: User)
    ensures u.id == freshId && u.createdAt == today && u.version == 1
    ensures u.administrativeDivision == "province" && u.currency == "CAD"
    ensures u.email == input.email && u.firstName == input.firstName && u.lastName == input.lastName
    ensures u.provinceCode == input.provinceCode && u.countryCodeAlpha2 == input.countryCodeAlpha2
    ensures forall f :: !SetOnCreate(f) ==> IsZero(u, f)
  {
    ZeroUser.(id := freshId, email := input.email, firstName := input.firstName, lastName := input.lastName,
              provinceCode := input.provinceCode, countryCodeAlpha2 := input.countryCodeAlpha2,
              administrativeDivision := "province", currency := "CAD", createdAt := today, version := 1)
  }

  /**
   `data.ValidateUser` (internal/data/users.go): the user package's identity
   checks, a last-name check, then its region checks, on the five fields the
   create body sets.
   */
  function ValidateDataUser(v: Validator, u: User, emailRx: string -> bool): (r: Validator)
    ensures Extends(v, r)
    ensures forall k :: k in r.errors <==> (k in v.errors ||
      (k == "email" && !emailRx(u.email)) || (k == "first_name" && u.firstName == "") ||
      (k == "last_name" && u.lastName == "") ||
      (k == "country_code_alpha_2" && ByteLength(u.countryCodeAlpha2) != 2) ||
      (k == "province_code" && u.provinceCode == ""))
  {
    ValidateRegion(ValidateLastName(ValidateIdentity(v, u, emailRx), u), u)
  }

  /** Each failure `data.ValidateUser` records carries its rule's message. */
  lemma DataUserMessages(v: Validator, u: User, emailRx: string -> bool)
    ensures var r := ValidateDataUser(v, u, emailRx);
      forall k :: k in r.errors && k !in v.errors ==> r.errors[k] == MessageFor(k)
  {
    var v1 := ValidateIdentity(v, u, emailRx);
    var v2 := ValidateLastName(v1, u);
    NewMessagesCompose(v, v1, v2, ValidateRegion(v2, u));
  }

  /** Three validation steps that each record `MessageFor` under their new keys together record it under theirs. */
  lemma NewMessagesCompose(v: Validator, v1: Validator, v2: Validator, r: Validator)
    requires Extends(v1, v2) && Extends(v2, r)
    requires forall k :: k in v1.errors && k !in v.errors ==> v1.errors[k] == MessageFor(k)
    requires forall k :: k in v2.errors && k !in v1.errors ==> v2.errors[k] == MessageFor(k)
    requires forall k :: k in r.errors && k !in v2.errors ==> r.errors[k] == MessageFor(k)
    ensures forall k :: k in r.errors && k !in v.errors ==> r.errors[k] == MessageFor(k)
  {
  }

  /** The last-name check. */
  function ValidateLastName(v: Validator, u: User): (r: Validator)
    ensures Extends(v, r)
    ensures forall k :: k in r.errors <==> (k in v.errors || (k == "last_name" && u.lastName == ""))
    ensures forall k :: k in r.errors && k !in v.errors ==> r.errors[k] == MessageFor(k)
  {
    Check(v, u.lastName != "", "last_name", "must be provided")
  }


  /** A rule of `data.ValidateUser` the create body breaks, by the key its failure is recorded under. */
  predicate CreateFailure(input: CreateInput, emailRx: string -> bool, k: string) {
    || (k == "email" && !emailRx(input.email))
    || (k == "first_name" && input.firstName == "")
    || (k == "last_name" && input.lastName == "")
    || (k == "country_code_alpha_2" && ByteLength(input.countryCodeAlpha2) != 2)
    || (k == "province_code" && input.provinceCode == "")
  }

  /** The create request's body breaks one of the five rules. */
  predicate Rejected(input: CreateInput, emailRx: string -> bool) {
    || !emailRx(input.email)
    || input.firstName == ""
    || input.lastName == ""
    || ByteLength(input.countryCodeAlpha2) != 2
    || input.provinceCode == ""
  }

  /**
   `createUserHandler`: builds the user, validates it, and stores it only
   when validation found nothing.
   */
  function CreateUser(t: Table, net: Transport, body: Option<CreateInput>, freshId: UuidText, today: string,
                      emailRx: string -> bool): (o: Outcome)
    ensures body.None? ==> o == Outcome(t, BadRequest)
    ensures o.response.Created? <==> body.Some? && !Rejected(body.value, emailRx) && net.Delivered?
    ensures o.response.Created? ==>
      && o.response.user == NewUser(body.value, freshId, today)
      && o.response.location == "/v1/users/" + freshId
      && o.table == Insert(t, net, o.response.user).table
    ensures !o.response.Created? ==> o.table == t
    ensures o.response.FailedValidation? <==> body.Some? && Rejected(body.value, emailRx)
    ensures o.response.FailedValidation? ==>
      && (forall k :: k in o.response.errors <==> CreateFailure(body.value, emailRx, k))
      && (forall k :: k in o.response.errors ==> o.response.errors[k] == MessageFor(k))
    ensures body.Some? && !Rejected(body.value, emailRx) && net.Failed? ==> o == Outcome(t, ServerError)
    ensures WellKeyed(t) ==> WellKeyed(o.table)
  {
    if body.None? then Outcome(t, BadRequest)
    else
      var u := NewUser(body.value, freshId, today);
      var v := ValidateDataUser(New(), u, emailRx);
      DataUserMessages(New(), u, emailRx);
      assert forall k :: k !in New().errors;
      assert Valid(v) <==> !Rejected(body.value, emailRx) by {
        if Rejected(body.value, emailRx) {
          assert CreateFailure(body.value, emailRx, "email") || CreateFailure(body.value, emailRx, "first_name")
              || CreateFailure(body.value, emailRx, "last_name")
              || CreateFailure(body.value, emailRx, "country_code_alpha_2")
              || CreateFailure(body.value, emailRx, "province_code");
        }
      }
      if !Valid(v) then Outcome(t, FailedValidation(v.errors))
      else
        var s := Insert(t, net, u);
        if s.result.Failure? then Outcome(s.table, ServerError)
        else Outcome(s.table, Created(u, "/v1/users/" + u.id))
  }

  // ---------------------------------------------------------------------------
  // Show and delete

  /** The response for an error from `Get` or `Delete`. */
  function LookupErrorResponse(e: RepoError): (r: Response)
    ensures r == NotFound <==> e == RecordNotFound
    ensures r != NotFound ==> r == ServerError
  {
    if e == RecordNotFound then NotFound else ServerError
  }

  /** `showUserHandler`. */
  function ShowUser(t: Table, net: Transport, id: Option<UuidText>): (r: Response)
    ensures r == NotFound <==> id.None?
    ensures id.Some? ==> (r.Shown? <==> Get(t, net, id.value).Success?)
    ensures r.Shown? ==> Get(t, net, id.value) == Success(r.user)
    ensures id.Some? && Get(t, net, id.value).Failure? ==> r == ServerError
  {
    if id.None? then NotFound
    else match Get(t, net, id.value)
      case Failure(e) => LookupErrorResponse(e)
      case Success(u) => Shown(u)
  }

  /** `deleteUserHandler`: deletes through a user that carries only the ID. */
  function DeleteUser(t: Table, net: Transport, id: Option<UuidText>): (o: Outcome)
    ensures o.response == NotFound <==> id.None?
    ensures id.Some? ==> o.table == Delete(t, net, ZeroUser.(id := id.value)).table
    ensures id.None? ==> o.table == t
    ensures o.response.Deleted? <==> id.Some? && net.Delivered?
    ensures o.response.Deleted? ==> o.response.message == "user successfully deleted"
    ensures id.Some? && net.Failed? ==> o == Outcome(t, ServerError)
    ensures WellKeyed(t) ==> WellKeyed(o.table)
  {
    if id.None? then Outcome(t, NotFound)
    else
      var s := Delete(t, net, ZeroUser.(id := id.value));
      match s.result
      case Failure(e) => Outcome(s.table, LookupErrorResponse(e))
      case Success(_) => Outcome(s.table, Deleted("user successfully deleted"))
  }

  // ---------------------------------------------------------------------------
  // The sparse patch of an update

  /** The first character lower-cased, the rest unchanged. */
  function LowerFirst(s: string): string {
    if |s| == 0 then s else [LowerAscii(s[0])] + s[1..]
  }

  /** The key a body field is patched under: its Go name with the first letter lower-cased. */
  function PatchKey(f: Field): string {
    LowerFirst(GoName(f))
  }

  lemma IdentityPatchKeys()
    ensures PatchKey(Email) == "email"
    ensures PatchKey(FirstName) == "firstName"
    ensures PatchKey(LastName) == "lastName"
  {
  }

  lemma LocalePatchKeys()
    ensures PatchKey(ProvinceCode) == "provinceCode"
    ensures PatchKey(Currency) == "currency"
  {
  }

  lemma CountryPatchKey()
    ensures PatchKey(CountryCodeAlpha2) == "countryCodeAlpha2"
  {
  }

  lemma DivisionPatchKey()
    ensures PatchKey(AdministrativeDivision) == "administrativeDivision"
  {
  }

  lemma ProfilePatchKeys()
    ensures PatchKey(DateOfBirth) == "dateOfBirth"
    ensures PatchKey(Occupation) == "occupation"
    ensures PatchKey(Income) == "income"
    ensures PatchKey(Expenses) == "expenses"
  {
  }

  lemma HouseholdPatchKeys()
    ensures PatchKey(FamilyMemberNumber) == "familyMemberNumber"
    ensures PatchKey(IsMarried) == "isMarried"
  {
  }

  lemma FamilyPatchKeys()
    ensures PatchKey(Spouse) == "spouse"
    ensures PatchKey(Dependents) == "dependents"
  {
  }

  lemma PlanningPatchKeys()
    ensures PatchKey(Milestones) == "milestones"
    ensures PatchKey(Goals) == "goals"
    ensures PatchKey(Protections) == "protections"
    ensures PatchKey(Debts) == "debts"
  {
  }

  lemma RiskAndRecordPatchKeys()
    ensures PatchKey(RiskTolerance) == "riskTolerance"
    ensures PatchKey(CreatedAt) == "createdAt"
    ensures PatchKey(Version) == "version"
    ensures PatchKey(Meta) == "meta"
  {
  }

  /**
   A patch key is the stored attribute name for every field but the ID, whose
   patch key `iD` names no attribute at all.
   */
  lemma {:induction false} PatchKeyIsAttributeName(f: Field)
    ensures PatchKey(f) == AttributeName(f) <==> f != ID
    ensures f == ID ==> PatchKey(f) == "iD" && FieldOfAttribute(PatchKey(f)).None?
  {
    match f
    case ID =>
      assert PatchKey(ID) == "iD";
      if FieldOfAttribute("iD").Some? {
        var g := FieldOfAttribute("iD").value;
        FieldOfAttributeFolds("iD", g);
        TagsFoldApart(g, g);
      }
    case Email | FirstName | LastName => IdentityPatchKeys();
    case ProvinceCode | Currency => LocalePatchKeys();
    case CountryCodeAlpha2 => CountryPatchKey();
    case AdministrativeDivision => DivisionPatchKey();
    case DateOfBirth | Occupation | Income | Expenses => ProfilePatchKeys();
    case FamilyMemberNumber | IsMarried => HouseholdPatchKeys();
    case Spouse | Dependents => FamilyPatchKeys();
    case Milestones | Goals | Protections | Debts => PlanningPatchKeys();
    case RiskTolerance | CreatedAt | Version | Meta => RiskAndRecordPatchKeys();
  }

  /** Every patch key is a plain attribute name, free of document-path syntax. */
  lemma {:induction false} PatchKeyPlain(f: Field)
    ensures PlainName(PatchKey(f))
  {
    PatchKeyAlphanumeric(f);
    AlphanumericPlain(PatchKey(f));
  }

  /** A non-empty run of ASCII letters and digits. */
  predicate Alphanumeric(s: string) {
    |s| > 0 && forall i | 0 <= i < |s| :: 'a' <= s[i] <= 'z' || 'A' <= s[i] <= 'Z' || '0' <= s[i] <= '9'
  }

  lemma AlphanumericPlain(s: string)
    requires Alphanumeric(s)
    ensures PlainName(s)
  {
    assert forall c :: c in s ==> 'a' <= c <= 'z' || 'A' <= c <= 'Z' || '0' <= c <= '9';
  }

  /** Every patch key is a run of letters and digits. */
  lemma {:induction false} PatchKeyAlphanumeric(f: Field)
    ensures Alphanumeric(PatchKey(f))
  {
    match f
    case ID => IdKeyAlphanumeric();
    case Email | FirstName | LastName => IdentityKeysAlphanumeric();
    case ProvinceCode | Currency => LocaleKeysAlphanumeric();
    case CountryCodeAlpha2 => CountryKeyAlphanumeric();
    case AdministrativeDivision => DivisionKeyAlphanumeric();
    case DateOfBirth | Occupation | Income | Expenses => ProfileKeysAlphanumeric();
    case FamilyMemberNumber | IsMarried => HouseholdKeysAlphanumeric();
    case Spouse | Dependents => FamilyKeysAlphanumeric();
    case Milestones | Goals | Protections | Debts => PlanningKeysAlphanumeric();
    case RiskTolerance | CreatedAt | Version | Meta => RiskAndRecordKeysAlphanumeric();
  }

  lemma IdKeyAlphanumeric()
    ensures Alphanumeric(PatchKey(ID))
  {
    assert PatchKey(ID) == "iD";
  }

  lemma IdentityKeysAlphanumeric()
    ensures Alphanumeric(PatchKey(Email))
    ensures Alphanumeric(PatchKey(FirstName))
    ensures Alphanumeric(PatchKey(LastName))
  {
    IdentityPatchKeys();
  }

  lemma LocaleKeysAlphanumeric()
    ensures Alphanumeric(PatchKey(ProvinceCode))
    ensures Alphanumeric(PatchKey(Currency))
  {
    LocalePatchKeys();
  }

  lemma CountryKeyAlphanumeric()
    ensures Alphanumeric(PatchKey(CountryCodeAlpha2))
  {
    CountryPatchKey();
  }

  lemma DivisionKeyAlphanumeric()
    ensures Alphanumeric(PatchKey(AdministrativeDivision))
  {
    DivisionPatchKey();
    DivisionNameAlphanumeric();
  }

  lemma DivisionNameAlphanumeric()
    ensures Alphanumeric("administrativeDivision")
  {
  }

  lemma ProfileKeysAlphanumeric()
    ensures Alphanumeric(PatchKey(DateOfBirth))
    ensures Alphanumeric(PatchKey(Occupation))
    ensures Alphanumeric(PatchKey(Income))
    ensures Alphanumeric(PatchKey(Expenses))
  {
    ProfilePatchKeys();
  }

  lemma HouseholdKeysAlphanumeric()
    ensures Alphanumeric(PatchKey(FamilyMemberNumber))
    ensures Alphanumeric(PatchKey(IsMarried))
  {
    HouseholdPatchKeys();
  }

  lemma FamilyKeysAlphanumeric()
    ensures Alphanumeric(PatchKey(Spouse))
    ensures Alphanumeric(PatchKey(Dependents))
  {
    FamilyPatchKeys();
  }

  lemma PlanningKeysAlphanumeric()
    ensures Alphanumeric(PatchKey(Milestones))
    ensures Alphanumeric(PatchKey(Goals))
    ensures Alphanumeric(PatchKey(Protections))
    ensures Alphanumeric(PatchKey(Debts))
  {
    PlanningPatchKeys();
  }

  lemma RiskAndRecordKeysAlphanumeric()
    ensures Alphanumeric(PatchKey(RiskTolerance))
    ensures Alphanumeric(PatchKey(CreatedAt))
    ensures Alphanumeric(PatchKey(Version))
    ensures Alphanumeric(PatchKey(Meta))
  {
    RiskAndRecordPatchKeys();
  }

  /** Distinct fields have distinct patch keys. */
  lemma {:induction false} PatchKeyInjective(f: Field, g: Field)
    requires PatchKey(f) == PatchKey(g)
    ensures f == g
  {
    PatchKeyIsAttributeName(f);
    PatchKeyIsAttributeName(g);
    AttributeNamesIdentifyFields(f);
    AttributeNamesIdentifyFields(g);
  }

  /**
   The fields of `data.User`, the type the update body is decoded into, in
   declaration order. It declares no occupation, risk tolerance or version,
   so the body cannot set those.
   */
  const BodyFields: seq<Field> :=
    [ID, Email, FirstName, LastName, ProvinceCode, CountryCodeAlpha2,
     Currency, AdministrativeDivision, DateOfBirth, Income, Expenses,
     FamilyMemberNumber, IsMarried, Spouse, Dependents, Milestones, Goals,
     Protections, Debts, CreatedAt, Meta]

  /** Whether the update body's type declares the field. */
  predicate InBody(f: Field) {
    match f
    case Occupation | RiskTolerance | Version => false
    case _ => true
  }

  lemma BodyFieldsListed(f: Field)
    ensures f in BodyFields <==> InBody(f)
  {
  }

  /**
   What the marshaller writes for a body field: `data.User`'s own types, so
   income and expenses as numbers, and family members and debts as the
   `data` package's values. An empty list is the same empty list whatever
   its element type. Fields the body's type lacks have no value.
   */
  function BodyEncode(b: Body, f: Field): Value {
    match f
    case ID => S(b.id)
    case Email => S(b.email)
    case FirstName => S(b.firstName)
    case LastName => S(b.lastName)
    case ProvinceCode => S(b.provinceCode)
    case CountryCodeAlpha2 => S(b.countryCodeAlpha2)
    case Currency => S(b.currency)
    case AdministrativeDivision => S(b.administrativeDivision)
    case DateOfBirth => S(b.dateOfBirth)
    case Income => N(b.income)
    case Expenses => N(b.expenses)
    case FamilyMemberNumber => N(b.familyMemberNumber)
    case IsMarried => Bool(b.isMarried)
    case Spouse => if b.spouse.None? then Null else DataMember(b.spouse.value)
    case Dependents =>
      if b.dependents.Nil? then Null
      else if |b.dependents.items| == 0 then MemberList([])
      else DataMemberList(b.dependents.items)
    case Milestones => if b.milestones.Nil? then Null else MilestoneList(b.milestones.items)
    case Goals => if b.goals.Nil? then Null else GoalList(b.goals.items)
    case Protections => if b.protections.Nil? then Null else ProtectionList(b.protections.items)
    case Debts =>
      if b.debts.Nil? then Null
      else if |b.debts.items| == 0 then DebtList([])
      else DataDebtList(b.debts.items)
    case CreatedAt => S(b.createdAt)
    case Meta => if b.meta.Nil? then Null else MetaList(b.meta.items)
    case Occupation | RiskTolerance | Version => Null
  }

  /** Reflection's `IsZero` on a body field. */
  predicate BodyIsZero(b: Body, f: Field) {
    BodyEncode(b, f) == BodyEncode(ZeroBody, f)
  }

  /** The body sets none of the fields its type declares. */
  ghost predicate Blank(body: Body) {
    forall f :: InBody(f) ==> BodyIsZero(body, f)
  }

  /** The sparse patch as a map: every non-zero field of the body's type, under its patch key. */
  ghost predicate IsSparsePatch(body: Body, patch: map<string, Value>) {
    && (forall f :: PatchKey(f) in patch <==> InBody(f) && !BodyIsZero(body, f))
    && (forall f :: PatchKey(f) in patch ==> patch[PatchKey(f)] == BodyEncode(body, f))
    && (forall k :: k in patch ==> exists f :: PatchKey(f) == k)
  }

  /** At most one map is the sparse patch of a body. */
  lemma {:induction false} SparsePatchUnique(body: Body, p: map<string, Value>, q: map<string, Value>)
    requires IsSparsePatch(body, p) && IsSparsePatch(body, q)
    ensures p == q
  {
    forall k | k in p ensures k in q && p[k] == q[k] {
      var f :| PatchKey(f) == k;
    }
    forall k | k in q ensures k in p {
      var f :| PatchKey(f) == k;
    }
  }

  /**
   The map built by visiting `fs` in order and storing `value(f)` under
   `key(f)` for each `f` that is `present`. The patch loop is this fold with
   the body's non-zero fields; it is stated over any field type so that its
   law below does not depend on how the fields are encoded.
   */
  function Collect<F>(key: F -> string, value: F -> Value, present: F -> bool, fs: seq<F>): map<string, Value>
    decreases |fs|
  {
    if |fs| == 0 then map[]
    else
      var p := Collect(key, value, present, fs[..|fs| - 1]);
      var f := fs[|fs| - 1];
      if present(f) then p[key(f) := value(f)] else p
  }

  /** Each key collected from `fs` comes from a present field of `fs`, and each such field is collected. */
  lemma {:induction false} CollectFields<F>(key: F -> string, value: F -> Value, present: F -> bool, fs: seq<F>)
    ensures forall k :: k in Collect(key, value, present, fs) ==>
      exists f :: f in fs && key(f) == k && present(f) && Collect(key, value, present, fs)[k] == value(f)
    ensures forall f :: f in fs && present(f) ==> key(f) in Collect(key, value, present, fs)
    decreases |fs|
  {
    if |fs| > 0 {
      var init := fs[..|fs| - 1];
      var last := fs[|fs| - 1];
      CollectFields(key, value, present, init);
      assert forall f :: f in init ==> f in fs;
      assert forall f :: f in fs ==> f in init || f == last;
      var p := Collect(key, value, present, fs);
      forall k | k in p
        ensures exists f :: f in fs && key(f) == k && present(f) && p[k] == value(f)
      {
        if present(last) && k == key(last) {
          assert last in fs;
        } else {
          var q := Collect(key, value, present, init);
          assert k in q && p[k] == q[k];
          var f :| f in init && key(f) == k && present(f) && q[k] == value(f);
        }
      }
    }
  }

  /** The patch built from the body's fields `fs`, visited in order. */
  function PatchOver(body: Body, fs: seq<Field>): map<string, Value> {
    Collect(PatchKey, f => BodyEncode(body, f), f => !BodyIsZero(body, f), fs)
  }

  /** Each key of the patch over `fs` comes from a non-zero field of `fs`, and each such field is in it. */
  lemma PatchOverFields(body: Body, fs: seq<Field>)
    ensures forall k :: k in PatchOver(body, fs) ==>
      exists f :: f in fs && PatchKey(f) == k && !BodyIsZero(body, f) && PatchOver(body, fs)[k] == BodyEncode(body, f)
    ensures forall f :: f in fs && !BodyIsZero(body, f) ==> PatchKey(f) in PatchOver(body, fs)
  {
    CollectFields(PatchKey, f => BodyEncode(body, f), f => !BodyIsZero(body, f), fs);
  }

  /** The patch over the body type's fields is the sparse patch. */
  lemma {:induction false} PatchOverAllFields(body: Body)
    ensures IsSparsePatch(body, PatchOver(body, BodyFields))
  {
    var p := PatchOver(body, BodyFields);
    PatchOverFields(body, BodyFields);
    forall f ensures PatchKey(f) in p <==> InBody(f) && !BodyIsZero(body, f) {
      BodyFieldsListed(f);
      if PatchKey(f) in p {
        var g :| g in BodyFields && PatchKey(g) == PatchKey(f) && !BodyIsZero(body, g);
        PatchKeyInjective(f, g);
        BodyFieldsListed(g);
      }
    }
    forall f | PatchKey(f) in p ensures p[PatchKey(f)] == BodyEncode(body, f) {
      var g :| g in BodyFields && PatchKey(g) == PatchKey(f) && !BodyIsZero(body, g) && p[PatchKey(f)] == BodyEncode(body, g);
      PatchKeyInjective(f, g);
    }
  }

  /** The reflective loop of `updateUserHandler`, over the body type's fields in declaration order. */
  method DerivePatch(body: Body) returns (patch: map<string, Value>)
    ensures IsSparsePatch(body, patch)
  {
    patch := map[];
    var i := 0;
    while i < |BodyFields|
      invariant 0 <= i <= |BodyFields|
      invariant patch == PatchOver(body, BodyFields[..i])
    {
      var f := BodyFields[i];
      assert BodyFields[..i + 1][..i] == BodyFields[..i];
      if !BodyIsZero(body, f) {
        patch := patch[PatchKey(f) := BodyEncode(body, f)];
      }
      i := i + 1;
    }
    assert BodyFields[..i] == BodyFields;
    PatchOverAllFields(body);
  }

  /** A blank body gives an empty patch, and any other body a non-empty one. */
  lemma {:induction false} EmptyPatchIffBlankBody(body: Body, patch: map<string, Value>)
    requires IsSparsePatch(body, patch)
    ensures |patch| == 0 <==> Blank(body)
  {
    if |patch| == 0 {
      forall f | InBody(f) ensures BodyIsZero(body, f) {
        assert PatchKey(f) !in patch;
      }
    } else {
      var k :| k in patch;
      var f :| PatchKey(f) == k;
      assert InBody(f) && !BodyIsZero(body, f);
    }
  }

  /**
   A body's patch is one the store applies exactly when the body sets some
   field: the ID's key `iD` is never the key attribute, and the body's type
   has no version to put under `version`.
   */
  lemma {:induction false} BodyPatchWellFormed(body: Body, patch: map<string, Value>)
    requires IsSparsePatch(body, patch)
    ensures WellFormedPatch(patch) <==> !Blank(body)
  {
    EmptyPatchIffBlankBody(body, patch);
    KeyNeverPatched(body, patch);
    VersionNeverPatched(body, patch);
    PatchNamesPlain(body, patch);
  }

  /** Every name in a body's patch is a plain top-level attribute name. */
  lemma {:induction false} PatchNamesPlain(body: Body, patch: map<string, Value>)
    requires IsSparsePatch(body, patch)
    ensures forall k :: k in patch ==> PlainName(k)
  {
    forall k | k in patch ensures PlainName(k) {
      var f :| PatchKey(f) == k;
      PatchKeyPlain(f);
    }
  }

  /**
   No name in a body's patch is read back into the ID: the ID's key `iD`
   names no attribute, and every other key is its own field's tag.
   */
  lemma {:induction false} BodyPatchLeavesIdAlone(body: Body, patch: map<string, Value>)
    requires IsSparsePatch(body, patch)
    ensures LeavesIdAlone(patch)
  {
    forall k | k in patch ensures FieldOfAttribute(k) != Some(ID) {
      var f :| PatchKey(f) == k;
      PatchKeyIsAttributeName(f);
      if f != ID {
        AttributeNamesIdentifyFields(f);
      }
    }
  }

  /**
   The body sets an amount that `data` holds as an `int64` and the user
   package as a string: income or expenses, a spouse, or a non-empty list
   of dependents or debts, whose entries carry such amounts.
   */
  predicate SetsInt64Amount(b: Body) {
    || b.income != 0 || b.expenses != 0 || b.spouse.Some?
    || (b.dependents.Slice? && |b.dependents.items| > 0)
    || (b.debts.Slice? && |b.debts.items| > 0)
  }

  /** A field the body sets is written as a value, never as null. */
  lemma BodyValueNotNull(b: Body, f: Field)
    requires !BodyIsZero(b, f)
    ensures !BodyEncode(b, f).Null?
  {
  }

  /** Without such an amount, what the body writes for a field it sets fits that field's type in `User`. */
  lemma BodyValueTyped(b: Body, f: Field)
    requires !BodyIsZero(b, f) && !SetsInt64Amount(b)
    ensures Typed(f, BodyEncode(b, f))
  {
  }

  /**
   A body's patch holds no null, and every value in it fits its field's
   type in `User` exactly when the body sets no `int64` amount.
   */
  lemma {:induction false} PatchTypedUnlessAmounts(body: Body, patch: map<string, Value>)
    requires IsSparsePatch(body, patch)
    ensures forall f :: PatchKey(f) in patch ==> !patch[PatchKey(f)].Null?
    ensures (forall f :: PatchKey(f) in patch ==> Typed(f, patch[PatchKey(f)])) <==> !SetsInt64Amount(body)
  {
    forall f | PatchKey(f) in patch ensures !patch[PatchKey(f)].Null? {
      BodyValueNotNull(body, f);
    }
    if SetsInt64Amount(body) {
      var f :=
        if body.income != 0 then Income
        else if body.expenses != 0 then Expenses
        else if body.spouse.Some? then Spouse
        else if body.dependents.Slice? && |body.dependents.items| > 0 then Dependents
        else Debts;
      assert InBody(f) && !BodyIsZero(body, f);
      assert !Typed(f, patch[PatchKey(f)]);
    } else {
      forall f | PatchKey(f) in patch ensures Typed(f, patch[PatchKey(f)]) {
        BodyValueTyped(body, f);
      }
    }
  }

  /** No field's patch key is the key attribute. */
  lemma {:induction false} KeyNeverPatched(body: Body, patch: map<string, Value>)
    requires IsSparsePatch(body, patch)
    ensures KeyAttribute !in patch
  {
    PatchKeyIsAttributeName(ID);
    if KeyAttribute in patch {
      var f :| PatchKey(f) == KeyAttribute;
      PatchKeyIsAttributeName(f);
      AttributeNamesIdentifyFields(f);
      AttributeNamesIdentifyFields(ID);
      assert false;
    }
  }

  /** Only the version's patch key is `version`, and the body's type has no version. */
  lemma {:induction false} VersionNeverPatched(body: Body, patch: map<string, Value>)
    requires IsSparsePatch(body, patch)
    ensures VersionAttribute !in patch
  {
    if VersionAttribute in patch {
      var f :| PatchKey(f) == VersionAttribute;
      PatchKeyIsAttributeName(f);
      assert f != ID;
      assert AttributeName(f) == AttributeName(Version);
      AttributeNameInjective();
      assert false;
    }
  }

  // ---------------------------------------------------------------------------
  // Update

  /** The response for an error from `Update`. */
  function UpdateErrorResponse(e: RepoError): (r: Response)
    ensures r == EditConflictResponse <==> e == EditConflict
    ensures r != EditConflictResponse ==> r == ServerError
  {
    if e == EditConflict then EditConflictResponse else ServerError
  }

  /** The update call with a patch, and the response the handler makes of its result. */
  function PatchUpdate(t: Table, net: Transport, u: User, patch: map<string, Value>): Outcome {
    var s := Update(t, net, u, patch);
    Outcome(s.table, if s.result.Success? then Updated(s.result.value) else UpdateErrorResponse(s.result.error))
  }

  /**
   The update of a read user with a body's patch: a blank body ends in a
   server error with the table unchanged, and any other body's update goes
   through when the read user has an ID and the version still matches.
   */
  lemma {:induction false} SparseUpdate(t: Table, net: Transport, u: User, body: Body, patch: map<string, Value>)
    requires IsSparsePatch(body, patch)
    ensures Blank(body) ==> PatchUpdate(t, net, u, patch) == Outcome(t, ServerError)
    ensures !Blank(body) && u.id != "" && net.Delivered? && VersionMatches(t, u) ==>
      PatchUpdate(t, net, u, patch).response.Updated?
    ensures WellKeyed(t) ==> WellKeyed(PatchUpdate(t, net, u, patch).table)
  {
    BodyPatchWellFormed(body, patch);
    BodyPatchLeavesIdAlone(body, patch);
  }

  /**
   Once an update has written an `int64` amount, showing that user answers
   a server error, however often it is asked.
   */
  lemma {:induction false} AmountUpdateShownAsError(t: Table, net: Transport, u: User, id: UuidText, body: Body,
                                                     patch: map<string, Value>)
    requires IsSparsePatch(body, patch) && SetsInt64Amount(body) && u.id == id
    ensures PatchUpdate(t, net, u, patch).response.Updated? ==>
      ShowUser(PatchUpdate(t, net, u, patch).table, Delivered, Some(id)) == ServerError
  {
    AmountPatchUnreadable(t, net, u, body, patch);
  }

  /**
   An update with a patch that writes an `int64` amount leaves a record the
   user package cannot read back: the next `Get` of that user fails.
   */
  lemma {:induction false} AmountPatchUnreadable(t: Table, net: Transport, u: User, body: Body, patch: map<string, Value>)
    requires IsSparsePatch(body, patch) && SetsInt64Amount(body)
    ensures Update(t, net, u, patch).result.Success? ==> Get(Update(t, net, u, patch).table, Delivered, u.id).Failure?
  {
    var s := Update(t, net, u, patch);
    if s.result.Success? {
      PatchTypedUnlessAmounts(body, patch);
      var f :| PatchKey(f) in patch && !Typed(f, patch[PatchKey(f)]);
      PatchKeyIsAttributeName(f);
      AttributeNamesIdentifyFields(f);
      AddressIdentifies(ZeroUser.(id := u.id), u);
      var start := ZeroUser.(id := u.id);
      var item := s.table[Address(u)];
      assert item[AttributeName(f)] == patch[AttributeName(f)];
      assert AttributeName(f) in Spellings(item, f);
      assert !Decodable(item, f);
      UnmarshalFields(item, start);
    }
  }

  /**
   `updateUserHandler`: reads the record, derives the patch from the body,
   and updates the record it read, so the compare-and-swap checks the
   version that read returned.
   */
  method UpdateUser(t: Table, getNet: Transport, updateNet: Transport, id: Option<UuidText>, body: Option<Body>)
    returns (o: Outcome)
    ensures id.None? ==> o == Outcome(t, NotFound)
    ensures id.Some? && Get(t, getNet, id.value).Failure? ==> o == Outcome(t, ServerError)
    ensures id.Some? && Get(t, getNet, id.value).Success? && body.None? ==> o == Outcome(t, BadRequest)
    ensures id.Some? && Get(t, getNet, id.value).Success? && body.Some? ==>
      exists patch :: IsSparsePatch(body.value, patch) && o == PatchUpdate(t, updateNet, Get(t, getNet, id.value).value, patch)
    ensures id.Some? && Get(t, getNet, id.value).Success? && body.Some? && Blank(body.value) ==>
      o == Outcome(t, ServerError)
    ensures (id.Some? && Get(t, getNet, id.value).Success? && body.Some? && !Blank(body.value) &&
             WellKeyed(t) && updateNet.Delivered? && VersionMatches(t, Get(t, getNet, id.value).value)) ==>
      o.response.Updated?
    ensures WellKeyed(t) ==> WellKeyed(o.table)
    ensures (id.Some? && Get(t, getNet, id.value).Success? && body.Some? && SetsInt64Amount(body.value) &&
             WellKeyed(t) && o.response.Updated?) ==>
      ShowUser(o.table, Delivered, id) == ServerError
  {
    if id.None? {
      return Outcome(t, NotFound);
    }
    var got := Get(t, getNet, id.value);
    if got.Failure? {
      return Outcome(t, LookupErrorResponse(got.error));
    }
    if body.None? {
      return Outcome(t, BadRequest);
    }
    var patch := DerivePatch(body.value);
    SparseUpdate(t, updateNet, got.value, body.value, patch);
    if SetsInt64Amount(body.value) && got.value.id == id.value {
      AmountUpdateShownAsError(t, updateNet, got.value, id.value, body.value, patch);
    }
    o := PatchUpdate(t, updateNet, got.value, patch);
  }
}
