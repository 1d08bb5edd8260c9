# User registration service: users, their validation, and the versioned user table

This project models the core of the Kapital user-registration service:

- the `User` record and its nested financial entities;
- the validation of a user into a keyed validator;
- the primary key derived from a user's ID;
- the user repository over a DynamoDB table (`Insert`, `Get`, `Update`, `Delete`);
- the HTTP handlers that create, show, update and delete users.

The table is a map from the value of the `userID` key attribute to the stored record. A record maps attribute names to attribute values. Every repository call is a pure transition from a table to a new table and a result. A `Transport` parameter stands for whether the client call reached the store.

`Update` is the optimistic-concurrency core. It sets the patched attributes and `version + 1` only when the stored `version` equals the caller's. So two updates based on the same read cannot both succeed.

Modules, one per file:

| file | module | what it holds |
|---|---|---|
| basics.dfy | `Basics` | Go's `int64` with wrap-around, pointers as `Option`, `(T, error)` as `Result`, slices that tell `nil` from empty |
| entities.dfy | `Entities` | `User`, `FamilyMember`, `Goal`, `Milestone`, `Protection`, `Debt`, `MetaField` |
| attributes.dfy | `Attributes` | the fields and their `dynamodbav` tags, marshalling (with `omitempty`) and unmarshalling |
| validator.dfy | `Validation` | the validator as its tests describe it: `New`, `Valid`, `AddError`, `Check`, `In`, `Unique` |
| users.dfy | `Users`, `UserScenarios` | `GetKey`, `ValidateUser`, `ValidateFamilyMember`; the unit-test scenarios |
| repository.dfy | `Repository`, `RepositoryLaws` | the four repository operations; how they compose, and the integration scenario |
| handlers.dfy | `Handlers` | the create, show, update and delete handlers, and the sparse patch the update handler derives |

Where the code, its comments and its tests disagree, the model follows the code:

- **Primary-key name.** The key attribute is `userID`, from `GetKey` and the struct tag. The unit test for `GetKey` expects `ID`.
- **Update of a missing record.** `Update` does not upsert, although its comment says so. A missing record fails the version condition and reports an edit conflict, as a stale version does.
- **Get never reports not-found.** `Get` of a missing record decodes nothing over `User{ID: id}`. It returns that user and no error.
  - So the not-found branches of the show, update and delete handlers are unreachable. `Delete` never reports not-found either: deleting a missing record succeeds. An unknown ID is shown as a user with only the ID set.
  - The integration test expects the all-zero user after a delete. The code keeps the ID, and the model does too (`RepositoryLaws.DeleteThenGet`).
- **The patch key for the ID is `iD`.** The update handler lower-cases only the first letter of the Go field name, and `iD` names no stored attribute.
- **Handler types.** The handlers name the types of the superseded `data` package, but store through the user package's model. The model uses the user package's `User` for stored records, with two exceptions:
  - The create handler validates with `data.ValidateUser` (internal/data/users.go:174-180). It checks the last name too, so a create body needs five fields right, not four (`Handlers.ValidateDataUser`).
  - The update handler decodes its body into `data.User` and writes that value's fields into the patch. The package declares `User` twice, in internal/data/user.go:27-49 and internal/data/users.go:33-52. The model takes the first, because the handlers give `data.User` a `Currency` and a string `ID` (`uuid.New().String()`, `id.String()`), and only that declaration has both. It declares no occupation, risk tolerance or version, so the body cannot set them (`Handlers.BodyFieldsListed`).
  - `data.User` holds income and expenses as `int64`, and so do its family members, while its debts hold an `int64` cost (internal/data/user.go:37-38, internal/data/helper.go:26-27 and :55). The user package declares all of these as strings. So a body that sets such an amount makes the update write a number, or a nested value carrying one, where the user package expects a string. The update succeeds, but the record no longer decodes: every later read of that user fails, and the show handler answers a server error (`Handlers.AmountPatchUnreadable`, `Handlers.AmountUpdateShownAsError`). Whether a JSON key such as `version`, which `data.User` does not declare, is skipped or refuses the whole body depends on `app.readJSON`, which is not part of this model; the model's body parameter is the decoded `data.User`, or none when decoding was refused.
- **Update failures outside the visible code.** Three `Update` failure paths depend on libraries rather than on the visible code:
  - With an empty patch, the version is set on a copy of an empty update builder, which is then discarded. Building the expression then fails, before any call is made.
  - `expression.Name` reads each patch key as a document path. An empty key cannot be built, also before any call.
  - A patch that sets `version` itself, or the key, is refused by the store. So, in the model, is a key holding path syntax (`.`, `[`, `]`); see "Left out".

  All are modelled as generic store errors. The update handler therefore answers a server error for a body that sets none of its fields.
- **Empty IDs.** DynamoDB refuses an empty string as a key attribute value. So `Insert`, `Get`, `Update` and `Delete` with the empty ID fail with a store error and change nothing. The handlers only ever pass the text of a parsed UUID, which is never empty.
- **Attribute names match in any case.** The decoder first looks for a field whose tag equals the attribute name. Failing that, it takes a field whose tag equals the name up to case (Go's `strings.EqualFold`). So an attribute `Email` fills the `email` field. No two tags are equal up to case, so each name fills at most one field (`Attributes.TagsFoldApart`).

## Model

| member | source | states |
|---|---|---|
| Basics.WrappingIncrement | internal/user/repository.go:132 | `Version + 1` on an `int64`: one more below the maximum, wrapping to the minimum at it, and never the same value |
| Attributes.AttributeNamesIdentifyFields | internal/user/user.go:31-70 | the decoder finds every field again from its tag's attribute name |
| Attributes.FieldOfAttributeFolds | internal/user/repository.go:100 | an attribute fills a field exactly when its name equals the field's tag up to case |
| Attributes.TagsFoldApart | internal/user/user.go:31-70 | no two tags are equal up to case, and every tag has at least four characters |
| Attributes.AttributeNameInjective | internal/user/user.go:31-70 | no two fields of `User` are stored under the same attribute name |
| Attributes.EncodeDetermines | internal/user/user.go:31-70 | two users whose fields all encode to the same attribute values are the same user |
| Attributes.Marshal | internal/user/user.go:31-70 | the record holds an attribute exactly for each field that is not both `omitempty` and zero, under its tag name, carrying the field's value |
| Attributes.MarshalledVersionAndKey | internal/user/user.go:66-68 | a stored record always carries `version` and `userID`, since neither tag says `omitempty` |
| Attributes.MarshalWritesNoNull | internal/user/user.go:55-69 | a marshalled record never holds a null, because every pointer and slice field is `omitempty` |
| Attributes.UnmarshalFields | internal/user/repository.go:100-103 | decoding succeeds exactly when every attribute that names a field, in any case, is null or of the field's type; each field then holds such an attribute's value, its zero for null, or the starting value when no attribute names it |
| Attributes.MarshalRoundTrip | internal/user/repository.go:88-106 | decoding a marshalled user over a start that is zero in the `omitempty` fields gives the user back |
| Attributes.OmittedFieldKeepsStart | internal/user/user.go:47-69 | over a start that is non-zero in some `omitempty` field, the zero user's record does not decode back to the zero user: the omitted field keeps the start's value |
| Attributes.UnknownAttributeIgnored | internal/user/repository.go:100 | an attribute whose name equals no tag up to case, such as `iD`, does not change what decoding produces |
| Attributes.FoldedNameDecodes | internal/user/repository.go:100 | a lone attribute whose name differs from a tag only in case, such as `Email`, fills that tag's field and leaves the others at the start |
| Attributes.UnmarshalEmpty | internal/user/repository.go:99-106 | decoding a missing record, which has no attributes, leaves the starting user unchanged |
| Attributes.OverwriteDecodes | internal/user/repository.go:124-134 | a record overwritten, under the exact tags, with another user's values in some fields decodes to that user, when the two agree on the rest |
| Validation.New | internal/validator/validator_test.go:36-41 | a fresh validator has no failures and is valid |
| Validation.Valid | internal/validator/validator_test.go:114-116 | a validator is valid exactly when it has no failures |
| Validation.AddError | internal/validator/validator_test.go:42-53 | the key becomes failed and the validator invalid; earlier failures keep their messages; a new key gets the given message |
| Validation.Check | internal/validator/validator_test.go:54-85 | a passing check changes nothing; a failing one records its key, with its message when the key was not yet failed |
| Validation.TableScenarios | internal/validator/validator_test.go:36-85 | the four rows of the validator's table test: exact failure maps and validity |
| Validation.In | internal/validator/validator_test.go:128-159 | `In` holds exactly when some position of the list holds the value |
| Validation.InScenarios | internal/validator/validator_test.go:134-148 | the rows of the `In` test, including the empty list |
| Validation.Unique | internal/validator/validator_test.go:203-238 | `Unique` holds exactly when no two positions hold equal values, adjacent or not |
| Validation.UniqueScenarios | internal/validator/validator_test.go:208-227 | the rows of the `Unique` test: non-adjacent repeats and repeated empty strings are not unique, and the empty list is |
| Users.GetKey | internal/user/user.go:131-139 | the key has the single attribute `userID`, holding the ID as a string, for every ID including the empty one |
| Users.GetKeyIdentifies | internal/user/user.go:131-139 | two users get equal keys exactly when their IDs are equal |
| Users.ByteLengthAtLeastLength | internal/user/user.go:150 | Go's `len` counts UTF-8 bytes: never fewer than the characters, and equal only for ASCII text |
| Users.TwoBytes | internal/user/user.go:150 | the country-code rule accepts two ASCII characters, or one character that takes two bytes |
| Users.Decimal | internal/user/user.go:162 | `%d` prints at least one digit, at least two from ten on, and only digits |
| Users.DecimalInjective | internal/user/user.go:162 | different numbers print differently |
| Users.DependentKeysIdentify | internal/user/user.go:160-174 | distinct dependents, and the two checks of one dependent, never share a failure key |
| Users.DependentKeysApart | internal/user/user.go:148-174 | a dependent's key never equals a top-level or spouse key |
| Users.ValidateFamilyMember | internal/user/user.go:171-174 | exactly `prefix_type` for an empty type and `prefix_first_name` for an empty first name are added, with "must be provided"; earlier failures are kept |
| Users.ValidateDependents | internal/user/user.go:160-165 | the dependent at index i fails under `dependent_{i+1}`; nothing else is added |
| Users.ValidateIdentity | internal/user/user.go:148-149 | adds `email` exactly when the email does not match, and `first_name` exactly when the first name is empty |
| Users.ValidateRegion | internal/user/user.go:150-151 | adds `country_code_alpha_2` exactly when the code is not two bytes long, and `province_code` exactly when it is empty |
| Users.ValidateSpouse | internal/user/user.go:153-158 | for a married user adds `spouse` when there is none, and checks the spouse under `spouse` when there is one; an unmarried user's spouse is not looked at |
| Users.ValidateUser | internal/user/user.go:147-166 | the failed keys are exactly the earlier ones plus every rule the user breaks, none stopping the others, each with its rule's message |
| UserScenarios.FreshValidation | internal/user/user.go:147-166 | from a fresh validator the failure map is exactly the set of broken rules, each with its rule's message |
| UserScenarios.ValidUserPasses | internal/user/user_test.go:92-106 | the test's valid user, married with a complete spouse and no last name check, gets no failure |
| UserScenarios.InvalidUserFailsEverywhere | internal/user/user_test.go:107-123 | the test's invalid user gets exactly the five failures `email`, `first_name`, `country_code_alpha_2`, `province_code` and `spouse` |
| UserScenarios.TwoDependents | internal/user/user_test.go:136-139 | the test's two dependents fail exactly under `dependent_1_first_name` and `dependent_2_type` |
| UserScenarios.InvalidFamilyMembersReported | internal/user/user_test.go:124-146 | the test's family-member case gets exactly the spouse's and the two dependents' failures |
| UserScenarios.UnreadFieldsIgnored | internal/user/user.go:147-174 | users that agree on the validated fields validate alike; the last name is never checked |
| UserScenarios.SpouseIgnoredUnlessMarried | internal/user/user.go:153-158 | for an unmarried user, any spouse gives the same validation |
| Repository.AddressIdentifies | internal/user/user.go:131-139 | two users' records live at the same place exactly when their IDs are equal |
| Repository.Insert | internal/user/repository.go:64-83 | succeeds exactly when the call is delivered and the ID is not empty; then it stores the user's full record under its key and leaves every other record alone; a failure changes nothing and is a store error |
| Repository.Get | internal/user/repository.go:85-107 | never a not-found or conflict error; fails exactly when the call fails, the ID is empty, or the stored record does not decode; otherwise, when every record sits under its own key and names the ID only as `userID`, returns a user with the requested ID |
| Repository.Refusal | internal/user/repository.go:120-160 | the update is refused before the version is compared exactly when the call fails, the ID is empty, or the patch is empty, holds a non-plain name, `version` or the key; an empty patch or an empty name fails to build |
| Repository.Update | internal/user/repository.go:109-169 | succeeds exactly when delivered for a non-empty ID with a non-empty patch of plain top-level names, free of `version` and the key, on a record whose version matches; an empty name fails to build; then it sets the patch, bumps the version and returns exactly those attributes; a mismatch is an edit conflict; failures change nothing |
| Repository.Delete | internal/user/repository.go:171-187 | succeeds exactly when delivered for a non-empty ID; then it removes the record under the key, present or not, and nothing else; a failure changes nothing |
| RepositoryLaws.SameKey | internal/user/repository.go:89-95 | `Get(id)` reads the record that the other operations write for a user with that ID |
| RepositoryLaws.GetStored | internal/user/repository.go:88-107 | reading an ID whose record is some user's full record gives that user |
| RepositoryLaws.GetDecoded | internal/user/repository.go:88-107 | reading an ID gives what its record decodes to over the user holding just that ID |
| RepositoryLaws.InsertThenGet | integration/user_repository_integration_test.go:76-101 | a user read back after an insert is the inserted user |
| RepositoryLaws.GetAbsent | internal/user/repository.go:88-107 | reading an ID with no record gives the zero user with that ID, and no error |
| RepositoryLaws.DeleteThenGet | integration/user_repository_integration_test.go:151-162 | after a delete, a read of the ID gives the zero user with that ID |
| RepositoryLaws.DeleteIdempotent | internal/user/repository.go:171-174 | deleting twice is deleting once |
| RepositoryLaws.UpdateReadsIdAndVersion | internal/user/repository.go:132-145 | `Update` depends on nothing of the user but its ID and version |
| RepositoryLaws.DeleteReadsId | internal/user/repository.go:175-181 | `Delete` depends on nothing of the user but its ID |
| RepositoryLaws.AtMostOneOfTwoSucceeds | internal/user/repository.go:132-134 | of two updates of one record starting from the same version, at most one succeeds |
| RepositoryLaws.UpdatedRecord | internal/user/repository.go:124-134 | a successful update overlays the old record with the patch and the bumped version |
| RepositoryLaws.PatchedRecord | internal/user/repository.go:124-134 | that overlay decodes to the user with the patched fields and the next version |
| RepositoryLaws.UpdateThenGet | integration/user_repository_integration_test.go:103-128 | updating the record just read, with a patch under the exact tags, and reading again gives the patched user at the next version |
| RepositoryLaws.MilestonePatch | integration/user_repository_integration_test.go:108-112 | the integration test's milestone patch is one the store applies |
| RepositoryLaws.MilestonePatchExactlySpelled | integration/user_repository_integration_test.go:108-112 | that patch names the milestones by their exact tag |
| RepositoryLaws.MilestonePatchDescribes | integration/user_repository_integration_test.go:108-127 | that patch describes the user with the new milestones, nothing else changed |
| RepositoryLaws.IntegrationScenario | integration/user_repository_integration_test.go:76-162 | insert then read; update then read at version 2; a stale update conflicts; delete then read gives the zero user with the ID |
| Handlers.NewUser | cmd/api/users.go:45-56 | the new user takes the body's five fields, the fresh ID and today's date, province, CAD and version 1; every other field is zero |
| Handlers.ValidateDataUser | internal/data/users.go:174-180 | adds exactly the failures of the five rules: email, first name, last name, two-byte country code, province code; earlier failures are kept |
| Handlers.DataUserMessages | internal/data/users.go:174-180 | each failure it adds carries its rule's message |
| Handlers.CreateUser | cmd/api/users.go:30-77 | 400 for an undecodable body; failed validation exactly when a rule is broken, listing exactly the broken rules with their messages; created exactly when the rules pass and the insert is delivered; a server error when the insert fails; the table changes only on creation, and stays well keyed |
| Handlers.LookupErrorResponse | cmd/api/users.go:87-94 | not-found maps to 404, every other error to a server error |
| Handlers.ShowUser | cmd/api/users.go:79-101 | 404 exactly for an unparsable ID; otherwise shows exactly what `Get` returns, and answers a server error whenever `Get` fails |
| Handlers.DeleteUser | cmd/api/users.go:157-179 | 404 exactly for an unparsable ID; otherwise deletes through a user carrying only the ID; confirms with "user successfully deleted" exactly when delivered, and answers a server error when the call fails; the table stays well keyed |
| Handlers.PatchKeyIsAttributeName | cmd/api/users.go:135 | a field's patch key is its stored attribute name for every field but the ID, whose key `iD` names no attribute |
| Handlers.PatchKeyInjective | cmd/api/users.go:135 | distinct fields have distinct patch keys |
| Handlers.PatchKeyPlain | cmd/api/users.go:135 | every patch key is a non-empty name without path syntax, so the expression builder takes it as one top-level attribute |
| Handlers.SparsePatchUnique | cmd/api/users.go:128-138 | a body has at most one sparse patch |
| Handlers.CollectFields | cmd/api/users.go:131-137 | the loop's map has a key for exactly the present visited fields, each holding that field's value |
| Handlers.PatchOverFields | cmd/api/users.go:131-137 | the loop over some fields collects exactly their non-zero ones, under their patch keys |
| Handlers.BodyFieldsListed | internal/data/user.go:27-49 | the update body's fields are exactly those `data.User` declares: all but occupation, risk tolerance and version |
| Handlers.PatchOverAllFields | cmd/api/users.go:128-138 | the loop over the body type's fields builds the sparse patch |
| Handlers.DerivePatch | cmd/api/users.go:128-138 | a key is in the patch exactly when its field is one the body's type declares and is non-zero, holding that field's value as the body's type encodes it, and no other key is |
| Handlers.BodyValueNotNull | cmd/api/users.go:128-138 | a field the body sets is written as a value, never as null |
| Handlers.BodyValueTyped | internal/data/user.go:27-49 | when the body sets no `int64` amount, what it writes for a field fits that field's type in the user package |
| Handlers.PatchTypedUnlessAmounts | cmd/api/users.go:128-138 | a body's patch holds no null, and fits the user package's field types exactly when the body sets no income, expenses, spouse, dependents or debts |
| Handlers.AmountPatchUnreadable | cmd/api/users.go:128-140 | a successful update with a patch that sets such an amount leaves a record whose next read fails |
| Handlers.EmptyPatchIffBlankBody | cmd/api/users.go:121-138 | the patch is empty exactly when the body sets none of the fields its type declares |
| Handlers.KeyNeverPatched | cmd/api/users.go:135 | the patch never names the key attribute `userID` |
| Handlers.VersionNeverPatched | cmd/api/users.go:121-138 | the patch never names `version`, since the body's type has no version |
| Handlers.PatchNamesPlain | cmd/api/users.go:128-138 | every name in a body's patch is a plain top-level attribute name |
| Handlers.BodyPatchWellFormed | cmd/api/users.go:121-140 | the patch is one the store applies exactly when the body sets some field |
| Handlers.BodyPatchLeavesIdAlone | cmd/api/users.go:128-138 | no name in a body's patch is read back into the ID, so the update keeps every record under its own key |
| Handlers.UpdateErrorResponse | cmd/api/users.go:141-149 | an edit conflict maps to 409, every other error to a server error |
| Handlers.SparseUpdate | cmd/api/users.go:140-149 | with a body's patch, a blank body ends in a server error with the table unchanged, and any other body's update succeeds when the read user has an ID and a current version; either way a well-keyed table stays well keyed |
| Handlers.AmountUpdateShownAsError | cmd/api/users.go:79-101 | after a successful update that set an `int64` amount, showing that user answers a server error |
| Handlers.UpdateUser | cmd/api/users.go:103-155 | 404 for an unparsable ID; a server error if the read fails; 400 for an undecodable body; otherwise the response is the update of the record just read with the body's sparse patch; a blank body is a server error; when every record sits under its own key, a delivered update of a current read succeeds, and every record still sits under its own key afterwards; once such an update has set an `int64` amount, showing the user answers a server error |

## Left out

- The DynamoDB client, its three-second timeouts and credentials. Each call's outcome is the `Transport` parameter, and failures are assumed to happen before the store applies the call, so a failed call changes nothing. A write that times out after the store applied it, and an SDK retry of an applied conditional update (which then fails the version condition and answers 409), are not modelled.
- The marshalling library's encoding of nested entities. A family member, a list of milestones and so on travel as whole attribute values, taken to be lossless between values of the same package's type. A value of a `data` type with numbers where the user package has strings is a distinct value that no user field accepts. An empty list is the same value in either package. So the nested maps of the integration test's milestone patch, and the case-insensitive matching of nested field names, are not modelled.
- Attributes.Resolve: when several attributes of one record name the same field in different cases, Go's decoder keeps whichever its random map order visits last. The model keeps the least name instead, which is one of the outcomes Go can produce.
- Attributes.FoldChar: case folding covers ASCII letters plus the Kelvin sign and the long s, the two non-ASCII characters that fold to ASCII letters. That is what `strings.EqualFold` does against the all-ASCII tags; other non-ASCII folding never matters here.
- The exact text of the store's and the expression builder's errors. The model keeps the repository's own prefix and the `Here's why` form, with a fixed reason of its own.
- `TableExists` and the table's creation and deletion: administrative calls on the table, not on users.
- UUID parsing of the path parameter and JSON decoding of request bodies. Each arrives as `None` when it failed, so the handlers' 404 and 400 branches are modelled but the parsers are not.
- The fresh UUID and today's date: parameters of `CreateUser`.
- Writing the JSON response, and the server error a failed write would cause.
- `validator.EmailRX` and `Matches`: the validator's source is not part of this model. The email rule is a predicate parameter, so the test rows for `test@example.com` and the phone-number pattern are not modelled.
- Concurrent requests: the version check is modelled as sequential transitions; `RepositoryLaws.AtMostOneOfTwoSucceeds` covers two interleaved writers.
- The `internal/data` package: an older, superseded duplicate of the user package. It is not part of this model, apart from three things: the two error values the repository reports, `ValidateUser` as the create handler calls it, and the field set of `data.User` that the update body is decoded into. A second `ValidateUser` in internal/data/user.go:59-74 adds spouse and dependent checks; a new user is unmarried with no dependents, so those checks never fire on create.
- Repository.Update: a patch key holding `.`, `[` or `]` is a document path to `expression.Name`. The source sends it to the store, which sets a member inside a map or list attribute when the parent exists and refuses it otherwise; a key with an empty path segment fails to build. The model refuses every such key with a store error, so it does not promise what a nested-path update does. The handler's keys are plain Go field names (`Handlers.PatchKeyPlain`), so this never arises through the API.
- Handlers.UpdateUser: the body's JSON names are not modelled. Its `time.Time` date of birth is modelled as the text it is written as, with the empty text standing for the zero time.
- Validation.AddError: when a key has already failed, the model keeps the first message. No test fixes this case, and no key of the user rules is ever recorded twice.
