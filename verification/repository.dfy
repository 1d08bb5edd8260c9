/**
 The user repository over a key-value table. Each client call either reaches
 the store or fails on the way (a `Transport` outcome, standing for network
 errors and timeouts); a failure is taken to happen before the store applies
 the call, so it changes nothing. `Update` is a compare-and-swap on the
 `version` attribute: it applies only when the stored version equals the
 caller's, and bumps it, so concurrent writers based on the same read cannot
 both succeed.
 */
module Repository {
  import opened Basics
  import opened Entities
  import opened Attributes
  import opened Users

  /**
   The table: records by the value of their primary-key attribute (the one
   entry of a `GetKey` map).
   */
  type Table = map<Value, Item>

  /** Where a user's record lives: the value in its primary key. */
  function Address(u: User): Value {
    GetKey(u)[KeyAttribute]
  }

  /** Users share an address exactly when they share an ID. */
  lemma AddressIdentifies(u: User, w: User)
    ensures Address(u) == Address(w) <==> u.id == w.id
  {
  }

  /** Every record sits under the value of its own key attribute. */
  ghost predicate WellKeyed(t: Table) {
    forall a :: a in t ==> KeyAttribute in t[a] && t[a][KeyAttribute] == a && Spellings(t[a], ID) == {KeyAttribute}
  }

  /** No attribute of the patch is read back into the ID. */
  ghost predicate LeavesIdAlone(patch: map<string, Value>) {
    forall k :: k in patch ==> FieldOfAttribute(k) != Some(ID)
  }

  /** Whether a client call reached the store, or failed with a reason. */
  datatype Transport = Delivered | Failed(reason: string)

  /** The errors a repository call returns. */
  datatype RepoError =
    | RecordNotFound          // `ErrRecordNotFound`
    | EditConflict            // `ErrEditConflict`
    | StoreError(message: string)

  /** The table after a call, and what the call returned. */
  datatype Step<+T> = Step(table: Table, result: Result<T, RepoError>)

  /** The wrapped error text: `"<what>. Here's why: <reason>"`. */
  function Why(what: string, reason: string): string {
    what + ". Here's why: " + reason
  }

  /** The decoder's complaint about an attribute of the wrong type. */
  const TypeMismatch: string := "attribute value does not match the field's type"

  /** The store's complaint about a key attribute that holds the empty string. */
  const EmptyKey: string := "the key attribute holds an empty string"

  /**
   `Insert`: an unconditional put of the whole record, replacing any record
   under the same key. The store refuses an empty ID as a key value.
   */
  function Insert(t: Table, net: Transport, u: User): (s: Step<()>)
    ensures s.result.Success? <==> net.Delivered? && u.id != ""
    ensures s.result.Success? ==> Address(u) in s.table && s.table[Address(u)] == Marshal(u)
    ensures s.result.Success? ==> forall k :: k != Address(u) ==> (k in s.table <==> k in t) && (k in t ==> s.table[k] == t[k])
    ensures s.result.Failure? ==> s.table == t && s.result.error.StoreError?
    ensures WellKeyed(t) ==> WellKeyed(s.table)
  {
    if net.Failed? then Step(t, Failure(StoreError(Why("couldn't add item to table", net.reason))))
    else if u.id == "" then Step(t, Failure(StoreError(Why("couldn't add item to table", EmptyKey))))
    else
      InsertKeepsKeying(t, u);
      Step(t[Address(u) := Marshal(u)], Success(()))
  }

  /**
   `Get`: reads the record under the ID's key and decodes it over `User{ID: id}`.
   A missing record reads as no attributes, so the caller gets that starting
   user back and no error. The store refuses an empty ID as a key value.
   */
  function Get(t: Table, net: Transport, id: string): (r: Result<User, RepoError>)
    ensures r != Failure(RecordNotFound) && r != Failure(EditConflict)
    ensures r.Failure? <==> net.Failed? || id == "" || (Address(ZeroUser.(id := id)) in t && Unmarshal(t[Address(ZeroUser.(id := id))], ZeroUser.(id := id)).None?)
    ensures WellKeyed(t) && r.Success? ==> r.value.id == id
  {
    var start := ZeroUser.(id := id);
    var key := Address(start);
    if net.Failed? then Failure(StoreError(Why("couldn't get info about " + id, net.reason)))
    else if id == "" then Failure(StoreError(Why("couldn't get info about " + id, EmptyKey)))
    else
      var item := if key in t then t[key] else map[];
      match Unmarshal(item, start)
      case None => Failure(StoreError(Why("couldn't unmarshal response", TypeMismatch)))
      case Some(u) =>
        if key in t then
          StoredIdReadBack(t, id, u);
          Success(u)
        else
          UnmarshalEmpty(start);
          Success(u)
  }

  /** In a well-keyed table, the record under an ID's address decodes to a user with that ID. */
  lemma StoredIdReadBack(t: Table, id: string, u: User)
    requires Address(ZeroUser.(id := id)) in t
    requires Unmarshal(t[Address(ZeroUser.(id := id))], ZeroUser.(id := id)) == Some(u)
    ensures WellKeyed(t) ==> u.id == id
  {
    if WellKeyed(t) {
      var start := ZeroUser.(id := id);
      var item := t[Address(start)];
      UnmarshalFields(item, start);
      OneSpelling(item, start, ID, KeyAttribute);
      assert Encode(u, ID) == S(id);
    }
  }

  /**
   A patch name the expression builder takes as one top-level attribute: not
   empty, and free of the document-path syntax `.` and `[i]`.
   */
  predicate PlainName(k: string) {
    k != "" && '.' !in k && '[' !in k && ']' !in k
  }

  /**
   A patch the store applies: at least one attribute, every name a plain
   top-level one, and neither the version counter (which the update sets
   itself) nor the primary key.
   */
  predicate WellFormedPatch(patch: map<string, Value>) {
    && |patch| > 0
    && (forall k :: k in patch ==> PlainName(k))
    && VersionAttribute !in patch && KeyAttribute !in patch
  }

  /** The stored record under `u`'s key carries `u`'s version. */
  predicate VersionMatches(t: Table, u: User) {
    Address(u) in t && VersionAttribute in t[Address(u)] && t[Address(u)][VersionAttribute] == N(u.version)
  }

  /**
   The expression builder's complaint when no attribute was set: the version
   is set on a copy of the empty builder, which the call discards.
   */
  const EmptyUpdate: string := "unset parameter: UpdateBuilder"

  /** The expression builder's complaint about an empty attribute name. */
  const UnsetName: string := "unset parameter: NameBuilder"

  /**
   The store's complaint about an update that names the version twice, the
   key, or a document path.
   */
  const RejectedPaths: string := "the update expression overlaps the version, names the key or names a document path"

  /** The error `Update` returns when the expression cannot be built. */
  function BuildFailure(reason: string): string {
    Why("couldn't build expression for update", reason)
  }

  /** The error `Update` returns when the call for `id` fails. */
  function UpdateFailure(id: string, reason: string): string {
    Why("couldn't update id " + id, reason)
  }

  /**
   `Update`: sets every attribute of the patch and the version to
   `u.Version + 1`, on condition that the stored version equals `u.Version`.
   Returns the new values of the attributes it set. A missing record fails
   the condition like a stale version does. With no attribute to set, or an
   empty attribute name, the expression cannot be built, before any call is
   made; an empty ID, or a patch that sets the version, the key or a document
   path, is refused by the store.
   */
  function Update(t: Table, net: Transport, u: User, patch: map<string, Value>): (s: Step<map<string, Value>>)
    ensures s.result.Success? <==> net.Delivered? && u.id != "" && WellFormedPatch(patch) && VersionMatches(t, u)
    ensures s.result.Failure? ==> s.table == t
    ensures s.result == Failure(EditConflict) <==> net.Delivered? && u.id != "" && WellFormedPatch(patch) && !VersionMatches(t, u)
    ensures s.result.Failure? && s.result.error != EditConflict ==> s.result.error.StoreError?
    ensures |patch| == 0 ==> s.result == Failure(StoreError(BuildFailure(EmptyUpdate)))
    ensures "" in patch ==> s.result == Failure(StoreError(BuildFailure(UnsetName)))
    ensures s.result.Success? ==>
      var key := Address(u);
      && key in t && key in s.table
      && (forall a :: a in s.table[key] <==> a in t[key] || a in patch || a == VersionAttribute)
      && (forall a :: a in patch ==> s.table[key][a] == patch[a])
      && s.table[key][VersionAttribute] == N(WrappingIncrement(u.version))
      && (forall a :: a in t[key] && a !in patch && a != VersionAttribute ==> s.table[key][a] == t[key][a])
      && (forall k :: k != key ==> (k in s.table <==> k in t) && (k in t ==> s.table[k] == t[k]))
      && (forall a :: a in s.result.value <==> a in patch || a == VersionAttribute)
      && (forall a :: a in s.result.value ==> s.result.value[a] == s.table[key][a])
    ensures WellKeyed(t) && LeavesIdAlone(patch) ==> WellKeyed(s.table)
  {
    var key := Address(u);
    match Refusal(net, u, patch)
    case Some(e) => Step(t, Failure(StoreError(e)))
    case None =>
      if !VersionMatches(t, u) then Step(t, Failure(EditConflict))
      else
        var changed := patch[VersionAttribute := N(WrappingIncrement(u.version))];
        PatchKeepsKeying(t, key, patch, N(WrappingIncrement(u.version)));
        Step(Overlay(t, key, changed), Success(changed))
  }

  /**
   Why `Update` fails before the version is compared, if it does: the
   expression cannot be built, the call fails, or the store refuses the key
   or the patch.
   */
  function Refusal(net: Transport, u: User, patch: map<string, Value>): (r: Option<string>)
    ensures r.None? <==> net.Delivered? && u.id != "" && WellFormedPatch(patch)
    ensures |patch| == 0 ==> r == Some(BuildFailure(EmptyUpdate))
    ensures "" in patch ==> r == Some(BuildFailure(UnsetName))
  {
    if |patch| == 0 then Some(BuildFailure(EmptyUpdate))
    else if "" in patch then Some(BuildFailure(UnsetName))
    else if net.Failed? then Some(UpdateFailure(u.id, net.reason))
    else if u.id == "" then Some(UpdateFailure(u.id, EmptyKey))
    else if !WellFormedPatch(patch) then Some(UpdateFailure(u.id, RejectedPaths))
    else None
  }

  /** The table with the record under `key` overlaid by `changed`. */
  function Overlay(t: Table, key: Value, changed: map<string, Value>): (t': Table)
    requires key in t
    ensures key in t'
    ensures forall a :: a in t'[key] <==> a in t[key] || a in changed
    ensures forall a :: a in changed ==> t'[key][a] == changed[a]
    ensures forall a :: a in t[key] && a !in changed ==> t'[key][a] == t[key][a]
    ensures forall k :: k != key ==> (k in t' <==> k in t) && (k in t ==> t'[k] == t[k])
  {
    t[key := t[key] + changed]
  }

  /** Overlaying a record with a patch that leaves the ID alone, and a new version, keeps the table well keyed. */
  lemma PatchKeepsKeying(t: Table, key: Value, patch: map<string, Value>, version: Value)
    requires key in t && KeyAttribute !in patch
    ensures WellKeyed(t) && LeavesIdAlone(patch) ==> WellKeyed(t[key := t[key] + patch[VersionAttribute := version]])
  {
    if WellKeyed(t) && LeavesIdAlone(patch) {
      var changed := patch[VersionAttribute := version];
      assert LeavesIdAlone(changed) by {
        AttributeNamesIdentifyFields(Version);
      }
      MergedSpellings(t[key], changed, ID);
      RekeyedRecord(t, key, t[key] + changed);
    }
  }

  /** Storing a marshalled record under its own address keeps the table well keyed. */
  lemma InsertKeepsKeying(t: Table, u: User)
    ensures WellKeyed(t) ==> WellKeyed(t[Address(u) := Marshal(u)])
  {
    if WellKeyed(t) {
      MarshalExactlySpelled(u);
      ExactSpellings(Marshal(u), ID);
      RekeyedRecord(t, Address(u), Marshal(u));
    }
  }

  /** Replacing one record of a well-keyed table by a record keyed as `WellKeyed` asks keeps it well keyed. */
  lemma RekeyedRecord(t: Table, key: Value, r: Item)
    requires WellKeyed(t)
    requires KeyAttribute in r && r[KeyAttribute] == key && Spellings(r, ID) == {KeyAttribute}
    ensures WellKeyed(t[key := r])
  {
    var t' := t[key := r];
    forall a | a in t'
      ensures KeyAttribute in t'[a] && t'[a][KeyAttribute] == a && Spellings(t'[a], ID) == {KeyAttribute}
    {
      var s := t'[a];
      if a == key {
        assert s == r;
      } else {
        assert a in t && s == t[a];
      }
    }
  }

  /**
   `Delete`: removes the record under `u`'s key; deleting a missing record
   succeeds too. The store refuses an empty ID as a key value.
   */
  function Delete(t: Table, net: Transport, u: User): (s: Step<()>)
    ensures s.result.Success? <==> net.Delivered? && u.id != ""
    ensures s.result.Success? ==> Address(u) !in s.table
    ensures s.result.Success? ==> forall k :: k != Address(u) ==> (k in s.table <==> k in t) && (k in t ==> s.table[k] == t[k])
    ensures s.result.Failure? ==> s.table == t && s.result.error.StoreError?
    ensures WellKeyed(t) ==> WellKeyed(s.table)
  {
    if net.Failed? then Step(t, Failure(StoreError(Why("couldn't delete " + u.id + " from the table", net.reason))))
    else if u.id == "" then Step(t, Failure(StoreError(Why("couldn't delete " + u.id + " from the table", EmptyKey))))
    else Step(t - {Address(u)}, Success(()))
  }
}

/** How the repository's operations compose. */
module RepositoryLaws {
  import opened Basics
  import opened Entities
  import opened Attributes
  import opened Users
  import opened Repository

  /** The key `Get(id)` looks under is the key `Insert`, `Update` and `Delete` use for a user with that ID. */
  lemma SameKey(u: User)
    ensures Address(ZeroUser.(id := u.id)) == Address(u)
  {
    AddressIdentifies(ZeroUser.(id := u.id), u);
  }

  /** Reading an ID whose record is some user's full record gives that user. */
  lemma {:induction false} GetStored(t: Table, id: string, u: User)
    requires id != ""
    requires Address(ZeroUser.(id := id)) in t && t[Address(ZeroUser.(id := id))] == Marshal(u)
    ensures Get(t, Delivered, id) == Success(u)
  {
    IdOnlyIsZeroWhereOmitted(id);
    MarshalRoundTrip(u, ZeroUser.(id := id));
    GetDecoded(t, id, u);
  }

  /** Reading an ID whose record decodes, over the user holding just that ID, to some user gives that user. */
  lemma GetDecoded(t: Table, id: string, u: User)
    requires id != ""
    requires Address(ZeroUser.(id := id)) in t && Unmarshal(t[Address(ZeroUser.(id := id))], ZeroUser.(id := id)) == Some(u)
    ensures Get(t, Delivered, id) == Success(u)
  {
  }

  /** A stored user reads back unchanged. */
  lemma {:induction false} InsertThenGet(t: Table, u: User)
    requires u.id != ""
    ensures Get(Insert(t, Delivered, u).table, Delivered, u.id) == Success(u)
  {
    SameKey(u);
    GetStored(Insert(t, Delivered, u).table, u.id, u);
  }

  /** Reading an ID with no record gives the zero user carrying that ID, and no error. */
  lemma {:induction false} GetAbsent(t: Table, id: string)
    requires id != ""
    requires Address(ZeroUser.(id := id)) !in t
    ensures Get(t, Delivered, id) == Success(ZeroUser.(id := id))
  {
    UnmarshalEmpty(ZeroUser.(id := id));
  }

  /** After a delete, reading the same ID gives the zero user carrying that ID. */
  lemma {:induction false} DeleteThenGet(t: Table, u: User)
    requires u.id != ""
    ensures Get(Delete(t, Delivered, u).table, Delivered, u.id) == Success(ZeroUser.(id := u.id))
  {
    SameKey(u);
    GetAbsent(Delete(t, Delivered, u).table, u.id);
  }

  /** Deleting twice is deleting once. */
  lemma DeleteIdempotent(t: Table, u: User)
    ensures Delete(Delete(t, Delivered, u).table, Delivered, u) == Delete(t, Delivered, u)
  {
  }

  /** `Update` reads nothing of the user but its ID and version. */
  lemma UpdateReadsIdAndVersion(t: Table, net: Transport, u: User, w: User, patch: map<string, Value>)
    requires u.id == w.id && u.version == w.version
    ensures Update(t, net, u, patch) == Update(t, net, w, patch)
  {
    AddressIdentifies(u, w);
  }

  /** `Delete` reads nothing of the user but its ID. */
  lemma DeleteReadsId(t: Table, net: Transport, u: User, w: User)
    requires u.id == w.id
    ensures Delete(t, net, u) == Delete(t, net, w)
  {
    AddressIdentifies(u, w);
  }

  /**
   Two updates of one record that start from the same version cannot both
   succeed: the first to apply moves the version on.
   */
  lemma {:induction false} AtMostOneOfTwoSucceeds(t: Table, n1: Transport, n2: Transport, u1: User, u2: User,
                                                   p1: map<string, Value>, p2: map<string, Value>)
    requires u1.id == u2.id && u1.version == u2.version
    ensures var s1 := Update(t, n1, u1, p1);
      !(s1.result.Success? && Update(s1.table, n2, u2, p2).result.Success?)
  {
    var s1 := Update(t, n1, u1, p1);
    AddressIdentifies(u1, u2);
    if s1.result.Success? {
      assert s1.table[Address(u2)][VersionAttribute] == N(WrappingIncrement(u1.version));
    }
  }

  /** A successful update leaves the old record overlaid with the patch and the bumped version. */
  lemma UpdatedRecord(t: Table, u: User, patch: map<string, Value>)
    requires u.id != ""
    requires WellFormedPatch(patch) && VersionMatches(t, u)
    ensures Update(t, Delivered, u, patch).table[Address(u)]
         == t[Address(u)] + patch[VersionAttribute := N(WrappingIncrement(u.version))]
  {
  }

  /** Adding the version to an exactly spelled patch keeps it exactly spelled. */
  lemma VersionedExactlySpelled(patch: map<string, Value>, v: Value)
    requires ExactlySpelled(patch)
    ensures ExactlySpelled(patch[VersionAttribute := v])
  {
    var changed := patch[VersionAttribute := v];
    forall k | k in changed && FieldOfAttribute(k).Some?
      ensures k == AttributeName(FieldOfAttribute(k).value)
    {
      if k == VersionAttribute {
        AttributeNamesIdentifyFields(Version);
      } else {
        assert k in patch;
      }
    }
  }

  /** `u`'s record overwritten with the patch and the bumped version decodes, over `u`'s ID, to `w`. */
  lemma {:induction false} PatchedRecord(u: User, w: User, patch: map<string, Value>)
    requires VersionAttribute !in patch && ExactlySpelled(patch)
    requires forall g :: AttributeName(g) in patch ==> patch[AttributeName(g)] == Encode(w, g)
    requires forall g :: AttributeName(g) !in patch && g != Version ==> Encode(u, g) == Encode(w, g)
    ensures Unmarshal(Marshal(u) + patch[VersionAttribute := N(w.version)], ZeroUser.(id := u.id)) == Some(w)
  {
    var changed := patch[VersionAttribute := N(w.version)];
    forall g | AttributeName(g) in changed ensures changed[AttributeName(g)] == Encode(w, g) {
      if g != Version {
        assert AttributeName(g) != VersionAttribute by { AttributeNameInjective(); }
      }
    }
    VersionedExactlySpelled(patch, N(w.version));
    IdOnlyIsZeroWhereOmitted(u.id);
    OverwriteDecodes(u, w, changed, ZeroUser.(id := u.id));
  }

  /**
   An update of the record a read returned, followed by a read, gives the
   user the patch describes: the patched fields take the patch's values, the
   version moves on by one, every other field is as read.
   */
  lemma {:induction false} UpdateThenGet(t: Table, u: User, w: User, patch: map<string, Value>)
    requires u.id != ""
    requires WellFormedPatch(patch) && ExactlySpelled(patch)
    requires Address(u) in t && t[Address(u)] == Marshal(u)
    requires forall g :: AttributeName(g) in patch ==> patch[AttributeName(g)] == Encode(w, g)
    requires forall g :: AttributeName(g) !in patch && g != Version ==> Encode(u, g) == Encode(w, g)
    requires w.version == WrappingIncrement(u.version)
    ensures Update(t, Delivered, u, patch).result.Success?
    ensures Get(Update(t, Delivered, u, patch).table, Delivered, u.id) == Success(w)
  {
    MarshalledVersionAndKey(u);
    assert VersionMatches(t, u);
    var s := Update(t, Delivered, u, patch);
    UpdatedRecord(t, u, patch);
    PatchedRecord(u, w, patch);
    SameKey(u);
    GetDecoded(s.table, u.id, w);
  }

  /** The milestone the repository's integration scenario records. */
  function BankOpened(date: string): Milestone {
    Milestone(date, "Bank Opened", "Debt", "")
  }

  /** The integration scenario's patch: replace the milestones with one entry. */
  function MilestonePatch(date: string): (p: map<string, Value>)
    ensures WellFormedPatch(p)
  {
    map[AttributeName(Milestones) := MilestoneList([BankOpened(date)])]
  }

  /** The milestone patch names the milestones by their exact tag. */
  lemma MilestonePatchExactlySpelled(date: string)
    ensures ExactlySpelled(MilestonePatch(date))
  {
    TagExactlySpelled(Milestones, MilestoneList([BankOpened(date)]));
  }

  /** The milestone patch sets the milestones attribute only, to the new milestones' encoding. */
  lemma MilestonePatchNamesMilestones(u: User, date: string)
    ensures var w := u.(milestones := Slice([BankOpened(date)]), version := WrappingIncrement(u.version));
      forall g :: AttributeName(g) in MilestonePatch(date) ==> MilestonePatch(date)[AttributeName(g)] == Encode(w, g)
  {
    var p := MilestonePatch(date);
    assert p.Keys == {AttributeName(Milestones)};
    AttributeNameInjective();
    assert forall g :: AttributeName(g) in p ==> g == Milestones;
  }

  /** Setting the milestones and the version leaves every other attribute's encoding alone. */
  lemma MilestonesAndVersionOnly(u: User, w: User)
    requires w == u.(milestones := w.milestones, version := w.version)
    ensures forall g :: g != Milestones && g != Version ==> Encode(u, g) == Encode(w, g)
  {
  }

  /** Patching the milestones of a stored user gives the user with new milestones and the next version. */
  lemma {:induction false} MilestonePatchDescribes(u: User, date: string)
    ensures var w := u.(milestones := Slice([BankOpened(date)]), version := WrappingIncrement(u.version));
      && (forall g :: AttributeName(g) in MilestonePatch(date) ==> MilestonePatch(date)[AttributeName(g)] == Encode(w, g))
      && (forall g :: AttributeName(g) !in MilestonePatch(date) && g != Version ==> Encode(u, g) == Encode(w, g))
  {
    var w := u.(milestones := Slice([BankOpened(date)]), version := WrappingIncrement(u.version));
    MilestonePatchNamesMilestones(u, date);
    MilestonesAndVersionOnly(u, w);
    assert AttributeName(Milestones) in MilestonePatch(date);
  }

  /**
   The repository's integration scenario: insert a user at version 1 and
   read it back; patch its milestones and read back the patched user at
   version 2; an update carrying the version before that conflicts; delete,
   and the read gives the zero user with the ID.
   */
  lemma {:induction false} IntegrationScenario(t: Table, usr: User)
    requires usr.id != "" && usr.version == 1
    ensures var s1 := Insert(t, Delivered, usr);
      Get(s1.table, Delivered, usr.id) == Success(usr)
    ensures var s2 := Update(Insert(t, Delivered, usr).table, Delivered, usr, MilestonePatch("2023-02-05"));
      && s2.result.Success?
      && Get(s2.table, Delivered, usr.id) == Success(usr.(milestones := Slice([BankOpened("2023-02-05")]), version := 2))
    ensures var s2 := Update(Insert(t, Delivered, usr).table, Delivered, usr, MilestonePatch("2023-02-05"));
      var stale := usr.(milestones := Slice([BankOpened("2023-02-05")]), version := 1);
      Update(s2.table, Delivered, stale, MilestonePatch("2023-02-06")) == Step(s2.table, Failure(EditConflict))
    ensures var s2 := Update(Insert(t, Delivered, usr).table, Delivered, usr, MilestonePatch("2023-02-05"));
      Get(Delete(s2.table, Delivered, ZeroUser.(id := usr.id)).table, Delivered, usr.id) == Success(ZeroUser.(id := usr.id))
  {
    var s1 := Insert(t, Delivered, usr);
    InsertThenGet(t, usr);
    MilestonePatchDescribes(usr, "2023-02-05");
    MilestonePatchExactlySpelled("2023-02-05");
    var w := usr.(milestones := Slice([BankOpened("2023-02-05")]), version := WrappingIncrement(usr.version));
    UpdateThenGet(s1.table, usr, w, MilestonePatch("2023-02-05"));
    var s2 := Update(s1.table, Delivered, usr, MilestonePatch("2023-02-05"));
    var stale := usr.(milestones := Slice([BankOpened("2023-02-05")]), version := 1);
    AddressIdentifies(stale, usr);
    assert !VersionMatches(s2.table, stale);
    DeleteThenGet(s2.table, ZeroUser.(id := usr.id));
  }
}
