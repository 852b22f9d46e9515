/**
 * The `useFamily` hook: the signed-in user's families, the current family and
 * its member rows, and the operations that create a family, add a member,
 * change a member's role and remove a member.  A remote read or write that can
 * fail takes its failure as a parameter (`Some(message)`); every operation
 * reports a failure as its result instead of throwing.
 */
module UseFamily {
  import opened Wrappers
  import opened Seqs
  import opened FamilyModel
  import opened FamilyTables

  /** The columns of `families (id, name, invite_code, created_at)` embedded in a membership row; `created_at` is not modelled. */
  datatype FamilyFields = FamilyFields(id: nat, name: string, inviteCode: string)

  /** An entry of `families`: `{ ...fm.families, userRole: fm.role }`.  A missing family row spreads no fields. */
  datatype UserFamily = UserFamily(family: Option<FamilyFields>, userRole: Role)

  /** What an operation returns: `{ success: true, family }` (the new family only from `createFamily`) or `{ success: false, error }`. */
  datatype OpResult = Success(family: Option<Family>) | Failure(error: string)

  function FieldsOf(f: Family): FamilyFields {
    FamilyFields(f.id, f.name, f.inviteCode)
  }

  /** The embedded `families` object of a membership row: the family row with that id, or null. */
  function EmbeddedFamily(families: seq<Family>, familyId: nat): (r: Option<FamilyFields>)
    ensures r.Some? ==> exists f :: f in families && f.id == familyId && r.value == FieldsOf(f)
  {
    var rows := Filter(families, HasFamilyId(familyId));
    var found := Single(rows);
    if found.Some? then assert rows[0] in rows; Some(FieldsOf(found.value)) else None
  }

  /** With unique family ids, a row's embedded family is the family it names, whenever that family exists. */
  lemma EmbeddedFamilyFound(families: seq<Family>, ms: seq<Membership>, nextId: nat, f: Family)
    requires TablesInvariant(families, ms, nextId)
    requires f in families
    ensures EmbeddedFamily(families, f.id) == Some(FieldsOf(f))
  {
    SingleFamily(families, f, nextId, ms);
  }

  /** The entry the mapping makes of one membership row. */
  function EntryOf(families: seq<Family>, m: Membership): UserFamily {
    UserFamily(EmbeddedFamily(families, m.familyId), m.role)
  }

  /** The rows `.eq('user_id', user.id)` returns. */
  function UserRows(ms: seq<Membership>, user: nat): (r: seq<Membership>)
    ensures forall m :: m in r <==> m in ms && m.userId == user
  {
    Filter(ms, OfUser(user))
  }

  /** `data.map(fm => ({ ...fm.families, userRole: fm.role }))` over the user's membership rows. */
  function UserFamilies(families: seq<Family>, ms: seq<Membership>, user: nat): (r: seq<UserFamily>)
    ensures |r| == |UserRows(ms, user)|
    ensures forall i :: 0 <= i < |r| ==> r[i] == EntryOf(families, UserRows(ms, user)[i])
  {
    var rows := UserRows(ms, user);
    seq(|rows|, i requires 0 <= i < |rows| => EntryOf(families, rows[i]))
  }

  /**
   * One entry per membership row of the user: each of the user's rows has an
   * entry with that row's role (and its family, when the family exists), and
   * every entry comes from a row of the user.
   */
  lemma UserFamiliesPerRow(families: seq<Family>, ms: seq<Membership>, nextId: nat, user: nat)
    requires TablesInvariant(families, ms, nextId)
    ensures var r := UserFamilies(families, ms, user);
            forall m :: m in ms && m.userId == user ==>
              exists i :: 0 <= i < |r| && r[i].userRole == m.role
                          && forall f :: f in families && f.id == m.familyId ==> r[i].family == Some(FieldsOf(f))
    ensures var r := UserFamilies(families, ms, user);
            forall e :: e in r ==> exists m :: m in ms && m.userId == user && e.userRole == m.role
  {
    var r := UserFamilies(families, ms, user);
    var rows := UserRows(ms, user);
    forall m | m in ms && m.userId == user
      ensures exists i :: 0 <= i < |r| && r[i].userRole == m.role
                          && forall f :: f in families && f.id == m.familyId ==> r[i].family == Some(FieldsOf(f))
    {
      assert m in rows;
      var i :| 0 <= i < |rows| && rows[i] == m;
      EntryOfRow(families, ms, nextId, m);
      assert r[i] == EntryOf(families, m);
    }
    EntriesFromRows(families, ms, user);
  }

  /** The entry of a row carries its role, and its family whenever that family exists. */
  lemma EntryOfRow(families: seq<Family>, ms: seq<Membership>, nextId: nat, m: Membership)
    requires TablesInvariant(families, ms, nextId)
    ensures EntryOf(families, m).userRole == m.role
    ensures forall f :: f in families && f.id == m.familyId ==> EntryOf(families, m).family == Some(FieldsOf(f))
  {
    forall f | f in families && f.id == m.familyId ensures EntryOf(families, m).family == Some(FieldsOf(f)) {
      EmbeddedFamilyFound(families, ms, nextId, f);
    }
  }

  /** Every entry of the list is the entry of one of the user's rows. */
  lemma EntriesFromRows(families: seq<Family>, ms: seq<Membership>, user: nat)
    ensures var r := UserFamilies(families, ms, user);
            forall e :: e in r ==> exists m :: m in ms && m.userId == user && e.userRole == m.role
  {
    var r := UserFamilies(families, ms, user);
    var rows := UserRows(ms, user);
    forall e | e in r ensures exists m :: m in ms && m.userId == user && e.userRole == m.role {
      var i :| 0 <= i < |r| && r[i] == e;
      assert rows[i] in rows;
    }
  }

  /** After the creator's admin row is added for a new family, the user's list ends with that family, as admin. */
  lemma CreatedFamilyListedLast(families: seq<Family>, ms: seq<Membership>, nextId: nat, user: nat, name: string, code: string)
    requires TablesInvariant(families, ms, nextId)
    ensures var f := Family(nextId, name, code, user);
            var r := UserFamilies(families + [f], ms + [Membership(nextId + 1, nextId, user, Admin, Some(user), None, None)], user);
            |r| > 0 && r[|r| - 1] == UserFamily(Some(FieldsOf(f)), Admin)
  {
    var f := Family(nextId, name, code, user);
    var m := Membership(nextId + 1, nextId, user, Admin, Some(user), None, None);
    FilterSnoc(ms, m, OfUser(user));
    var fs := families + [f];
    PairwiseSnoc(families, f, DistinctFamilyIds);
    EmbeddedFamilyFound(fs, ms, nextId + 1, f);
  }

  class FamilyHook {
    const db: Db
    /** The signed-in user (`user.id`). */
    const user: nat
    var families: seq<UserFamily>
    var currentFamily: Option<UserFamily>
    var familyMembers: seq<Membership>
    /** Set while `fetchFamilies` runs; it starts set, before the first fetch. */
    var loading: bool
    var error: Option<string>

    constructor(db: Db, user: nat)
      ensures this.db == db && this.user == user
      ensures families == [] && currentFamily == None && familyMembers == [] && error == None
      ensures loading
    {
      this.db := db;
      this.user := user;
      families := [];
      currentFamily := None;
      familyMembers := [];
      loading := true;
      error := None;
    }

    /** `currentFamily.id`: undefined when there is no current family, or its family row was missing. */
    function CurrentFamilyId(): (r: Option<nat>)
      reads this
      ensures r.Some? <==> currentFamily.Some? && currentFamily.value.family.Some?
    {
      if currentFamily.Some? && currentFamily.value.family.Some? then Some(currentFamily.value.family.value.id) else None
    }

    /** The state `fetchFamilies` leaves, from the state before it and the failure of its query; `finally` clears `loading` either way. */
    ghost predicate FetchedFamilies(families0: seq<UserFamily>, current0: Option<UserFamily>, error0: Option<string>, fails: Option<string>)
      reads this, db
    {
      !loading &&
      if fails.Some? then
        error == fails && families == families0 && currentFamily == current0
      else
        families == UserFamilies(db.families, db.memberships, user) && error == error0
        && currentFamily == (if current0.None? && |families| > 0 then Some(families[0]) else current0)
    }

    /** The state `fetchFamilyMembers(familyId)` leaves. */
    ghost predicate FetchedMembers(members0: seq<Membership>, error0: Option<string>, familyId: Option<nat>, fails: Option<string>)
      reads this, db
    {
      if familyId.None? then familyMembers == members0 && error == error0
      else if fails.Some? then familyMembers == members0 && error == fails
      else familyMembers == Filter(db.memberships, InFamily(familyId.value)) && error == error0
    }

    /**
     * `fetchFamilies`: one entry per membership row of the user; the first entry
     * becomes the current family only when there is none yet.  A failed query
     * records its message and changes nothing else.
     */
    method FetchFamilies(queryFails: Option<string>)
      modifies this
      ensures familyMembers == old(familyMembers)
      ensures FetchedFamilies(old(families), old(currentFamily), old(error), queryFails)
    {
      loading := true;
      if queryFails.Some? {
        error := queryFails;
        loading := false;
        return;
      }
      var userFamilies := UserFamilies(db.families, db.memberships, user);
      families := userFamilies;
      if |userFamilies| > 0 && currentFamily.None? {
        currentFamily := Some(userFamilies[0]);
      }
      loading := false;
    }

    /** `fetchFamilyMembers(familyId)`: the family's membership rows; nothing happens without a family id. */
    method FetchFamilyMembers(familyId: Option<nat>, queryFails: Option<string>)
      modifies this
      ensures families == old(families) && currentFamily == old(currentFamily) && loading == old(loading)
      ensures FetchedMembers(old(familyMembers), old(error), familyId, queryFails)
    {
      if familyId.None? {
        return;
      }
      if queryFails.Some? {
        error := queryFails;
        return;
      }
      familyMembers := Filter(db.memberships, InFamily(familyId.value));
    }

    /**
     * `createFamily(name)`: a `families` row created by the user, then the user's
     * membership of it as admin, added by the user, then a refresh.  When the
     * membership insert fails the new family row stays.
     */
    method CreateFamily(name: string, inviteCode: string, familyFails: Option<string>, memberFails: Option<string>,
                        refreshFails: Option<string>) returns (r: OpResult)
      modifies this, db
      ensures db.profiles == old(db.profiles) && familyMembers == old(familyMembers)
      ensures familyFails.Some? || memberFails.Some? ==> loading == old(loading)
      ensures old(db.Valid()) ==> db.Valid()
      ensures familyFails.Some? ==>
                r == Failure(familyFails.value) && unchanged(db)
                && families == old(families) && currentFamily == old(currentFamily) && error == old(error)
      ensures familyFails.None? ==>
                var f := Family(old(db.nextId), name, inviteCode, user);
                db.families == old(db.families) + [f]
                && if memberFails.Some? then
                     r == Failure(memberFails.value) && db.memberships == old(db.memberships) && db.nextId == old(db.nextId) + 1
                     && families == old(families) && currentFamily == old(currentFamily) && error == old(error)
                   else
                     r == Success(Some(f)) && db.nextId == old(db.nextId) + 2
                     && db.memberships == old(db.memberships) + [Membership(old(db.nextId) + 1, f.id, user, Admin, Some(user), None, None)]
                     && FetchedFamilies(old(families), old(currentFamily), old(error), refreshFails)
    {
      if familyFails.Some? {
        return Failure(familyFails.value);
      }
      var family := db.InsertFamily(name, inviteCode, user);
      if memberFails.Some? {
        return Failure(memberFails.value);
      }
      var _ := db.InsertMembership(family.id, user, Admin, Some(user));
      FetchFamilies(refreshFails);
      r := Success(Some(family));
    }

    /** `addMember(familyId, userId, role)`: exactly one membership row with that role, added by the current user, then a refresh of the family's rows. */
    method AddMember(familyId: nat, userId: nat, role: Role, insertFails: Option<string>, refreshFails: Option<string>)
      returns (r: OpResult)
      modifies this, db
      ensures db.families == old(db.families) && db.profiles == old(db.profiles)
      ensures families == old(families) && currentFamily == old(currentFamily) && loading == old(loading)
      ensures old(db.Valid()) ==> db.Valid()
      ensures insertFails.Some? ==>
                r == Failure(insertFails.value) && unchanged(db) && familyMembers == old(familyMembers) && error == old(error)
      ensures insertFails.None? ==>
                r == Success(None) && db.nextId == old(db.nextId) + 1
                && db.memberships == old(db.memberships) + [Membership(old(db.nextId), familyId, userId, role, Some(user), None, None)]
                && FetchedMembers(old(familyMembers), old(error), Some(familyId), refreshFails)
    {
      if insertFails.Some? {
        return Failure(insertFails.value);
      }
      var _ := db.InsertMembership(familyId, userId, role, Some(user));
      FetchFamilyMembers(Some(familyId), refreshFails);
      r := Success(None);
    }

    /** `updateMemberRole(memberId, newRole)`: only the role of the row with that id changes, then the current family's rows are refetched. */
    method UpdateMemberRole(memberId: nat, newRole: Role, updateFails: Option<string>, refreshFails: Option<string>)
      returns (r: OpResult)
      modifies this, db
      ensures db.families == old(db.families) && db.profiles == old(db.profiles) && db.nextId == old(db.nextId)
      ensures families == old(families) && currentFamily == old(currentFamily) && loading == old(loading)
      ensures old(db.Valid()) ==> db.Valid()
      ensures updateFails.Some? ==>
                r == Failure(updateFails.value) && unchanged(db) && familyMembers == old(familyMembers) && error == old(error)
      ensures updateFails.None? ==>
                r == Success(None) && db.memberships == SetRole(old(db.memberships), memberId, newRole)
                && FetchedMembers(old(familyMembers), old(error), old(CurrentFamilyId()), refreshFails)
    {
      if updateFails.Some? {
        return Failure(updateFails.value);
      }
      db.UpdateRole(memberId, newRole);
      if currentFamily.Some? {
        FetchFamilyMembers(CurrentFamilyId(), refreshFails);
      }
      r := Success(None);
    }

    /** `removeMember(memberId)`: only the row with that id goes, then the current family's rows are refetched. */
    method RemoveMember(memberId: nat, deleteFails: Option<string>, refreshFails: Option<string>) returns (r: OpResult)
      modifies this, db
      ensures db.families == old(db.families) && db.profiles == old(db.profiles) && db.nextId == old(db.nextId)
      ensures families == old(families) && currentFamily == old(currentFamily) && loading == old(loading)
      ensures old(db.Valid()) ==> db.Valid()
      ensures deleteFails.Some? ==>
                r == Failure(deleteFails.value) && unchanged(db) && familyMembers == old(familyMembers) && error == old(error)
      ensures deleteFails.None? ==>
                r == Success(None) && db.memberships == WithoutMembership(old(db.memberships), memberId)
                && FetchedMembers(old(familyMembers), old(error), old(CurrentFamilyId()), refreshFails)
    {
      if deleteFails.Some? {
        return Failure(deleteFails.value);
      }
      db.DeleteMembership(memberId);
      if currentFamily.Some? {
        FetchFamilyMembers(CurrentFamilyId(), refreshFails);
      }
      r := Success(None);
    }
  }
}
