/**
 * The join-by-invite-code form: the code input (upper-cased as typed, at most
 * eight characters), the submit rule, and `handleJoin`, which finds the family
 * by its code, refuses a user who already has a row in it, and otherwise adds
 * the user as a kid.
 */
module JoinFamily {
  import opened Wrappers
  import opened Text
  import opened Seqs
  import opened FamilyModel
  import opened FamilyTables

  const InvalidCodeMessage: string := "Invalid invite code. Please check and try again."
  const AlreadyMemberMessage: string := "You are already a member of this family!"

  /** The input's `maxLength`, and the only length at which submitting is enabled. */
  const CodeLength: nat := 8

  /** How `handleJoin` ends: joined the named family, or one of its error cases. */
  datatype JoinOutcome = Joined(familyName: string) | InvalidCode | AlreadyMember | Failed(message: string)

  /** The outcome, the `error` text, and the `family_members` table and id counter after `handleJoin`. */
  datatype JoinResult = JoinResult(outcome: JoinOutcome, error: string, memberships: seq<Membership>, nextId: nat)

  /** The code the lookup uses: `inviteCode.trim().toUpperCase()`. */
  function LookupCode(code: string): (r: string)
    ensures |r| == |Trim(code)|
    ensures forall i :: 0 <= i < |r| ==> !IsLowerAscii(r[i]) && !IsSpace(r[i]) == !IsSpace(Trim(code)[i])
  {
    Upper(Trim(code))
  }

  /** The families whose invite code is the lookup code. */
  function FamiliesWithCode(families: seq<Family>, code: string): (r: seq<Family>)
    ensures forall f :: f in r <==> f in families && f.inviteCode == LookupCode(code)
  {
    Filter(families, HasInviteCode(LookupCode(code)))
  }

  /** The submit button is enabled: `!(loading || inviteCode.length !== 8)`. */
  function SubmitEnabled(code: string, loading: bool): (b: bool)
    ensures b <==> !loading && |code| == CodeLength
  {
    !(loading || |code| != CodeLength)
  }

  /**
   * `handleJoin` on the tables: a lookup failure other than "no single row"
   * reports its message; no single family with the code is the invalid-code
   * error; a user row already in that family is the already-member error; an
   * insert failure reports its message; otherwise one row is added, with role
   * kid and no `added_by`.  The membership check that fails reads as "no row".
   */
  function Join(families: seq<Family>, ms: seq<Membership>, nextId: nat, code: string, user: nat,
                lookupFails: Option<string>, checkFails: bool, insertFails: Option<string>): (r: JoinResult)
    ensures r.outcome == InvalidCode <==> lookupFails.None? && |FamiliesWithCode(families, code)| != 1
    ensures r.outcome == InvalidCode ==> r.error == InvalidCodeMessage
    ensures r.outcome == AlreadyMember ==>
              r.error == AlreadyMemberMessage && !checkFails
              && exists f, m :: f in families && f.inviteCode == LookupCode(code) && m in ms && m.familyId == f.id && m.userId == user
    ensures r.outcome.Failed? ==> lookupFails == Some(r.outcome.message) || insertFails == Some(r.outcome.message)
    ensures r.outcome.Failed? ==> r.error == r.outcome.message
    ensures !r.outcome.Joined? ==> r.memberships == ms && r.nextId == nextId
    ensures r.outcome.Joined? ==>
              lookupFails.None? && insertFails.None? && r.error == "" && r.nextId == nextId + 1
              && exists f :: f in families && f.inviteCode == LookupCode(code) && r.outcome.familyName == f.name
                             && r.memberships == ms + [Membership(nextId, f.id, user, Kid, None, None, None)]
  {
    if lookupFails.Some? then JoinResult(Failed(lookupFails.value), lookupFails.value, ms, nextId)
    else
      var rows := FamiliesWithCode(families, code);
      var found := Single(rows);
      if found.None? then JoinResult(InvalidCode, InvalidCodeMessage, ms, nextId)
      else
        var f := found.value;
        assert f in rows;
        var existing := if checkFails then None else Single(MembershipsOf(ms, f.id, user));
        if existing.Some? then
          assert existing.value in MembershipsOf(ms, f.id, user);
          JoinResult(AlreadyMember, AlreadyMemberMessage, ms, nextId)
        else if insertFails.Some? then JoinResult(Failed(insertFails.value), insertFails.value, ms, nextId)
        else JoinResult(Joined(f.name), "", ms + [Membership(nextId, f.id, user, Kid, None, None, None)], nextId + 1)
  }

  /** With one row per user and a working check, the join is refused exactly when the user already has a row in the family with that code. */
  lemma JoinRefusesMembers(families: seq<Family>, ms: seq<Membership>, nextId: nat, code: string, user: nat,
                           insertFails: Option<string>, f: Family)
    requires OneRowPerUser(ms)
    requires FamiliesWithCode(families, code) == [f]
    ensures Join(families, ms, nextId, code, user, None, false, insertFails).outcome == AlreadyMember
            <==> HasRow(ms, f.id, user)
  {
    SingleMembership(ms, f.id, user);
  }

  /** A join keeps the ids unique, and with a working check it never gives a user a second row in a family. */
  lemma JoinKeepsInvariants(families: seq<Family>, ms: seq<Membership>, nextId: nat, code: string, user: nat,
                            lookupFails: Option<string>, checkFails: bool, insertFails: Option<string>)
    requires TablesInvariant(families, ms, nextId)
    ensures var r := Join(families, ms, nextId, code, user, lookupFails, checkFails, insertFails);
            TablesInvariant(families, r.memberships, r.nextId)
            && (OneRowPerUser(ms) && !checkFails ==> OneRowPerUser(r.memberships))
  {
    var r := Join(families, ms, nextId, code, user, lookupFails, checkFails, insertFails);
    if r.outcome.Joined? {
      var f := Single(FamiliesWithCode(families, code)).value;
      var m := Membership(nextId, f.id, user, Kid, None, None, None);
      assert r.memberships == ms + [m];
      InsertKeepsInvariant(families, ms, nextId, m);
      if OneRowPerUser(ms) && !checkFails {
        SingleMembership(ms, f.id, user);
        InsertKeepsOneRowPerUser(ms, m);
      }
    }
  }

  /** The form's state, over the remote tables. */
  class JoinForm {
    const db: Db
    /** The signed-in user (`user.id`). */
    const user: nat
    var inviteCode: string
    var loading: bool
    var error: string

    constructor(db: Db, user: nat)
      ensures this.db == db && this.user == user
      ensures inviteCode == "" && !loading && error == ""
    {
      this.db := db;
      this.user := user;
      inviteCode := "";
      loading := false;
      error := "";
    }

    /** `onChange`: the typed value, which `maxLength` keeps to eight characters, upper-cased. */
    method OnInput(typed: string)
      requires |typed| <= CodeLength
      modifies this
      ensures inviteCode == Upper(typed) && loading == old(loading) && error == old(error)
      ensures |inviteCode| <= CodeLength && forall i :: 0 <= i < |inviteCode| ==> !IsLowerAscii(inviteCode[i])
    {
      inviteCode := Upper(typed);
    }

    /** `handleJoin`: the effect on the tables and the form is `Join` of the state before it. */
    method HandleJoin(lookupFails: Option<string>, checkFails: bool, insertFails: Option<string>) returns (outcome: JoinOutcome)
      modifies this, db
      ensures JoinResult(outcome, error, db.memberships, db.nextId)
              == Join(old(db.families), old(db.memberships), old(db.nextId), old(inviteCode), user, lookupFails, checkFails, insertFails)
      ensures db.families == old(db.families) && db.profiles == old(db.profiles)
      ensures inviteCode == old(inviteCode) && !loading
      ensures old(db.Valid()) ==> db.Valid()
    {
      if db.Valid() {
        JoinKeepsInvariants(db.families, db.memberships, db.nextId, inviteCode, user, lookupFails, checkFails, insertFails);
      }
      loading := true;
      error := "";
      outcome := Joining(lookupFails, checkFails, insertFails);
      loading := false;
    }

    /** The `try` block of `handleJoin`: lookup, check, insert, with the early returns. */
    method Joining(lookupFails: Option<string>, checkFails: bool, insertFails: Option<string>) returns (outcome: JoinOutcome)
      requires error == ""
      modifies this, db
      ensures JoinResult(outcome, error, db.memberships, db.nextId)
              == Join(old(db.families), old(db.memberships), old(db.nextId), old(inviteCode), user, lookupFails, checkFails, insertFails)
      ensures db.families == old(db.families) && db.profiles == old(db.profiles)
      ensures inviteCode == old(inviteCode) && loading == old(loading)
    {
      if lookupFails.Some? {
        error := lookupFails.value;
        return Failed(lookupFails.value);
      }
      var family := Single(FamiliesWithCode(db.families, inviteCode));
      if family.None? {
        error := InvalidCodeMessage;
        return InvalidCode;
      }
      var existingMember := if checkFails then None else Single(MembershipsOf(db.memberships, family.value.id, user));
      if existingMember.Some? {
        error := AlreadyMemberMessage;
        return AlreadyMember;
      }
      if insertFails.Some? {
        error := insertFails.value;
        return Failed(insertFails.value);
      }
      var _ := db.InsertMembership(family.value.id, user, Kid, None);
      outcome := Joined(family.value.name);
    }
  }
}
