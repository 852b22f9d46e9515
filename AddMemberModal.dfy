/**
 * The add-member dialog: a search for a registered user by phone number, which
 * refuses someone already in the family and falls back to a WhatsApp invite for
 * a number nobody has registered; the role select, which never offers admin;
 * and the add, which inserts the found user with the chosen role and then
 * invites by the family's code.
 */
module AddMemberModal {
  import opened Wrappers
  import opened Text
  import opened Seqs
  import opened FamilyModel
  import opened FamilyTables

  const EnterPhoneMessage: string := "Please enter a phone number"
  const NotRegisteredMessage: string := "User not registered yet. You can still send invite via WhatsApp."
  const AlreadyMemberMessage: string := "This user is already a member of your family"
  /** The message of the `TypeError` the browser raises when the add reads a field of the missing family row. */
  const FamilyReadError: string := "Cannot read properties of null (reading 'invite_code')"

  /** The role the select starts at. */
  const DefaultRole: Role := Kid

  /** The search's finding: a registered profile, or a number to invite although nobody has registered it. */
  datatype SearchResult = Registered(profile: Profile) | NotRegistered(phone: string)

  /** The dialog's `error` and `searchResult` after a search. */
  datatype SearchState = SearchState(error: string, searchResult: Option<SearchResult>)

  /** How the add ends: nothing selected, a WhatsApp invite to the number with the family's code and name, or an error. */
  datatype AddOutcome = NoSelection | Invited(phone: string, inviteCode: string, familyName: string) | Failed(message: string)

  /** The outcome, the `error` text, and the `family_members` table and id counter after the add. */
  datatype AddResult = AddResult(outcome: AddOutcome, error: string, memberships: seq<Membership>, nextId: nat)

  predicate IsPhoneChar(c: char) { IsDigit(c) || c == '+' }

  /** `phoneNumber.replace(/[^0-9+]/g, '')`: only digits and `+` remain. */
  function CleanPhone(s: string): (r: string)
    ensures forall i :: 0 <= i < |r| ==> IsPhoneChar(r[i])
    ensures |r| <= |s|
    decreases |s|
  {
    if s == [] then [] else Kept(s[0]) + CleanPhone(s[1..])
  }

  /** What cleaning keeps of one character. */
  function Kept(c: char): (r: string)
    ensures r == [] || r == [c]
  {
    if IsPhoneChar(c) then [c] else []
  }

  /** Each digit and `+` stays as often as in the input. */
  lemma {:induction false} CleanPhoneCounts(s: string)
    ensures forall c :: IsPhoneChar(c) ==> multiset(CleanPhone(s))[c] == multiset(s)[c]
    decreases |s|
  {
    if s != [] {
      CleanPhoneCounts(s[1..]);
      assert s == [s[0]] + s[1..];
      assert multiset(CleanPhone(s)) == multiset(Kept(s[0])) + multiset(CleanPhone(s[1..]));
    }
  }

  /** Cleaning works character by character, so it keeps the order of the digits. */
  lemma {:induction false} CleanPhoneAppend(a: string, b: string)
    ensures CleanPhone(a + b) == CleanPhone(a) + CleanPhone(b)
    decreases |a|
  {
    if a == [] {
      assert a + b == b;
    } else {
      var ab := a + b;
      assert ab[0] == a[0] && ab[1..] == a[1..] + b;
      CleanPhoneAppend(a[1..], b);
    }
  }

  /** A number that holds only digits and `+` is left as it is. */
  lemma {:induction false} CleanPhoneKeepsClean(s: string)
    requires forall i :: 0 <= i < |s| ==> IsPhoneChar(s[i])
    ensures CleanPhone(s) == s
    decreases |s|
  {
    if s != [] {
      CleanPhoneKeepsClean(s[1..]);
      assert s == [s[0]] + s[1..];
      assert Kept(s[0]) == [s[0]];
    }
  }

  /** Cleaning twice changes nothing more. */
  lemma CleanPhoneIdempotent(s: string)
    ensures CleanPhone(CleanPhone(s)) == CleanPhone(s)
  {
    CleanPhoneKeepsClean(CleanPhone(s));
  }

  /** The role select's options: an admin may also add an admin lite; a kid is always offered, an admin never. */
  function RoleOptions(currentUserRole: Option<Role>): (r: seq<Role>)
    ensures DefaultRole in r && Admin !in r
    ensures AdminLite in r <==> currentUserRole == Some(Admin)
    ensures r[|r| - 1] == Kid
  {
    (if currentUserRole == Some(Admin) then [AdminLite] else []) + [Kid]
  }

  /** The profiles whose phone is the trimmed input (`.eq('phone', phone.trim())`). */
  function ProfilesWithPhone(profiles: seq<Profile>, phone: string): (r: seq<Profile>)
    ensures forall p :: p in r <==> p in profiles && p.phone == Some(Trim(phone))
  {
    Filter(profiles, HasPhone(Trim(phone)))
  }

  /** `handleSearchUser` on the tables: a blank number is refused before any lookup, leaving the last result in place. */
  function Search(profiles: seq<Profile>, ms: seq<Membership>, familyId: nat, phone: string,
                  error0: string, result0: Option<SearchResult>,
                  searchFails: Option<string>, checkFails: bool): (r: SearchState)
    ensures IsBlank(phone) ==> r == SearchState(EnterPhoneMessage, result0)
    ensures !IsBlank(phone) ==> r == Lookup(profiles, ms, familyId, phone, searchFails, checkFails)
  {
    if Trim(phone) == [] then SearchState(EnterPhoneMessage, result0)
    else Lookup(profiles, ms, familyId, phone, searchFails, checkFails)
  }

  /**
   * The lookups of `handleSearchUser`: a failure other than "no single row"
   * reports its message; no single profile with the number gives the
   * not-registered result; a profile with exactly one row in the family is
   * refused; otherwise the profile is the result.  A membership check that
   * fails reads as "no row".
   */
  function Lookup(profiles: seq<Profile>, ms: seq<Membership>, familyId: nat, phone: string,
                  searchFails: Option<string>, checkFails: bool): (r: SearchState)
    ensures searchFails.Some? ==> r == SearchState(searchFails.value, None)
    ensures searchFails.None? ==>
              (r.searchResult == Some(NotRegistered(Trim(phone))) <==> |ProfilesWithPhone(profiles, phone)| != 1)
    ensures r.searchResult.Some? && r.searchResult.value.NotRegistered? ==> r.error == NotRegisteredMessage
    ensures r.searchResult.Some? && r.searchResult.value.Registered? ==>
              var p := r.searchResult.value.profile;
              r.error == "" && ProfilesWithPhone(profiles, phone) == [p]
              && (checkFails || |MembershipsOf(ms, familyId, p.id)| != 1)
    ensures searchFails.None? && r.searchResult.None? ==>
              r.error == AlreadyMemberMessage && !checkFails
              && exists p :: ProfilesWithPhone(profiles, phone) == [p] && |MembershipsOf(ms, familyId, p.id)| == 1
  {
    if searchFails.Some? then SearchState(searchFails.value, None)
    else
      var rows := ProfilesWithPhone(profiles, phone);
      var found := Single(rows);
      if found.None? then SearchState(NotRegisteredMessage, Some(NotRegistered(Trim(phone))))
      else
        var p := found.value;
        assert rows == [p];
        var existing := if checkFails then None else Single(MembershipsOf(ms, familyId, p.id));
        if existing.Some? then SearchState(AlreadyMemberMessage, None)
        else SearchState("", Some(Registered(p)))
  }

  /** With one row per user and a working check, a found profile is refused exactly when it already has a row in the family. */
  lemma SearchRefusesMembers(profiles: seq<Profile>, ms: seq<Membership>, familyId: nat, phone: string, p: Profile)
    requires OneRowPerUser(ms)
    requires ProfilesWithPhone(profiles, phone) == [p]
    ensures Lookup(profiles, ms, familyId, phone, None, false).searchResult == Some(Registered(p))
            <==> !HasRow(ms, familyId, p.id)
  {
    SingleMembership(ms, familyId, p.id);
  }

  /** The number the invite goes to: `searchResult.phone || phone`. */
  function InvitePhone(result: SearchResult, phone: string): string {
    match result
    case Registered(p) => if Truthy(p.phone) then p.phone.value else phone
    case NotRegistered(number) => if number != "" then number else phone
  }

  /**
   * `handleAddMember` on the tables: without a search result nothing happens; a
   * registered user is inserted with the chosen role and no `added_by` (an
   * insert failure reports its message); then the family row is read, and
   * without exactly one the add fails on the missing row, after the insert;
   * otherwise the invite goes to the cleaned number with the family's code.
   */
  function Add(families: seq<Family>, ms: seq<Membership>, nextId: nat, familyId: nat, phone: string, role: Role,
               error0: string, result: Option<SearchResult>, insertFails: Option<string>, familyFails: bool): (r: AddResult)
    ensures result.None? ==> r == AddResult(NoSelection, error0, ms, nextId)
    ensures result.Some? && result.value.Registered? && insertFails.None? ==>
              r.memberships == ms + [Membership(nextId, familyId, result.value.profile.id, role, None, None, None)]
              && r.nextId == nextId + 1
    ensures !(result.Some? && result.value.Registered? && insertFails.None?) ==> r.memberships == ms && r.nextId == nextId
    ensures r.outcome.Invited? ==>
              result.Some? && r.error == "" && r.outcome.phone == CleanPhone(InvitePhone(result.value, phone))
              && exists f :: f in families && f.id == familyId && r.outcome.inviteCode == f.inviteCode && r.outcome.familyName == f.name
    ensures r.outcome.Failed? ==>
              r.error == r.outcome.message
              && (insertFails == Some(r.outcome.message) || (r.outcome.message == FamilyReadError && (familyFails || |Filter(families, HasFamilyId(familyId))| != 1)))
  {
    if result.None? then AddResult(NoSelection, error0, ms, nextId)
    else
      var sr := result.value;
      if sr.Registered? && insertFails.Some? then AddResult(Failed(insertFails.value), insertFails.value, ms, nextId)
      else
        var ms', nextId' := if sr.Registered? then ms + [Membership(nextId, familyId, sr.profile.id, role, None, None, None)] else ms,
                            if sr.Registered? then nextId + 1 else nextId;
        var rows := Filter(families, HasFamilyId(familyId));
        var familyData := if familyFails then None else Single(rows);
        if familyData.None? then AddResult(Failed(FamilyReadError), FamilyReadError, ms', nextId')
        else
          var f := familyData.value;
          assert f in rows;
          AddResult(Invited(CleanPhone(InvitePhone(sr, phone)), f.inviteCode, f.name), "", ms', nextId')
  }

  /** When the family's row exists and the add gets through, the invite carries that family's code and name. */
  lemma AddInvitesToFamily(families: seq<Family>, ms: seq<Membership>, nextId: nat, phone: string, role: Role,
                           error0: string, result: SearchResult, f: Family)
    requires TablesInvariant(families, ms, nextId) && f in families
    ensures Add(families, ms, nextId, f.id, phone, role, error0, Some(result), None, false).outcome
            == Invited(CleanPhone(InvitePhone(result, phone)), f.inviteCode, f.name)
  {
    SingleFamily(families, f, nextId, ms);
  }

  /** An add keeps the ids unique, and adding a user with no row in the family keeps one row per user. */
  lemma AddKeepsInvariants(families: seq<Family>, ms: seq<Membership>, nextId: nat, familyId: nat, phone: string, role: Role,
                           error0: string, result: Option<SearchResult>, insertFails: Option<string>, familyFails: bool)
    requires TablesInvariant(families, ms, nextId)
    ensures var r := Add(families, ms, nextId, familyId, phone, role, error0, result, insertFails, familyFails);
            TablesInvariant(families, r.memberships, r.nextId)
            && (OneRowPerUser(ms) && (result.Some? && result.value.Registered? ==> !HasRow(ms, familyId, result.value.profile.id))
                ==> OneRowPerUser(r.memberships))
  {
    if result.Some? && result.value.Registered? && insertFails.None? {
      var m := Membership(nextId, familyId, result.value.profile.id, role, None, None, None);
      InsertKeepsInvariant(families, ms, nextId, m);
      if OneRowPerUser(ms) && !HasRow(ms, familyId, m.userId) {
        InsertKeepsOneRowPerUser(ms, m);
      }
    }
  }

  /** A search with a working check followed at once by the add never gives a user a second row in the family. */
  lemma SearchThenAddKeepsOneRowPerUser(families: seq<Family>, profiles: seq<Profile>, ms: seq<Membership>, nextId: nat,
                                        familyId: nat, phone: string, role: Role, error0: string, result0: Option<SearchResult>,
                                        searchFails: Option<string>, insertFails: Option<string>, familyFails: bool)
    requires TablesInvariant(families, ms, nextId) && OneRowPerUser(ms)
    requires result0.Some? && result0.value.Registered? ==> !HasRow(ms, familyId, result0.value.profile.id)
    ensures var s := Search(profiles, ms, familyId, phone, error0, result0, searchFails, false);
            OneRowPerUser(Add(families, ms, nextId, familyId, phone, role, s.error, s.searchResult, insertFails, familyFails).memberships)
  {
    var s := Search(profiles, ms, familyId, phone, error0, result0, searchFails, false);
    if !IsBlank(phone) && s.searchResult.Some? && s.searchResult.value.Registered? {
      var p := s.searchResult.value.profile;
      SingleMembership(ms, familyId, p.id);
    }
    AddKeepsInvariants(families, ms, nextId, familyId, phone, role, s.error, s.searchResult, insertFails, familyFails);
  }

  /** The dialog's state, over the remote tables. */
  class AddMemberDialog {
    const db: Db
    const familyId: nat
    const currentUserRole: Option<Role>
    var phone: string
    var role: Role
    var loading: bool
    var error: string
    var searchResult: Option<SearchResult>

    /** The selected role is one the select offers. */
    ghost predicate RoleOffered()
      reads this
    {
      role in RoleOptions(currentUserRole)
    }

    constructor(db: Db, familyId: nat, currentUserRole: Option<Role>)
      ensures this.db == db && this.familyId == familyId && this.currentUserRole == currentUserRole
      ensures phone == "" && role == DefaultRole && !loading && error == "" && searchResult.None?
      ensures RoleOffered()
    {
      this.db := db;
      this.familyId := familyId;
      this.currentUserRole := currentUserRole;
      phone := "";
      role := DefaultRole;
      loading := false;
      error := "";
      searchResult := None;
    }

    /** The phone input's `onChange`. */
    method OnPhoneInput(typed: string)
      modifies this
      ensures phone == typed && role == old(role) && error == old(error) && searchResult == old(searchResult) && loading == old(loading)
    {
      phone := typed;
    }

    /** The role select's `onChange`, which can only pick an offered option. */
    method OnRoleChange(selected: Role)
      requires selected in RoleOptions(currentUserRole)
      modifies this
      ensures role == selected && RoleOffered()
      ensures phone == old(phone) && error == old(error) && searchResult == old(searchResult) && loading == old(loading)
    {
      role := selected;
    }

    /** `handleSearchUser`: the new `error` and `searchResult` are `Search` of the state before it; no table changes. */
    method HandleSearchUser(searchFails: Option<string>, checkFails: bool)
      modifies this
      ensures SearchState(error, searchResult) == Search(db.profiles, db.memberships, familyId, phone, old(error), old(searchResult), searchFails, checkFails)
      ensures phone == old(phone) && role == old(role)
      ensures loading == (old(loading) && IsBlank(phone))
    {
      ghost var expected := Search(db.profiles, db.memberships, familyId, phone, error, searchResult, searchFails, checkFails);
      if Trim(phone) == [] {
        error := EnterPhoneMessage;
        assert SearchState(error, searchResult) == expected;
        return;
      }
      assert !IsBlank(phone) && expected == Lookup(db.profiles, db.memberships, familyId, phone, searchFails, checkFails);
      loading := true;
      error := "";
      searchResult := None;
      Searching(searchFails, checkFails);
      loading := false;
    }

    /** The `try` block of `handleSearchUser`: the profile lookup, then the membership check. */
    method Searching(searchFails: Option<string>, checkFails: bool)
      requires error == "" && searchResult.None?
      modifies this
      ensures SearchState(error, searchResult) == Lookup(db.profiles, db.memberships, familyId, phone, searchFails, checkFails)
      ensures phone == old(phone) && role == old(role) && loading == old(loading)
    {
      if searchFails.Some? {
        error := searchFails.value;
        return;
      }
      var data := Single(ProfilesWithPhone(db.profiles, phone));
      if data.None? {
        error := NotRegisteredMessage;
        searchResult := Some(NotRegistered(Trim(phone)));
        return;
      }
      var existingMember := if checkFails then None else Single(MembershipsOf(db.memberships, familyId, data.value.id));
      if existingMember.Some? {
        error := AlreadyMemberMessage;
        return;
      }
      searchResult := Some(Registered(data.value));
    }

    /**
     * `handleAddMember`: the effect on the tables and the form is `Add` of the
     * state before it; a row it inserts never has the admin role.
     */
    method HandleAddMember(insertFails: Option<string>, familyFails: bool) returns (outcome: AddOutcome)
      modifies this, db
      ensures AddResult(outcome, error, db.memberships, db.nextId)
              == Add(old(db.families), old(db.memberships), old(db.nextId), familyId, old(phone), old(role), old(error), old(searchResult), insertFails, familyFails)
      ensures db.families == old(db.families) && db.profiles == old(db.profiles)
      ensures phone == old(phone) && role == old(role) && searchResult == old(searchResult)
      ensures loading == (old(loading) && old(searchResult).None?)
      ensures old(RoleOffered()) && db.memberships != old(db.memberships) ==> db.memberships[|db.memberships| - 1].role != Admin
      ensures old(db.Valid()) ==> db.Valid()
    {
      if db.Valid() {
        AddKeepsInvariants(db.families, db.memberships, db.nextId, familyId, phone, role, error, searchResult, insertFails, familyFails);
      }
      if searchResult.None? {
        return NoSelection;
      }
      loading := true;
      error := "";
      outcome := Adding(insertFails, familyFails);
      loading := false;
    }

    /** The `try` block of `handleAddMember`: the insert for a registered user, then the family read and the invite. */
    method Adding(insertFails: Option<string>, familyFails: bool) returns (outcome: AddOutcome)
      requires searchResult.Some? && error == ""
      modifies this, db
      ensures AddResult(outcome, error, db.memberships, db.nextId)
              == Add(old(db.families), old(db.memberships), old(db.nextId), familyId, phone, role, old(error), searchResult, insertFails, familyFails)
      ensures db.families == old(db.families) && db.profiles == old(db.profiles)
      ensures phone == old(phone) && role == old(role) && searchResult == old(searchResult) && loading == old(loading)
    {
      var sr := searchResult.value;
      if sr.Registered? {
        if insertFails.Some? {
          error := insertFails.value;
          return Failed(insertFails.value);
        }
        var _ := db.InsertMembership(familyId, sr.profile.id, role, None);
      }
      var familyData := if familyFails then None else Single(Filter(db.families, HasFamilyId(familyId)));
      if familyData.None? {
        error := FamilyReadError;
        return Failed(FamilyReadError);
      }
      outcome := Invited(CleanPhone(InvitePhone(sr, phone)), familyData.value.inviteCode, familyData.value.name);
    }
  }
}
