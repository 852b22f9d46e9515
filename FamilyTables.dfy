/**
 * The tables the membership flows read and write — `families`, `family_members`
 * and `profiles` — as an in-memory store.  Ids the database would generate
 * come from one counter; an invite code the database would generate is passed in.
 */
module FamilyTables {
  import opened Wrappers
  import opened Seqs
  import opened FamilyModel

  function HasFamilyId(id: nat): Family -> bool {
    (f: Family) => f.id == id
  }

  function HasInviteCode(code: string): Family -> bool {
    (f: Family) => f.inviteCode == code
  }

  function InFamily(familyId: nat): Membership -> bool {
    (m: Membership) => m.familyId == familyId
  }

  function OfUser(userId: nat): Membership -> bool {
    (m: Membership) => m.userId == userId
  }

  function IsMembershipOf(familyId: nat, userId: nat): Membership -> bool {
    (m: Membership) => m.familyId == familyId && m.userId == userId
  }

  function NotMembershipId(id: nat): Membership -> bool {
    (m: Membership) => m.id != id
  }

  function HasPhone(phone: string): Profile -> bool {
    (p: Profile) => p.phone == Some(phone)
  }

  /** The user has a row in the family. */
  predicate HasRow(ms: seq<Membership>, familyId: nat, userId: nat) {
    exists m :: m in ms && m.familyId == familyId && m.userId == userId
  }

  /** `.eq('family_id', f).eq('user_id', u)` on `family_members`. */
  function MembershipsOf(ms: seq<Membership>, familyId: nat, userId: nat): (r: seq<Membership>)
    ensures forall m :: m in r <==> m in ms && m.familyId == familyId && m.userId == userId
  {
    Filter(ms, IsMembershipOf(familyId, userId))
  }

  predicate DistinctFamilyIds(a: Family, b: Family) { a.id != b.id }
  predicate DistinctMembershipIds(a: Membership, b: Membership) { a.id != b.id }
  predicate DistinctMemberships(a: Membership, b: Membership) { !(a.familyId == b.familyId && a.userId == b.userId) }

  /** Ids are unique and below the next id the store hands out. */
  ghost predicate TablesInvariant(families: seq<Family>, ms: seq<Membership>, nextId: nat) {
    (forall f :: f in families ==> f.id < nextId) && Pairwise(families, DistinctFamilyIds)
    && (forall m :: m in ms ==> m.id < nextId) && Pairwise(ms, DistinctMembershipIds)
  }

  /** No user holds two rows of one family. */
  ghost predicate OneRowPerUser(ms: seq<Membership>) {
    Pairwise(ms, DistinctMemberships)
  }

  /** With one row per user, the membership lookup sees the user's row whenever there is one. */
  lemma {:induction false} SingleMembership(ms: seq<Membership>, familyId: nat, userId: nat)
    requires OneRowPerUser(ms)
    ensures Single(MembershipsOf(ms, familyId, userId)).Some? <==> HasRow(ms, familyId, userId)
  {
    var rows := MembershipsOf(ms, familyId, userId);
    FilterPairwise(ms, IsMembershipOf(familyId, userId), DistinctMemberships);
    PairwiseFirstTwo(rows, DistinctMemberships);
    if exists m :: m in ms && m.familyId == familyId && m.userId == userId {
      var m :| m in ms && m.familyId == familyId && m.userId == userId;
      assert m in rows;
    }
  }

  /** With unique family ids, the lookup by id finds the family with that id whenever there is one. */
  lemma {:induction false} SingleFamily(families: seq<Family>, f: Family, nextId: nat, ms: seq<Membership>)
    requires TablesInvariant(families, ms, nextId)
    requires f in families
    ensures Single(Filter(families, HasFamilyId(f.id))) == Some(f)
  {
    var rows := Filter(families, HasFamilyId(f.id));
    FilterPairwise(families, HasFamilyId(f.id), DistinctFamilyIds);
    PairwiseFirstTwo(rows, DistinctFamilyIds);
    assert f in rows;
  }

  /** `.update({ role }).eq('id', id)` on `family_members`. */
  function SetRole(ms: seq<Membership>, id: nat, role: Role): (r: seq<Membership>)
    ensures |r| == |ms|
    ensures forall i :: 0 <= i < |ms| ==> r[i] == if ms[i].id == id then ms[i].(role := role) else ms[i]
    decreases |ms|
  {
    if ms == [] then []
    else [if ms[0].id == id then ms[0].(role := role) else ms[0]] + SetRole(ms[1..], id, role)
  }

  /** A role update leaves ids, families and users of all rows as they were, and only the role of the row with that id changes. */
  lemma SetRoleOnlyThatRow(ms: seq<Membership>, id: nat, role: Role, i: nat)
    requires i < |ms|
    ensures var r := SetRole(ms, id, role);
            r[i].id == ms[i].id && r[i].familyId == ms[i].familyId && r[i].userId == ms[i].userId
            && r[i].addedBy == ms[i].addedBy && r[i].fatherId == ms[i].fatherId && r[i].motherId == ms[i].motherId
            && (r[i].role == ms[i].role || ms[i].id == id)
            && (ms[i].id == id ==> r[i].role == role)
  {
  }

  /** The second of two role updates of one row wins. */
  lemma {:induction false} SetRoleTwice(ms: seq<Membership>, id: nat, a: Role, b: Role)
    ensures SetRole(SetRole(ms, id, a), id, b) == SetRole(ms, id, b)
  {
    var r := SetRole(SetRole(ms, id, a), id, b);
    assert forall i :: 0 <= i < |ms| ==> r[i] == SetRole(ms, id, b)[i];
  }

  /** Two tables whose rows agree, position by position, on id, family and user. */
  ghost predicate SameKeys(a: seq<Membership>, b: seq<Membership>) {
    |a| == |b| && forall i :: 0 <= i < |a| ==> a[i].id == b[i].id && a[i].familyId == b[i].familyId && a[i].userId == b[i].userId
  }

  /** Ids and the one-row-per-user shape depend only on the keys of the rows. */
  lemma SameKeysKeepInvariant(families: seq<Family>, a: seq<Membership>, b: seq<Membership>, nextId: nat)
    requires SameKeys(a, b)
    requires TablesInvariant(families, a, nextId)
    ensures TablesInvariant(families, b, nextId)
    ensures OneRowPerUser(a) ==> OneRowPerUser(b)
  {
    forall m | m in b ensures m.id < nextId {
      var i :| 0 <= i < |b| && b[i] == m;
      assert a[i] in a;
    }
    forall i, j | 0 <= i < j < |b| ensures DistinctMembershipIds(b[i], b[j]) {
      assert DistinctMembershipIds(a[i], a[j]);
    }
    if OneRowPerUser(a) {
      forall i, j | 0 <= i < j < |b| ensures DistinctMemberships(b[i], b[j]) {
        assert DistinctMemberships(a[i], a[j]);
      }
    }
  }

  /** A role update keeps the ids and the one-row-per-user shape. */
  lemma SetRoleKeepsInvariant(families: seq<Family>, ms: seq<Membership>, nextId: nat, id: nat, role: Role)
    requires TablesInvariant(families, ms, nextId)
    ensures TablesInvariant(families, SetRole(ms, id, role), nextId)
    ensures OneRowPerUser(ms) ==> OneRowPerUser(SetRole(ms, id, role))
  {
    assert SameKeys(ms, SetRole(ms, id, role));
    SameKeysKeepInvariant(families, ms, SetRole(ms, id, role), nextId);
  }

  /** `.delete().eq('id', id)` on `family_members`. */
  function WithoutMembership(ms: seq<Membership>, id: nat): (r: seq<Membership>)
    ensures forall m :: m in r <==> m in ms && m.id != id
  {
    Filter(ms, NotMembershipId(id))
  }

  /** A delete keeps every other row, in order, and deleting again changes nothing. */
  lemma WithoutMembershipKept(ms: seq<Membership>, id: nat)
    ensures (forall m :: m in ms ==> m.id != id) ==> WithoutMembership(ms, id) == ms
    ensures WithoutMembership(WithoutMembership(ms, id), id) == WithoutMembership(ms, id)
  {
    var once := WithoutMembership(ms, id);
    assert forall m :: m in once ==> m.id != id;
    FilterKeepsAll(once, NotMembershipId(id));
    if forall m :: m in ms ==> m.id != id {
      FilterKeepsAll(ms, NotMembershipId(id));
    }
  }

  /** A delete keeps the ids and the one-row-per-user shape. */
  lemma WithoutMembershipKeepsInvariant(families: seq<Family>, ms: seq<Membership>, nextId: nat, id: nat)
    requires TablesInvariant(families, ms, nextId)
    ensures TablesInvariant(families, WithoutMembership(ms, id), nextId)
    ensures OneRowPerUser(ms) ==> OneRowPerUser(WithoutMembership(ms, id))
  {
    FilterPairwise(ms, NotMembershipId(id), DistinctMembershipIds);
    if OneRowPerUser(ms) {
      FilterPairwise(ms, NotMembershipId(id), DistinctMemberships);
    }
  }

  /** A new row with a fresh id keeps the ids unique. */
  lemma InsertKeepsInvariant(families: seq<Family>, ms: seq<Membership>, nextId: nat, m: Membership)
    requires TablesInvariant(families, ms, nextId)
    requires m.id == nextId
    ensures TablesInvariant(families, ms + [m], nextId + 1)
  {
    PairwiseSnoc(ms, m, DistinctMembershipIds);
  }

  /** A new row for a user with no row in that family keeps one row per user. */
  lemma InsertKeepsOneRowPerUser(ms: seq<Membership>, m: Membership)
    requires OneRowPerUser(ms)
    requires !HasRow(ms, m.familyId, m.userId)
    ensures OneRowPerUser(ms + [m])
  {
    PairwiseSnoc(ms, m, DistinctMemberships);
  }

  /** The remote tables. */
  class Db {
    var families: seq<Family>
    var memberships: seq<Membership>
    var profiles: seq<Profile>
    var nextId: nat

    ghost predicate Valid()
      reads this
    {
      TablesInvariant(families, memberships, nextId)
    }

    constructor(profiles: seq<Profile>)
      ensures families == [] && memberships == [] && this.profiles == profiles && nextId == 0
      ensures Valid()
    {
      families := [];
      memberships := [];
      this.profiles := profiles;
      nextId := 0;
    }

    /** `insert([{ name, created_by }]).select().single()` on `families`: the new row with a fresh id. */
    method InsertFamily(name: string, inviteCode: string, createdBy: nat) returns (f: Family)
      modifies this
      ensures f == Family(old(nextId), name, inviteCode, createdBy)
      ensures families == old(families) + [f] && nextId == old(nextId) + 1
      ensures memberships == old(memberships) && profiles == old(profiles)
      ensures old(Valid()) ==> Valid()
    {
      f := Family(nextId, name, inviteCode, createdBy);
      if Valid() {
        PairwiseSnoc(families, f, DistinctFamilyIds);
      }
      families := families + [f];
      nextId := nextId + 1;
    }

    /** `insert([...])` on `family_members`: exactly one new row, with a fresh id and no parents. */
    method InsertMembership(familyId: nat, userId: nat, role: Role, addedBy: Option<nat>) returns (m: Membership)
      modifies this
      ensures m == Membership(old(nextId), familyId, userId, role, addedBy, None, None)
      ensures memberships == old(memberships) + [m] && nextId == old(nextId) + 1
      ensures families == old(families) && profiles == old(profiles)
      ensures old(Valid()) ==> Valid()
    {
      m := Membership(nextId, familyId, userId, role, addedBy, None, None);
      if Valid() {
        InsertKeepsInvariant(families, memberships, nextId, m);
      }
      memberships := memberships + [m];
      nextId := nextId + 1;
    }

    /** `.update({ role }).eq('id', id)` on `family_members`. */
    method UpdateRole(id: nat, role: Role)
      modifies this
      ensures memberships == SetRole(old(memberships), id, role)
      ensures families == old(families) && profiles == old(profiles) && nextId == old(nextId)
      ensures old(Valid()) ==> Valid()
    {
      if Valid() {
        SetRoleKeepsInvariant(families, memberships, nextId, id, role);
      }
      memberships := SetRole(memberships, id, role);
    }

    /** `.delete().eq('id', id)` on `family_members`. */
    method DeleteMembership(id: nat)
      modifies this
      ensures memberships == WithoutMembership(old(memberships), id)
      ensures families == old(families) && profiles == old(profiles) && nextId == old(nextId)
      ensures old(Valid()) ==> Valid()
    {
      if Valid() {
        WithoutMembershipKeepsInvariant(families, memberships, nextId, id);
      }
      memberships := WithoutMembership(memberships, id);
    }
  }
}
