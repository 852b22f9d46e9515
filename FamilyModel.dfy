/**
 * The family entities shared by the family screens: roles, profiles, the
 * `family_members` rows joined with their profiles, families, stored countdowns,
 * and the small lookups every screen repeats (the current user's role, a
 * member's display name, a member's spouse).
 */
module FamilyModel {
  import opened Wrappers
  import opened Text

  /** `family_members.role`: 'admin', 'admin_lite' or 'kid'. */
  datatype Role = Admin | AdminLite | Kid

  /** `userRole === 'admin' || userRole === 'admin_lite'`, the gate of every add, invite and delete control. */
  function IsManager(r: Option<Role>): (b: bool)
    ensures b <==> r == Some(Admin) || r == Some(AdminLite)
  {
    match r
    case None => false
    case Some(role) => role != Kid
  }

  /** A `profiles` row. Nullable text columns are `Option<string>`; dates are instants in milliseconds. */
  datatype Profile = Profile(
    id: nat,
    fullName: Option<string>,
    nickname: Option<string>,
    email: Option<string>,
    phone: Option<string>,
    gender: Option<string>,
    spouseId: Option<nat>,
    dateOfBirth: Option<int>,
    anniversaryDate: Option<int>)

  /** A `family_members` row as stored. */
  datatype Membership = Membership(
    id: nat,
    familyId: nat,
    userId: nat,
    role: Role,
    addedBy: Option<nat>,
    fatherId: Option<nat>,
    motherId: Option<nat>)

  /** A `family_members` row joined with its member's profile (`m.user`), as the screens read it. */
  datatype Member = Member(
    id: nat,
    familyId: nat,
    userId: nat,
    role: Role,
    fatherId: Option<nat>,
    motherId: Option<nat>,
    user: Profile)

  /** A `families` row. */
  datatype Family = Family(id: nat, name: string, inviteCode: string, createdBy: nat)

  /** `countdowns.category`, one of the five the add form offers. */
  datatype Category = Birthday | Anniversary | Holiday | Event | Other

  /** A `countdowns` row. */
  datatype CountdownRow = CountdownRow(
    id: nat,
    familyId: nat,
    title: string,
    targetDate: int,
    emoji: string,
    category: Category,
    createdBy: nat)

  /** The birthday and anniversary emoji. */
  const Cake: string := "\U{1F382}"
  const Ring: string := "\U{1F48D}"
  /** The ` ❤️ ` between the two names of a couple. */
  const Heart: string := " \U{2764}\U{FE0F} "

  /** The heart character itself, which `Heart` holds at index 1. */
  const HeartChar: char := '\U{2764}'

  /**
   * A "a ❤️ b" title splits back into its two names when the first name holds no
   * heart: the first heart character of the title is the one of the separator.
   */
  lemma HeartJoinSplits(a: string, b: string, c: string, d: string)
    requires HeartChar !in a && HeartChar !in c
    requires a + Heart + b == c + Heart + d
    ensures a == c && b == d
  {
    var x, y := a + Heart + b, c + Heart + d;
    assert x[|a| + 1] == HeartChar && y[|c| + 1] == HeartChar;
    assert |a| == |c|;
    assert a == x[..|a|] && c == y[..|c|];
    assert b == x[|a| + |Heart|..] && d == y[|c| + |Heart|..];
  }

  /** A nullable text column used as a condition: present and not empty. */
  predicate Truthy(s: Option<string>) {
    s.Some? && s.value != ""
  }

  /** `members.find(m => m.user_id === userId)`: the first member row of that user. */
  function FindByUser(members: seq<Member>, userId: nat): (r: Option<Member>)
    ensures r.None? <==> forall m :: m in members ==> m.userId != userId
    ensures r.Some? ==> r.value in members && r.value.userId == userId
    ensures r.Some? ==> exists i :: 0 <= i < |members| && members[i] == r.value
                                    && forall j :: 0 <= j < i ==> members[j].userId != userId
  {
    if members == [] then None
    else if members[0].userId == userId then Some(members[0])
    else
      var r := FindByUser(members[1..], userId);
      assert forall m :: m in members ==> m == members[0] || m in members[1..];
      if r.Some? then
        var i :| 0 <= i < |members[1..]| && members[1..][i] == r.value
                 && forall j :: 0 <= j < i ==> members[1..][j].userId != userId;
        assert members[i + 1] == r.value;
        assert forall j :: 0 < j < i + 1 ==> members[j] == members[1..][j - 1];
        r
      else r
  }

  /** No user holds two membership rows of the same family. */
  predicate DistinctUsers(members: seq<Member>) {
    forall i, j :: 0 <= i < j < |members| ==> members[i].userId != members[j].userId
  }

  /** With distinct users, the lookup finds exactly the row that belongs to the user. */
  lemma FindByUserFindsMember(members: seq<Member>, m: Member)
    requires DistinctUsers(members)
    requires m in members
    ensures FindByUser(members, m.userId) == Some(m)
  {
    var r := FindByUser(members, m.userId);
    var i :| 0 <= i < |members| && members[i] == r.value;
    var k :| 0 <= k < |members| && members[k] == m;
    if i < k {
      assert members[i].userId != members[k].userId;
    } else if k < i {
      assert members[k].userId != members[i].userId;
    }
  }

  /** `familyMembers.find(m => m.user_id === user.id)?.role`: undefined for a user with no row. */
  function CurrentUserRole(members: seq<Member>, userId: nat): (r: Option<Role>)
    ensures r.None? <==> forall m :: m in members ==> m.userId != userId
    ensures r.Some? ==> exists m :: m in members && m.userId == userId && m.role == r.value
  {
    match FindByUser(members, userId)
    case None => None
    case Some(m) => Some(m.role)
  }

  /** A user with a single row in the family has that row's role. */
  lemma CurrentUserRoleOfMember(members: seq<Member>, m: Member)
    requires DistinctUsers(members)
    requires m in members
    ensures CurrentUserRole(members, m.userId) == Some(m.role)
  {
    FindByUserFindsMember(members, m);
  }

  /**
   * `user.nickname || user.full_name?.split(' ')[0]`: the nickname when it is not
   * empty, otherwise the first word of the full name, and undefined when the full
   * name is null.
   */
  function DisplayName(p: Profile): (r: Option<string>)
    ensures Truthy(p.nickname) ==> r == p.nickname
    ensures !Truthy(p.nickname) ==> (r.Some? <==> p.fullName.Some?)
    ensures !Truthy(p.nickname) && r.Some? ==> r.value <= p.fullName.value && ' ' !in r.value
    ensures !Truthy(p.nickname) && r.Some? && |r.value| < |p.fullName.value| ==> p.fullName.value[|r.value|] == ' '
  {
    if Truthy(p.nickname) then p.nickname
    else if p.fullName.Some? then Some(FirstWord(p.fullName.value))
    else None
  }

  /** A value spliced into a template literal: `undefined` prints as "undefined". */
  function ShowUndefined(s: Option<string>): string {
    if s.Some? then s.value else "undefined"
  }

  /** A nullable column spliced into a template literal: `null` prints as "null". */
  function ShowNull(s: Option<string>): string {
    if s.Some? then s.value else "null"
  }

  /** `m.user.spouse_id ? members.find(x => x.user_id === m.user.spouse_id) : null`. */
  function FindSpouse(members: seq<Member>, m: Member): (r: Option<Member>)
    ensures r.Some? <==> m.user.spouseId.Some? && exists x :: x in members && x.userId == m.user.spouseId.value
    ensures r.Some? ==> r.value in members && r.value.userId == m.user.spouseId.value
  {
    if m.user.spouseId.Some? then FindByUser(members, m.user.spouseId.value) else None
  }

  /** Spouse links are symmetric: whoever a member names as spouse names them back, and no one names themself. */
  ghost predicate MutualSpouses(members: seq<Member>) {
    (forall a, b :: a in members && b in members && a.user.spouseId == Some(b.userId) ==> b.user.spouseId == Some(a.userId))
    && (forall a :: a in members ==> a.user.spouseId != Some(a.userId))
  }

  /** Family data as the screens assume it: one row per user and symmetric spouse links. */
  ghost predicate Couples(members: seq<Member>) {
    DistinctUsers(members) && MutualSpouses(members)
  }

  /** With mutual links and distinct users, the spouse of a member's spouse is the member. */
  lemma SpouseOfSpouse(members: seq<Member>, m: Member)
    requires DistinctUsers(members) && MutualSpouses(members)
    requires m in members
    requires FindSpouse(members, m).Some?
    ensures FindSpouse(members, FindSpouse(members, m).value) == Some(m)
  {
    var s := FindSpouse(members, m).value;
    assert s.user.spouseId == Some(m.userId);
    FindByUserFindsMember(members, m);
  }

  /** With distinct users, a user id names one member. */
  lemma SameUserSameMember(members: seq<Member>, a: Member, b: Member)
    requires DistinctUsers(members)
    requires a in members && b in members && a.userId == b.userId
    ensures a == b
  {
    FindByUserFindsMember(members, a);
    FindByUserFindsMember(members, b);
  }

  /** `member.user.phone && member.user_id !== user.id`: whether tapping a member opens the contact card. */
  predicate OpensContact(me: nat, m: Member) {
    Truthy(m.user.phone) && m.userId != me
  }
}
