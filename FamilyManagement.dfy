/**
 * The family settings screen: who may manage whom, which controls each member
 * row shows, the invite panel, and renaming the family.
 */
module FamilyManagement {
  import opened Wrappers
  import opened Text
  import opened FamilyModel

  /**
   * `canManageMember(memberRole)`: an admin manages everyone, an admin_lite
   * manages kids only, and anyone else (a kid, or a user with no row) manages
   * no one.
   */
  function CanManageMember(current: Option<Role>, memberRole: Role): (b: bool)
    ensures current == Some(Admin) ==> b
    ensures current == Some(AdminLite) ==> (b <==> memberRole == Kid)
    ensures current != Some(Admin) && current != Some(AdminLite) ==> !b
  {
    if current == Some(Admin) then true
    else current == Some(AdminLite) && memberRole == Kid
  }

  /** Whoever may manage someone is a manager, and the managers are exactly those who may manage a kid. */
  lemma ManagersManageKids(current: Option<Role>, memberRole: Role)
    ensures CanManageMember(current, memberRole) ==> IsManager(current)
    ensures CanManageMember(current, Kid) <==> IsManager(current)
  {
  }

  /** No one but an admin may manage an admin or an admin_lite. */
  lemma OnlyAdminsManageManagers(current: Option<Role>, memberRole: Role)
    requires memberRole != Kid
    ensures CanManageMember(current, memberRole) <==> current == Some(Admin)
  {
  }

  /** The role `<select>` of a member row: an admin, looking at someone else they may manage. */
  predicate ShowsRoleSelect(current: Option<Role>, me: nat, m: Member) {
    current == Some(Admin) && m.userId != me && CanManageMember(current, m.role)
  }

  /** The options of the role `<select>`. */
  function RoleSelectOptions(): (opts: seq<Role>)
    ensures Admin !in opts
    ensures AdminLite in opts && Kid in opts
  {
    [AdminLite, Kid]
  }

  /** The read-only role badge. */
  predicate ShowsRoleBadge(current: Option<Role>, me: nat, m: Member) {
    !CanManageMember(current, m.role) || m.userId == me
  }

  /** The remove button. */
  predicate ShowsRemove(current: Option<Role>, me: nat, m: Member) {
    CanManageMember(current, m.role) && m.userId != me
  }

  /**
   * For someone else the badge and the remove button exclude each other; on
   * one's own row the badge is always there and neither control is.
   */
  lemma MemberRowControls(current: Option<Role>, me: nat, m: Member)
    ensures m.userId != me ==> (ShowsRoleBadge(current, me, m) <==> !ShowsRemove(current, me, m))
    ensures m.userId == me ==> ShowsRoleBadge(current, me, m) && !ShowsRemove(current, me, m) && !ShowsRoleSelect(current, me, m)
    ensures ShowsRoleSelect(current, me, m) ==> ShowsRemove(current, me, m)
  {
  }

  /** The role selector appears exactly on the rows of other members when the viewer is an admin. */
  lemma RoleSelectForAdmins(current: Option<Role>, me: nat, m: Member)
    ensures ShowsRoleSelect(current, me, m) <==> current == Some(Admin) && m.userId != me
  {
  }

  /** The pencil next to the family name. */
  predicate ShowsEditName(current: Option<Role>) {
    current == Some(Admin)
  }

  /** The invite-code panel. */
  predicate ShowsInvitePanel(current: Option<Role>) {
    IsManager(current)
  }

  /** The pencil is for admins only, and whoever sees it also sees the invite panel. */
  lemma EditNameNeedsAdmin(current: Option<Role>)
    ensures ShowsEditName(current) ==> ShowsInvitePanel(current)
    ensures ShowsInvitePanel(current) <==> current == Some(Admin) || current == Some(AdminLite)
    ensures !ShowsEditName(Some(AdminLite)) && !ShowsEditName(Some(Kid))
  {
  }

  /** `tel:` link on a member row: another member who has a phone. */
  predicate ShowsPhoneLink(me: nat, m: Member) {
    Truthy(m.user.phone) && m.userId != me
  }

  /** The WhatsApp invite text: it names the family and carries its invite code. */
  function InviteMessage(name: string, code: string, origin: string): (msg: string)
    ensures Contains(msg, name) && Contains(msg, code)
  {
    var head := "Join our family \"" + name;
    var mid := head + "\" on FamPulse! Use invite code: " + code;
    var msg := mid + "\n\nSign up at: " + origin;
    assert msg[|head| - |name|..][..|name|] == name;
    assert msg[|mid| - |code|..][..|code|] == code;
    msg
  }

  /**
   * What `handleUpdateFamilyName` leaves behind: the name the `families` row
   * now has, when it was written, and whether the name is still being edited.
   */
  datatype RenameEffect = RenameEffect(written: Option<string>, editing: bool)

  /**
   * A blank or unchanged name leaves edit mode without a write. Otherwise the
   * name is written as typed (not trimmed); a failed write keeps edit mode, a
   * successful one leaves it. With no current family the handler fails on
   * `currentFamily.id` before writing, and edit mode stays.
   */
  function UpdateFamilyName(familyName: string, current: Option<Family>, writeFails: bool): (r: RenameEffect)
    ensures IsBlank(familyName) || (current.Some? && familyName == current.value.name) ==> r == RenameEffect(None, false)
    ensures r.written.Some? <==> !IsBlank(familyName) && current.Some? && familyName != current.value.name && !writeFails
    ensures r.written.Some? ==> r.written.value == familyName
    ensures r.editing <==> !IsBlank(familyName) && (current.None? || (familyName != current.value.name && writeFails))
  {
    if Trim(familyName) == [] || (current.Some? && familyName == current.value.name) then RenameEffect(None, false)
    else if current.None? || writeFails then RenameEffect(None, true)
    else RenameEffect(Some(familyName), false)
  }

  /** A successful rename changes the name, and saving the new name again writes nothing. */
  lemma RenameSettles(familyName: string, f: Family, writeFails: bool, again: bool)
    requires UpdateFamilyName(familyName, Some(f), writeFails).written.Some?
    ensures familyName != f.name
    ensures UpdateFamilyName(familyName, Some(f.(name := familyName)), again) == RenameEffect(None, false)
  {
  }
}
