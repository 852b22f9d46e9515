/**
 * The earlier family dashboard: its own copy of the management rule, written
 * as a chain of returns, and the invite share menu.
 */
module FamilyDashboardOld {
  import opened Wrappers
  import opened Text
  import opened FamilyModel
  import FamilyManagement

  /** `canManageMember`, as a chain of early returns. */
  function CanManageMember(current: Option<Role>, memberRole: Role): (b: bool)
    ensures b ==> IsManager(current)
  {
    if current == Some(Admin) then true
    else if current == Some(AdminLite) && memberRole == Kid then true
    else false
  }

  /** The two copies of the rule agree on every pair of roles. */
  lemma SameManagementRule(current: Option<Role>, memberRole: Role)
    ensures CanManageMember(current, memberRole) == FamilyManagement.CanManageMember(current, memberRole)
  {
  }

  /** The "+" add-member button: `currentUserRole === 'admin' || currentUserRole === 'admin_lite'`. */
  predicate ShowsAddMember(current: Option<Role>) {
    current == Some(Admin) || current == Some(AdminLite)
  }

  /** The add-member button is shown to exactly the managers, and never to a kid or a non-member. */
  lemma AddMemberForManagers(current: Option<Role>)
    ensures ShowsAddMember(current) <==> IsManager(current)
    ensures !ShowsAddMember(Some(Kid)) && !ShowsAddMember(None)
  {
  }

  /** The share menu's entries. */
  datatype ShareMethod = WhatsApp | Sms | Copy

  /** What a share does: open a link carrying a text, or put a text on the clipboard. */
  datatype ShareAction = NoAction | OpenWhatsApp(text: string) | OpenSms(text: string) | CopyText(text: string)

  /**
   * `handleInviteShare(method)`: nothing without a current family; WhatsApp and
   * SMS send the invite message, and copy puts only the invite code on the
   * clipboard.
   */
  function HandleInviteShare(current: Option<Family>, via: ShareMethod, origin: string): (a: ShareAction)
    ensures current.None? ==> a == NoAction
    ensures current.Some? ==> a != NoAction
    ensures a.CopyText? <==> current.Some? && via == Copy
    ensures a.CopyText? ==> a.text == current.value.inviteCode
    ensures (a.OpenWhatsApp? || a.OpenSms?) ==> Contains(a.text, current.value.name) && Contains(a.text, current.value.inviteCode)
  {
    if current.None? then NoAction
    else
      var f := current.value;
      var message := FamilyManagement.InviteMessage(f.name, f.inviteCode, origin);
      match via
      case WhatsApp => OpenWhatsApp(message)
      case Sms => OpenSms(message)
      case Copy => CopyText(f.inviteCode)
  }

  /** Both links carry the same invite text as the settings screen's WhatsApp button. */
  lemma ShareTextsAgree(f: Family, origin: string)
    ensures HandleInviteShare(Some(f), WhatsApp, origin).text == HandleInviteShare(Some(f), Sms, origin).text
    ensures HandleInviteShare(Some(f), Sms, origin).text == FamilyManagement.InviteMessage(f.name, f.inviteCode, origin)
  {
  }

  /** Tapping a member opens the contact card only for another member who has a phone. */
  lemma ContactNeedsPhoneAndOther(me: nat, m: Member)
    ensures OpensContact(me, m) ==> m.userId != me && m.user.phone.Some? && m.user.phone.value != ""
    ensures m.userId == me ==> !OpensContact(me, m)
  {
  }
}
