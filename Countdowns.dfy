/**
 * The countdowns screen: the list built from the stored countdowns and the
 * birthdays and anniversaries of the family, the time left shown on each card,
 * the collapsible category sections, the add form and the delete control.
 */
module Countdowns {
  import opened Wrappers
  import opened Text
  import opened Seqs
  import opened Sorting
  import opened Calendar
  import opened FamilyModel

  /** `id`: a stored row's id, or `birthday-<user_id>` / `anniversary-<user_id>` for the derived entries. */
  datatype CountdownId = Stored(row: nat) | BirthdayOf(user: nat) | AnniversaryOf(user: nat)

  /**
   * One entry of the list. The derived entries carry `isBirthday: true` (the
   * anniversaries too); a stored row has no such field, which reads as false.
   * A derived title is undefined for a member with neither nickname nor name.
   */
  datatype Countdown = Countdown(
    id: CountdownId,
    title: Option<string>,
    targetDate: int,
    emoji: string,
    category: Category,
    isBirthday: bool)

  function TargetOf(c: Countdown): int {
    c.targetDate
  }

  /** A stored `countdowns` row as it enters the list. */
  function StoredCountdown(row: CountdownRow): (c: Countdown)
    ensures c.id == Stored(row.id) && !c.isBirthday && c.category == row.category
  {
    Countdown(Stored(row.id), Some(row.title), row.targetDate, row.emoji, row.category, false)
  }

  // ---------------------------------------------------------------------------
  // Birthdays

  /** The birthday entry of a member with a date of birth. */
  function BirthdayCountdown(m: Member, now: int): (c: Countdown)
    requires m.user.dateOfBirth.Some?
    ensures c.id == BirthdayOf(m.userId) && c.title == DisplayName(m.user)
    ensures c.isBirthday && c.category == Birthday && c.emoji == Cake
    ensures now <= c.targetDate < now + 366 * MsPerDay
  {
    Countdown(BirthdayOf(m.userId), DisplayName(m.user), NextOccurrence(m.user.dateOfBirth.value, now), Cake, Birthday, true)
  }

  predicate HasBirthDate(m: Member) { m.user.dateOfBirth.Some? }

  /**
   * `familyMembers.filter(m => m.user.date_of_birth).map(...)`: one entry per
   * member with a date of birth, in order, and no other entry.
   */
  function BirthdayCountdowns(members: seq<Member>, now: int): (r: seq<Countdown>)
    ensures var dated := Filter(members, HasBirthDate);
            |r| == |dated| && forall i :: 0 <= i < |r| ==> HasBirthDate(dated[i]) && r[i] == BirthdayCountdown(dated[i], now)
    ensures forall c :: c in r <==> exists m :: m in members && m.user.dateOfBirth.Some? && c == BirthdayCountdown(m, now)
  {
    var dated := Filter(members, HasBirthDate);
    assert forall i :: 0 <= i < |dated| ==> HasBirthDate(dated[i]) by {
      forall i | 0 <= i < |dated| ensures HasBirthDate(dated[i]) {
        assert dated[i] in dated;
      }
    }
    var r := seq(|dated|, i requires 0 <= i < |dated| => BirthdayCountdown(dated[i], now));
    BirthdaysOfDated(members, now, r);
    r
  }

  /** The entries made from the dated members are exactly the birthday entries of the members with a date. */
  lemma BirthdaysOfDated(members: seq<Member>, now: int, r: seq<Countdown>)
    requires var dated := Filter(members, HasBirthDate);
             |r| == |dated| && forall i :: 0 <= i < |r| ==> HasBirthDate(dated[i]) && r[i] == BirthdayCountdown(dated[i], now)
    ensures forall c :: c in r <==> exists m :: m in members && m.user.dateOfBirth.Some? && c == BirthdayCountdown(m, now)
  {
  }

  // ---------------------------------------------------------------------------
  // Anniversaries

  predicate IsMale(m: Member) {
    m.user.gender == Some("Male")
  }

  /** `${first} ❤️ ${second}` with the two display names. */
  function CoupleTitle(first: Member, second: Member): string {
    ShowUndefined(DisplayName(first.user)) + Heart + ShowUndefined(DisplayName(second.user))
  }

  /**
   * The anniversary title: the member's own display name without a spouse;
   * for a couple, the Male partner's name first, and the processed member's
   * name first when neither partner (or both) is Male.
   */
  function AnniversaryTitle(m: Member, spouse: Option<Member>): (t: Option<string>)
    ensures spouse.None? ==> t == DisplayName(m.user)
    ensures spouse.Some? && IsMale(m) ==> t == Some(CoupleTitle(m, spouse.value))
    ensures spouse.Some? && !IsMale(m) && IsMale(spouse.value) ==> t == Some(CoupleTitle(spouse.value, m))
    ensures spouse.Some? && !IsMale(m) && !IsMale(spouse.value) ==> t == Some(CoupleTitle(m, spouse.value))
  {
    if spouse.None? then DisplayName(m.user)
    else
      var s := spouse.value;
      if IsMale(m) then Some(CoupleTitle(m, s))
      else if IsMale(s) then Some(CoupleTitle(s, m))
      else Some(CoupleTitle(m, s))
  }

  /** When exactly one partner is Male, the title is the same whichever partner is processed. */
  lemma MaleFirstEitherWay(a: Member, b: Member)
    requires IsMale(a) != IsMale(b)
    ensures AnniversaryTitle(a, Some(b)) == AnniversaryTitle(b, Some(a))
  {
  }

  /** The anniversary entry of a member with an anniversary date, titled with their spouse. */
  function AnniversaryCountdown(members: seq<Member>, m: Member, now: int): (c: Countdown)
    requires m.user.anniversaryDate.Some?
    ensures c.id == AnniversaryOf(m.userId) && c.title == AnniversaryTitle(m, FindSpouse(members, m))
    ensures c.isBirthday && c.category == Anniversary && c.emoji == Ring
    ensures now <= c.targetDate < now + 366 * MsPerDay
  {
    Countdown(AnniversaryOf(m.userId), AnniversaryTitle(m, FindSpouse(members, m)),
              NextOccurrence(m.user.anniversaryDate.value, now), Ring, Anniversary, true)
  }

  /** What the `forEach` body reads of a member: the user id, whether there is an anniversary date, and the spouse found. */
  datatype Candidate = Candidate(user: nat, dated: bool, spouse: Option<nat>)

  function CandidateOf(members: seq<Member>, m: Member): (c: Candidate)
    ensures c.user == m.userId && (c.dated <==> m.user.anniversaryDate.Some?)
    ensures c.spouse.Some? <==> FindSpouse(members, m).Some?
    ensures c.spouse.Some? ==> c.spouse.value == FindSpouse(members, m).value.userId
  {
    var s := FindSpouse(members, m);
    Candidate(m.userId, m.user.anniversaryDate.Some?, if s.Some? then Some(s.value.userId) else None)
  }

  function Candidates(members: seq<Member>): (cs: seq<Candidate>)
    ensures |cs| == |members|
    ensures forall i :: 0 <= i < |members| ==> cs[i] == CandidateOf(members, members[i])
  {
    seq(|members|, i requires 0 <= i < |members| => CandidateOf(members, members[i]))
  }

  function OptionSet(o: Option<nat>): set<nat> {
    if o.Some? then {o.value} else {}
  }

  /** What the anniversary pass has done so far: the `processedAnniversaries` set, and the positions of the members given an entry. */
  datatype Pass = Pass(processed: set<nat>, picked: seq<nat>)

  /** The `forEach` body for the member at position `i`: a member with a date not yet processed is marked with their spouse and picked. */
  function PassStep(cs: seq<Candidate>, st: Pass, i: nat): Pass
    requires i < |cs|
  {
    var c := cs[i];
    if c.dated && c.user !in st.processed then Pass(st.processed + {c.user} + OptionSet(c.spouse), st.picked + [i])
    else st
  }

  /** The pass over the first `k` members: it picks, in member order, only members with a date. */
  function AnniversaryPass(cs: seq<Candidate>, k: nat): (p: Pass)
    requires k <= |cs|
    ensures forall t :: 0 <= t < |p.picked| ==> p.picked[t] < k && cs[p.picked[t]].dated
    ensures forall s, t :: 0 <= s < t < |p.picked| ==> p.picked[s] < p.picked[t]
  {
    if k == 0 then Pass({}, []) else PassStep(cs, AnniversaryPass(cs, k - 1), k - 1)
  }

  /** The positions of the members the pass over the whole family gives an entry, in member order. */
  function Picked(members: seq<Member>): (p: seq<nat>)
    ensures forall t :: 0 <= t < |p| ==> p[t] < |members| && members[p[t]].user.anniversaryDate.Some?
  {
    var cs := Candidates(members);
    AnniversaryPass(cs, |members|).picked
  }

  /** Whether `u` is one of the picked members or the spouse of one. */
  predicate Marks(cs: seq<Candidate>, picked: seq<nat>, u: nat) {
    exists t :: 0 <= t < |picked| && picked[t] < |cs| && (cs[picked[t]].user == u || cs[picked[t]].spouse == Some(u))
  }

  /** Picking one more member marks that member and their spouse besides what was marked. */
  lemma MarksSnoc(cs: seq<Candidate>, picked: seq<nat>, i: nat, u: nat)
    requires i < |cs|
    ensures Marks(cs, picked + [i], u) <==> Marks(cs, picked, u) || cs[i].user == u || cs[i].spouse == Some(u)
  {
    var q := picked + [i];
    if Marks(cs, picked, u) {
      var t :| 0 <= t < |picked| && picked[t] < |cs| && (cs[picked[t]].user == u || cs[picked[t]].spouse == Some(u));
      assert q[t] == picked[t];
    }
    if cs[i].user == u || cs[i].spouse == Some(u) {
      assert q[|picked|] == i;
    }
    if Marks(cs, q, u) {
      var t :| 0 <= t < |q| && q[t] < |cs| && (cs[q[t]].user == u || cs[q[t]].spouse == Some(u));
      if t < |picked| {
        assert q[t] == picked[t];
      }
    }
  }

  /** The processed set is exactly the picked members and their spouses. */
  lemma {:induction false} PassMarks(cs: seq<Candidate>, k: nat, u: nat)
    requires k <= |cs|
    ensures u in AnniversaryPass(cs, k).processed <==> Marks(cs, AnniversaryPass(cs, k).picked, u)
  {
    if k > 0 {
      var prev := AnniversaryPass(cs, k - 1);
      PassMarks(cs, k - 1, u);
      MarksSnoc(cs, prev.picked, k - 1, u);
    }
  }

  /** Nothing leaves the processed set, and nothing is unpicked. */
  lemma {:induction false} PassGrows(cs: seq<Candidate>, j: nat, k: nat)
    requires j <= k <= |cs|
    ensures AnniversaryPass(cs, j).processed <= AnniversaryPass(cs, k).processed
    ensures AnniversaryPass(cs, j).picked <= AnniversaryPass(cs, k).picked
    decreases k - j
  {
    if j < k {
      PassGrows(cs, j, k - 1);
    }
  }

  /** No member is picked twice: the user ids of the entries are distinct. */
  predicate DistinctPicks(cs: seq<Candidate>, picked: seq<nat>) {
    forall s, t :: 0 <= s < t < |picked| && picked[s] < |cs| && picked[t] < |cs| ==> cs[picked[s]].user != cs[picked[t]].user
  }

  /** No picked member is the spouse of a member picked before. */
  predicate NoLaterSpouse(cs: seq<Candidate>, picked: seq<nat>) {
    forall s, t :: 0 <= s < t < |picked| && picked[s] < |cs| && picked[t] < |cs| ==> cs[picked[s]].spouse != Some(cs[picked[t]].user)
  }

  lemma {:induction false} PassPicksOnce(cs: seq<Candidate>, k: nat)
    requires k <= |cs|
    ensures DistinctPicks(cs, AnniversaryPass(cs, k).picked)
    ensures NoLaterSpouse(cs, AnniversaryPass(cs, k).picked)
  {
    if k > 0 {
      PassPicksOnce(cs, k - 1);
      var st := AnniversaryPass(cs, k - 1);
      if cs[k - 1].dated && cs[k - 1].user !in st.processed {
        PickedUnmarked(cs, k);
        SnocPickOnce(cs, st.picked, k - 1);
      } else {
        assert AnniversaryPass(cs, k) == st;
      }
    }
  }

  /** Picking a member who is neither an earlier pick nor the spouse of one keeps both properties. */
  lemma SnocPickOnce(cs: seq<Candidate>, prev: seq<nat>, i: nat)
    requires i < |cs| && DistinctPicks(cs, prev) && NoLaterSpouse(cs, prev)
    requires forall s :: 0 <= s < |prev| && prev[s] < |cs| ==> cs[prev[s]].user != cs[i].user && cs[prev[s]].spouse != Some(cs[i].user)
    ensures DistinctPicks(cs, prev + [i]) && NoLaterSpouse(cs, prev + [i])
  {
  }

  /** A member the pass picks is neither an earlier pick nor the spouse of one. */
  lemma PickedUnmarked(cs: seq<Candidate>, k: nat)
    requires 0 < k <= |cs|
    requires cs[k - 1].dated && cs[k - 1].user !in AnniversaryPass(cs, k - 1).processed
    ensures var prev := AnniversaryPass(cs, k - 1).picked;
            AnniversaryPass(cs, k).picked == prev + [k - 1]
            && forall s :: 0 <= s < |prev| ==> cs[prev[s]].user != cs[k - 1].user && cs[prev[s]].spouse != Some(cs[k - 1].user)
  {
    var prev := AnniversaryPass(cs, k - 1).picked;
    PassMarks(cs, k - 1, cs[k - 1].user);
    assert !Marks(cs, prev, cs[k - 1].user);
  }

  /** After the pass over `k` members, every member with a date among them has been processed. */
  lemma {:induction false} PassCovers(cs: seq<Candidate>, k: nat, i: nat)
    requires i < k <= |cs|
    requires cs[i].dated
    ensures cs[i].user in AnniversaryPass(cs, k).processed
  {
    if i < k - 1 {
      PassCovers(cs, k - 1, i);
    }
  }

  /** A member given an entry is not given another. */
  lemma OneEntryPerMember(members: seq<Member>, s: nat, t: nat)
    requires s < t < |Picked(members)|
    ensures var p := Picked(members);
            members[p[s]].userId != members[p[t]].userId
  {
    PassPicksOnce(Candidates(members), |members|);
  }

  /** With one row per user and mutual spouse links, a couple yields a single anniversary entry. */
  lemma OneEntryPerCouple(members: seq<Member>, s: nat, t: nat)
    requires Couples(members)
    requires s < |Picked(members)| && t < |Picked(members)|
    ensures var p := Picked(members);
            FindSpouse(members, members[p[s]]) != Some(members[p[t]])
  {
    var cs := Candidates(members);
    var p := AnniversaryPass(cs, |members|).picked;
    PassPicksOnce(cs, |members|);
    var a := members[p[s]];
    var b := members[p[t]];
    if FindSpouse(members, a) == Some(b) && t < s {
      SpouseOfSpouse(members, a);
    }
  }

  /**
   * With one row per user, every member with an anniversary date is covered: given an entry, or the spouse of a member
   * given one.
   */
  lemma AnniversariesCovered(members: seq<Member>, i: nat)
    requires DistinctUsers(members)
    requires i < |members| && members[i].user.anniversaryDate.Some?
    ensures var p := Picked(members);
            exists t :: 0 <= t < |p| && (p[t] == i || FindSpouse(members, members[p[t]]) == Some(members[i]))
  {
    var cs := Candidates(members);
    var p := Picked(members);
    PassCoversMarks(cs, i);
    var t :| 0 <= t < |p| && p[t] < |cs| && (cs[p[t]].user == cs[i].user || cs[p[t]].spouse == Some(cs[i].user));
    MarkedMember(members, p[t], i);
  }

  /** A member with a date is marked by the pass over all members. */
  lemma PassCoversMarks(cs: seq<Candidate>, i: nat)
    requires i < |cs| && cs[i].dated
    ensures Marks(cs, AnniversaryPass(cs, |cs|).picked, cs[i].user)
  {
    PassCovers(cs, |cs|, i);
    PassMarks(cs, |cs|, cs[i].user);
  }

  /** With one row per user, the member whose candidate marks another's user id is that member or their spouse. */
  lemma MarkedMember(members: seq<Member>, j: nat, i: nat)
    requires DistinctUsers(members)
    requires j < |members| && i < |members|
    requires var c := CandidateOf(members, members[j]); c.user == members[i].userId || c.spouse == Some(members[i].userId)
    ensures j == i || FindSpouse(members, members[j]) == Some(members[i])
  {
  }

  /** The entries for the picked members, in order. */
  function AnniversaryEntries(members: seq<Member>, picked: seq<nat>, now: int): (r: seq<Countdown>)
    requires forall t :: 0 <= t < |picked| ==> picked[t] < |members| && members[picked[t]].user.anniversaryDate.Some?
    ensures |r| == |picked|
    ensures forall t :: 0 <= t < |picked| ==> r[t] == AnniversaryCountdown(members, members[picked[t]], now)
  {
    seq(|picked|, t requires 0 <= t < |picked| => AnniversaryCountdown(members, members[picked[t]], now))
  }

  /** The anniversary entries `fetchCountdowns` builds for the family. */
  function AnniversaryList(members: seq<Member>, now: int): (r: seq<Countdown>)
    ensures forall c :: c in r ==> c.isBirthday && c.category == Anniversary && c.emoji == Ring && c.id.AnniversaryOf?
    ensures forall c :: c in r ==> now <= c.targetDate
  {
    var p := Picked(members);
    var r := AnniversaryEntries(members, p, now);
    assert forall c :: c in r ==> exists t :: 0 <= t < |p| && c == r[t];
    r
  }

  /** Picking one more member appends that member's entry. */
  lemma EntriesSnoc(members: seq<Member>, picked: seq<nat>, i: nat, now: int)
    requires forall t :: 0 <= t < |picked| ==> picked[t] < |members| && members[picked[t]].user.anniversaryDate.Some?
    requires i < |members| && members[i].user.anniversaryDate.Some?
    ensures AnniversaryEntries(members, picked + [i], now)
            == AnniversaryEntries(members, picked, now) + [AnniversaryCountdown(members, members[i], now)]
  {
  }

  /** The `forEach` callback for one member, on the `processedAnniversaries` set and the entries so far. */
  method MarkAnniversary(members: seq<Member>, m: Member, now: int, processed: set<nat>, out: seq<Countdown>)
    returns (processed': set<nat>, out': seq<Countdown>)
    ensures m.user.anniversaryDate.Some? && m.userId !in processed
            ==> processed' == processed + {m.userId} + OptionSet(CandidateOf(members, m).spouse)
                && out' == out + [AnniversaryCountdown(members, m, now)]
    ensures !(m.user.anniversaryDate.Some? && m.userId !in processed) ==> processed' == processed && out' == out
  {
    processed', out' := processed, out;
    if m.user.anniversaryDate.Some? && !(m.userId in processed) {
      processed' := processed' + {m.userId};
      var spouse := FindSpouse(members, m);
      if spouse.Some? {
        processed' := processed' + {spouse.value.userId};
      }
      var title := AnniversaryTitle(m, spouse);
      out' := out' + [Countdown(AnniversaryOf(m.userId), title, NextOccurrence(m.user.anniversaryDate.value, now), Ring, Anniversary, true)];
    }
  }

  /**
   * The anniversary pass of `fetchCountdowns`: a `processedAnniversaries` set,
   * and one entry for each member with an anniversary date not yet processed,
   * which marks the member and their spouse.
   */
  method AnniversaryCountdowns(members: seq<Member>, now: int) returns (out: seq<Countdown>)
    ensures out == AnniversaryList(members, now)
  {
    ghost var cs := Candidates(members);
    var processed: set<nat> := {};
    out := [];
    ghost var picked: seq<nat> := [];
    for i := 0 to |members|
      invariant AnniversaryPass(cs, i) == Pass(processed, picked)
      invariant forall t :: 0 <= t < |picked| ==> picked[t] < |members| && members[picked[t]].user.anniversaryDate.Some?
      invariant out == AnniversaryEntries(members, picked, now)
    {
      assert cs[i] == CandidateOf(members, members[i]);
      if members[i].user.anniversaryDate.Some? && members[i].userId !in processed {
        EntriesSnoc(members, picked, i, now);
        picked := picked + [i];
      }
      processed, out := MarkAnniversary(members, members[i], now, processed, out);
    }
  }

  // ---------------------------------------------------------------------------
  // The merged list

  /** `data || []`: the family's stored rows in `target_date` order, or none when the query fails. */
  function StoredRows(table: seq<CountdownRow>, familyId: nat, queryFails: bool): (r: seq<CountdownRow>)
    ensures queryFails ==> r == []
    ensures !queryFails ==> SortedBy(r, RowTarget) && multiset(r) == multiset(Filter(table, InFamilyRow(familyId)))
    ensures forall c :: c in r <==> !queryFails && c in table && c.familyId == familyId
  {
    if queryFails then []
    else
      var rows := Filter(table, InFamilyRow(familyId));
      var r := SortBy(rows, RowTarget);
      forall c ensures c in r <==> c in rows {
        SortByMembers(rows, RowTarget, c);
      }
      r
  }

  function RowTarget(c: CountdownRow): int { c.targetDate }

  function InFamilyRow(familyId: nat): CountdownRow -> bool {
    (c: CountdownRow) => c.familyId == familyId
  }

  function StoredCountdowns(rows: seq<CountdownRow>): (r: seq<Countdown>)
    ensures |r| == |rows|
    ensures forall i :: 0 <= i < |rows| ==> r[i] == StoredCountdown(rows[i])
  {
    seq(|rows|, i requires 0 <= i < |rows| => StoredCountdown(rows[i]))
  }

  /**
   * `fetchCountdowns`: the stored rows, then the birthday entries, then the
   * anniversary entries, sorted ascending by target date.
   */
  method FetchCountdowns(table: seq<CountdownRow>, familyId: nat, queryFails: bool, members: seq<Member>, now: int)
    returns (all: seq<Countdown>)
    ensures var merged := StoredCountdowns(StoredRows(table, familyId, queryFails)) + BirthdayCountdowns(members, now)
                          + AnniversaryList(members, now);
            all == SortBy(merged, TargetOf) && SortedBy(all, TargetOf) && multiset(all) == multiset(merged)
  {
    var stored := StoredCountdowns(StoredRows(table, familyId, queryFails));
    var birthdays := BirthdayCountdowns(members, now);
    var anniversaries := AnniversaryCountdowns(members, now);
    all := SortBy(stored + birthdays + anniversaries, TargetOf);
  }

  /** Every derived entry is flagged `isBirthday`, and every stored one is not. */
  lemma DerivedFlagged(members: seq<Member>, now: int, rows: seq<CountdownRow>, c: Countdown)
    ensures c in BirthdayCountdowns(members, now) ==> c.isBirthday && c.id.BirthdayOf?
    ensures c in AnniversaryList(members, now) ==> c.isBirthday && c.id.AnniversaryOf?
    ensures c in StoredCountdowns(rows) ==> !c.isBirthday && c.id.Stored?
  {
  }

  // ---------------------------------------------------------------------------
  // Time left

  /** `new Date(now.getFullYear(), ...)` rolling for Birthday and Anniversary entries; other categories keep their date. */
  function RolledTarget(targetDate: int, category: Category, now: int): (t: int)
    ensures category == Birthday || category == Anniversary ==> now <= t
    ensures category != Birthday && category != Anniversary ==> t == targetDate
  {
    if category == Birthday || category == Anniversary then NextOccurrence(targetDate, now) else targetDate
  }

  /** What a card shows: passed, whole days, or whole days and the hours beyond them. */
  datatype TimeLeft = Passed | Days(days: nat) | DaysHours(days: nat, hours: nat)

  /**
   * `calculateTimeLeft` before formatting: passed when the (rolled) target is
   * not after now; days for derived entries and for every category but Other;
   * days and hours for Other.
   */
  function TimeLeftOf(targetDate: int, isBirthday: bool, category: Category, now: int): (t: TimeLeft)
    ensures var diff := RolledTarget(targetDate, category, now) - now;
            (t.Passed? <==> diff <= 0)
            && (t.Days? <==> diff > 0 && (isBirthday || category != Other))
            && (t.Days? ==> t.days * MsPerDay <= diff < (t.days + 1) * MsPerDay)
            && (t.DaysHours? ==>
                  t.hours < 24
                  && t.days * MsPerDay + t.hours * MsPerHour <= diff < t.days * MsPerDay + (t.hours + 1) * MsPerHour)
  {
    var diff := RolledTarget(targetDate, category, now) - now;
    if diff <= 0 then Passed
    else
      var days := diff / MsPerDay;
      if isBirthday || category != Other then Days(days)
      else DaysHours(days, (diff % MsPerDay) / MsPerHour)
  }

  /** The text of a card: "Event passed!", "{days} days" or "{days}d {hours}h". */
  function ShowTimeLeft(t: TimeLeft): (s: string)
    ensures s == "Event passed!" <==> t.Passed?
    ensures t.Days? ==> exists k {:trigger s[k..]} :: 0 < k <= |s| && s[..k] == NatToString(t.days) && s[k..] == " days"
    ensures t.DaysHours? ==> s == NatToString(t.days) + "d " + NatToString(t.hours) + "h"
  {
    match t
    case Passed => "Event passed!"
    case Days(d) =>
      var s := NatToString(d) + " days";
      assert s[..|NatToString(d)|] == NatToString(d) && s[|NatToString(d)|..] == " days";
      assert s[0] != "Event passed!"[0];
      s
    case DaysHours(d, h) =>
      var s := NatToString(d) + "d " + NatToString(h) + "h";
      assert s[0] != "Event passed!"[0];
      s
  }

  /** The text of a card determines what it shows: different times left never read the same. */
  lemma ShowTimeLeftInjective(t: TimeLeft, u: TimeLeft)
    requires ShowTimeLeft(t) == ShowTimeLeft(u)
    ensures t == u
  {
    if t.Days? && u.Days? {
      DaysTextInjective(t.days, u.days);
    } else if t.DaysHours? && u.DaysHours? {
      DaysHoursTextInjective(t.days, t.hours, u.days, u.hours);
    } else if t.Days? && u.DaysHours? {
      DaysTextNotDaysHours(t.days, u.days, u.hours);
    } else if t.DaysHours? && u.Days? {
      DaysTextNotDaysHours(u.days, t.days, t.hours);
    }
  }

  /** A "{days} days" text ends in 's', a "{d}d {h}h" text in 'h'. */
  lemma DaysTextNotDaysHours(d: nat, e: nat, g: nat)
    ensures NatToString(d) + " days" != NatToString(e) + "d " + NatToString(g) + "h"
  {
    var x, y := NatToString(d) + " days", NatToString(e) + "d " + NatToString(g) + "h";
    assert x[|x| - 1] == 's' && y[|y| - 1] == 'h';
  }

  lemma DaysTextInjective(d: nat, e: nat)
    requires NatToString(d) + " days" == NatToString(e) + " days"
    ensures d == e
  {
    DigitRunsAgree(NatToString(d), " days", NatToString(e), " days");
    NatToStringInjective(d, e);
  }

  lemma DaysHoursTextInjective(d: nat, h: nat, e: nat, g: nat)
    requires NatToString(d) + "d " + NatToString(h) + "h" == NatToString(e) + "d " + NatToString(g) + "h"
    ensures d == e && h == g
  {
    DaysHoursRunsAgree(NatToString(d), NatToString(h), NatToString(e), NatToString(g));
    NatToStringInjective(d, e);
    NatToStringInjective(h, g);
  }

  /** The two digit runs of a "{d}d {h}h" text are read back from it. */
  lemma DaysHoursRunsAgree(a: string, b: string, c: string, d: string)
    requires AllDigits(a) && AllDigits(b) && AllDigits(c) && AllDigits(d)
    requires a + "d " + b + "h" == c + "d " + d + "h"
    ensures a == c && b == d
  {
    CommonSuffix(a + "d " + b, c + "d " + d, "h");
    ConcatAssoc(a, "d ", b);
    ConcatAssoc(c, "d ", d);
    DigitRunsAgree(a, "d " + b, c, "d " + d);
    CommonPrefix("d ", b, d);
  }

  /** `calculateTimeLeft(targetDate, isBirthday, category)`. */
  function CalculateTimeLeft(targetDate: int, isBirthday: bool, category: Category, now: int): (s: string)
    ensures s == "Event passed!" <==> RolledTarget(targetDate, category, now) <= now
  {
    ShowTimeLeft(TimeLeftOf(targetDate, isBirthday, category, now))
  }

  /** A Birthday or Anniversary entry never shows hours, and shows "Event passed!" only at the very instant of its midnight. */
  lemma YearlyEntriesShowDays(targetDate: int, isBirthday: bool, category: Category, now: int)
    requires category == Birthday || category == Anniversary
    ensures var t := TimeLeftOf(targetDate, isBirthday, category, now);
            !t.DaysHours? && (t.Passed? ==> RolledTarget(targetDate, category, now) == now)
  {
  }

  // ---------------------------------------------------------------------------
  // Sections

  /** The categories in the order the sections are listed; all are expanded at first. */
  const AllSections: seq<Category> := [Birthday, Anniversary, Holiday, Event, Other]

  /** A section's toggle: remove the category if it is expanded, append it otherwise. */
  function Toggle(expanded: seq<Category>, cat: Category): (r: seq<Category>)
    ensures cat in r <==> cat !in expanded
    ensures forall c :: c != cat ==> (c in r <==> c in expanded)
  {
    if cat in expanded then Filter(expanded, (c: Category) => c != cat) else expanded + [cat]
  }

  /** Toggling a section twice restores which sections are expanded. */
  lemma ToggleTwice(expanded: seq<Category>, cat: Category)
    ensures forall c :: c in Toggle(Toggle(expanded, cat), cat) <==> c in expanded
  {
  }

  /** The date a section sorts its entries by: the rolled target. */
  function SectionKey(now: int): Countdown -> int {
    (c: Countdown) => RolledTarget(c.targetDate, c.category, now)
  }

  /** A section's entries in the order they are shown: that category's entries, sorted by their next date. */
  function SectionItems(countdowns: seq<Countdown>, cat: Category, now: int): (r: seq<Countdown>)
    ensures SortedBy(r, SectionKey(now))
    ensures multiset(r) == multiset(Filter(countdowns, (c: Countdown) => c.category == cat))
    ensures forall c :: c in r <==> c in countdowns && c.category == cat
  {
    var items := Filter(countdowns, (c: Countdown) => c.category == cat);
    var r := SortBy(items, SectionKey(now));
    assert forall c :: c in r <==> c in multiset(r);
    assert forall c :: c in items <==> c in multiset(items);
    r
  }

  /** A section is drawn only when it has entries. */
  predicate ShowsSection(countdowns: seq<Countdown>, cat: Category) {
    exists c :: c in countdowns && c.category == cat
  }

  // ---------------------------------------------------------------------------
  // Controls

  /** The add button and the delete button's role gate. */
  predicate ShowsAdd(current: Option<Role>) {
    IsManager(current)
  }

  /** The delete button on a card: a stored entry, and a manager looking at it. */
  predicate CanDelete(current: Option<Role>, c: Countdown) {
    !c.isBirthday && IsManager(current)
  }

  /** Derived entries can never be deleted; a stored one can be by exactly the managers. */
  lemma DeleteOnlyStored(current: Option<Role>, members: seq<Member>, now: int, row: CountdownRow, c: Countdown)
    ensures c in BirthdayCountdowns(members, now) ==> !CanDelete(current, c)
    ensures c in AnniversaryList(members, now) ==> !CanDelete(current, c)
    ensures CanDelete(current, StoredCountdown(row)) <==> current == Some(Admin) || current == Some(AdminLite)
  {
  }

  // ---------------------------------------------------------------------------
  // The add form

  const Party: string := "\U{1F389}"

  /** The add form's fields; the date is absent until one is picked. */
  datatype AddForm = AddForm(
    title: string,
    name1: string,
    name2: string,
    targetDate: Option<int>,
    emoji: string,
    category: Category,
    includeTime: bool,
    open: bool)

  /** The form as the screen starts it and as a successful add leaves it. */
  const ClosedForm: AddForm := AddForm("", "", "", None, Party, Other, false, false)

  /** Choosing a category; Birthday, Anniversary and Holiday also pick their emoji. */
  function SelectCategory(form: AddForm, cat: Category): (f: AddForm)
    ensures f.category == cat
    ensures f == form.(category := cat, emoji := f.emoji)
    ensures cat == Birthday ==> f.emoji == Cake
    ensures cat == Anniversary ==> f.emoji == Ring
    ensures cat == Holiday ==> f.emoji == Party
    ensures cat == Event || cat == Other ==> f.emoji == form.emoji
  {
    form.(category := cat,
          emoji := if cat == Birthday then Cake else if cat == Anniversary then Ring else if cat == Holiday then Party else form.emoji)
  }

  /** The title written by an add: "name1 ❤️ name2" for an Anniversary with both names, the typed title otherwise. */
  function FinalTitle(form: AddForm): (t: string)
    ensures form.category == Anniversary && form.name1 != "" && form.name2 != ""
            ==> |t| == |form.name1| + |Heart| + |form.name2|
                && t[..|form.name1|] == form.name1
                && t[|form.name1|..|form.name1| + |Heart|] == Heart
                && t[|form.name1| + |Heart|..] == form.name2
    ensures !(form.category == Anniversary && form.name1 != "" && form.name2 != "") ==> t == form.title
  {
    if form.category == Anniversary && form.name1 != "" && form.name2 != "" then
      var t := form.name1 + Heart + form.name2;
      assert t[..|form.name1|] == form.name1;
      assert t[|form.name1|..|form.name1| + |Heart|] == Heart;
      assert t[|form.name1| + |Heart|..] == form.name2;
      t
    else form.title
  }

  /**
   * Two anniversary adds with both names write the same title only with the
   * same two names, provided the first names hold no heart character.
   */
  lemma FinalTitleNames(f: AddForm, g: AddForm)
    requires f.category == Anniversary && f.name1 != "" && f.name2 != ""
    requires g.category == Anniversary && g.name1 != "" && g.name2 != ""
    requires HeartChar !in f.name1 && HeartChar !in g.name1
    requires FinalTitle(f) == FinalTitle(g)
    ensures f.name1 == g.name1 && f.name2 == g.name2
  {
    HeartJoinSplits(f.name1, f.name2, g.name1, g.name2);
  }

  /** A `countdowns` row to insert; the table assigns its id. */
  datatype NewCountdown = NewCountdown(familyId: nat, title: string, targetDate: int, emoji: string, category: Category, createdBy: nat)

  /** What `handleAdd` leaves behind: the row written, if any, and the form. */
  datatype AddEffect = AddEffect(written: Option<NewCountdown>, form: AddForm)

  /**
   * `handleAdd` (submitted only with a date, which the date input requires):
   * Birthday and Anniversary dates are moved to their next occurrence, the row
   * is inserted with the current family and user, and a successful insert
   * closes and resets the form while a failed one leaves it as it was.
   */
  function HandleAdd(form: AddForm, familyId: nat, userId: nat, now: int, insertFails: bool): (r: AddEffect)
    requires form.targetDate.Some?
    ensures r.written.Some? <==> !insertFails
    ensures r.written.Some? ==> var w := r.written.value;
              w.familyId == familyId && w.createdBy == userId && w.title == FinalTitle(form)
              && w.category == form.category && w.emoji == form.emoji
              && w.targetDate == RolledTarget(form.targetDate.value, form.category, now)
    ensures r.form == if insertFails then form else ClosedForm
  {
    var date := RolledTarget(form.targetDate.value, form.category, now);
    if insertFails then AddEffect(None, form)
    else AddEffect(Some(NewCountdown(familyId, FinalTitle(form), date, form.emoji, form.category, userId)), ClosedForm)
  }

  /** A Birthday or Anniversary is never written with a date before now. */
  lemma AddedYearlyNotPast(form: AddForm, familyId: nat, userId: nat, now: int)
    requires form.targetDate.Some? && (form.category == Birthday || form.category == Anniversary)
    ensures now <= HandleAdd(form, familyId, userId, now, false).written.value.targetDate
  {
  }
}
