/**
 * The family dashboard: the family tree (roots, children and the walk that
 * draws each generation), the flat row of members and couples, and the list of
 * upcoming birthdays, anniversaries and stored countdowns.
 */
module FamilyDashboard {
  import opened Wrappers
  import opened Seqs
  import opened Sorting
  import opened Calendar
  import opened FamilyModel

  // ---------------------------------------------------------------------------
  // Roots and children

  /** `m.father_id || m.mother_id`. */
  predicate HasParent(m: Member) {
    m.fatherId.Some? || m.motherId.Some?
  }

  /** Someone with a parent names `m` as their spouse: `m` married into the tree. */
  predicate SpouseOfChild(members: seq<Member>, m: Member) {
    exists o :: o in members && o.user.spouseId == Some(m.userId) && HasParent(o)
  }

  function IsRootIn(members: seq<Member>): Member -> bool {
    (m: Member) => !HasParent(m) && !SpouseOfChild(members, m)
  }

  /** The tree's roots: members with no parent who are not the spouse of someone with a parent. */
  function Roots(members: seq<Member>): (r: seq<Member>)
    ensures forall m :: m in r <==> m in members && !HasParent(m) && !SpouseOfChild(members, m)
  {
    Filter(members, IsRootIn(members))
  }

  /** `c`'s father or mother is `p` or `p`'s spouse. */
  predicate ChildOf(c: Member, p: Member, spouse: Option<Member>) {
    c.fatherId == Some(p.userId) || c.motherId == Some(p.userId)
    || (spouse.Some? && (c.fatherId == Some(spouse.value.userId) || c.motherId == Some(spouse.value.userId)))
  }

  function IsChildIn(p: Member, spouse: Option<Member>): Member -> bool {
    (c: Member) => ChildOf(c, p, spouse)
  }

  /** The members listed under a node, in family order. */
  function Children(members: seq<Member>, p: Member, spouse: Option<Member>): (r: seq<Member>)
    ensures forall c :: c in r <==> c in members && ChildOf(c, p, spouse)
  {
    Filter(members, IsChildIn(p, spouse))
  }

  // ---------------------------------------------------------------------------
  // The tree walk

  /** One drawn node: a member, the spouse drawn beside them, and the generation below. */
  datatype Node = Node(member: Member, spouse: Option<Member>, children: seq<Node>)

  function SpouseIds(s: Option<Member>): seq<nat> {
    if s.Some? then [s.value.userId] else []
  }

  /** Every user id drawn in a forest, members and spouses, in drawing order. */
  ghost function Drawn(nodes: seq<Node>): seq<nat>
    decreases nodes
  {
    if nodes == [] then []
    else
      var n := nodes[0];
      [n.member.userId] + SpouseIds(n.spouse) + Drawn(n.children) + Drawn(nodes[1..])
  }

  /** The user ids of the members that head a node (spouses left out), in drawing order. */
  ghost function Heads(nodes: seq<Node>): seq<nat>
    decreases nodes
  {
    if nodes == [] then []
    else [nodes[0].member.userId] + Heads(nodes[0].children) + Heads(nodes[1..])
  }

  ghost function Elems(s: seq<nat>): set<nat> {
    set x | x in s
  }

  /** No id occurs twice in `s`, and none was drawn before. */
  ghost predicate FreshIds(s: seq<nat>, before: set<nat>) {
    (forall i, j :: 0 <= i < j < |s| ==> s[i] != s[j])
    && (forall i :: 0 <= i < |s| ==> s[i] !in before)
  }

  /** A node drawn as `renderGeneration` draws it: the member's own spouse, and children of the couple below. */
  ghost predicate Shaped(members: seq<Member>, n: Node)
    decreases n
  {
    n.member in members && n.spouse == FindSpouse(members, n.member)
    && forall c :: c in n.children ==> c.member in Children(members, n.member, n.spouse) && Shaped(members, c)
  }

  /** Every rendered member's spouse is rendered too. */
  ghost predicate SpouseClosed(members: seq<Member>, rendered: set<nat>) {
    forall m :: m in members && m.userId in rendered && FindSpouse(members, m).Some?
      ==> FindSpouse(members, m).value.userId in rendered
  }

  /**
   * The state of one `renderFamilyTree` call: the family and the shared
   * `rendered` set of user ids that `renderGeneration` consults and extends.
   */
  class TreeRenderer {
    const members: seq<Member>
    var rendered: set<nat>

    constructor(members: seq<Member>)
      ensures this.members == members && rendered == {}
    {
      this.members := members;
      rendered := {};
    }

    ghost function AllIds(): set<nat> {
      set m | m in members :: m.userId
    }

    /**
     * `renderGeneration(gen)`: the `map` callback over every member of the
     * generation, in order, keeping the nodes it draws.
     */
    method RenderGeneration(gen: seq<Member>) returns (nodes: seq<Node>)
      requires forall m :: m in gen ==> m in members
      modifies this
      decreases AllIds() - rendered, 1
      ensures rendered == old(rendered) + Elems(Drawn(nodes))
      ensures FreshIds(Heads(nodes), old(rendered))
      ensures forall n :: n in nodes ==> n.member in gen && Shaped(members, n)
      ensures Couples(members) && SpouseClosed(members, old(rendered))
              ==> FreshIds(Drawn(nodes), old(rendered)) && SpouseClosed(members, rendered)
    {
      nodes := [];
      for i := 0 to |gen|
        invariant rendered == old(rendered) + Elems(Drawn(nodes))
        invariant FreshIds(Heads(nodes), old(rendered))
        invariant forall n :: n in nodes ==> n.member in gen && Shaped(members, n)
        invariant Couples(members) && SpouseClosed(members, old(rendered))
                  ==> FreshIds(Drawn(nodes), old(rendered)) && SpouseClosed(members, rendered)
      {
        ghost var r0 := rendered;
        assert AllIds() - rendered <= AllIds() - old(rendered);
        var node := RenderMember(gen[i]);
        if node.Some? {
          var n := node.value;
          ghost var r1 := r0 + {n.member.userId} + Elems(SpouseIds(n.spouse));
          StepElems(nodes, n, old(rendered), r0, rendered);
          StepHeads(nodes, n, old(rendered), r0, r1);
          if Couples(members) && SpouseClosed(members, old(rendered)) {
            StepDrawn(members, nodes, n, old(rendered), r0);
          }
          nodes := nodes + [n];
        }
      }
    }

    /**
     * The callback for one member. A member already rendered gives `null`;
     * otherwise the member and their spouse are marked rendered and drawn in one
     * node, and the generation below is drawn when it is not empty. Marking
     * comes before descending, so every descent finds fewer unmarked members and
     * the walk ends even when parent links form a cycle.
     */
    method RenderMember(member: Member) returns (node: Option<Node>)
      requires member in members
      modifies this
      decreases AllIds() - rendered, 0
      ensures node.None? <==> member.userId in old(rendered)
      ensures node.None? ==> rendered == old(rendered)
      ensures node.Some? ==>
                var n := node.value;
                var r1 := old(rendered) + {member.userId} + Elems(SpouseIds(n.spouse));
                n.member == member && Shaped(members, n)
                && rendered == r1 + Elems(Drawn(n.children))
                && FreshIds(Heads(n.children), r1)
                && (Couples(members) && SpouseClosed(members, old(rendered))
                    ==> FreshIds(Drawn(n.children), r1) && SpouseClosed(members, rendered))
    {
      if member.userId in rendered {
        return None;
      }
      ghost var r0 := rendered;
      rendered := rendered + {member.userId};
      var spouse := FindSpouse(members, member);
      if spouse.Some? {
        rendered := rendered + {spouse.value.userId};
      }
      assert rendered == r0 + {member.userId} + Elems(SpouseIds(spouse));
      CloseStep(members, member, r0);
      var children := Children(members, member, spouse);
      var sub: seq<Node> := [];
      if |children| > 0 {
        sub := RenderGeneration(children);
      }
      node := Some(Node(member, spouse, sub));
    }
  }

  /** `renderFamilyTree()`: a fresh `rendered` set, and the walk from the roots. */
  method RenderFamilyTree(members: seq<Member>) returns (nodes: seq<Node>)
    ensures FreshIds(Heads(nodes), {})
    ensures forall n :: n in nodes ==> n.member in Roots(members) && Shaped(members, n)
    ensures Couples(members) ==> FreshIds(Drawn(nodes), {})
  {
    var r := new TreeRenderer(members);
    nodes := r.RenderGeneration(Roots(members));
  }

  lemma {:induction false} DrawnAppend(nodes: seq<Node>, n: Node)
    ensures Drawn(nodes + [n]) == Drawn(nodes) + ([n.member.userId] + SpouseIds(n.spouse) + Drawn(n.children))
    ensures Heads(nodes + [n]) == Heads(nodes) + ([n.member.userId] + Heads(n.children))
    decreases |nodes|
  {
    if nodes == [] {
      assert [n][1..] == [];
    } else {
      assert (nodes + [n])[1..] == nodes[1..] + [n];
      DrawnAppend(nodes[1..], n);
    }
  }

  lemma {:induction false} HeadsAreDrawn(nodes: seq<Node>)
    ensures Elems(Heads(nodes)) <= Elems(Drawn(nodes))
    decreases nodes
  {
    if nodes != [] {
      var n := nodes[0];
      HeadsAreDrawn(n.children);
      HeadsAreDrawn(nodes[1..]);
      var h := [n.member.userId] + Heads(n.children) + Heads(nodes[1..]);
      var d := [n.member.userId] + SpouseIds(n.spouse) + Drawn(n.children) + Drawn(nodes[1..]);
      forall x | x in h ensures x in d {
        if x in Heads(n.children) {
          assert x in Elems(Heads(n.children));
        } else if x in Heads(nodes[1..]) {
          assert x in Elems(Heads(nodes[1..]));
        }
      }
    }
  }

  /** Ids fresh with respect to a set are fresh with respect to any part of it. */
  lemma FreshSmaller(s: seq<nat>, a: set<nat>, b: set<nat>)
    requires FreshIds(s, b) && a <= b
    ensures FreshIds(s, a)
  {
  }

  /** Appending the ids of one node drawn after everything in `before + Elems(a)`. */
  lemma FreshStep(a: seq<nat>, x: nat, sp: seq<nat>, b: seq<nat>, before: set<nat>, r0: set<nat>)
    requires FreshIds(a, before) && Elems(a) <= r0 && before <= r0
    requires x !in r0 && (forall k :: 0 <= k < |sp| ==> sp[k] !in r0 && sp[k] != x)
    requires |sp| <= 1
    requires FreshIds(b, r0 + {x} + Elems(sp))
    ensures FreshIds(a + ([x] + sp + b), before)
  {
  }

  /** The spouse of a member not yet rendered is not rendered either, and is someone else. */
  lemma SpouseFresh(members: seq<Member>, m: Member, r: set<nat>)
    requires Couples(members) && SpouseClosed(members, r)
    requires m in members && m.userId !in r
    requires FindSpouse(members, m).Some?
    ensures FindSpouse(members, m).value.userId !in r
    ensures FindSpouse(members, m).value.userId != m.userId
  {
  }

  /** Marking a member together with their spouse keeps the rendered set closed under spouses. */
  lemma CloseStep(members: seq<Member>, m: Member, r: set<nat>)
    requires m in members
    ensures Couples(members) && SpouseClosed(members, r)
            ==> SpouseClosed(members, r + {m.userId} + Elems(SpouseIds(FindSpouse(members, m))))
  {
  }

  /** After one pass of the loop in `RenderGeneration`, the rendered set is what has been drawn. */
  lemma StepElems(nodes: seq<Node>, n: Node, before: set<nat>, r0: set<nat>, r2: set<nat>)
    requires r0 == before + Elems(Drawn(nodes))
    requires r2 == r0 + {n.member.userId} + Elems(SpouseIds(n.spouse)) + Elems(Drawn(n.children))
    ensures r2 == before + Elems(Drawn(nodes + [n]))
  {
    DrawnAppend(nodes, n);
    assert Elems(Drawn(nodes + [n]))
      == Elems(Drawn(nodes)) + {n.member.userId} + Elems(SpouseIds(n.spouse)) + Elems(Drawn(n.children));
  }

  /** After one pass, no member heads two nodes and none heads a node of an earlier call. */
  lemma StepHeads(nodes: seq<Node>, n: Node, before: set<nat>, r0: set<nat>, r1: set<nat>)
    requires r0 == before + Elems(Drawn(nodes))
    requires FreshIds(Heads(nodes), before)
    requires n.member.userId !in r0
    requires r0 + {n.member.userId} <= r1
    requires FreshIds(Heads(n.children), r1)
    ensures FreshIds(Heads(nodes + [n]), before)
  {
    var x, h, hc := n.member.userId, Heads(nodes), Heads(n.children);
    DrawnAppend(nodes, n);
    HeadsAreDrawn(nodes);
    FreshSmaller(hc, r0 + {x}, r1);
    FreshCons(h, x, hc, before, r0);
  }

  /** A fresh head followed by ids fresh after it extends a fresh list. */
  lemma FreshCons(a: seq<nat>, x: nat, b: seq<nat>, before: set<nat>, r0: set<nat>)
    requires FreshIds(a, before) && Elems(a) <= r0 && before <= r0
    requires x !in r0 && FreshIds(b, r0 + {x})
    ensures FreshIds(a + ([x] + b), before)
  {
  }

  /** With one row per user and mutual links, after one pass no one is drawn twice. */
  lemma StepDrawn(members: seq<Member>, nodes: seq<Node>, n: Node, before: set<nat>, r0: set<nat>)
    requires Couples(members) && SpouseClosed(members, r0)
    requires n.member in members && n.spouse == FindSpouse(members, n.member)
    requires r0 == before + Elems(Drawn(nodes))
    requires FreshIds(Drawn(nodes), before)
    requires n.member.userId !in r0
    requires FreshIds(Drawn(n.children), r0 + {n.member.userId} + Elems(SpouseIds(n.spouse)))
    ensures FreshIds(Drawn(nodes + [n]), before)
  {
    DrawnAppend(nodes, n);
    if n.spouse.Some? {
      SpouseFresh(members, n.member, r0);
    }
    FreshStep(Drawn(nodes), n.member.userId, SpouseIds(n.spouse), Drawn(n.children), before, r0);
  }

  // ---------------------------------------------------------------------------
  // The flat view

  /** One entry of the flat row: a member alone, or a member with their spouse beside them. */
  datatype Tile = Solo(member: Member) | Couple(member: Member, partner: Member)

  /**
   * The flat row's entry for `m`: a couple is shown under the partner with the
   * smaller user id, and nothing is shown under the other one.
   */
  function FlatTile(members: seq<Member>, m: Member): (t: Option<Tile>)
    ensures t.Some? ==> t.value.member == m
    ensures t.None? <==> FindSpouse(members, m).Some? && m.userId > FindSpouse(members, m).value.userId
    ensures t.Some? && FindSpouse(members, m).Some? ==> t.value == Couple(m, FindSpouse(members, m).value)
    ensures FindSpouse(members, m).None? ==> t == Some(Solo(m))
  {
    var s := FindSpouse(members, m);
    if s.Some? && m.userId > s.value.userId then None
    else if s.Some? then Some(Couple(m, s.value))
    else Some(Solo(m))
  }

  /** The entries for a list of members, with the skipped ones dropped. */
  function FlatTiles(members: seq<Member>, s: seq<Member>): (r: seq<Tile>)
    ensures forall t :: t in r <==> exists m :: m in s && FlatTile(members, m) == Some(t)
    decreases |s|
  {
    if s == [] then []
    else
      var rest := FlatTiles(members, s[1..]);
      assert forall m :: m in s <==> m == s[0] || m in s[1..];
      (if FlatTile(members, s[0]).Some? then [FlatTile(members, s[0]).value] else []) + rest
  }

  /** The flat row of the family (the age order it is shown in is not modelled). */
  function FlatView(members: seq<Member>): seq<Tile> {
    FlatTiles(members, members)
  }

  predicate InTile(u: nat, t: Tile) {
    t.member.userId == u || (t.Couple? && t.partner.userId == u)
  }

  /** A couple is shown once: under the partner with the smaller user id, and not under the other. */
  lemma CoupleUnderSmallerId(members: seq<Member>, a: Member)
    requires Couples(members)
    requires a in members && FindSpouse(members, a).Some?
    ensures var b := FindSpouse(members, a).value;
            a.userId != b.userId
            && (a.userId < b.userId ==> FlatTile(members, a) == Some(Couple(a, b)) && FlatTile(members, b).None?)
  {
  }

  /** With one row per user and mutual spouse links, every member is shown in exactly one entry of the flat row. */
  lemma FlatViewShowsEachOnce(members: seq<Member>, m: Member)
    requires Couples(members)
    requires m in members
    ensures exists t :: t in FlatView(members) && InTile(m.userId, t)
    ensures forall t1, t2 ::
              (t1 in FlatView(members) && t2 in FlatView(members) && InTile(m.userId, t1) && InTile(m.userId, t2))
              ==> t1 == t2
  {
    var u := m.userId;
    if FlatTile(members, m).Some? {
      var t := FlatTile(members, m).value;
      assert InTile(u, t) && t in FlatView(members);
    } else {
      var s := FindSpouse(members, m).value;
      SpouseOfSpouse(members, m);
      assert FlatTile(members, s) == Some(Couple(s, m));
      assert InTile(u, Couple(s, m)) && Couple(s, m) in FlatView(members);
    }
    forall t1, t2 | t1 in FlatView(members) && t2 in FlatView(members) && InTile(u, t1) && InTile(u, t2)
      ensures t1 == t2
    {
      var p :| p in members && FlatTile(members, p) == Some(t1);
      var q :| q in members && FlatTile(members, q) == Some(t2);
      if p != q {
        TilesOfDistinctMembers(members, p, q, u);
      }
    }
  }

  lemma TilesOfDistinctMembers(members: seq<Member>, p: Member, q: Member, u: nat)
    requires Couples(members)
    requires p in members && q in members && p != q
    requires FlatTile(members, p).Some? && FlatTile(members, q).Some?
    ensures !(InTile(u, FlatTile(members, p).value) && InTile(u, FlatTile(members, q).value))
  {
    SameUserIsSameMember(members, p, q);
    var sp := FindSpouse(members, p);
    var sq := FindSpouse(members, q);
    if sp.Some? {
      SameUserIsSameMember(members, sp.value, q);
      SpouseOfSpouse(members, p);
    }
    if sq.Some? {
      SameUserIsSameMember(members, sq.value, p);
      SpouseOfSpouse(members, q);
    }
  }

  /** `SameUserSameMember` for any two members, as an implication. */
  lemma SameUserIsSameMember(members: seq<Member>, a: Member, b: Member)
    requires DistinctUsers(members)
    requires a in members && b in members
    ensures a.userId == b.userId ==> a == b
  {
    if a.userId == b.userId {
      SameUserSameMember(members, a, b);
    }
  }

  // ---------------------------------------------------------------------------
  // Controls

  /** The "+" add-member button: `currentUserRole === 'admin' || currentUserRole === 'admin_lite'`. */
  predicate ShowsAddMember(current: Option<Role>) {
    current == Some(Admin) || current == Some(AdminLite)
  }

  /** The add-member button is shown to exactly the managers, and never to a kid or a non-member. */
  lemma AddMemberForManagers(current: Option<Role>)
    ensures ShowsAddMember(current) <==> IsManager(current)
    ensures !ShowsAddMember(Some(Kid)) && !ShowsAddMember(None)
  {
  }

  // ---------------------------------------------------------------------------
  // Upcoming events

  /** One line of the upcoming list; the name is undefined for a member with neither nickname nor full name. */
  datatype UpcomingEvent = UpcomingEvent(name: Option<string>, days: int, emoji: string)

  function EventDays(e: UpcomingEvent): int {
    e.days
  }

  /** `Math.floor((target - now) / (1000 * 60 * 60 * 24))`. */
  function DaysUntil(target: int, now: int): int {
    (target - now) / MsPerDay
  }

  /** Whole days from `now` to the next occurrence of `date`'s month and day. */
  function DaysToNext(date: int, now: int): (d: nat)
    ensures d <= 365
  {
    DaysUntil(NextOccurrence(date, now), now)
  }

  /** The anniversary line's name: "A ❤️ B" with the spouse, or the member's own name. */
  function AnniversaryName(members: seq<Member>, m: Member): Option<string> {
    var spouse := FindSpouse(members, m);
    if spouse.Some? then Some(ShowUndefined(DisplayName(m.user)) + Heart + ShowUndefined(DisplayName(spouse.value.user)))
    else DisplayName(m.user)
  }

  /**
   * What the `forEach` body works out for one member before pushing: the
   * display name and days to the next birthday, and the anniversary line's name
   * and days to the next anniversary (absent without the date).
   */
  datatype Dated = Dated(name: Option<string>, birthday: Option<nat>, coupleName: Option<string>, anniversary: Option<nat>)

  function DatedOf(members: seq<Member>, m: Member, now: int): Dated {
    Dated(DisplayName(m.user),
          if m.user.dateOfBirth.Some? then Some(DaysToNext(m.user.dateOfBirth.value, now)) else None,
          AnniversaryName(members, m),
          if m.user.anniversaryDate.Some? then Some(DaysToNext(m.user.anniversaryDate.value, now)) else None)
  }

  function DatedAll(members: seq<Member>, now: int): (ds: seq<Dated>)
    ensures |ds| == |members|
    ensures forall i :: 0 <= i < |members| ==> ds[i] == DatedOf(members, members[i], now)
  {
    seq(|members|, i requires 0 <= i < |members| => DatedOf(members, members[i], now))
  }

  predicate NameListed(events: seq<UpcomingEvent>, name: Option<string>) {
    exists e :: e in events && e.name == name
  }

  /** The birthday line, pushed when the birthday is at most 30 days away. */
  function BirthdayLine(d: Dated): seq<UpcomingEvent> {
    if d.birthday.Some? && d.birthday.value <= 30 then [UpcomingEvent(d.name, d.birthday.value, Cake)] else []
  }

  /** The anniversary line, pushed when it is at most 30 days away and no line so far has its name. */
  function AnniversaryLine(d: Dated, sofar: seq<UpcomingEvent>): seq<UpcomingEvent> {
    if d.anniversary.Some? && d.anniversary.value <= 30 && !NameListed(sofar, d.coupleName)
    then [UpcomingEvent(d.coupleName, d.anniversary.value, Ring)]
    else []
  }

  /** What the `forEach` body pushes for one member onto the lines pushed before it. */
  function Pushed(d: Dated, prev: seq<UpcomingEvent>): seq<UpcomingEvent> {
    var withBirthday := prev + BirthdayLine(d);
    withBirthday + AnniversaryLine(d, withBirthday)
  }

  /** The lines the `forEach` pushes over the members described by `ds`, in order. */
  function MemberEvents(ds: seq<Dated>): seq<UpcomingEvent> {
    if ds == [] then [] else Pushed(ds[|ds| - 1], MemberEvents(ds[..|ds| - 1]))
  }

  /** One member's pass only appends to what was pushed before. */
  lemma PushedPrefix(d: Dated, prev: seq<UpcomingEvent>)
    ensures |prev| <= |Pushed(d, prev)| <= |prev| + 2
    ensures Pushed(d, prev)[..|prev|] == prev
  {
    var b := prev + BirthdayLine(d);
    assert (b + AnniversaryLine(d, b))[..|prev|] == prev;
  }

  /** Every line is a birthday or an anniversary between today and 30 days ahead. */
  predicate WithinMonth(ev: seq<UpcomingEvent>) {
    forall e :: e in ev ==> 0 <= e.days <= 30 && (e.emoji == Cake || e.emoji == Ring)
  }

  /** No anniversary line repeats the name of a line before it. */
  predicate RingNamesFresh(ev: seq<UpcomingEvent>) {
    forall i, j :: 0 <= i < j < |ev| && ev[j].emoji == Ring ==> ev[i].name != ev[j].name
  }

  /** One member's pass appends only lines within the month. */
  lemma PushedWithin(d: Dated, prev: seq<UpcomingEvent>)
    requires WithinMonth(prev)
    ensures WithinMonth(Pushed(d, prev))
  {
  }

  /** One member's anniversary line has a name that no earlier line has. */
  lemma PushedNames(d: Dated, prev: seq<UpcomingEvent>)
    requires RingNamesFresh(prev)
    ensures RingNamesFresh(Pushed(d, prev))
  {
    var b := prev + BirthdayLine(d);
    var r := b + AnniversaryLine(d, b);
    assert Cake != Ring;
    forall i, j | 0 <= i < j < |r| && r[j].emoji == Ring ensures r[i].name != r[j].name {
      if j >= |b| {
        assert r[i] == b[i] && b[i] in b;
      } else if j < |prev| {
        assert r[i] == prev[i] && r[j] == prev[j];
      }
    }
  }

  /** Member lines are birthdays or anniversaries between today and 30 days ahead. */
  lemma {:induction false} MemberEventsWithin(ds: seq<Dated>)
    ensures WithinMonth(MemberEvents(ds))
  {
    if ds != [] {
      MemberEventsWithin(ds[..|ds| - 1]);
      PushedWithin(ds[|ds| - 1], MemberEvents(ds[..|ds| - 1]));
    }
  }

  /** An anniversary line's name differs from every line before it, so no anniversary name is repeated. */
  lemma {:induction false} AnniversaryNamesNotRepeated(ds: seq<Dated>)
    ensures RingNamesFresh(MemberEvents(ds))
  {
    if ds != [] {
      AnniversaryNamesNotRepeated(ds[..|ds| - 1]);
      PushedNames(ds[|ds| - 1], MemberEvents(ds[..|ds| - 1]));
    }
  }

  /** Later members only append to the lines of earlier ones. */
  lemma {:induction false} MemberEventsGrow(ds: seq<Dated>, k: nat)
    requires k <= |ds|
    ensures MemberEvents(ds[..k]) <= MemberEvents(ds)
    decreases |ds| - k
  {
    if k < |ds| {
      var init := ds[..|ds| - 1];
      assert init[..k] == ds[..k];
      MemberEventsGrow(init, k);
      PushedPrefix(ds[|ds| - 1], MemberEvents(init));
    } else {
      assert ds[..k] == ds;
    }
  }

  /** Every member whose next birthday is at most 30 days away has a birthday line. */
  lemma BirthdaysListed(ds: seq<Dated>, i: nat)
    requires i < |ds|
    requires ds[i].birthday.Some? && ds[i].birthday.value <= 30
    ensures UpcomingEvent(ds[i].name, ds[i].birthday.value, Cake) in MemberEvents(ds)
  {
    var upto := ds[..i + 1];
    assert upto[..i] == ds[..i] && upto[i] == ds[i];
    var prev := MemberEvents(ds[..i]);
    assert MemberEvents(upto) == Pushed(ds[i], prev);
    var e := UpcomingEvent(ds[i].name, ds[i].birthday.value, Cake);
    assert e == MemberEvents(upto)[|prev|];
    MemberEventsGrow(ds, i + 1);
    assert e == MemberEvents(ds)[|prev|];
  }

  /**
   * Every member whose next anniversary is at most 30 days away has its name
   * listed: by its own anniversary line, or, when a line before it already
   * carries that name, by that earlier line.
   */
  lemma AnniversariesListed(ds: seq<Dated>, i: nat)
    requires i < |ds|
    requires ds[i].anniversary.Some? && ds[i].anniversary.value <= 30
    ensures NameListed(MemberEvents(ds), ds[i].coupleName)
    ensures !NameListed(MemberEvents(ds[..i]) + BirthdayLine(ds[i]), ds[i].coupleName)
            ==> UpcomingEvent(ds[i].coupleName, ds[i].anniversary.value, Ring) in MemberEvents(ds)
  {
    var upto := ds[..i + 1];
    assert upto[..i] == ds[..i] && upto[i] == ds[i];
    var prev := MemberEvents(ds[..i]);
    assert MemberEvents(upto) == Pushed(ds[i], prev);
    var b := prev + BirthdayLine(ds[i]);
    MemberEventsGrow(ds, i + 1);
    PrefixListed(b, MemberEvents(upto), ds[i].coupleName);
    PrefixListed(MemberEvents(upto), MemberEvents(ds), ds[i].coupleName);
    if !NameListed(b, ds[i].coupleName) {
      var e := UpcomingEvent(ds[i].coupleName, ds[i].anniversary.value, Ring);
      assert e == MemberEvents(upto)[|b|];
      assert e == MemberEvents(ds)[|b|];
      assert e in MemberEvents(ds);
    }
  }

  /** A name listed in a prefix is listed in the whole. */
  lemma PrefixListed(a: seq<UpcomingEvent>, b: seq<UpcomingEvent>, name: Option<string>)
    requires a <= b
    ensures NameListed(a, name) ==> NameListed(b, name)
  {
    if NameListed(a, name) {
      var e :| e in a && e.name == name;
      var k :| 0 <= k < |a| && a[k] == e;
      assert b[k] == e;
    }
  }


  /** The query for stored countdowns: this family's rows in the Birthday and Anniversary categories. */
  function InEventQuery(familyId: nat): CountdownRow -> bool {
    (c: CountdownRow) => c.familyId == familyId && (c.category == Birthday || c.category == Anniversary)
  }

  /** The stored countdowns due within the next ten days, in query order. */
  function StoredEvents(rows: seq<CountdownRow>, now: int): seq<UpcomingEvent> {
    if rows == [] then []
    else
      var c := rows[|rows| - 1];
      var days := DaysUntil(c.targetDate, now);
      StoredEvents(rows[..|rows| - 1], now) + (if 0 <= days < 10 then [UpcomingEvent(Some(c.title), days, c.emoji)] else [])
  }

  /** Stored lines are exactly the rows due between today and nine days ahead. */
  lemma {:induction false} StoredEventsDue(rows: seq<CountdownRow>, now: int)
    ensures forall e :: e in StoredEvents(rows, now) ==> 0 <= e.days < 10
    ensures forall c :: c in rows && 0 <= DaysUntil(c.targetDate, now) < 10
              ==> UpcomingEvent(Some(c.title), DaysUntil(c.targetDate, now), c.emoji) in StoredEvents(rows, now)
  {
    if rows != [] {
      var init := rows[..|rows| - 1];
      StoredEventsDue(init, now);
      assert forall c :: c in rows ==> c in init || c == rows[|rows| - 1];
    }
  }

  /** The whole list before sorting: the member pass, then the stored countdowns the query returns (none when it fails). */
  function Gathered(members: seq<Member>, table: seq<CountdownRow>, familyId: nat, queryFails: bool, now: int): seq<UpcomingEvent> {
    MemberEvents(DatedAll(members, now)) + StoredEvents(if queryFails then [] else Filter(table, InEventQuery(familyId)), now)
  }

  /** Member lines and stored lines together are between today and 30 days ahead. */
  lemma GatheredWithin(ds: seq<Dated>, rows: seq<CountdownRow>, now: int)
    ensures forall e :: e in MemberEvents(ds) + StoredEvents(rows, now) ==> 0 <= e.days <= 30
  {
    MemberEventsWithin(ds);
    StoredEventsDue(rows, now);
  }

  /** The `forEach` callback of the member pass: a birthday line, then an anniversary line. */
  method PushMemberEvents(members: seq<Member>, m: Member, now: int, pushed: seq<UpcomingEvent>)
    returns (r: seq<UpcomingEvent>)
    ensures r == Pushed(DatedOf(members, m, now), pushed)
  {
    ghost var d := DatedOf(members, m, now);
    r := pushed;
    if m.user.dateOfBirth.Some? {
      var days := DaysToNext(m.user.dateOfBirth.value, now);
      if days <= 30 {
        r := r + [UpcomingEvent(DisplayName(m.user), days, Cake)];
      }
    }
    assert r == pushed + BirthdayLine(d);
    if m.user.anniversaryDate.Some? {
      var days := DaysToNext(m.user.anniversaryDate.value, now);
      var name := AnniversaryName(members, m);
      if days <= 30 && !NameListed(r, name) {
        r := r + [UpcomingEvent(name, days, Ring)];
      }
    }
  }

  /** `familyMembers.forEach(...)`: the callback over every member, in order. */
  method MemberPass(members: seq<Member>, now: int) returns (pushed: seq<UpcomingEvent>)
    ensures pushed == MemberEvents(DatedAll(members, now))
  {
    ghost var ds := DatedAll(members, now);
    pushed := [];
    for i := 0 to |members|
      invariant pushed == MemberEvents(ds[..i])
    {
      assert ds[i] == DatedOf(members, members[i], now);
      pushed := PushMemberEvents(members, members[i], now, pushed);
      assert ds[..i + 1][..i] == ds[..i];
    }
    assert ds[..|members|] == ds;
  }

  /** `data.forEach(...)`: the callback over every stored countdown the query returned, in order. */
  method StoredPass(data: seq<CountdownRow>, now: int) returns (pushed: seq<UpcomingEvent>)
    ensures pushed == StoredEvents(data, now)
  {
    pushed := [];
    for i := 0 to |data|
      invariant pushed == StoredEvents(data[..i], now)
    {
      var c := data[i];
      var days := DaysUntil(c.targetDate, now);
      assert data[..i + 1][..i] == data[..i];
      if 0 <= days < 10 {
        pushed := pushed + [UpcomingEvent(Some(c.title), days, c.emoji)];
      }
    }
    assert data[..|data|] == data;
  }

  /**
   * `fetchAllEvents`: the member pass pushing birthdays and anniversaries, the
   * pass over the stored countdowns the query returns, then the sort by days.
   */
  method UpcomingEvents(members: seq<Member>, table: seq<CountdownRow>, familyId: nat, queryFails: bool, now: int)
    returns (events: seq<UpcomingEvent>)
    ensures events == SortBy(Gathered(members, table, familyId, queryFails, now), EventDays)
    ensures SortedBy(events, EventDays)
    ensures forall e :: e in events ==> 0 <= e.days <= 30
    ensures forall i :: (0 <= i < |members| && members[i].user.dateOfBirth.Some?
                         && DaysToNext(members[i].user.dateOfBirth.value, now) <= 30) ==>
              UpcomingEvent(DisplayName(members[i].user), DaysToNext(members[i].user.dateOfBirth.value, now), Cake) in events
    ensures forall i :: (0 <= i < |members| && members[i].user.anniversaryDate.Some?
                         && DaysToNext(members[i].user.anniversaryDate.value, now) <= 30) ==>
              NameListed(events, AnniversaryName(members, members[i]))
  {
    var pushed := MemberPass(members, now);
    ghost var ds := DatedAll(members, now);
    ghost var mine := pushed;
    var data := if queryFails then [] else Filter(table, InEventQuery(familyId));
    var stored := StoredPass(data, now);
    pushed := pushed + stored;
    events := SortBy(pushed, EventDays);
    GatheredWithin(ds, data, now);
    forall e | e in events ensures 0 <= e.days <= 30 {
      SortByMembers(pushed, EventDays, e);
    }
    forall i | 0 <= i < |members| && members[i].user.dateOfBirth.Some?
                 && DaysToNext(members[i].user.dateOfBirth.value, now) <= 30
      ensures UpcomingEvent(DisplayName(members[i].user), DaysToNext(members[i].user.dateOfBirth.value, now), Cake) in events
    {
      BirthdaysListed(ds, i);
      SortByMembers(pushed, EventDays, UpcomingEvent(ds[i].name, ds[i].birthday.value, Cake));
    }
    forall i | 0 <= i < |members| && members[i].user.anniversaryDate.Some?
                 && DaysToNext(members[i].user.anniversaryDate.value, now) <= 30
      ensures NameListed(events, AnniversaryName(members, members[i]))
    {
      AnniversariesListed(ds, i);
      var e :| e in mine && e.name == ds[i].coupleName;
      SortByMembers(pushed, EventDays, e);
    }
  }
}
