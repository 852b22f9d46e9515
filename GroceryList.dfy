/**
 * The pure rules of the grocery list: quantity stepping per unit, title-casing
 * of item and category names, the price trend shown beside each history record,
 * the default quantity of a new list entry, the "all items" panel and the
 * history total.
 */
module GroceryList {
  import opened Wrappers
  import opened Text

  /** The quantity types an item can have. */
  datatype Unit = Kgs | Liters | Dozens | Pieces | Packets

  /** The amount one press of + or - changes a quantity by. */
  function Step(u: Unit): (s: real)
    ensures s > 0.0
    ensures u == Kgs ==> s == 0.25
    ensures (u == Liters || u == Dozens) ==> s == 0.5
    ensures (u == Pieces || u == Packets) ==> s == 1.0
  {
    match u
    case Kgs => 0.25
    case Liters => 0.5
    case Dozens => 0.5
    case _ => 1.0
  }

  /** `Math.max(step, currentQty + change * step)`. */
  function NewQuantity(current: real, u: Unit, change: int): (q: real)
    ensures q >= Step(u)
    ensures q == current + change as real * Step(u) || q == Step(u)
    ensures current + change as real * Step(u) >= Step(u) ==> q == current + change as real * Step(u)
  {
    var moved := current + change as real * Step(u);
    if moved >= Step(u) then moved else Step(u)
  }

  /** `k` steps of unit `u`. */
  function Steps(k: nat, u: Unit): real {
    k as real * Step(u)
  }

  /** A quantity that is a whole, positive number of steps. */
  ghost predicate OnGrid(q: real, u: Unit) {
    exists k: nat :: k >= 1 && q == Steps(k, u)
  }

  /** Stepping a quantity that is on the grid keeps it on the grid. */
  lemma StepKeepsGrid(current: real, u: Unit, change: int)
    requires OnGrid(current, u)
    ensures OnGrid(NewQuantity(current, u, change), u)
  {
    var k: nat :| k >= 1 && current == Steps(k, u);
    var moved := current + change as real * Step(u);
    assert moved == (k + change) as real * Step(u);
    if moved >= Step(u) {
      assert (k + change) >= 1;
      var k2: nat := k + change;
      assert NewQuantity(current, u, change) == Steps(k2, u);
    } else {
      assert NewQuantity(current, u, change) == Steps(1, u);
    }
  }

  /** Pressing + and - a number of times, in order. */
  function ApplyChanges(q: real, u: Unit, changes: seq<int>): real
    decreases |changes|
  {
    if changes == [] then q else ApplyChanges(NewQuantity(q, u, changes[0]), u, changes[1..])
  }

  /** However the buttons are pressed, the quantity stays at least one step and on the grid. */
  lemma {:induction false} ApplyChangesStaysOnGrid(q: real, u: Unit, changes: seq<int>)
    requires OnGrid(q, u)
    ensures OnGrid(ApplyChanges(q, u, changes), u)
    ensures ApplyChanges(q, u, changes) >= Step(u)
    decreases |changes|
  {
    if changes == [] {
      var k: nat :| k >= 1 && q == Steps(k, u);
      assert q >= Step(u);
    } else {
      StepKeepsGrid(q, u, changes[0]);
      ApplyChangesStaysOnGrid(NewQuantity(q, u, changes[0]), u, changes[1..]);
    }
  }

  // ---------------------------------------------------------------------------
  // toTitleCase: lower-case the string, split it at ' ', capitalise each piece's
  // first character and join the pieces with ' ' again.

  /** `split(' ')`: the pieces between spaces; an empty string gives one empty piece. */
  function Split(s: string): (ws: seq<string>)
    ensures |ws| >= 1
    decreases |s|
  {
    var i := FirstSpace(s);
    if i == |s| then [s] else [s[..i]] + Split(s[i + 1..])
  }

  /** No piece of a split contains a space. */
  lemma {:induction false} SplitPiecesHaveNoSpace(s: string)
    ensures forall w :: w in Split(s) ==> ' ' !in w
    decreases |s|
  {
    var i := FirstSpace(s);
    if i < |s| {
      SplitFirst(s);
      SplitPiecesHaveNoSpace(s[i + 1..]);
      assert ' ' !in s[..i];
    } else {
      SplitWhole(s);
      assert ' ' !in s;
    }
  }

  /** `Split` of a string without a space. */
  lemma {:induction false} SplitWhole(t: string)
    requires FirstSpace(t) == |t|
    ensures Split(t) == [t]
  {
  }

  /** One step of `Split` at the first space. */
  lemma {:induction false} SplitFirst(t: string)
    requires FirstSpace(t) < |t|
    ensures Split(t) == [t[..FirstSpace(t)]] + Split(t[FirstSpace(t) + 1..])
  {
  }

  /** `join(' ')`. */
  function Join(ws: seq<string>): string
    decreases |ws|
  {
    if ws == [] then [] else if |ws| == 1 then ws[0] else ws[0] + " " + Join(ws[1..])
  }

  lemma JoinCons(a: string, bs: seq<string>)
    requires |bs| >= 1
    ensures Join([a] + bs) == a + " " + Join(bs)
  {
    assert ([a] + bs)[1..] == bs;
  }

  /** A string is the part before a space, the space, and the part after it. */
  lemma SplitAt(t: string, i: nat)
    requires i < |t| && t[i] == ' '
    ensures t == t[..i] + " " + t[i + 1..]
  {
  }

  /** Splitting at spaces and joining with spaces gives back the string. */
  lemma {:induction false} JoinSplit(s: string)
    ensures Join(Split(s)) == s
    decreases |s|
  {
    var i := FirstSpace(s);
    if i < |s| {
      JoinSplit(s[i + 1..]);
      SplitAt(s, i);
      JoinCons(s[..i], Split(s[i + 1..]));
    }
  }

  /** `word.charAt(0).toUpperCase() + word.slice(1)`. */
  function Capitalize(w: string): (r: string)
    ensures |r| == |w|
    ensures w != [] ==> r[0] == UpperChar(w[0]) && r[1..] == w[1..]
  {
    if w == [] then [] else [UpperChar(w[0])] + w[1..]
  }

  function CapitalizeAll(ws: seq<string>): (rs: seq<string>)
    ensures |rs| == |ws|
    ensures forall k :: 0 <= k < |ws| ==> rs[k] == Capitalize(ws[k])
  {
    seq(|ws|, k requires 0 <= k < |ws| => Capitalize(ws[k]))
  }

  /**
   * `str.toLowerCase().split(' ').map(capitalise).join(' ')`.  It keeps the
   * length and maps each character by `TitleChar`: word-initial characters
   * upper-cased, the rest lower-cased.
   */
  function ToTitleCase(s: string): (r: string)
    ensures |r| == |s|
    ensures forall i :: 0 <= i < |s| ==> r[i] == TitleChar(s, i)
  {
    JoinCapitalizeSplit(Lower(s));
    LowerKeepsSpaces(s);
    Join(CapitalizeAll(Split(Lower(s))))
  }

  lemma LowerKeepsSpaces(s: string)
    ensures forall i :: 0 <= i < |s| ==> (Lower(s)[i] == ' ') == (s[i] == ' ')
  {
    forall i | 0 <= i < |s| ensures (Lower(s)[i] == ' ') == (s[i] == ' ') {
      CaseKeepsSpaces(s[i]);
    }
  }

  /**
   * What `toTitleCase` does to character `i`: it is upper-cased when it begins a
   * word (at the start or after a space), and lower-cased otherwise.
   */
  function TitleChar(s: string, i: int): char
    requires 0 <= i < |s|
  {
    if i == 0 || s[i - 1] == ' ' then UpperChar(LowerChar(s[i])) else LowerChar(s[i])
  }

  /** Upper-casing the first character of every word of `t`. */
  function CapitalizeWords(t: string): (r: string)
    ensures |r| == |t|
    ensures forall i :: 0 <= i < |t| ==>
              r[i] == (if i == 0 || t[i - 1] == ' ' then UpperChar(t[i]) else t[i])
  {
    seq(|t|, i requires 0 <= i < |t| => if i == 0 || t[i - 1] == ' ' then UpperChar(t[i]) else t[i])
  }

  /** The split-capitalise-join pipeline capitalises exactly the word starts. */
  lemma {:induction false} JoinCapitalizeSplit(t: string)
    ensures Join(CapitalizeAll(Split(t))) == CapitalizeWords(t)
    decreases |t|
  {
    var i := FirstSpace(t);
    if i == |t| {
      PipelineOneWord(t);
      CapitalizeOneWord(t);
    } else {
      JoinCapitalizeSplit(t[i + 1..]);
      PipelineCons(t);
      SplitAt(t, i);
      CapitalizeWordsCons(t[..i], t[i + 1..]);
    }
  }

  /** On a string without spaces the pipeline capitalises its one word. */
  lemma PipelineOneWord(t: string)
    requires FirstSpace(t) == |t|
    ensures Join(CapitalizeAll(Split(t))) == Capitalize(t)
  {
    SplitWhole(t);
    assert CapitalizeAll([t]) == [Capitalize(t)];
  }

  /** On a string with a space the pipeline handles the first word, then the rest. */
  lemma PipelineCons(t: string)
    requires FirstSpace(t) < |t|
    ensures var i := FirstSpace(t);
            Join(CapitalizeAll(Split(t)))
            == Capitalize(t[..i]) + " " + Join(CapitalizeAll(Split(t[i + 1..])))
  {
    var i := FirstSpace(t);
    var w, rest := t[..i], t[i + 1..];
    SplitFirst(t);
    assert Split(t) == [w] + Split(rest);
    CapitalizeJoinCons(w, Split(rest));
    assert CapitalizeAll(Split(t)) == CapitalizeAll([w] + Split(rest));
  }

  lemma CapitalizeJoinCons(w: string, ws: seq<string>)
    requires |ws| >= 1
    ensures Join(CapitalizeAll([w] + ws)) == Capitalize(w) + " " + Join(CapitalizeAll(ws))
  {
    var cs := CapitalizeAll(ws);
    assert CapitalizeAll([w] + ws) == [Capitalize(w)] + cs;
    JoinCons(Capitalize(w), cs);
  }


  lemma CapitalizeOneWord(t: string)
    requires forall k :: 0 <= k < |t| ==> t[k] != ' '
    ensures Capitalize(t) == CapitalizeWords(t)
  {
    forall k | 0 <= k < |t| ensures Capitalize(t)[k] == CapitalizeWords(t)[k] {
      if k > 0 {
        assert Capitalize(t)[k] == t[1..][k - 1];
      }
    }
  }

  lemma CapitalizeWordsCons(w: string, rest: string)
    requires forall k :: 0 <= k < |w| ==> w[k] != ' '
    ensures CapitalizeWords(w + " " + rest) == Capitalize(w) + " " + CapitalizeWords(rest)
  {
    var t := w + " " + rest;
    var r := Capitalize(w) + " " + CapitalizeWords(rest);
    var i := |w|;
    forall k | 0 <= k < |t| ensures r[k] == CapitalizeWords(t)[k] {
      if k < i {
        assert r[k] == Capitalize(w)[k];
        assert t[k] == w[k];
        if k > 0 {
          assert t[k - 1] == w[k - 1];
          assert Capitalize(w)[k] == w[1..][k - 1];
        }
      } else if k == i {
        assert r[k] == ' ';
        assert t[k] == ' ';
        if k > 0 {
          assert t[k - 1] == w[k - 1];
        }
      } else {
        assert r[k] == CapitalizeWords(rest)[k - i - 1];
        assert rest[k - i - 1] == t[k];
        if k - i - 1 > 0 {
          assert rest[k - i - 2] == t[k - 1];
        }
      }
    }
  }

  /** The character-wise reading of `toTitleCase`. */
  function TitleString(s: string): (r: string)
    ensures |r| == |s|
    ensures forall i :: 0 <= i < |s| ==> r[i] == TitleChar(s, i)
  {
    seq(|s|, i requires 0 <= i < |s| => TitleChar(s, i))
  }

  /** `toTitleCase` is its character-wise reading. */
  lemma TitleCaseIsTitleString(s: string)
    ensures ToTitleCase(s) == TitleString(s)
  {
    var r := ToTitleCase(s);
    assert |r| == |s|;
    assert forall i :: 0 <= i < |s| ==> r[i] == TitleChar(s, i);
  }

  /** Title-casing changes no space and puts none in: the spaces stay where they were. */
  lemma TitleStringKeepsSpaces(s: string, i: int)
    requires 0 <= i < |s|
    ensures (TitleString(s)[i] == ' ') == (s[i] == ' ')
  {
    CaseKeepsSpaces(s[i]);
    CaseKeepsSpaces(LowerChar(s[i]));
  }

  lemma TitleStringIdempotent(s: string)
    ensures TitleString(TitleString(s)) == TitleString(s)
  {
    var r := TitleString(s);
    forall i | 0 <= i < |s| ensures TitleString(r)[i] == r[i] {
      if i > 0 {
        TitleStringKeepsSpaces(s, i - 1);
      }
      CaseKeepsSpaces(s[i]);
    }
  }

  /**
   * Title-casing is idempotent: the name input applies it on every keystroke and
   * the save applies it again, and the second pass changes nothing.
   */
  lemma TitleCaseIdempotent(s: string)
    ensures ToTitleCase(ToTitleCase(s)) == ToTitleCase(s)
  {
    TitleCaseIsTitleString(s);
    TitleCaseIsTitleString(TitleString(s));
    TitleStringIdempotent(s);
  }

  /** Title-casing keeps the number of space-separated words. */
  lemma TitleCaseKeepsWords(s: string)
    ensures |Split(ToTitleCase(s))| == |Split(s)|
  {
    TitleCaseIsTitleString(s);
    var r := TitleString(s);
    forall i | 0 <= i < |s| ensures (r[i] == ' ') == (s[i] == ' ') {
      TitleStringKeepsSpaces(s, i);
    }
    SameSpacesSameWords(r, s);
  }

  /** Two strings with spaces at the same places split into the same number of pieces. */
  lemma {:induction false} SameSpacesSameWords(a: string, b: string)
    requires |a| == |b|
    requires forall i :: 0 <= i < |a| ==> (a[i] == ' ') == (b[i] == ' ')
    ensures |Split(a)| == |Split(b)|
    decreases |a|
  {
    var i := FirstSpace(a);
    var j := FirstSpace(b);
    SameFirstSpace(a, b);
    if i < |a| {
      SameSpacesSameWords(a[i + 1..], b[j + 1..]);
    }
  }

  lemma {:induction false} SameFirstSpace(a: string, b: string)
    requires |a| == |b|
    requires forall i :: 0 <= i < |a| ==> (a[i] == ' ') == (b[i] == ' ')
    ensures FirstSpace(a) == FirstSpace(b)
    decreases |a|
  {
    if a != [] && a[0] != ' ' {
      SameFirstSpace(a[1..], b[1..]);
    }
  }

  // ---------------------------------------------------------------------------
  // Price trend

  /** A purchase record of `grocery_history`. */
  datatype HistoryRecord = HistoryRecord(
    id: nat, familyId: nat, itemName: string, quantity: real, unit: Unit,
    price: Option<real>, boughtBy: nat, boughtAt: int)

  /** JavaScript truthiness of a price: present and not zero. */
  predicate Priced(p: Option<real>) {
    p.Some? && p.value != 0.0
  }

  /** A record that can serve as the previous purchase of `name`. */
  predicate PrevMatch(r: HistoryRecord, name: string) {
    r.itemName == name && Priced(r.price)
  }

  /** `data.slice(from).find(...)`: the first index at or after `from` holding a priced record of `name`. */
  function FindPrev(h: seq<HistoryRecord>, from: nat, name: string): (r: Option<nat>)
    ensures r.Some? ==> from <= r.value < |h| && PrevMatch(h[r.value], name)
    ensures r.Some? ==> forall j :: from <= j < r.value ==> !PrevMatch(h[j], name)
    ensures r.None? ==> forall j :: from <= j < |h| ==> !PrevMatch(h[j], name)
    decreases |h| - from
  {
    if from >= |h| then None
    else if PrevMatch(h[from], name) then Some(from)
    else FindPrev(h, from + 1, name)
  }

  /** A history record as listed, with its `priceTrend`. */
  datatype Trended = Trended(record: HistoryRecord, trend: Option<real>)

  /**
   * `trend` is the `priceTrend` of record `i` of history `h`, listed newest
   * first: present exactly when the record has a price and an older record of
   * the same item has one, and then the difference to the nearest such record.
   */
  ghost predicate IsTrendOf(h: seq<HistoryRecord>, i: nat, trend: Option<real>)
    requires i < |h|
  {
    (trend.Some? <==> Priced(h[i].price) && exists j :: i < j < |h| && PrevMatch(h[j], h[i].itemName))
    && forall j :: i < j < |h| && trend.Some? && PrevMatch(h[j], h[i].itemName)
         && (forall k :: i < k < j ==> !PrevMatch(h[k], h[i].itemName))
         ==> Priced(h[i].price) && trend.value == h[i].price.value - h[j].price.value
  }

  /** The listed entry of record `i`, with its `priceTrend`. */
  function TrendAt(h: seq<HistoryRecord>, i: nat): (t: Trended)
    requires i < |h|
    ensures t.record == h[i]
    ensures IsTrendOf(h, i, t.trend)
  {
    var item := h[i];
    if !Priced(item.price) then Trended(item, None)
    else match FindPrev(h, i + 1, item.itemName)
      case None => Trended(item, None)
      case Some(j) => Trended(item, Some(item.price.value - h[j].price.value))
  }

  /**
   * The `map` over the history: one entry per record, in the same order, each
   * carrying its record's price trend.
   */
  function Trends(h: seq<HistoryRecord>): (r: seq<Trended>)
    ensures |r| == |h|
    ensures forall i :: 0 <= i < |h| ==> r[i].record == h[i] && IsTrendOf(h, i, r[i].trend)
  {
    seq(|h|, i requires 0 <= i < |h| => TrendAt(h, i))
  }

  // ---------------------------------------------------------------------------
  // Default quantity, items panel, total

  /** `lastPurchase?.quantity || (quantityType === 'dozens' ? 0.5 : 1)`. */
  function DefaultQuantity(last: Option<real>, u: Unit): (q: real)
    ensures last.Some? && last.value != 0.0 ==> q == last.value
    ensures !(last.Some? && last.value != 0.0) ==> q == (if u == Dozens then 0.5 else 1.0)
  {
    if last.Some? && last.value != 0.0 then last.value else if u == Dozens then 0.5 else 1.0
  }

  /** Without a usable previous quantity, the default is a whole number of steps of the unit. */
  lemma DefaultOnGrid(last: Option<real>, u: Unit)
    requires !(last.Some? && last.value != 0.0)
    ensures OnGrid(DefaultQuantity(last, u), u)
  {
    var q := DefaultQuantity(last, u);
    match u
    case Kgs => assert q == Steps(4, u);
    case Liters => assert q == Steps(2, u);
    case Dozens => assert q == Steps(1, u);
    case Pieces => assert q == Steps(1, u);
    case Packets => assert q == Steps(1, u);
  }

  /** A catalogue item (`grocery_items`). */
  datatype Item = Item(id: nat, familyId: nat, name: string, unit: Unit)

  /**
   * The "all items" panel: the catalogue items, in order, that no entry of the
   * current list refers to (`listedItemIds` are the list rows' item ids).
   */
  function NotListed(items: seq<Item>, listedItemIds: seq<nat>): (r: seq<Item>)
    ensures forall x :: x in r <==> x in items && x.id !in listedItemIds
    ensures |r| <= |items|
  {
    if items == [] then []
    else if items[0].id in listedItemIds then NotListed(items[1..], listedItemIds)
    else [items[0]] + NotListed(items[1..], listedItemIds)
  }

  /** `history.reduce((sum, item) => sum + (parseFloat(item.price) || 0), 0)`. */
  function Total(h: seq<HistoryRecord>): real
    decreases |h|
  {
    if h == [] then 0.0 else Total(h[..|h| - 1]) + h[|h| - 1].price.GetOr(0.0)
  }

  /** The total of two lists is the sum of their totals. */
  lemma {:induction false} TotalConcat(a: seq<HistoryRecord>, b: seq<HistoryRecord>)
    ensures Total(a + b) == Total(a) + Total(b)
    decreases |b|
  {
    if b == [] {
      assert a + b == a;
    } else {
      var c := a + b;
      assert c[..|c| - 1] == a + b[..|b| - 1];
      assert c[|c| - 1] == b[|b| - 1];
      TotalConcat(a, b[..|b| - 1]);
    }
  }

  /** The Total line is shown when some record has a (truthy) price. */
  predicate ShowTotal(h: seq<HistoryRecord>) {
    exists i :: 0 <= i < |h| && Priced(h[i].price)
  }

  /** When the Total line is hidden, the total would be zero. */
  lemma {:induction false} HiddenTotalIsZero(h: seq<HistoryRecord>)
    requires !ShowTotal(h)
    ensures Total(h) == 0.0
    decreases |h|
  {
    if h != [] {
      var init := h[..|h| - 1];
      assert !ShowTotal(init) by {
        forall i | 0 <= i < |init| ensures !Priced(init[i].price) {
          assert init[i] == h[i];
        }
      }
      HiddenTotalIsZero(init);
      assert !Priced(h[|h| - 1].price);
    }
  }
}
