/**
 * The grocery tables the list screen writes — `shopping_list` and
 * `grocery_history`, with `grocery_items` read — as an in-memory store, and the
 * handlers that change them: `addToList`, `updateQuantity`, `completePurchase`,
 * `confirmDelete` and the save loop of the "add prices" panel.
 */
module GroceryStore {
  import opened Wrappers
  import opened Seqs
  import opened GroceryList
  import opened Sorting

  /** A row of `shopping_list`; `boughtBy` and `boughtAt` mean something once `isBought` is set. */
  datatype ListRow = ListRow(
    id: nat, familyId: nat, itemId: nat, addedBy: nat, quantity: real,
    isBought: bool, boughtBy: nat, boughtAt: int, price: Option<real>)

  function IsItem(familyId: nat, itemId: nat): ListRow -> bool {
    (r: ListRow) => r.familyId == familyId && r.itemId == itemId
  }

  function HasRowId(id: nat): ListRow -> bool {
    (r: ListRow) => r.id == id
  }

  function NotRowId(id: nat): ListRow -> bool {
    (r: ListRow) => r.id != id
  }

  /** The `shopping_list` rows of one item of one family, bought or not. */
  function RowsForItem(list: seq<ListRow>, familyId: nat, itemId: nat): seq<ListRow> {
    Filter(list, IsItem(familyId, itemId))
  }

  /** `.delete().eq('id', id)` on `shopping_list`. */
  function WithoutRow(list: seq<ListRow>, id: nat): (r: seq<ListRow>)
    ensures forall x :: x in r <==> x in list && x.id != id
  {
    Filter(list, NotRowId(id))
  }

  predicate DistinctRowIds(a: ListRow, b: ListRow) { a.id != b.id }
  predicate DistinctItems(a: ListRow, b: ListRow) { !(a.familyId == b.familyId && a.itemId == b.itemId) }
  predicate DistinctRecordIds(a: HistoryRecord, b: HistoryRecord) { a.id != b.id }

  /** Row ids are unique, and no family has two rows for one item. */
  ghost predicate ListInvariant(list: seq<ListRow>, nextId: nat) {
    (forall r :: r in list ==> r.id < nextId)
    && Pairwise(list, DistinctRowIds)
    && Pairwise(list, DistinctItems)
  }

  // ---------------------------------------------------------------------------
  // Purchase records

  /** The (family, item name, bought at) triple that identifies one purchase in `grocery_history`. */
  datatype Purchase = Purchase(familyId: nat, itemName: string, boughtAt: int)

  function PurchaseOf(r: HistoryRecord): Purchase {
    Purchase(r.familyId, r.itemName, r.boughtAt)
  }

  function IsPurchase(k: Purchase): HistoryRecord -> bool {
    (r: HistoryRecord) => PurchaseOf(r) == k
  }

  /** Records of purchase `k` whose price is not null. */
  function PricedOf(k: Purchase): HistoryRecord -> bool {
    (r: HistoryRecord) => PurchaseOf(r) == k && r.price.Some?
  }

  /** Everything except the records of purchase `k` with a null price. */
  function NotUnpricedOf(k: Purchase): HistoryRecord -> bool {
    (r: HistoryRecord) => !(PurchaseOf(r) == k && r.price.None?)
  }

  function HasPrice(): HistoryRecord -> bool {
    (r: HistoryRecord) => r.price.Some?
  }

  /** The number of records of purchase `k` that carry a price. */
  function PricedCount(h: seq<HistoryRecord>, k: Purchase): nat {
    |Filter(h, PricedOf(k))|
  }

  /** No purchase has two records with a price. */
  ghost predicate PricedOnce(h: seq<HistoryRecord>) {
    forall k :: PricedCount(h, k) <= 1
  }

  /** Record ids are unique and below the next id; no purchase is priced twice. */
  ghost predicate HistoryInvariant(h: seq<HistoryRecord>, nextId: nat) {
    (forall r :: r in h ==> r.id < nextId)
    && Pairwise(h, DistinctRecordIds)
    && PricedOnce(h)
  }

  /** `.delete().eq(...).is('price', null)`: drop the unpriced records of purchase `k`. */
  function DropUnpriced(h: seq<HistoryRecord>, k: Purchase): (r: seq<HistoryRecord>)
    ensures forall x :: x in r <==> x in h && !(PurchaseOf(x) == k && x.price.None?)
  {
    Filter(h, NotUnpricedOf(k))
  }

  /** `.update({ price }).eq('id', id)` on `grocery_history`. */
  function SetPrice(h: seq<HistoryRecord>, id: nat, p: Option<real>): (r: seq<HistoryRecord>)
    ensures |r| == |h|
    ensures forall i :: 0 <= i < |h| ==> r[i] == if h[i].id == id then h[i].(price := p) else h[i]
    decreases |h|
  {
    if h == [] then []
    else [if h[0].id == id then h[0].(price := p) else h[0]] + SetPrice(h[1..], id, p)
  }

  function NotRecordId(id: nat): HistoryRecord -> bool {
    (r: HistoryRecord) => r.id != id
  }

  function PricedOfExcept(k: Purchase, id: nat): HistoryRecord -> bool {
    (r: HistoryRecord) => r.id != id && PurchaseOf(r) == k && r.price.Some?
  }

  /** `.delete().eq('id', id)` on `grocery_history`. */
  function WithoutRecord(h: seq<HistoryRecord>, id: nat): (r: seq<HistoryRecord>)
    ensures forall x :: x in r <==> x in h && x.id != id
  {
    Filter(h, NotRecordId(id))
  }

  /** Deleting a record keeps the history invariant. */
  lemma WithoutRecordKeepsInvariant(h: seq<HistoryRecord>, id: nat, nextId: nat)
    requires HistoryInvariant(h, nextId)
    ensures HistoryInvariant(WithoutRecord(h, id), nextId)
  {
    FilterPairwise(h, NotRecordId(id), DistinctRecordIds);
    forall k ensures PricedCount(WithoutRecord(h, id), k) <= 1 {
      FilterFilter(h, NotRecordId(id), PricedOf(k), PricedOfExcept(k, id));
      FilterFilter(h, PricedOf(k), NotRecordId(id), PricedOfExcept(k, id));
      assert PricedCount(h, k) <= 1;
    }
  }

  // ---------------------------------------------------------------------------
  // Lookups of addToList

  function OfItemName(familyId: nat, name: string): HistoryRecord -> bool {
    (r: HistoryRecord) => r.familyId == familyId && r.itemName == name
  }

  /** `.order('bought_at', { ascending: false }).limit(1)`: a record with the latest `boughtAt`, the first such. */
  function Newest(h: seq<HistoryRecord>): (r: Option<HistoryRecord>)
    ensures r.Some? <==> h != []
    ensures r.Some? ==> r.value in h && forall x :: x in h ==> x.boughtAt <= r.value.boughtAt
    decreases |h|
  {
    if h == [] then None
    else
      var rest := Newest(h[1..]);
      assert forall x :: x in h ==> x == h[0] || x in h[1..];
      if rest.None? || rest.value.boughtAt <= h[0].boughtAt then Some(h[0]) else rest
  }

  /**
   * The quantity of the family's latest purchase of the item called `name`, or
   * none when there is no such purchase.
   */
  function LatestQuantity(h: seq<HistoryRecord>, familyId: nat, name: string): (q: Option<real>)
    ensures q.None? <==> forall x :: x in h ==> !(x.familyId == familyId && x.itemName == name)
    ensures q.Some? ==> exists x :: (x in h && x.familyId == familyId && x.itemName == name
              && x.quantity == q.value
              && forall y :: y in h && y.familyId == familyId && y.itemName == name ==> y.boughtAt <= x.boughtAt)
  {
    var n := Newest(Filter(h, OfItemName(familyId, name)));
    if n.None? then None else Some(n.value.quantity)
  }

  /** How `addToList` ended. */
  datatype AddOutcome = Added | AlreadyListed | ItemMissing

  // ---------------------------------------------------------------------------
  // The add-prices save loop as a function of the tables

  /** The tables the save loop changes. */
  datatype Tables = Tables(list: seq<ListRow>, history: seq<HistoryRecord>, nextId: nat)

  /** An entry of `boughtItems`: a bought, unpriced list row with its item's name and unit, as fetched. */
  datatype Bought = Bought(row: ListRow, itemName: string, unit: Unit)

  function PurchaseOfBought(b: Bought): Purchase {
    Purchase(b.row.familyId, b.itemName, b.row.boughtAt)
  }

  /** The price the row has now (`.select('price').eq('id', id).single()`). */
  function CurrentPrice(list: seq<ListRow>, id: nat): Option<real> {
    var row := Single(Filter(list, HasRowId(id)));
    if row.None? then None else row.value.price
  }

  /**
   * One turn of the save loop.  A row that has been given a (truthy) price has its
   * purchase moved into the history: the unpriced records of the purchase go,
   * then the one remaining record of it gets the price, or a new record is made
   * from the fetched row; and the row leaves the list.  Other rows are skipped.
   */
  function ArchiveOne(t: Tables, b: Bought): Tables {
    var price := CurrentPrice(t.list, b.row.id);
    if !Priced(price) then t
    else
      var k := PurchaseOfBought(b);
      var h1 := DropUnpriced(t.history, k);
      var existing := Single(Filter(h1, IsPurchase(k)));
      if existing.Some? then
        Tables(WithoutRow(t.list, b.row.id), SetPrice(h1, existing.value.id, price), t.nextId)
      else
        var record := HistoryRecord(t.nextId, b.row.familyId, b.itemName, b.row.quantity, b.unit,
                                    price, b.row.boughtBy, b.row.boughtAt);
        Tables(WithoutRow(t.list, b.row.id), h1 + [record], t.nextId + 1)
  }

  /** The save loop over `boughtItems`, in order. */
  function ArchiveAll(t: Tables, bs: seq<Bought>): Tables
    decreases |bs|
  {
    if bs == [] then t else ArchiveOne(ArchiveAll(t, bs[..|bs| - 1]), bs[|bs| - 1])
  }

  // ---------------------------------------------------------------------------
  // Lemmas about one turn of the save loop

  /** After `DropUnpriced`, the records of the purchase are exactly its priced records before. */
  lemma DropUnpricedRecords(h: seq<HistoryRecord>, k: Purchase)
    ensures Filter(DropUnpriced(h, k), IsPurchase(k)) == Filter(h, PricedOf(k))
  {
    FilterFilter(h, NotUnpricedOf(k), IsPurchase(k), PricedOf(k));
  }

  /** `DropUnpriced` keeps every priced record, so no priced count changes. */
  lemma DropUnpricedCounts(h: seq<HistoryRecord>, k: Purchase, k2: Purchase)
    ensures PricedCount(DropUnpriced(h, k), k2) == PricedCount(h, k2)
  {
    FilterFilter(h, NotUnpricedOf(k), PricedOf(k2), PricedOf(k2));
  }

  /** Priced records of a purchase are among its records. */
  lemma PricedAmongRecords(h: seq<HistoryRecord>, k: Purchase)
    ensures PricedCount(h, k) <= |Filter(h, IsPurchase(k))|
  {
    FilterFilter(h, IsPurchase(k), HasPrice(), PricedOf(k));
  }

  /** Unique ids: a record is the only one with its id. */
  lemma UniqueRecordId(h: seq<HistoryRecord>, e: HistoryRecord, x: HistoryRecord)
    requires Pairwise(h, DistinctRecordIds)
    requires e in h && x in h && x.id == e.id
    ensures x == e
  {
    var i :| 0 <= i < |h| && h[i] == e;
    var j :| 0 <= j < |h| && h[j] == x;
  }

  /** Setting the price of records of purchase `k` changes no other purchase's priced count. */
  lemma {:induction false} SetPriceOtherCounts(h: seq<HistoryRecord>, id: nat, p: Option<real>, k: Purchase, k2: Purchase)
    requires forall x :: x in h && x.id == id ==> PurchaseOf(x) == k
    requires k2 != k
    ensures Filter(SetPrice(h, id, p), PricedOf(k2)) == Filter(h, PricedOf(k2))
    decreases |h|
  {
    if h != [] {
      assert SetPrice(h, id, p)[1..] == SetPrice(h[1..], id, p);
      SetPriceOtherCounts(h[1..], id, p, k, k2);
    }
  }

  /** Setting a price keeps which purchase each record belongs to. */
  lemma {:induction false} SetPriceRecords(h: seq<HistoryRecord>, id: nat, p: Option<real>, k: Purchase)
    ensures Filter(SetPrice(h, id, p), IsPurchase(k)) == SetPrice(Filter(h, IsPurchase(k)), id, p)
    decreases |h|
  {
    if h != [] {
      assert SetPrice(h, id, p)[1..] == SetPrice(h[1..], id, p);
      SetPriceRecords(h[1..], id, p, k);
      var head := if IsPurchase(k)(h[0]) then [h[0]] else [];
      SetPriceConcat(head, Filter(h[1..], IsPurchase(k)), id, p);
    }
  }

  lemma SetPriceConcat(a: seq<HistoryRecord>, b: seq<HistoryRecord>, id: nat, p: Option<real>)
    ensures SetPrice(a + b, id, p) == SetPrice(a, id, p) + SetPrice(b, id, p)
  {
    var l, r := SetPrice(a + b, id, p), SetPrice(a, id, p) + SetPrice(b, id, p);
    forall i | 0 <= i < |l| ensures l[i] == r[i] {
      if i < |a| {
        assert (a + b)[i] == a[i];
      } else {
        assert (a + b)[i] == b[i - |a|];
      }
    }
  }

  /** Records of other purchases are untouched by a turn that stores purchase `k`. */
  lemma SetPriceOthers(h: seq<HistoryRecord>, id: nat, p: Option<real>, k: Purchase, x: HistoryRecord)
    requires forall y :: y in h && y.id == id ==> PurchaseOf(y) == k
    requires PurchaseOf(x) != k
    ensures x in SetPrice(h, id, p) <==> x in h
  {
    var r := SetPrice(h, id, p);
    if x in r {
      var i :| 0 <= i < |r| && r[i] == x;
      assert r[i] == h[i];
    }
    if x in h {
      var i :| 0 <= i < |h| && h[i] == x;
      assert r[i] == x;
    }
  }

  /** Setting a price keeps the record ids, so unique ids stay unique. */
  lemma SetPriceIds(h: seq<HistoryRecord>, id: nat, p: Option<real>, nextId: nat)
    requires Pairwise(h, DistinctRecordIds)
    requires forall r :: r in h ==> r.id < nextId
    ensures Pairwise(SetPrice(h, id, p), DistinctRecordIds)
    ensures forall r :: r in SetPrice(h, id, p) ==> r.id < nextId
  {
    SetPriceDistinct(h, id, p);
    SetPriceBelow(h, id, p, nextId);
  }

  lemma SetPriceDistinct(h: seq<HistoryRecord>, id: nat, p: Option<real>)
    requires Pairwise(h, DistinctRecordIds)
    ensures Pairwise(SetPrice(h, id, p), DistinctRecordIds)
  {
    var r := SetPrice(h, id, p);
    forall i, j | 0 <= i < j < |r| ensures DistinctRecordIds(r[i], r[j]) {
      assert r[i].id == h[i].id && r[j].id == h[j].id;
      assert DistinctRecordIds(h[i], h[j]);
    }
  }

  lemma SetPriceBelow(h: seq<HistoryRecord>, id: nat, p: Option<real>, nextId: nat)
    requires forall r :: r in h ==> r.id < nextId
    ensures forall r :: r in SetPrice(h, id, p) ==> r.id < nextId
  {
    var r := SetPrice(h, id, p);
    forall x | x in r ensures x.id < nextId {
      var i :| 0 <= i < |r| && r[i] == x;
      assert r[i].id == h[i].id && h[i] in h;
    }
  }

  /** Setting the price of the one record of purchase `k` keeps every purchase priced at most once. */
  lemma UpdateKeepsPricedOnce(h1: seq<HistoryRecord>, k: Purchase, e: HistoryRecord, price: Option<real>)
    requires PricedOnce(h1)
    requires forall y :: y in h1 && y.id == e.id ==> PurchaseOf(y) == k
    requires Filter(h1, IsPurchase(k)) == [e]
    ensures Filter(SetPrice(h1, e.id, price), IsPurchase(k)) == [e.(price := price)]
    ensures PricedOnce(SetPrice(h1, e.id, price))
  {
    var h2 := SetPrice(h1, e.id, price);
    SetPriceRecords(h1, e.id, price, k);
    assert SetPrice([e], e.id, price) == [e.(price := price)];
    forall k2 ensures PricedCount(h2, k2) <= 1 {
      if k2 == k {
        PricedAmongRecords(h2, k);
      } else {
        SetPriceOtherCounts(h1, e.id, price, k, k2);
        assert PricedCount(h1, k2) <= 1;
      }
    }
  }

  /** What a priced turn does to the history when the purchase already has a priced record. */
  lemma ArchiveUpdateCase(h1: seq<HistoryRecord>, k: Purchase, price: Option<real>, nextId: nat)
    requires HistoryInvariant(h1, nextId)
    requires |Filter(h1, IsPurchase(k))| == 1
    ensures var e := Filter(h1, IsPurchase(k))[0];
            var h2 := SetPrice(h1, e.id, price);
            Filter(h2, IsPurchase(k)) == [e.(price := price)]
            && HistoryInvariant(h2, nextId)
            && forall x :: PurchaseOf(x) != k ==> (x in h2 <==> x in h1)
  {
    var e := Filter(h1, IsPurchase(k))[0];
    assert e in Filter(h1, IsPurchase(k));
    assert Filter(h1, IsPurchase(k)) == [e];
    forall y | y in h1 && y.id == e.id ensures PurchaseOf(y) == k {
      UniqueRecordId(h1, e, y);
    }
    UpdateKeepsPricedOnce(h1, k, e, price);
    SetPriceIds(h1, e.id, price, nextId);
    forall x | PurchaseOf(x) != k ensures x in SetPrice(h1, e.id, price) <==> x in h1 {
      SetPriceOthers(h1, e.id, price, k, x);
    }
  }

  /** Appending the first record of purchase `k` keeps every purchase priced at most once. */
  lemma InsertKeepsPricedOnce(h1: seq<HistoryRecord>, k: Purchase, record: HistoryRecord)
    requires PricedOnce(h1)
    requires Filter(h1, IsPurchase(k)) == []
    requires PurchaseOf(record) == k
    ensures PricedOnce(h1 + [record])
  {
    forall k2 ensures PricedCount(h1 + [record], k2) <= 1 {
      FilterSnoc(h1, record, PricedOf(k2));
      if k2 == k {
        PricedAmongRecords(h1, k);
      } else {
        assert PricedCount(h1, k2) <= 1;
      }
    }
  }

  /** What a priced turn does to the history when the purchase has no priced record. */
  lemma ArchiveInsertCase(h1: seq<HistoryRecord>, k: Purchase, record: HistoryRecord, nextId: nat)
    requires HistoryInvariant(h1, nextId)
    requires Filter(h1, IsPurchase(k)) == []
    requires PurchaseOf(record) == k && record.id == nextId
    ensures var h2 := h1 + [record];
            Filter(h2, IsPurchase(k)) == [record]
            && HistoryInvariant(h2, nextId + 1)
            && forall x :: PurchaseOf(x) != k ==> (x in h2 <==> x in h1)
  {
    FilterSnoc(h1, record, IsPurchase(k));
    InsertKeepsPricedOnce(h1, k, record);
    PairwiseSnoc(h1, record, DistinctRecordIds);
  }

  /** Dropping unpriced records keeps the history invariant, and leaves at most one record of the purchase. */
  lemma DropUnpricedKeepsInvariant(h: seq<HistoryRecord>, k: Purchase, nextId: nat)
    requires HistoryInvariant(h, nextId)
    ensures HistoryInvariant(DropUnpriced(h, k), nextId)
    ensures |Filter(DropUnpriced(h, k), IsPurchase(k))| <= 1
  {
    DropUnpricedRecords(h, k);
    assert PricedCount(h, k) <= 1;
    FilterPairwise(h, NotUnpricedOf(k), DistinctRecordIds);
    forall k2 ensures PricedCount(DropUnpriced(h, k), k2) <= 1 {
      DropUnpricedCounts(h, k, k2);
    }
  }

  /**
   * A turn for a priced row, on tables whose history has no priced duplicate:
   * afterwards the purchase has exactly one record and it carries the row's
   * price; records of other purchases are as before; the row is off the list and
   * every other row stays; and the history invariant still holds.
   */
  lemma ArchiveOneMovesPurchase(t: Tables, b: Bought)
    requires HistoryInvariant(t.history, t.nextId)
    requires Priced(CurrentPrice(t.list, b.row.id))
    ensures var r := ArchiveOne(t, b);
            var k := PurchaseOfBought(b);
            |Filter(r.history, IsPurchase(k))| == 1
            && Filter(r.history, IsPurchase(k))[0].price == CurrentPrice(t.list, b.row.id)
            && (forall x :: PurchaseOf(x) != k ==> (x in r.history <==> x in t.history))
            && (forall x :: x in r.list <==> x in t.list && x.id != b.row.id)
            && HistoryInvariant(r.history, r.nextId)
  {
    var price := CurrentPrice(t.list, b.row.id);
    var k := PurchaseOfBought(b);
    var h1 := DropUnpriced(t.history, k);
    DropUnpricedKeepsInvariant(t.history, k, t.nextId);
    var r := ArchiveOne(t, b);
    if |Filter(h1, IsPurchase(k))| == 1 {
      var e := Filter(h1, IsPurchase(k))[0];
      assert r == Tables(WithoutRow(t.list, b.row.id), SetPrice(h1, e.id, price), t.nextId);
      ArchiveUpdateCase(h1, k, price, t.nextId);
    } else {
      var record := HistoryRecord(t.nextId, b.row.familyId, b.itemName, b.row.quantity, b.unit,
                                  price, b.row.boughtBy, b.row.boughtAt);
      assert r == Tables(WithoutRow(t.list, b.row.id), h1 + [record], t.nextId + 1);
      ArchiveInsertCase(h1, k, record, t.nextId);
    }
  }

  /** A turn for a row that has no (truthy) price changes nothing. */
  lemma ArchiveOneSkipsUnpriced(t: Tables, b: Bought)
    requires !Priced(CurrentPrice(t.list, b.row.id))
    ensures ArchiveOne(t, b) == t
  {
  }

  /** The list invariant survives deleting rows. */
  lemma WithoutRowKeepsInvariant(list: seq<ListRow>, id: nat, nextId: nat)
    requires ListInvariant(list, nextId)
    ensures ListInvariant(WithoutRow(list, id), nextId)
  {
    FilterPairwise(list, NotRowId(id), DistinctRowIds);
    FilterPairwise(list, NotRowId(id), DistinctItems);
  }

  /**
   * The whole save loop keeps both invariants, only ever removes list rows, and
   * removes none whose id is not among the fetched bought rows.
   */
  lemma {:induction false} ArchiveAllKeepsInvariants(t: Tables, bs: seq<Bought>)
    requires HistoryInvariant(t.history, t.nextId) && ListInvariant(t.list, t.nextId)
    ensures var r := ArchiveAll(t, bs);
            HistoryInvariant(r.history, r.nextId) && ListInvariant(r.list, r.nextId)
            && r.nextId >= t.nextId
            && (forall x :: x in r.list ==> x in t.list)
            && (forall x :: x in t.list && (forall b :: b in bs ==> b.row.id != x.id) ==> x in r.list)
    decreases |bs|
  {
    if bs != [] {
      var init := bs[..|bs| - 1];
      var b := bs[|bs| - 1];
      ArchiveAllKeepsInvariants(t, init);
      var m := ArchiveAll(t, init);
      assert forall c :: c in init ==> c in bs;
      ArchiveOneKeepsInvariants(m, b);
    }
  }

  /** One turn keeps both invariants and removes at most the turn's own row from the list. */
  lemma ArchiveOneKeepsInvariants(t: Tables, b: Bought)
    requires HistoryInvariant(t.history, t.nextId) && ListInvariant(t.list, t.nextId)
    ensures var r := ArchiveOne(t, b);
            HistoryInvariant(r.history, r.nextId) && ListInvariant(r.list, r.nextId)
            && r.nextId >= t.nextId
            && (forall x :: x in r.list <==> x in t.list && (x.id != b.row.id || r.list == t.list))
  {
    if Priced(CurrentPrice(t.list, b.row.id)) {
      ArchiveOneMovesPurchase(t, b);
      WithoutRowKeepsInvariant(t.list, b.row.id, t.nextId);
      var r := ArchiveOne(t, b);
      assert r.list == WithoutRow(t.list, b.row.id);
      assert ListInvariant(r.list, t.nextId);
    }
  }

  // ---------------------------------------------------------------------------
  // Row updates of updateQuantity and completePurchase

  /** `.update({ quantity }).eq('id', id)` on `shopping_list`. */
  function SetQuantity(list: seq<ListRow>, id: nat, q: real): (r: seq<ListRow>)
    ensures |r| == |list|
    ensures forall i :: 0 <= i < |list| ==> r[i] == if list[i].id == id then list[i].(quantity := q) else list[i]
  {
    seq(|list|, i requires 0 <= i < |list| => if list[i].id == id then list[i].(quantity := q) else list[i])
  }

  /** `.update({ is_bought: true, bought_by, bought_at, price }).eq('id', id)` on `shopping_list`. */
  function MarkBought(list: seq<ListRow>, id: nat, buyer: nat, when: int, price: Option<real>): (r: seq<ListRow>)
    ensures |r| == |list|
    ensures forall i :: 0 <= i < |list| ==>
              r[i] == if list[i].id == id then list[i].(isBought := true, boughtBy := buyer, boughtAt := when, price := price)
                      else list[i]
  {
    seq(|list|, i requires 0 <= i < |list| =>
      if list[i].id == id then list[i].(isBought := true, boughtBy := buyer, boughtAt := when, price := price) else list[i])
  }

  /** An update that keeps every row's id, family and item keeps the list invariant. */
  lemma SameKeysKeepInvariant(a: seq<ListRow>, b: seq<ListRow>, nextId: nat)
    requires ListInvariant(a, nextId)
    requires |a| == |b|
    requires forall i :: 0 <= i < |a| ==>
               b[i].id == a[i].id && b[i].familyId == a[i].familyId && b[i].itemId == a[i].itemId
    ensures ListInvariant(b, nextId)
  {
    forall i, j | 0 <= i < j < |b| ensures DistinctRowIds(b[i], b[j]) && DistinctItems(b[i], b[j]) {
      assert DistinctRowIds(a[i], a[j]) && DistinctItems(a[i], a[j]);
    }
    forall x | x in b ensures x.id < nextId {
      var i :| 0 <= i < |b| && b[i] == x;
      assert a[i] in a;
    }
  }

  /** An update that keeps every row's item keeps every row's item in the catalogue. */
  lemma SameKeysKeepItems(a: seq<ListRow>, b: seq<ListRow>, items: map<nat, Item>)
    requires ItemsKnown(a, items)
    requires |a| == |b|
    requires forall i :: 0 <= i < |a| ==> b[i].itemId == a[i].itemId
    ensures ItemsKnown(b, items)
  {
    forall x | x in b ensures x.itemId in items {
      var i :| 0 <= i < |b| && b[i] == x;
      assert a[i] in a;
    }
  }

  /** After `SetQuantity` on the one row with an id, that row holds the new quantity and keeps its item's unit. */
  lemma QuantityOfTheRow(before: seq<ListRow>, rowId: nat, q: real, u: Unit, items: map<nat, Item>)
    requires Single(Filter(before, HasRowId(rowId))).Some?
    requires ItemsKnown(before, items)
    requires items[Single(Filter(before, HasRowId(rowId))).value.itemId].unit == u
    requires q >= Step(u)
    ensures forall r :: r in SetQuantity(before, rowId, q) && r.id == rowId ==>
              r.itemId in items && r.quantity >= Step(items[r.itemId].unit)
  {
    var after := SetQuantity(before, rowId, q);
    var rows := Filter(before, HasRowId(rowId));
    var row := rows[0];
    assert rows == [row];
    assert row in before;
    forall r | r in after && r.id == rowId ensures r.itemId in items && r.quantity >= Step(items[r.itemId].unit) {
      var i :| 0 <= i < |after| && after[i] == r;
      assert before[i].id == rowId;
      assert before[i] in rows;
      assert r == row.(quantity := q);
    }
  }

  /** With unique row ids, `.single()` missing means no row has the id. */
  lemma NoRowWithId(list: seq<ListRow>, rowId: nat, nextId: nat)
    requires ListInvariant(list, nextId)
    requires Single(Filter(list, HasRowId(rowId))).None?
    ensures forall r :: r in list ==> r.id != rowId
  {
    OneRowPerId(list, rowId, nextId);
    assert forall r :: r in list && r.id == rowId ==> r in Filter(list, HasRowId(rowId));
  }

  /** With no two rows for one item, `maybeSingle` finds the item's row whenever there is one. */
  lemma SingleFindsTheRow(list: seq<ListRow>, familyId: nat, itemId: nat, nextId: nat)
    requires ListInvariant(list, nextId)
    ensures |RowsForItem(list, familyId, itemId)| <= 1
  {
    var rows := RowsForItem(list, familyId, itemId);
    FilterPairwise(list, IsItem(familyId, itemId), DistinctItems);
    PairwiseFirstTwo(rows, DistinctItems);
  }

  // ---------------------------------------------------------------------------
  // Prices typed into the add-prices panel

  /** `.update({ price }).eq('id', id)` on `shopping_list`, for a typed (non-empty) price. */
  function SetRowPrice(list: seq<ListRow>, id: nat, p: real): (r: seq<ListRow>)
    ensures |r| == |list|
    ensures forall i :: 0 <= i < |list| ==> r[i] == if list[i].id == id then list[i].(price := Some(p)) else list[i]
    decreases |list|
  {
    if list == [] then []
    else [if list[0].id == id then list[0].(price := Some(p)) else list[0]] + SetRowPrice(list[1..], id, p)
  }

  /** Looking rows up by id commutes with setting a price. */
  lemma {:induction false} SetRowPriceFilter(list: seq<ListRow>, id: nat, p: real, j: nat)
    ensures Filter(SetRowPrice(list, id, p), HasRowId(j)) == SetRowPrice(Filter(list, HasRowId(j)), id, p)
    decreases |list|
  {
    if list != [] {
      assert SetRowPrice(list, id, p)[1..] == SetRowPrice(list[1..], id, p);
      SetRowPriceFilter(list[1..], id, p, j);
      var head := if HasRowId(j)(list[0]) then [list[0]] else [];
      assert Filter(list, HasRowId(j)) == head + Filter(list[1..], HasRowId(j));
      SetRowPriceConcat(head, Filter(list[1..], HasRowId(j)), id, p);
    }
  }

  lemma SetRowPriceConcat(a: seq<ListRow>, b: seq<ListRow>, id: nat, p: real)
    ensures SetRowPrice(a + b, id, p) == SetRowPrice(a, id, p) + SetRowPrice(b, id, p)
  {
    var l, r := SetRowPrice(a + b, id, p), SetRowPrice(a, id, p) + SetRowPrice(b, id, p);
    forall i | 0 <= i < |l| ensures l[i] == r[i] {
      if i < |a| {
        assert (a + b)[i] == a[i];
      } else {
        assert (a + b)[i] == b[i - |a|];
      }
    }
  }

  /** With unique row ids, at most one row has a given id. */
  lemma OneRowPerId(list: seq<ListRow>, id: nat, nextId: nat)
    requires ListInvariant(list, nextId)
    ensures |Filter(list, HasRowId(id))| <= 1
  {
    FilterPairwise(list, HasRowId(id), DistinctRowIds);
    PairwiseFirstTwo(Filter(list, HasRowId(id)), DistinctRowIds);
  }

  /**
   * The save loop's `.select('price').eq('id', id).single()` reads back the
   * price typed for a row that is on the list.
   */
  lemma RowPriceReadsBack(list: seq<ListRow>, id: nat, p: real, nextId: nat)
    requires ListInvariant(list, nextId)
    requires exists r :: r in list && r.id == id
    ensures CurrentPrice(SetRowPrice(list, id, p), id) == Some(p)
  {
    OneRowPerId(list, id, nextId);
    var r :| r in list && r.id == id;
    var rows := Filter(list, HasRowId(id));
    assert r in rows;
    var row := rows[0];
    assert rows == [row];
    SetRowPriceFilter(list, id, p, id);
    var after := Filter(SetRowPrice(list, id, p), HasRowId(id));
    assert after == SetRowPrice([row], id, p);
    assert SetRowPrice([row], id, p) == [row.(price := Some(p))];
    assert Single(after) == Some(row.(price := Some(p)));
  }

  /** Typing a price for one row leaves what the save loop reads for every other row. */
  lemma RowPriceLeavesOthers(list: seq<ListRow>, id: nat, p: real, j: nat)
    requires j != id
    ensures CurrentPrice(SetRowPrice(list, id, p), j) == CurrentPrice(list, j)
  {
    SetRowPriceFilter(list, id, p, j);
    var others := Filter(list, HasRowId(j));
    var priced := SetRowPrice(others, id, p);
    forall i | 0 <= i < |others| ensures priced[i] == others[i] {
      assert others[i] in others;
    }
    assert priced == others;
  }

  /** Setting a price keeps every row's id, family and item, so the list invariant holds. */
  lemma SetRowPriceKeepsInvariant(list: seq<ListRow>, id: nat, p: real, nextId: nat)
    requires ListInvariant(list, nextId)
    ensures ListInvariant(SetRowPrice(list, id, p), nextId)
  {
    SameKeysKeepInvariant(list, SetRowPrice(list, id, p), nextId);
  }

  /**
   * A row on the list given a non-zero price is archived by its turn of the save
   * loop: its purchase ends with one record, carrying that price, and the row
   * leaves the list.
   */
  lemma PricedRowIsArchived(t: Tables, b: Bought, p: real)
    requires HistoryInvariant(t.history, t.nextId) && ListInvariant(t.list, t.nextId)
    requires exists r :: r in t.list && r.id == b.row.id
    requires p != 0.0
    ensures var r := ArchiveOne(Tables(SetRowPrice(t.list, b.row.id, p), t.history, t.nextId), b);
            var k := PurchaseOfBought(b);
            |Filter(r.history, IsPurchase(k))| == 1
            && Filter(r.history, IsPurchase(k))[0].price == Some(p)
            && forall x :: x in r.list ==> x.id != b.row.id
  {
    var t2 := Tables(SetRowPrice(t.list, b.row.id, p), t.history, t.nextId);
    RowPriceReadsBack(t.list, b.row.id, p, t.nextId);
    ArchiveOneMovesPurchase(t2, b);
  }

  // ---------------------------------------------------------------------------
  // What the list screen fetches

  /** Every list row refers to a catalogue item (the `item:grocery_items(*)` join finds it). */
  predicate ItemsKnown(list: seq<ListRow>, items: map<nat, Item>) {
    forall r :: r in list ==> r.itemId in items
  }

  /** The second query of `fetchShoppingList`: the family's bought rows without a price. */
  function IsBoughtUnpriced(familyId: nat): ListRow -> bool {
    (r: ListRow) => r.familyId == familyId && r.isBought && r.price.None?
  }

  /** A fetched row with its joined item's name and unit. */
  function BoughtOf(items: map<nat, Item>, r: ListRow): Bought
    requires r.itemId in items
  {
    Bought(r, items[r.itemId].name, items[r.itemId].unit)
  }

  /** `.order('bought_at', { ascending: false })`, as an ascending key. */
  function BoughtKey(b: Bought): int {
    -b.row.boughtAt
  }

  function JoinItems(items: map<nat, Item>, rows: seq<ListRow>): (bs: seq<Bought>)
    requires ItemsKnown(rows, items)
    ensures |bs| == |rows|
    ensures forall i :: 0 <= i < |rows| ==> bs[i] == BoughtOf(items, rows[i])
  {
    seq(|rows|, i requires 0 <= i < |rows| => BoughtOf(items, rows[i]))
  }

  /**
   * `boughtItems` as `fetchShoppingList` sets it: exactly the family's bought,
   * unpriced rows, each with its item, latest purchase first.
   */
  function FetchBought(list: seq<ListRow>, items: map<nat, Item>, familyId: nat): (bs: seq<Bought>)
    requires ItemsKnown(list, items)
    ensures SortedBy(bs, BoughtKey)
    ensures |bs| == |Filter(list, IsBoughtUnpriced(familyId))|
    ensures forall b :: b in bs <==>
              b.row in list && b.row.familyId == familyId && b.row.isBought && b.row.price.None?
              && b == BoughtOf(items, b.row)
  {
    var rows := Filter(list, IsBoughtUnpriced(familyId));
    var joined := JoinItems(items, rows);
    var bs := SortBy(joined, BoughtKey);
    assert forall b :: b in bs <==> b in joined by {
      forall b ensures b in bs <==> b in joined {
        SortByMembers(joined, BoughtKey, b);
      }
    }
    assert forall b :: b in joined <==> b.row in rows && b == BoughtOf(items, b.row) by {
      forall b ensures b in joined <==> b.row in rows && b == BoughtOf(items, b.row) {
        if b.row in rows && b == BoughtOf(items, b.row) {
          var i :| 0 <= i < |rows| && rows[i] == b.row;
          assert joined[i] == b;
        }
      }
    }
    bs
  }

  /** The first query of `fetchShoppingList`: the family's rows not yet bought. */
  function IsListed(familyId: nat): ListRow -> bool {
    (r: ListRow) => r.familyId == familyId && !r.isBought
  }

  /** `shoppingList.map(listItem => listItem.item?.id)`: the items of the family's rows not yet bought. */
  function ListedItemIds(list: seq<ListRow>, familyId: nat): (ids: seq<nat>)
    ensures forall id :: id in ids <==> exists r :: r in list && IsListed(familyId)(r) && r.itemId == id
    decreases |list|
  {
    if list == [] then []
    else
      assert forall x :: x in list <==> x == list[0] || x in list[1..];
      (if IsListed(familyId)(list[0]) then [list[0].itemId] else []) + ListedItemIds(list[1..], familyId)
  }

  /**
   * The "all items" panel shows exactly the catalogue items that no unbought row
   * of the family refers to.
   */
  lemma AllItemsPanel(catalogue: seq<Item>, list: seq<ListRow>, familyId: nat, x: Item)
    ensures x in NotListed(catalogue, ListedItemIds(list, familyId)) <==>
            x in catalogue && forall r :: r in list && r.familyId == familyId && !r.isBought ==> r.itemId != x.id
  {
    if x in catalogue && x.id in ListedItemIds(list, familyId) {
      var r :| r in list && IsListed(familyId)(r) && r.itemId == x.id;
    }
  }

  /** The save loop keeps only rows that were on the list. */
  lemma {:induction false} ArchiveAllShrinks(t: Tables, bs: seq<Bought>)
    ensures forall x :: x in ArchiveAll(t, bs).list ==> x in t.list
    decreases |bs|
  {
    if bs != [] {
      ArchiveAllShrinks(t, bs[..|bs| - 1]);
    }
  }

  // ---------------------------------------------------------------------------
  // The store

  /** The queries of one turn of the save loop, on the tables' contents. */
  method Turn(t: Tables, b: Bought) returns (r: Tables)
    ensures r == ArchiveOne(t, b)
  {
    var price := CurrentPrice(t.list, b.row.id);
    if !Priced(price) {
      return t;
    }
    var k := PurchaseOfBought(b);
    var h1 := DropUnpriced(t.history, k);
    var existing := Single(Filter(h1, IsPurchase(k)));
    var l := WithoutRow(t.list, b.row.id);
    if existing.Some? {
      r := Tables(l, SetPrice(h1, existing.value.id, price), t.nextId);
    } else {
      var record := HistoryRecord(t.nextId, b.row.familyId, b.itemName, b.row.quantity, b.unit,
                                  price, b.row.boughtBy, b.row.boughtAt);
      r := Tables(l, h1 + [record], t.nextId + 1);
    }
  }

  class Store {
    var list: seq<ListRow>
    var history: seq<HistoryRecord>
    var items: map<nat, Item>
    var nextId: nat
    /** The search box of the list screen, cleared once an item is added. */
    var searchTerm: string
    /** The bought, unpriced rows the add-prices panel lists, as last fetched. */
    var boughtItems: seq<Bought>

    ghost predicate Valid()
      reads this
    {
      ListInvariant(list, nextId) && HistoryInvariant(history, nextId) && ItemsKnown(list, items)
    }

    function Snapshot(): Tables
      reads this
    {
      Tables(list, history, nextId)
    }

    constructor(items: map<nat, Item>)
      ensures list == [] && history == [] && this.items == items && nextId == 0 && searchTerm == ""
      ensures boughtItems == []
      ensures Valid()
    {
      list := [];
      history := [];
      this.items := items;
      nextId := 0;
      searchTerm := "";
      boughtItems := [];
    }

    /**
     * `addToList(itemId, quantityType)` by `userId` in family `familyId`.  The
     * new row's quantity is the latest purchased quantity of the item, or the
     * unit's default.  An unbought row of the item already on the list leaves the
     * list alone; a bought one is deleted and a fresh row inserted.  An unknown
     * item makes the handler fail before any write.
     */
    method AddToList(itemId: nat, quantityType: Unit, userId: nat, familyId: nat) returns (outcome: AddOutcome)
      modifies this
      ensures items == old(items) && history == old(history) && boughtItems == old(boughtItems)
      ensures itemId !in old(items) ==>
                outcome == ItemMissing && list == old(list) && nextId == old(nextId)
                && searchTerm == old(searchTerm)
      ensures itemId in old(items) ==>
                var existing := Single(RowsForItem(old(list), familyId, itemId));
                var qty := DefaultQuantity(LatestQuantity(old(history), familyId, old(items)[itemId].name), quantityType);
                var row := ListRow(old(nextId), familyId, itemId, userId, qty, false, 0, 0, None);
                searchTerm == ""
                && if existing.Some? && !existing.value.isBought then
                     outcome == AlreadyListed && list == old(list) && nextId == old(nextId)
                   else
                     outcome == Added && nextId == old(nextId) + 1
                     && list == (if existing.Some? then WithoutRow(old(list), existing.value.id) else old(list)) + [row]
      ensures old(Valid()) ==> Valid()
      ensures old(Valid()) && itemId in old(items) ==>
                exists r :: r in list && r.familyId == familyId && r.itemId == itemId && !r.isBought
    {
      if itemId !in items {
        return ItemMissing;
      }
      var name := items[itemId].name;
      var lastQuantity := DefaultQuantity(LatestQuantity(history, familyId, name), quantityType);
      var existing := Single(RowsForItem(list, familyId, itemId));
      ghost var wasValid := Valid();
      if existing.Some? {
        if existing.value.isBought {
          list := WithoutRow(list, existing.value.id);
        } else {
          searchTerm := "";
          assert existing.value in RowsForItem(list, familyId, itemId);
          return AlreadyListed;
        }
      }
      var row := ListRow(nextId, familyId, itemId, userId, lastQuantity, false, 0, 0, None);
      if wasValid {
        InsertRowKeepsInvariant(old(list), existing, row, nextId);
        HistoryInvariantGrows(history, nextId);
      }
      assert list == (if existing.Some? then WithoutRow(old(list), existing.value.id) else old(list));
      PutRow(row);
      outcome := Added;
    }

    /** The insert of `addToList` and the cleared search: the row goes to the end of the list. */
    method PutRow(row: ListRow)
      modifies this
      ensures list == old(list) + [row] && list[|list| - 1] == row && nextId == old(nextId) + 1 && searchTerm == ""
      ensures items == old(items) && history == old(history) && boughtItems == old(boughtItems)
    {
      list := list + [row];
      nextId := nextId + 1;
      searchTerm := "";
    }

    /** `updateQuantity`: the row's quantity becomes `NewQuantity`; nothing else changes. */
    method UpdateQuantity(listItemId: nat, currentQty: real, quantityType: Unit, change: int)
      modifies this
      ensures list == SetQuantity(old(list), listItemId, NewQuantity(currentQty, quantityType, change))
      ensures history == old(history) && items == old(items) && nextId == old(nextId)
      ensures searchTerm == old(searchTerm) && boughtItems == old(boughtItems)
      ensures old(Valid()) ==> Valid()
      ensures forall r :: r in list && r.id == listItemId ==> r.quantity >= Step(quantityType)
    {
      var newQty := NewQuantity(currentQty, quantityType, change);
      ghost var before := list;
      list := SetQuantity(list, listItemId, newQty);
      if old(Valid()) {
        SameKeysKeepInvariant(before, list, nextId);
        SameKeysKeepItems(before, list, items);
      }
    }

    /**
     * `completePurchase`: the row is marked bought by `userId` at `now`, with
     * the typed price (none when the price field is empty).
     */
    method CompletePurchase(rowId: nat, userId: nat, now: int, buyPrice: Option<real>)
      modifies this
      ensures list == MarkBought(old(list), rowId, userId, now, buyPrice)
      ensures history == old(history) && items == old(items) && nextId == old(nextId)
      ensures searchTerm == old(searchTerm) && boughtItems == old(boughtItems)
      ensures old(Valid()) ==> Valid()
    {
      ghost var before := list;
      list := MarkBought(list, rowId, userId, now, buyPrice);
      if old(Valid()) {
        SameKeysKeepInvariant(before, list, nextId);
        SameKeysKeepItems(before, list, items);
      }
    }

    /** `confirmDelete`: the row with that id leaves the list. */
    method DeleteRow(rowId: nat)
      modifies this
      ensures list == WithoutRow(old(list), rowId)
      ensures history == old(history) && items == old(items) && nextId == old(nextId)
      ensures searchTerm == old(searchTerm) && boughtItems == old(boughtItems)
      ensures old(Valid()) ==> Valid()
    {
      if Valid() {
        WithoutRowKeepsInvariant(list, rowId, nextId);
      }
      list := WithoutRow(list, rowId);
    }

    /** `confirmDeleteHistory`'s write: the record with that id leaves the history. */
    method DeleteRecord(recordId: nat)
      modifies this
      ensures history == WithoutRecord(old(history), recordId)
      ensures list == old(list) && items == old(items) && nextId == old(nextId)
      ensures searchTerm == old(searchTerm) && boughtItems == old(boughtItems)
      ensures old(Valid()) ==> Valid()
    {
      if Valid() {
        WithoutRecordKeepsInvariant(history, recordId, nextId);
      }
      history := WithoutRecord(history, recordId);
    }

    /** One turn of the save loop for `b`. */
    method ArchiveTurn(b: Bought)
      modifies this
      ensures Snapshot() == ArchiveOne(old(Snapshot()), b)
      ensures items == old(items) && searchTerm == old(searchTerm) && boughtItems == old(boughtItems)
    {
      var t := Turn(Tables(list, history, nextId), b);
      list, history, nextId := t.list, t.history, t.nextId;
    }

    /**
     * `fetchShoppingList`'s second query: `boughtItems` becomes the family's
     * bought rows that have no price yet.
     */
    method FetchShoppingList(familyId: nat)
      requires ItemsKnown(list, items)
      modifies this
      ensures boughtItems == FetchBought(old(list), old(items), familyId)
      ensures list == old(list) && history == old(history) && items == old(items)
      ensures nextId == old(nextId) && searchTerm == old(searchTerm)
      ensures old(Valid()) ==> Valid()
    {
      boughtItems := FetchBought(list, items, familyId);
    }

    /**
     * The price field of a row of the add-prices panel losing focus: a non-empty
     * value is written to the row (an empty field, `None`, writes nothing).
     */
    method EnterPrice(rowId: nat, typed: Option<real>)
      modifies this
      ensures typed.None? ==> list == old(list)
      ensures typed.Some? ==> list == SetRowPrice(old(list), rowId, typed.value)
      ensures history == old(history) && items == old(items) && nextId == old(nextId)
      ensures searchTerm == old(searchTerm) && boughtItems == old(boughtItems)
      ensures old(Valid()) ==> Valid()
    {
      if typed.Some? {
        ghost var before := list;
        list := SetRowPrice(list, rowId, typed.value);
        if old(Valid()) {
          SameKeysKeepInvariant(before, list, nextId);
          SameKeysKeepItems(before, list, items);
        }
      }
    }

    /**
     * The - and + buttons of a list row: `updateQuantity(item.id, item.quantity || 1,
     * item.item.quantity_type, change)` with the row's quantity (1 for a zero) and
     * its item's unit.  A row that is no longer on the list changes nothing.
     */
    method QuantityButton(rowId: nat, change: int)
      requires ItemsKnown(list, items)
      modifies this
      ensures var row := Single(Filter(old(list), HasRowId(rowId)));
              if row.None? then list == old(list)
              else
                var current := if row.value.quantity == 0.0 then 1.0 else row.value.quantity;
                list == SetQuantity(old(list), rowId, NewQuantity(current, old(items)[row.value.itemId].unit, change))
      ensures ItemsKnown(list, items)
      ensures old(Valid()) ==> forall r :: r in list && r.id == rowId ==> r.quantity >= Step(items[r.itemId].unit)
      ensures history == old(history) && items == old(items) && nextId == old(nextId)
      ensures searchTerm == old(searchTerm) && boughtItems == old(boughtItems)
      ensures old(Valid()) ==> Valid()
    {
      var row := Single(Filter(list, HasRowId(rowId)));
      if row.Some? {
        assert row.value in list;
        var current := if row.value.quantity == 0.0 then 1.0 else row.value.quantity;
        var unit := items[row.value.itemId].unit;
        ghost var before := list;
        UpdateQuantity(rowId, current, unit, change);
        SameKeysKeepItems(before, list, items);
        QuantityOfTheRow(before, rowId, NewQuantity(current, unit, change), unit, items);
      } else if Valid() {
        NoRowWithId(list, rowId, nextId);
      }
    }

    /** The loop of the add-prices Save button: one `ArchiveOne` turn per entry of `bought`, in order. */
    method ArchiveTurns(bought: seq<Bought>)
      modifies this
      ensures Snapshot() == ArchiveAll(old(Snapshot()), bought)
      ensures items == old(items) && searchTerm == old(searchTerm) && boughtItems == old(boughtItems)
      ensures forall x :: x in list ==> x in old(list)
      ensures old(Valid()) ==> Valid()
    {
      for i := 0 to |bought|
        invariant Snapshot() == ArchiveAll(old(Snapshot()), bought[..i])
        invariant items == old(items) && searchTerm == old(searchTerm) && boughtItems == old(boughtItems)
      {
        ArchiveTurn(bought[i]);
        assert bought[..i + 1][..i] == bought[..i];
      }
      assert bought[..|bought|] == bought;
      ArchiveAllShrinks(old(Snapshot()), bought);
      if old(Valid()) {
        ArchiveAllKeepsInvariants(old(Snapshot()), bought);
      }
    }

    /**
     * The Save button of the add-prices panel: the turns over `boughtItems` as
     * last fetched, then the refetch of `boughtItems`.
     */
    method SavePrices(familyId: nat)
      requires ItemsKnown(list, items)
      modifies this
      ensures Snapshot() == ArchiveAll(old(Snapshot()), old(boughtItems))
      ensures ItemsKnown(list, items)
      ensures boughtItems == FetchBought(list, items, familyId)
      ensures items == old(items) && searchTerm == old(searchTerm)
      ensures old(Valid()) ==> Valid()
    {
      ArchiveTurns(boughtItems);
      FetchShoppingList(familyId);
    }
  }

  /** Before the insert, the list (with a bought duplicate already deleted) has no row for the item. */
  lemma NoRowForItemBeforeInsert(list: seq<ListRow>, existing: Option<ListRow>, familyId: nat, itemId: nat, nextId: nat)
    requires ListInvariant(list, nextId)
    requires existing == Single(RowsForItem(list, familyId, itemId))
    ensures var rest := if existing.Some? then WithoutRow(list, existing.value.id) else list;
            ListInvariant(rest, nextId)
            && forall y :: y in rest ==> y.id < nextId && !(y.familyId == familyId && y.itemId == itemId)
  {
    SingleFindsTheRow(list, familyId, itemId, nextId);
    var rows := RowsForItem(list, familyId, itemId);
    if existing.Some? {
      WithoutRowKeepsInvariant(list, existing.value.id, nextId);
      var e := existing.value;
      assert rows == [e];
      forall y | y in WithoutRow(list, e.id) ensures !(y.familyId == familyId && y.itemId == itemId) {
      }
    } else {
      assert |rows| == 0;
      forall y | y in list ensures !(y.familyId == familyId && y.itemId == itemId) {
      }
    }
  }

  /** Handing out an id keeps the history's ids below the next one. */
  lemma HistoryInvariantGrows(h: seq<HistoryRecord>, nextId: nat)
    requires HistoryInvariant(h, nextId)
    ensures HistoryInvariant(h, nextId + 1)
  {
  }

  /** Inserting the new row for an item, after deleting its bought row if there was one, keeps the list invariant. */
  lemma InsertRowKeepsInvariant(list: seq<ListRow>, existing: Option<ListRow>, row: ListRow, nextId: nat)
    requires ListInvariant(list, nextId)
    requires existing == Single(RowsForItem(list, row.familyId, row.itemId))
    requires row.id == nextId
    ensures ListInvariant((if existing.Some? then WithoutRow(list, existing.value.id) else list) + [row], nextId + 1)
  {
    var rest := if existing.Some? then WithoutRow(list, existing.value.id) else list;
    NoRowForItemBeforeInsert(list, existing, row.familyId, row.itemId, nextId);
    PairwiseSnoc(rest, row, DistinctRowIds);
    PairwiseSnoc(rest, row, DistinctItems);
  }
}
