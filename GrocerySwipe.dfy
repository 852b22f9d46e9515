/**
 * The swipe gestures of the grocery screen.  A list row swiped right past
 * 100 pixels is deleted, swiped left past 100 opens the buy panel; a history
 * record swiped left past 50 asks for confirmation to delete it (only an admin
 * can swipe history).  The drag start and the current touch position are
 * shared by both kinds of swipe, as in the screen.
 */
module GrocerySwipe {
  import opened Wrappers
  import opened GroceryList
  import opened GroceryStore
  import Seqs

  const ListMaxSwipe: int := 250
  const HistoryMaxSwipe: int := 100
  const ListThreshold: int := 100
  const HistoryThreshold: int := 50

  /** `Math.max(-m, Math.min(m, d))`. */
  function Clamp(d: int, m: int): (r: int)
    requires 0 <= m
    ensures -m <= r <= m
    ensures -m <= d <= m ==> r == d
    ensures d > m ==> r == m
    ensures d < -m ==> r == -m
  {
    if d > m then m else if d < -m then -m else d
  }

  /** Clamping never moves a value past another value's clamp. */
  lemma ClampMonotone(a: int, b: int, m: int)
    requires 0 <= m && a <= b
    ensures Clamp(a, m) <= Clamp(b, m)
  {
  }

  /** What releasing a list row does. */
  datatype ListRelease = DeleteRight | OpenBuy | SnapBack

  /** The decision of `handleSwipeEnd` for a list row dragged by `diff` pixels. */
  function ListReleaseOf(diff: int): (a: ListRelease)
    ensures a == DeleteRight <==> diff > ListThreshold
    ensures a == OpenBuy <==> diff < -ListThreshold
  {
    if diff > ListThreshold then DeleteRight else if diff < -ListThreshold then OpenBuy else SnapBack
  }

  /** A swipe shorter than the threshold either way does nothing to the row. */
  lemma ShortListSwipeSnapsBack(diff: int)
    requires -ListThreshold <= diff <= ListThreshold
    ensures ListReleaseOf(diff) == SnapBack
  {
  }

  function NotShownId(id: nat): Trended -> bool {
    (t: Trended) => t.record.id != id
  }

  /** `prev.filter(item => item.id !== id)` on the shown history. */
  function WithoutShown(shown: seq<Trended>, id: nat): (r: seq<Trended>)
    ensures forall t :: t in r <==> t in shown && t.record.id != id
  {
    Seqs.Filter(shown, NotShownId(id))
  }

  class SwipeState {
    var isDragging: bool
    var swipedItem: Option<nat>
    var swipeOffset: int
    var buyPrice: Option<real>
    var isHistoryDragging: bool
    var swipedHistoryItem: Option<nat>
    var historySwipeOffset: int
    var deleteConfirm: Option<HistoryRecord>
    var dragStartX: int
    var currentX: int
    /** The history as shown, with price trends. */
    var shown: seq<Trended>

    /** The offsets never leave the range a move can set. */
    ghost predicate Valid()
      reads this
    {
      -ListMaxSwipe <= swipeOffset <= ListMaxSwipe
      && -HistoryMaxSwipe <= historySwipeOffset <= HistoryMaxSwipe
    }

    constructor(shown: seq<Trended>)
      ensures !isDragging && swipedItem == None && swipeOffset == 0 && buyPrice == None
      ensures !isHistoryDragging && swipedHistoryItem == None && historySwipeOffset == 0 && deleteConfirm == None
      ensures dragStartX == 0 && currentX == 0 && this.shown == shown
      ensures Valid()
    {
      isDragging := false;
      swipedItem := None;
      swipeOffset := 0;
      buyPrice := None;
      isHistoryDragging := false;
      swipedHistoryItem := None;
      historySwipeOffset := 0;
      deleteConfirm := None;
      dragStartX := 0;
      currentX := 0;
      this.shown := shown;
    }

    /** `handleSwipeStart` on a list row. */
    method StartList(itemId: nat, clientX: int)
      modifies this
      ensures isDragging && swipedItem == Some(itemId)
      ensures dragStartX == clientX && currentX == clientX
      ensures swipeOffset == old(swipeOffset) && buyPrice == old(buyPrice)
      ensures isHistoryDragging == old(isHistoryDragging) && swipedHistoryItem == old(swipedHistoryItem)
      ensures historySwipeOffset == old(historySwipeOffset) && deleteConfirm == old(deleteConfirm)
      ensures shown == old(shown)
      ensures old(Valid()) ==> Valid()
    {
      isDragging := true;
      swipedItem := Some(itemId);
      dragStartX := clientX;
      currentX := clientX;
    }

    /** `handleSwipeMove` on a list row: the row follows the finger up to 250 pixels either way. */
    method MoveList(clientX: int)
      modifies this
      ensures !old(isDragging) ==> currentX == old(currentX) && swipeOffset == old(swipeOffset)
      ensures old(isDragging) ==> currentX == clientX && swipeOffset == Clamp(clientX - dragStartX, ListMaxSwipe)
      ensures isDragging == old(isDragging) && swipedItem == old(swipedItem) && dragStartX == old(dragStartX)
      ensures buyPrice == old(buyPrice)
      ensures isHistoryDragging == old(isHistoryDragging) && swipedHistoryItem == old(swipedHistoryItem)
      ensures historySwipeOffset == old(historySwipeOffset) && deleteConfirm == old(deleteConfirm)
      ensures shown == old(shown)
      ensures old(Valid()) ==> Valid()
    {
      if !isDragging {
        return;
      }
      currentX := clientX;
      swipeOffset := Clamp(clientX - dragStartX, ListMaxSwipe);
    }

    /** `resetSwipe`. */
    method ResetSwipe()
      modifies this
      ensures swipeOffset == 0 && swipedItem == None && buyPrice == None
      ensures isDragging == old(isDragging) && dragStartX == old(dragStartX) && currentX == old(currentX)
      ensures isHistoryDragging == old(isHistoryDragging) && swipedHistoryItem == old(swipedHistoryItem)
      ensures historySwipeOffset == old(historySwipeOffset) && deleteConfirm == old(deleteConfirm)
      ensures shown == old(shown)
      ensures old(Valid()) ==> Valid()
    {
      swipeOffset := 0;
      swipedItem := None;
      buyPrice := None;
    }

    /**
     * `handleSwipeEnd` on list row `item`: past the threshold to the right the
     * row is deleted from the store; past it to the left the buy panel opens
     * (offset -250, empty price); otherwise the row snaps back.
     */
    method EndList(item: ListRow, store: Store)
      modifies this, store
      ensures !old(isDragging) ==>
                isDragging == old(isDragging) && swipedItem == old(swipedItem)
                && swipeOffset == old(swipeOffset) && buyPrice == old(buyPrice)
                && store.list == old(store.list)
      ensures old(isDragging) ==>
                !isDragging
                && match ListReleaseOf(currentX - dragStartX)
                   case DeleteRight =>
                     store.list == WithoutRow(old(store.list), item.id)
                     && swipeOffset == 0 && swipedItem == None && buyPrice == None
                   case OpenBuy =>
                     store.list == old(store.list)
                     && swipeOffset == -ListMaxSwipe && swipedItem == old(swipedItem) && buyPrice == None
                   case SnapBack =>
                     store.list == old(store.list)
                     && swipeOffset == 0 && swipedItem == None && buyPrice == None
      ensures dragStartX == old(dragStartX) && currentX == old(currentX)
      ensures isHistoryDragging == old(isHistoryDragging) && swipedHistoryItem == old(swipedHistoryItem)
      ensures historySwipeOffset == old(historySwipeOffset) && deleteConfirm == old(deleteConfirm)
      ensures shown == old(shown)
      ensures store.history == old(store.history) && store.items == old(store.items)
      ensures store.nextId == old(store.nextId) && store.searchTerm == old(store.searchTerm)
      ensures store.boughtItems == old(store.boughtItems)
      ensures old(Valid()) ==> Valid()
      ensures old(store.Valid()) ==> store.Valid()
    {
      if !isDragging {
        return;
      }
      isDragging := false;
      var diff := currentX - dragStartX;
      match ListReleaseOf(diff)
      case DeleteRight =>
        store.DeleteRow(item.id);
        ResetSwipe();
      case OpenBuy =>
        swipeOffset := -ListMaxSwipe;
        buyPrice := None;
      case SnapBack =>
        ResetSwipe();
    }

    /** The buy panel's price field: `onChange` keeps what is typed (`None` for an empty field). */
    method OnPriceInput(p: Option<real>)
      modifies this
      ensures buyPrice == p
      ensures swipeOffset == old(swipeOffset) && swipedItem == old(swipedItem)
      ensures isDragging == old(isDragging) && dragStartX == old(dragStartX) && currentX == old(currentX)
      ensures isHistoryDragging == old(isHistoryDragging) && swipedHistoryItem == old(swipedHistoryItem)
      ensures historySwipeOffset == old(historySwipeOffset) && deleteConfirm == old(deleteConfirm)
      ensures shown == old(shown)
      ensures old(Valid()) ==> Valid()
    {
      buyPrice := p;
    }

    /** `completePurchase` from the buy panel: the row is marked bought with the typed price, and the swipe resets. */
    method CompletePurchase(item: ListRow, store: Store, userId: nat, now: int)
      modifies this, store
      ensures store.list == MarkBought(old(store.list), item.id, userId, now, old(buyPrice))
      ensures store.history == old(store.history) && store.items == old(store.items)
      ensures store.nextId == old(store.nextId) && store.searchTerm == old(store.searchTerm)
      ensures store.boughtItems == old(store.boughtItems)
      ensures swipeOffset == 0 && swipedItem == None && buyPrice == None
      ensures isDragging == old(isDragging) && dragStartX == old(dragStartX) && currentX == old(currentX)
      ensures isHistoryDragging == old(isHistoryDragging) && swipedHistoryItem == old(swipedHistoryItem)
      ensures historySwipeOffset == old(historySwipeOffset) && deleteConfirm == old(deleteConfirm)
      ensures shown == old(shown)
      ensures old(Valid()) ==> Valid()
      ensures old(store.Valid()) ==> store.Valid()
    {
      store.CompletePurchase(item.id, userId, now, buyPrice);
      ResetSwipe();
    }

    /** `handleSwipeStart` on a history record; the screen wires it only for an admin. */
    method StartHistory(itemId: nat, clientX: int, isAdmin: bool)
      modifies this
      ensures !isAdmin ==> isHistoryDragging == old(isHistoryDragging) && swipedHistoryItem == old(swipedHistoryItem)
                           && dragStartX == old(dragStartX) && currentX == old(currentX)
      ensures isAdmin ==> isHistoryDragging && swipedHistoryItem == Some(itemId)
                          && dragStartX == clientX && currentX == clientX
      ensures historySwipeOffset == old(historySwipeOffset) && deleteConfirm == old(deleteConfirm)
      ensures isDragging == old(isDragging) && swipedItem == old(swipedItem)
      ensures swipeOffset == old(swipeOffset) && buyPrice == old(buyPrice)
      ensures shown == old(shown)
      ensures old(Valid()) ==> Valid()
    {
      if !isAdmin {
        return;
      }
      isHistoryDragging := true;
      swipedHistoryItem := Some(itemId);
      dragStartX := clientX;
      currentX := clientX;
    }

    /** `handleSwipeMove` on a history record: up to 100 pixels either way. */
    method MoveHistory(clientX: int, isAdmin: bool)
      modifies this
      ensures !(isAdmin && old(isHistoryDragging)) ==>
                currentX == old(currentX) && historySwipeOffset == old(historySwipeOffset)
      ensures isAdmin && old(isHistoryDragging) ==>
                currentX == clientX && historySwipeOffset == Clamp(clientX - dragStartX, HistoryMaxSwipe)
      ensures isHistoryDragging == old(isHistoryDragging) && swipedHistoryItem == old(swipedHistoryItem)
      ensures dragStartX == old(dragStartX) && deleteConfirm == old(deleteConfirm)
      ensures isDragging == old(isDragging) && swipedItem == old(swipedItem)
      ensures swipeOffset == old(swipeOffset) && buyPrice == old(buyPrice)
      ensures shown == old(shown)
      ensures old(Valid()) ==> Valid()
    {
      if !isAdmin || !isHistoryDragging {
        return;
      }
      currentX := clientX;
      historySwipeOffset := Clamp(clientX - dragStartX, HistoryMaxSwipe);
    }

    /**
     * `handleSwipeEnd` on history record `item`: past the threshold to the left
     * the record waits for confirmation; either way the record snaps back.
     */
    method EndHistory(item: HistoryRecord, isAdmin: bool)
      modifies this
      ensures !(isAdmin && old(isHistoryDragging)) ==>
                isHistoryDragging == old(isHistoryDragging) && swipedHistoryItem == old(swipedHistoryItem)
                && historySwipeOffset == old(historySwipeOffset) && deleteConfirm == old(deleteConfirm)
      ensures isAdmin && old(isHistoryDragging) ==>
                !isHistoryDragging && historySwipeOffset == 0 && swipedHistoryItem == None
                && deleteConfirm == (if currentX - dragStartX < -HistoryThreshold then Some(item) else old(deleteConfirm))
      ensures dragStartX == old(dragStartX) && currentX == old(currentX)
      ensures isDragging == old(isDragging) && swipedItem == old(swipedItem)
      ensures swipeOffset == old(swipeOffset) && buyPrice == old(buyPrice)
      ensures shown == old(shown)
      ensures old(Valid()) ==> Valid()
    {
      if !isAdmin || !isHistoryDragging {
        return;
      }
      isHistoryDragging := false;
      var diff := currentX - dragStartX;
      if diff < -HistoryThreshold {
        deleteConfirm := Some(item);
      }
      historySwipeOffset := 0;
      swipedHistoryItem := None;
    }

    /**
     * `confirmDeleteHistory`: the record awaiting confirmation leaves the
     * history table and the shown history; without one nothing happens.
     */
    method ConfirmDeleteHistory(store: Store)
      modifies this, store
      ensures old(deleteConfirm).None? ==>
                store.history == old(store.history) && shown == old(shown) && deleteConfirm == None
      ensures old(deleteConfirm).Some? ==>
                var id := old(deleteConfirm).value.id;
                store.history == WithoutRecord(old(store.history), id)
                && shown == WithoutShown(old(shown), id)
                && deleteConfirm == None
      ensures store.list == old(store.list) && store.items == old(store.items)
      ensures store.nextId == old(store.nextId) && store.searchTerm == old(store.searchTerm)
      ensures store.boughtItems == old(store.boughtItems)
      ensures isDragging == old(isDragging) && swipedItem == old(swipedItem)
      ensures swipeOffset == old(swipeOffset) && buyPrice == old(buyPrice)
      ensures isHistoryDragging == old(isHistoryDragging) && swipedHistoryItem == old(swipedHistoryItem)
      ensures historySwipeOffset == old(historySwipeOffset)
      ensures dragStartX == old(dragStartX) && currentX == old(currentX)
      ensures old(Valid()) ==> Valid()
      ensures old(store.Valid()) ==> store.Valid()
    {
      if deleteConfirm.None? {
        return;
      }
      var id := deleteConfirm.value.id;
      store.DeleteRecord(id);
      shown := WithoutShown(shown, id);
      deleteConfirm := None;
    }
  }
}
