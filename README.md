# FamPulse core, modelled in Dafny

FamPulse is a family organiser: a shared grocery list with a purchase
history and price trends, a family tree and member management (roles admin,
admin_lite and kid), invitations and joining by invite code, countdowns to
birthdays, anniversaries and other events, and a month calendar for milk
deliveries. All of it is a React front end over a hosted database.

The model keeps the decision and derivation logic of those screens and hooks.
The remote tables become in-memory sequences of rows held in two store
classes:

- `FamilyTables.Db` holds the families, profiles and memberships.
- `GroceryStore.Store` holds the shopping list, its history and the item
  catalogue.

Each handler that reads and writes those tables is a method on the store. Its
effect is stated as a function of the tables before the call. Where a handler
checks whether a query failed, the failure enters as an explicit parameter:
`Option<string>` for the error message, or `bool` for "it failed". The grocery
writes do not check, and are modelled as always succeeding (see "Left out"). The clock enters as an integer `now`, in milliseconds.
Calendar dates follow the ECMAScript `Date` arithmetic, including the way
`new Date(y, m, d)` normalises an out-of-range month or day (`Calendar`).

Modules, in the program's structure:

- Shared modules:
  - `Wrappers`, `Text`, `Seqs`, `Sorting`: options, string operations,
    filters, `.single()` lookups and a stable sort by key.
  - `Calendar`: day numbers, civil dates, weekdays, and rolling a date to its
    next yearly occurrence.
  - `FamilyModel`: roles, profiles and members; looking up a member's role
    and spouse; display names.
  - `FamilyTables`: the family and membership tables and what one write
    does to them.
- Grocery list:
  - `GroceryList`: quantity steps, title case, price trends, the default
    quantity, the all-items filter and the history total.
  - `GroceryStore`: the list and history tables, `addToList`,
    `updateQuantity`, `completePurchase`, deletes and the add-prices save
    loop.
  - `GrocerySwipe`: the swipe-gesture state of list rows and history rows.
- Family screens:
  - `FamilyDashboard`: the family tree walk, the flat view and the upcoming
    events.
  - `FamilyManagement`: the management rule, the controls on member rows,
    the invite message and renaming.
  - `FamilyDashboardOld`: the older copy of the management rule and of
    invite sharing.
  - `AddMemberModal`: phone cleaning, the search and add handlers, and the
    role options.
  - `JoinFamily`: the join-by-code form.
  - `UseFamily`: the `useFamily` hook.
- Other screens:
  - `Countdowns`: the countdowns screen.
  - `MilkDelivery`: the month calendar.

## Model

| member | source | states |
|---|---|---|
| Text.Upper | src/components/family/JoinFamily.jsx:21 | `toUpperCase`: same length, each character upper-cased (ASCII letters only) |
| Text.UpperIdempotent | src/components/family/JoinFamily.jsx:88 | upper-casing an already upper-cased code changes nothing |
| Text.Lower | src/components/groceries/GroceryList.jsx:244 | `toLowerCase`: same length, each character lower-cased (ASCII) |
| Text.LowerChar | src/components/groceries/GroceryList.jsx:244 | never an upper-case letter: an upper-case ASCII letter becomes its lower-case letter, any other character is kept |
| Text.UpperChar | src/components/groceries/GroceryList.jsx:244 | never a lower-case letter: a lower-case ASCII letter becomes its upper-case letter, any other character is kept |
| Text.CaseKeepsSpaces | src/components/groceries/GroceryList.jsx:243-245 | case mapping sends a space to a space and nothing else to a space; lower-casing after upper-casing gives the lower-case letter back |
| Text.Trim | src/components/family/JoinFamily.jsx:21 | `trim()`: a contiguous piece of the input, everything before and after it white space, and no white space at either of its ends, so the piece is fixed; empty exactly when the input is blank. White space is the ECMAScript set: tab, vertical tab, form feed, byte-order mark, every Unicode space separator (Zs) and the four line terminators |
| Text.TrimIdempotent | src/components/family/JoinFamily.jsx:21 | trimming twice is trimming once |
| Text.FirstWord | src/components/countdowns/Countdowns.jsx:47 | `split(' ')[0]`: a prefix of the name with no space in it, ending at the first space |
| Text.NatToString | src/components/countdowns/Countdowns.jsx:166 | decimal digits whose value (`DecimalValue`, read most significant digit first) is the number, with no leading zero |
| Text.NatToStringInjective | src/components/countdowns/Countdowns.jsx:166 | different numbers are printed differently |
| Seqs.Single | src/components/family/JoinFamily.jsx:18-31 | `.single()`: a row exactly when the query matched exactly one row, and then that row |
| Seqs.Filter | src/components/countdowns/Countdowns.jsx:37 | `filter`: keeps exactly the elements that satisfy the predicate and is no longer than the input (the order is proved by FilterConcat and FilterPairwise) |
| Seqs.FilterConcat | src/components/countdowns/Countdowns.jsx:37 | filtering a concatenation filters each part and joins them, so kept elements keep their relative order |
| Seqs.FilterPairwise | src/components/countdowns/Countdowns.jsx:37 | a relation that holds between every element and each later one still holds in the filtered list: what is kept keeps its order |
| Sorting.SortBy | src/components/countdowns/Countdowns.jsx:95 | `sort` by a key: ascending by the key, and a permutation of the input |
| Sorting.SortByStable | src/components/countdowns/Countdowns.jsx:95 | the sort is stable: for every key value, the elements with that key come out in their input order |
| Sorting.SortByMembers | src/components/family/FamilyDashboard.jsx:72 | an element is in the sorted list exactly when it is in the input |
| Calendar.MonthLength | src/components/milk/MilkDelivery.jsx:11 | a month has 28 to 31 days |
| Calendar.CivilOf | src/components/milk/MilkDelivery.jsx:8-10 | reading a day number back as year, month and day gives a valid date that names that day |
| Calendar.CivilOfDayNumber | src/components/countdowns/Countdowns.jsx:39-44 | a valid date reads back as itself after conversion to a day number |
| Calendar.DayNumberInjective | src/components/countdowns/Countdowns.jsx:39-44 | two valid dates with the same day number are the same date |
| Calendar.Weekday | src/components/milk/MilkDelivery.jsx:10 | `getDay()`: a weekday in 0..6, with 1 January 1970 a Thursday |
| Calendar.WeekdayNext | src/components/milk/MilkDelivery.jsx:45-47 | the next day has the next weekday, and a week later has the same weekday |
| Calendar.MidnightReadsBack | src/components/milk/MilkDelivery.jsx:18-19 | `new Date(y, m, d)` of a valid date is a midnight, and that instant reads back as that date |
| Calendar.NextOccurrence | src/components/countdowns/Countdowns.jsx:39-44 | the rolled date is never before now and less than 366 days after it |
| Calendar.NextOccurrenceBounds | src/components/countdowns/Countdowns.jsx:39-44 | this year's occurrence, when not before now, is less than 366 days ahead; when it is before now, next year's is from now to less than 366 days ahead |
| Calendar.NextOccurrenceSameDay | src/components/countdowns/Countdowns.jsx:39-44 | away from 29 February, the rolled date falls on the same month and day, this year or (exactly when this year's is past) next year |
| Calendar.OccurrenceYear | src/components/countdowns/Countdowns.jsx:40 | the occurrence of a date's month and day in year y lies in year y |
| FamilyModel.IsManager | src/components/family/FamilyManagement.jsx:132 | the manager gate: true exactly for admin and admin_lite |
| FamilyModel.FindByUser | src/components/family/FamilyManagement.jsx:33 | `find(m => m.user_id === id)`: none exactly when no member has that user id, else a member with that user id |
| FamilyModel.FindByUserFindsMember | src/components/family/FamilyManagement.jsx:33 | with one row per user, looking up a member's user id finds that member |
| FamilyModel.CurrentUserRole | src/components/family/FamilyDashboard.jsx:32 | undefined exactly when the user is not among the members, else the role of a member row of theirs |
| FamilyModel.CurrentUserRoleOfMember | src/components/family/FamilyManagement.jsx:33 | with one row per user, the current role is that user's row's role |
| FamilyModel.DisplayName | src/components/countdowns/Countdowns.jsx:47 | `nickname \|\| full_name?.split(' ')[0]`: the nickname when truthy, else a space-free prefix of the full name, absent exactly when there is no full name |
| FamilyModel.FindSpouse | src/components/family/FamilyDashboard.jsx:139 | a spouse is found exactly when the spouse id names a member, and it is that member |
| FamilyModel.SpouseOfSpouse | src/components/countdowns/Countdowns.jsx:67 | with mutual spouse links and one row per user, the spouse found for a member's spouse is the member |
| FamilyModel.SameUserSameMember | src/components/countdowns/Countdowns.jsx:67 | with one row per user, two members with one user id are the same member |
| FamilyModel.OpensContact | src/components/family/FamilyDashboard.jsx:105 | tapping a member opens the contact card when the member has a truthy phone and is not the viewer |
| FamilyModel.HeartJoinSplits | src/components/countdowns/Countdowns.jsx:108 | a "a ❤️ b" title splits back into its two names when the first name holds no heart |
| FamilyTables.MembershipsOf | src/components/family/JoinFamily.jsx:34-39 | the rows of one user in one family, exactly |
| FamilyTables.SingleMembership | src/components/family/JoinFamily.jsx:34-44 | with one row per user, the membership check finds a row exactly when the user has one in the family |
| FamilyTables.SingleFamily | src/components/family/AddMemberModal.jsx:108-112 | with unique family ids, reading a family by id finds that family |
| FamilyTables.SetRole | src/hooks/useFamily.jsx:149-152 | `.update({ role }).eq('id', id)`: the row with that id gets the role, every other row is untouched |
| FamilyTables.SetRoleOnlyThatRow | src/hooks/useFamily.jsx:149-152 | after the update a row differs from before only if it has that id, and then only in its role |
| FamilyTables.SetRoleTwice | src/hooks/useFamily.jsx:149-152 | two role updates of one row leave what the second alone would |
| FamilyTables.SetRoleKeepsInvariant | src/hooks/useFamily.jsx:149-152 | a role update keeps the ids unique and one row per user per family |
| FamilyTables.WithoutMembership | src/hooks/useFamily.jsx:168-171 | `.delete().eq('id', id)`: exactly the rows with other ids remain |
| FamilyTables.WithoutMembershipKept | src/hooks/useFamily.jsx:168-171 | deleting a missing id changes nothing, and deleting twice is deleting once |
| FamilyTables.WithoutMembershipKeepsInvariant | src/hooks/useFamily.jsx:168-171 | a delete keeps the ids unique and one row per user per family |
| FamilyTables.InsertKeepsInvariant | src/hooks/useFamily.jsx:126-135 | appending a row with the next id keeps every id unique and below the counter |
| FamilyTables.InsertKeepsOneRowPerUser | src/components/family/JoinFamily.jsx:47-58 | appending a row for a user with no row in that family keeps one row per user per family |
| FamilyTables.Db.constructor | src/hooks/useFamily.jsx:7-11 | empty tables over the given profiles, satisfying the invariant |
| FamilyTables.Db.InsertFamily | src/hooks/useFamily.jsx:89-98 | one family row appended with the next id and the creator; nothing else changes; the invariant is kept |
| FamilyTables.Db.InsertMembership | src/hooks/useFamily.jsx:103-112 | one membership row appended with the next id and the given role and `added_by`; nothing else changes |
| FamilyTables.Db.UpdateRole | src/hooks/useFamily.jsx:149-152 | the memberships become `SetRole` of the old ones; nothing else changes; the invariant is kept |
| FamilyTables.Db.DeleteMembership | src/hooks/useFamily.jsx:168-171 | the memberships become `WithoutMembership` of the old ones; nothing else changes; the invariant is kept |
| GroceryList.Step | src/components/groceries/GroceryList.jsx:234-236 | the step is 0.25 for kgs, 0.5 for liters and dozens, 1 otherwise |
| GroceryList.NewQuantity | src/components/groceries/GroceryList.jsx:238 | `Math.max(step, current + change * step)`: never below one step, and exactly the stepped value when that is at least one step |
| GroceryList.StepKeepsGrid | src/components/groceries/GroceryList.jsx:233-241 | from a whole number of steps, a change lands on a whole number of steps |
| GroceryList.ApplyChanges | src/components/groceries/GroceryList.jsx:233-241 | a run of +/- presses applied one after the other from a quantity (ApplyChangesStaysOnGrid proves that the result stays on the step grid) |
| GroceryList.ApplyChangesStaysOnGrid | src/components/groceries/GroceryList.jsx:233-241 | any sequence of +/- presses from a quantity on the step grid stays on the grid and at least one step |
| GroceryList.Split | src/components/groceries/GroceryList.jsx:244 | `split(' ')`: always at least one piece |
| GroceryList.SplitPiecesHaveNoSpace | src/components/groceries/GroceryList.jsx:244 | no piece of the split contains a space |
| GroceryList.JoinSplit | src/components/groceries/GroceryList.jsx:244 | joining the pieces with spaces gives back the string |
| GroceryList.Capitalize | src/components/groceries/GroceryList.jsx:244 | `word.charAt(0).toUpperCase() + word.slice(1)`: same length, first character upper-cased, the rest kept |
| GroceryList.ToTitleCase | src/components/groceries/GroceryList.jsx:243-245 | same length, and each character is upper-cased at the start of a word and lower-cased elsewhere |
| GroceryList.CapitalizeWords | src/components/groceries/GroceryList.jsx:244 | same length; a character is upper-cased at the start of the text or after a space and kept elsewhere |
| GroceryList.JoinCapitalizeSplit | src/components/groceries/GroceryList.jsx:244 | the split-map-join pipeline equals capitalising the first character of every word in place |
| GroceryList.TitleString | src/components/groceries/GroceryList.jsx:243-245 | the reference title-case: each character by its position after a space or the start |
| GroceryList.TitleCaseIsTitleString | src/components/groceries/GroceryList.jsx:243-245 | `toTitleCase` equals the reference definition |
| GroceryList.TitleStringKeepsSpaces | src/components/groceries/GroceryList.jsx:243-245 | title case puts spaces exactly where the input has them |
| GroceryList.TitleCaseIdempotent | src/components/groceries/GroceryList.jsx:253 | title-casing the title-cased text changes nothing, as the per-keystroke and on-save calls rely on |
| GroceryList.TitleCaseKeepsWords | src/components/groceries/GroceryList.jsx:779 | title case keeps the number of space-separated words |
| GroceryList.SameSpacesSameWords | src/components/groceries/GroceryList.jsx:243-245 | strings with spaces at the same places split into the same number of words |
| GroceryList.FindPrev | src/components/groceries/GroceryList.jsx:171 | the first position at or after `from` holding a record of that name with a truthy price, and none exactly when there is no such position |
| GroceryList.TrendAt | src/components/groceries/GroceryList.jsx:167-177 | a trend exactly when the record has a price and an older priced record of its name exists, and then its price minus the nearest such record's price |
| GroceryList.Trends | src/components/groceries/GroceryList.jsx:167-177 | one entry per record, in the same order, each carrying its record and, exactly when the record is priced and an older priced record of its name exists, the trend against the nearest such record |
| GroceryList.DefaultQuantity | src/components/groceries/GroceryList.jsx:200 | the latest purchased quantity when truthy, else 0.5 for dozens and 1 otherwise |
| GroceryList.DefaultOnGrid | src/components/groceries/GroceryList.jsx:200 | without a history quantity, the default is a positive whole number of steps |
| GroceryList.NotListed | src/components/groceries/GroceryList.jsx:910 | the all-items panel shows exactly the catalogue items that no row of the current list refers to |
| GroceryList.Total | src/components/groceries/GroceryList.jsx:1324 | `reduce` of the prices with 0 for a missing one; TotalConcat and HiddenTotalIsZero relate it to splitting the list and to the hidden Total line |
| GroceryList.ShowTotal | src/components/groceries/GroceryList.jsx:1319 | the Total line is shown exactly when some record has a truthy price |
| GroceryList.TotalConcat | src/components/groceries/GroceryList.jsx:1324 | the total price of two runs of records is the sum of their totals |
| GroceryList.HiddenTotalIsZero | src/components/groceries/GroceryList.jsx:1319 | when no record has a price (the total is hidden) the sum is 0 |
| GroceryStore.WithoutRow | src/components/groceries/GroceryList.jsx:363-366 | deleting a list row leaves exactly the rows with other ids |
| GroceryStore.DropUnpriced | src/components/groceries/GroceryList.jsx:653-659 | exactly the unpriced records of this purchase are removed |
| GroceryStore.SetPrice | src/components/groceries/GroceryList.jsx:670-676 | the record with that id gets the price, every other record is untouched |
| GroceryStore.WithoutRecord | src/components/groceries/GroceryList.jsx:530-536 | deleting a history record leaves exactly the records with other ids |
| GroceryStore.WithoutRecordKeepsInvariant | src/components/groceries/GroceryList.jsx:530-536 | a record delete keeps the history ids unique and every purchase priced at most once |
| GroceryStore.Newest | src/components/groceries/GroceryList.jsx:191-198 | `order('bought_at', desc).limit(1)`: a record with the latest purchase time, present exactly when there are records |
| GroceryStore.LatestQuantity | src/components/groceries/GroceryList.jsx:191-198 | the quantity of a most recent record of that item name in the family, absent exactly when there is none |
| GroceryStore.DropUnpricedKeepsInvariant | src/components/groceries/GroceryList.jsx:653-659 | dropping the unpriced records keeps the invariant and leaves at most one record of the purchase |
| GroceryStore.ArchiveOneMovesPurchase | src/components/groceries/GroceryList.jsx:643-693 | after a priced turn the purchase has exactly one history record, carrying the row's current price; other purchases' records are untouched; exactly the row leaves the list; the history invariant holds |
| GroceryStore.ArchiveOneSkipsUnpriced | src/components/groceries/GroceryList.jsx:651 | a turn for a row without a truthy price changes nothing |
| GroceryStore.ArchiveOneKeepsInvariants | src/components/groceries/GroceryList.jsx:643-693 | one turn keeps both tables' invariants, never lowers the id counter, and removes at most the turn's own row |
| GroceryStore.ArchiveAllKeepsInvariants | src/components/groceries/GroceryList.jsx:644-689 | the whole loop keeps both invariants, only removes rows, and keeps every row no turn was about |
| GroceryStore.SetQuantity | src/components/groceries/GroceryList.jsx:239 | the row with that id gets the quantity, every other row is untouched |
| GroceryStore.MarkBought | src/components/groceries/GroceryList.jsx:368-380 | the row with that id becomes bought by the buyer at now with the price, every other row is untouched |
| GroceryStore.SingleFindsTheRow | src/components/groceries/GroceryList.jsx:203-208 | with the list invariant, a family never has more than one row for an item, so `maybeSingle` finds it whenever it exists |
| GroceryStore.NoRowForItemBeforeInsert | src/components/groceries/GroceryList.jsx:210-219 | after a bought duplicate is deleted, the list has no row for the item |
| GroceryStore.InsertRowKeepsInvariant | src/components/groceries/GroceryList.jsx:221-226 | the insert after that keeps row ids unique and one row per item per family |
| GroceryStore.Turn | src/components/groceries/GroceryList.jsx:645-687 | the queries of one loop turn have exactly the effect `ArchiveOne` states |
| GroceryStore.Store.constructor | src/components/groceries/GroceryList.jsx:182 | empty list and history over the given catalogue, satisfying the invariants |
| GroceryStore.Store.AddToList | src/components/groceries/GroceryList.jsx:182-231 | unknown item: nothing written; an unbought row of the item: no write, search cleared; otherwise any bought row is replaced by one unbought row with the default quantity; the invariants are kept, so there is never a second row for the item |
| GroceryStore.SetRowPrice | src/components/groceries/GroceryList.jsx:628-634 | the row with that id gets the typed price, every other row is untouched |
| GroceryStore.SetRowPriceFilter | src/components/groceries/GroceryList.jsx:628-634 | looking rows up by id after setting a price gives the looked-up rows with the price set |
| GroceryStore.SetRowPriceConcat | src/components/groceries/GroceryList.jsx:628-634 | setting a price distributes over concatenation |
| GroceryStore.OneRowPerId | src/components/groceries/GroceryList.jsx:645-649 | with unique row ids, at most one row has a given id |
| GroceryStore.RowPriceReadsBack | src/components/groceries/GroceryList.jsx:628-649 | after a price is typed for a row on the list, the save loop's `.single()` read returns exactly that price |
| GroceryStore.RowPriceLeavesOthers | src/components/groceries/GroceryList.jsx:628-634 | typing a price for one row leaves the price the save loop reads for every other row |
| GroceryStore.SetRowPriceKeepsInvariant | src/components/groceries/GroceryList.jsx:628-634 | typing a price keeps row ids unique and one row per item per family |
| GroceryStore.PricedRowIsArchived | src/components/groceries/GroceryList.jsx:628-687 | a row on the list given a non-zero price is archived by its turn: its purchase ends with one record carrying that price, and the row leaves the list |
| GroceryStore.JoinItems | src/components/groceries/GroceryList.jsx:123-133 | each fetched row is paired with its catalogue item's name and unit, in order |
| GroceryStore.FetchBought | src/components/groceries/GroceryList.jsx:123-135 | `boughtItems` holds exactly the family's bought rows with no price, each with its item, sorted latest purchase first, one entry per row |
| GroceryStore.ListedItemIds | src/components/groceries/GroceryList.jsx:910 | an item id is listed exactly when some unbought row of the family refers to it |
| GroceryStore.AllItemsPanel | src/components/groceries/GroceryList.jsx:910 | the "all items" panel shows exactly the catalogue items that no unbought row of the family refers to |
| GroceryStore.ArchiveAllShrinks | src/components/groceries/GroceryList.jsx:644-689 | the save loop keeps only rows that were on the list |
| GroceryStore.SameKeysKeepItems | src/components/groceries/GroceryList.jsx:123-133 | an update that keeps every row's item keeps every row joined to a catalogue item |
| GroceryStore.QuantityOfTheRow | src/components/groceries/GroceryList.jsx:1165-1185 | after the +/- update, the row with that id holds a quantity of at least one step of its own item's unit |
| GroceryStore.NoRowWithId | src/components/groceries/GroceryList.jsx:645-649 | with unique ids, a missing `.single()` row means no row has the id |
| GroceryStore.Store.FetchShoppingList | src/components/groceries/GroceryList.jsx:107-136 | `boughtItems` becomes `FetchBought` of the tables; the tables are untouched |
| GroceryStore.Store.EnterPrice | src/components/groceries/GroceryList.jsx:628-634 | an empty price field writes nothing; a typed price becomes the row's price (`SetRowPrice`); nothing else changes, and the invariants are kept |
| GroceryStore.Store.QuantityButton | src/components/groceries/GroceryList.jsx:1165-1185 | the row's own quantity (1 when zero) and its item's unit go to `updateQuantity`; a row no longer on the list changes nothing; the row ends at least one step |
| GroceryStore.Store.UpdateQuantity | src/components/groceries/GroceryList.jsx:233-241 | only that row's quantity changes, to `NewQuantity`, at least one step; the invariants are kept |
| GroceryStore.Store.CompletePurchase | src/components/groceries/GroceryList.jsx:368-380 | the list becomes `MarkBought` of the old list; the history is untouched; the invariants are kept |
| GroceryStore.Store.DeleteRow | src/components/groceries/GroceryList.jsx:363-366 | the list becomes `WithoutRow` of the old list; nothing else changes |
| GroceryStore.Store.DeleteRecord | src/components/groceries/GroceryList.jsx:530-536 | the history becomes `WithoutRecord` of the old history; nothing else changes |
| GroceryStore.Store.ArchiveTurn | src/components/groceries/GroceryList.jsx:645-687 | the tables become `ArchiveOne` of the old tables |
| GroceryStore.Store.ArchiveTurns | src/components/groceries/GroceryList.jsx:644-689 | the tables become `ArchiveAll` of the old tables, the turns in order; only rows that were on the list remain; the invariants are kept |
| GroceryStore.Store.SavePrices | src/components/groceries/GroceryList.jsx:643-692 | the tables become `ArchiveAll` of the old tables over the `boughtItems` fetched before, the turns in order; then `boughtItems` is refetched; the invariants are kept |
| GrocerySwipe.Clamp | src/components/groceries/GroceryList.jsx:314-315 | `Math.max(-m, Math.min(m, d))`: within [-m, m], d itself when inside, the nearer bound otherwise |
| GrocerySwipe.ClampMonotone | src/components/groceries/GroceryList.jsx:314-315 | clamping preserves order |
| GrocerySwipe.ListReleaseOf | src/components/groceries/GroceryList.jsx:339-350 | delete exactly when dragged more than 100 right, open the buy panel exactly when more than 100 left |
| GrocerySwipe.ShortListSwipeSnapsBack | src/components/groceries/GroceryList.jsx:348-350 | a swipe of at most 100 either way snaps back |
| GrocerySwipe.WithoutShown | src/components/groceries/GroceryList.jsx:534 | the shown history keeps exactly the records with other ids |
| GrocerySwipe.SwipeState.constructor | src/components/groceries/GroceryList.jsx:292-304 | nothing dragged, offsets zero, no confirmation pending |
| GrocerySwipe.SwipeState.StartList | src/components/groceries/GroceryList.jsx:292-304 | dragging that row, start and current X at the touch; the history swipe untouched |
| GrocerySwipe.SwipeState.MoveList | src/components/groceries/GroceryList.jsx:306-321 | nothing unless dragging; then the offset is the drag clamped to [-250, 250] |
| GrocerySwipe.SwipeState.ResetSwipe | src/components/groceries/GroceryList.jsx:357-361 | offset 0, no swiped row, no price; the rest untouched |
| GrocerySwipe.SwipeState.EndList | src/components/groceries/GroceryList.jsx:323-350 | nothing unless dragging; then past 100 right exactly that row is deleted and the swipe reset, past 100 left the offset is -250 and the price cleared with no write, otherwise the offset returns to 0 with no write |
| GrocerySwipe.SwipeState.OnPriceInput | src/components/groceries/GroceryList.jsx:1059-1060 | the buy panel's price becomes what is typed (none for an empty field); nothing else changes |
| GrocerySwipe.SwipeState.CompletePurchase | src/components/groceries/GroceryList.jsx:368-380 | the row is marked bought with the price held in the buy panel, and the swipe resets |
| GrocerySwipe.SwipeState.StartHistory | src/components/groceries/GroceryList.jsx:1275-1281 | for an admin, dragging that record; for anyone else nothing changes |
| GrocerySwipe.SwipeState.MoveHistory | src/components/groceries/GroceryList.jsx:306-321 | nothing unless an admin is dragging a record; then the offset is the drag clamped to [-100, 100] |
| GrocerySwipe.SwipeState.EndHistory | src/components/groceries/GroceryList.jsx:323-338 | past 50 left the record awaits confirmation; the offset returns to 0 and the drag ends |
| GrocerySwipe.SwipeState.ConfirmDeleteHistory | src/components/groceries/GroceryList.jsx:530-536 | with a pending record, exactly it leaves the history table and the shown history; without one nothing happens |
| FamilyDashboard.Roots | src/components/family/FamilyDashboard.jsx:125-132 | a member is a root exactly when they have no parent and no member with a parent names them as spouse |
| FamilyDashboard.Children | src/components/family/FamilyDashboard.jsx:142-145 | exactly the members whose father or mother is the member or their spouse |
| FamilyDashboard.TreeRenderer.constructor | src/components/family/FamilyDashboard.jsx:122 | an empty `rendered` set over the members |
| FamilyDashboard.TreeRenderer.RenderGeneration | src/components/family/FamilyDashboard.jsx:134-169 | every node drawn was not rendered before; `rendered` grows by exactly the drawn members; each node is its member, that member's spouse, and the children's subtrees; with mutual spouse links no member is drawn twice; it terminates because each descent adds a new member to `rendered` |
| FamilyDashboard.TreeRenderer.RenderMember | src/components/family/FamilyDashboard.jsx:136-163 | a member already rendered draws nothing; otherwise the member and spouse are marked and drawn in one node, with their children below |
| FamilyDashboard.RenderFamilyTree | src/components/family/FamilyDashboard.jsx:121-172 | the walk starts from the roots with an empty `rendered` set; every top node is a root; with mutual spouse links each member is drawn at most once |
| FamilyDashboard.FlatTile | src/components/family/FamilyDashboard.jsx:286-299 | a member with a spouse of smaller user id is skipped; otherwise a couple tile with the spouse, or a solo tile |
| FamilyDashboard.FlatTiles | src/components/family/FamilyDashboard.jsx:286-299 | the tiles are exactly those of the listed members that are not skipped |
| FamilyDashboard.CoupleUnderSmallerId | src/components/family/FamilyDashboard.jsx:287 | with mutual spouse links, a couple is shown under the partner with the smaller user id and not under the other |
| FamilyDashboard.FlatViewShowsEachOnce | src/components/family/FamilyDashboard.jsx:286-299 | with mutual spouse links and one row per user, every member appears in exactly one tile |
| FamilyDashboard.DaysToNext | src/components/family/FamilyDashboard.jsx:40-44 | whole days to the next occurrence, at most 365 |
| FamilyDashboard.DatedAll | src/components/family/FamilyDashboard.jsx:39-56 | what the pass reads of each member, one record per member in order |
| FamilyDashboard.PushedPrefix | src/components/family/FamilyDashboard.jsx:39-56 | one member's pass appends at most two lines and changes none before |
| FamilyDashboard.PushedWithin | src/components/family/FamilyDashboard.jsx:45 | a member's pass appends only lines between today and 30 days ahead |
| FamilyDashboard.PushedNames | src/components/family/FamilyDashboard.jsx:54 | a member's anniversary line never repeats the name of an earlier line |
| FamilyDashboard.MemberEventsWithin | src/components/family/FamilyDashboard.jsx:39-56 | every member line is a birthday or anniversary 0..30 days away |
| FamilyDashboard.AnniversaryNamesNotRepeated | src/components/family/FamilyDashboard.jsx:47-55 | no anniversary line has the name of a line before it |
| FamilyDashboard.MemberEventsGrow | src/components/family/FamilyDashboard.jsx:39-56 | the lines of the first members are a prefix of all the lines |
| FamilyDashboard.BirthdaysListed | src/components/family/FamilyDashboard.jsx:40-46 | every member whose birthday is at most 30 days away has a birthday line |
| FamilyDashboard.AnniversariesListed | src/components/family/FamilyDashboard.jsx:47-55 | every member whose anniversary is at most 30 days away has a line with the couple's name: the anniversary line itself, unless an earlier line already has that name |
| FamilyDashboard.PrefixListed | src/components/family/FamilyDashboard.jsx:54 | a name listed among the first lines is listed among all of them |
| FamilyDashboard.StoredEventsDue | src/components/family/FamilyDashboard.jsx:64-70 | the stored lines are exactly the queried rows due 0 to 9 days ahead |
| FamilyDashboard.GatheredWithin | src/components/family/FamilyDashboard.jsx:34-76 | every gathered line is 0..30 days away |
| FamilyDashboard.PushMemberEvents | src/components/family/FamilyDashboard.jsx:39-56 | the `forEach` callback pushes exactly `Pushed` for the member |
| FamilyDashboard.MemberPass | src/components/family/FamilyDashboard.jsx:39-56 | the member loop pushes exactly `MemberEvents` of all members |
| FamilyDashboard.StoredPass | src/components/family/FamilyDashboard.jsx:64-70 | the stored-rows loop pushes exactly `StoredEvents` |
| FamilyDashboard.UpcomingEvents | src/components/family/FamilyDashboard.jsx:34-76 | the events are the gathered lines (rows of the Birthday/Anniversary query, none when it fails) sorted ascending by days, a permutation of them, each 0..30 days away; every birthday at most 30 days away is among them, and so is a line with the couple's name of every anniversary at most 30 days away |
| FamilyDashboard.ShowsAddMember | src/components/family/FamilyDashboard.jsx:303 | the "+" add-member button is shown to an admin or an admin_lite |
| FamilyDashboard.AddMemberForManagers | src/components/family/FamilyDashboard.jsx:303 | the add-member button is shown exactly to the managers, never to a kid or a non-member |
| FamilyManagement.CanManageMember | src/components/family/FamilyManagement.jsx:70-74 | an admin manages everyone, an admin_lite exactly the kids, any other role or none no one |
| FamilyManagement.ShowsRoleSelect | src/components/family/FamilyManagement.jsx:212 | the role `<select>` of a row: the viewer is an admin, on another member's row, and may manage that member |
| FamilyManagement.ShowsRoleBadge | src/components/family/FamilyManagement.jsx:227 | the read-only badge: on one's own row or on a member one may not manage |
| FamilyManagement.ShowsRemove | src/components/family/FamilyManagement.jsx:239 | the remove button: on another member's row that one may manage |
| FamilyManagement.ShowsEditName | src/components/family/FamilyManagement.jsx:108 | the pencil beside the family name is for an admin only |
| FamilyManagement.ShowsInvitePanel | src/components/family/FamilyManagement.jsx:132 | the invite-code panel is for an admin or an admin_lite |
| FamilyManagement.EditNameNeedsAdmin | src/components/family/FamilyManagement.jsx:108 | whoever sees the rename pencil (an admin) also sees the invite panel, which is shown exactly to the managers; an admin_lite or a kid never sees the pencil |
| FamilyManagement.ShowsPhoneLink | src/components/family/FamilyManagement.jsx:200 | the `tel:` link: another member with a truthy phone |
| FamilyManagement.ManagersManageKids | src/components/family/FamilyManagement.jsx:70-74 | whoever manages someone is a manager, and the managers are exactly those who manage kids |
| FamilyManagement.OnlyAdminsManageManagers | src/components/family/FamilyManagement.jsx:71-72 | a non-kid member is managed exactly by an admin |
| FamilyManagement.RoleSelectOptions | src/components/family/FamilyManagement.jsx:222-223 | the role select offers admin_lite and kid, never admin |
| FamilyManagement.MemberRowControls | src/components/family/FamilyManagement.jsx:212-239 | for another member the badge shows exactly when the remove button does not; for oneself the badge always and no remove or role select; a role select comes with a remove button |
| FamilyManagement.RoleSelectForAdmins | src/components/family/FamilyManagement.jsx:212-224 | the role select appears exactly for an admin looking at another member |
| FamilyManagement.InviteMessage | src/components/family/FamilyManagement.jsx:144 | the invite text contains the family name and the invite code |
| FamilyManagement.UpdateFamilyName | src/components/family/FamilyManagement.jsx:35-52 | a blank or unchanged name writes nothing and leaves edit mode; otherwise the typed name is written unless the write fails |
| FamilyManagement.RenameSettles | src/components/family/FamilyManagement.jsx:35-39 | after a rename succeeds, saving the same name again writes nothing |
| FamilyDashboardOld.CanManageMember | src/components/family/FamilyDashboard-old.jsx:72-76 | the older copy of the rule grants only to managers |
| FamilyDashboardOld.SameManagementRule | src/components/family/FamilyDashboard-old.jsx:72-76 | the older copy agrees with `FamilyManagement.CanManageMember` for every pair of roles |
| FamilyDashboardOld.HandleInviteShare | src/components/family/FamilyDashboard-old.jsx:78-90 | without a current family nothing happens; with one something is shared; 'copy' copies exactly the invite code |
| FamilyDashboardOld.ShareTextsAgree | src/components/family/FamilyDashboard-old.jsx:80-85 | WhatsApp and SMS share the same text, the invite message with the family name and code |
| FamilyDashboardOld.ContactNeedsPhoneAndOther | src/components/family/FamilyDashboard-old.jsx:212 | the contact sheet opens only for another member with a non-empty phone, never for oneself |
| FamilyDashboardOld.ShowsAddMember | src/components/family/FamilyDashboard-old.jsx:228 | the older copy shows the add-member button to an admin or an admin_lite |
| FamilyDashboardOld.AddMemberForManagers | src/components/family/FamilyDashboard-old.jsx:228 | the older copy's add-member button is shown exactly to the managers, never to a kid or a non-member |
| AddMemberModal.CleanPhone | src/components/family/AddMemberModal.jsx:65 | `replace(/[^\d+]/g, '')`: the result holds only digits and `+` |
| AddMemberModal.Kept | src/components/family/AddMemberModal.jsx:65 | one character is kept exactly when it is a digit or `+` |
| AddMemberModal.CleanPhoneCounts | src/components/family/AddMemberModal.jsx:65 | the cleaned number has exactly the input's digits and `+` characters, with their counts |
| AddMemberModal.CleanPhoneAppend | src/components/family/AddMemberModal.jsx:65 | cleaning a concatenation cleans each part, so the kept characters stay in order |
| AddMemberModal.CleanPhoneKeepsClean | src/components/family/AddMemberModal.jsx:65 | a number of digits and `+` only is unchanged |
| AddMemberModal.CleanPhoneIdempotent | src/components/family/AddMemberModal.jsx:65 | cleaning twice is cleaning once |
| AddMemberModal.RoleOptions | src/components/family/AddMemberModal.jsx:208-217 | kid is always offered, admin_lite exactly to an admin, admin never |
| AddMemberModal.ProfilesWithPhone | src/components/family/AddMemberModal.jsx:25-29 | exactly the profiles whose phone is the trimmed input |
| AddMemberModal.Search | src/components/family/AddMemberModal.jsx:13-61 | a blank phone sets the error and looks nothing up; otherwise the result and error are those of `Lookup` |
| AddMemberModal.Lookup | src/components/family/AddMemberModal.jsx:19-57 | a failure reports its message; no single profile gives not-registered with the trimmed number and the warning; a profile with a row in the family is refused with the result left null; otherwise that profile is the result |
| AddMemberModal.SearchRefusesMembers | src/components/family/AddMemberModal.jsx:43-53 | with one row per user, a found profile is refused exactly when it has a row in the family |
| AddMemberModal.Add | src/components/family/AddMemberModal.jsx:87-131 | no result: nothing happens; a registered user gets exactly one row with the chosen role and no `added_by`, an unregistered one none; an invite carries the cleaned number and the family's code and name; every failure reports its message |
| AddMemberModal.InvitePhone | src/components/family/AddMemberModal.jsx:116 | `searchResult.phone \|\| phone`: the found number when it is truthy, else the typed one |
| AddMemberModal.AddInvitesToFamily | src/components/family/AddMemberModal.jsx:108-119 | when the family row exists and nothing fails, the invite goes to that family's code and name |
| AddMemberModal.AddKeepsInvariants | src/components/family/AddMemberModal.jsx:95-105 | an add keeps ids unique, and adding a user with no row keeps one row per user |
| AddMemberModal.SearchThenAddKeepsOneRowPerUser | src/components/family/AddMemberModal.jsx:43-105 | a search with a working check followed by the add never gives a user a second row in the family |
| AddMemberModal.AddMemberDialog.constructor | src/components/family/AddMemberModal.jsx:7-11 | empty phone, role kid, no result, no error, not loading; the role is one of the offered options |
| AddMemberModal.AddMemberDialog.OnPhoneInput | src/components/family/AddMemberModal.jsx:172 | the phone field becomes the typed text; nothing else changes |
| AddMemberModal.AddMemberDialog.OnRoleChange | src/components/family/AddMemberModal.jsx:210 | the role becomes the chosen offered role; nothing else changes |
| AddMemberModal.AddMemberDialog.HandleSearchUser | src/components/family/AddMemberModal.jsx:13-61 | the error and result become `Search` of the state before; no table changes; loading ends false after a lookup and is untouched for a blank number |
| AddMemberModal.AddMemberDialog.Searching | src/components/family/AddMemberModal.jsx:19-57 | the `try` block: the error and result become `Lookup` of the state before |
| AddMemberModal.AddMemberDialog.HandleAddMember | src/components/family/AddMemberModal.jsx:87-131 | the tables and error become `Add` of the state before; an added row never has the admin role; the invariants are kept |
| AddMemberModal.AddMemberDialog.Adding | src/components/family/AddMemberModal.jsx:90-127 | the `try` block has exactly the effect `Add` states |
| JoinFamily.FamiliesWithCode | src/components/family/JoinFamily.jsx:18-22 | exactly the families whose code is the trimmed, upper-cased input |
| JoinFamily.LookupCode | src/components/family/JoinFamily.jsx:21 | `inviteCode.trim().toUpperCase()`: as long as the trimmed code, with no lower-case ASCII letter, and white space exactly where the trimmed code has it |
| JoinFamily.SubmitEnabled | src/components/family/JoinFamily.jsx:105 | submitting is enabled exactly when not loading and the code has 8 characters |
| JoinFamily.Join | src/components/family/JoinFamily.jsx:11-68 | invalid code exactly when no single family has it; an existing row is refused; every error inserts nothing; a join appends exactly one row, role kid and no `added_by`, in the family with that code |
| JoinFamily.JoinRefusesMembers | src/components/family/JoinFamily.jsx:34-44 | with one row per user, a join is refused exactly when the user has a row in the family |
| JoinFamily.JoinKeepsInvariants | src/components/family/JoinFamily.jsx:47-58 | a join keeps ids unique and, with a working check, one row per user per family |
| JoinFamily.JoinForm.constructor | src/components/family/JoinFamily.jsx:7-9 | empty code, not loading, no error |
| JoinFamily.JoinForm.OnInput | src/components/family/JoinFamily.jsx:88-91 | the code becomes the typed text upper-cased, at most 8 characters with no lower-case letter |
| JoinFamily.JoinForm.HandleJoin | src/components/family/JoinFamily.jsx:11-68 | the tables and error become `Join` of the state before; loading ends false; the invariants are kept |
| JoinFamily.JoinForm.Joining | src/components/family/JoinFamily.jsx:17-62 | the `try` block, with its early returns, has exactly the effect `Join` states |
| UseFamily.EmbeddedFamily | src/hooks/useFamily.jsx:21-29 | the embedded `families` object is the fields of a family row with that id, if any |
| UseFamily.EmbeddedFamilyFound | src/hooks/useFamily.jsx:21-29 | with unique family ids, the embedded object is that family's fields |
| UseFamily.UserRows | src/hooks/useFamily.jsx:30 | exactly the membership rows of the user |
| UseFamily.UserFamilies | src/hooks/useFamily.jsx:34-37 | one entry per membership row of the user, in order, each built from that row |
| UseFamily.UserFamiliesPerRow | src/hooks/useFamily.jsx:34-37 | each entry carries its row's family fields and role, and every row of the user has an entry |
| UseFamily.EntryOfRow | src/hooks/useFamily.jsx:34-37 | an entry's `userRole` is its row's role, and its family fields those of the family it names |
| UseFamily.EntriesFromRows | src/hooks/useFamily.jsx:34-37 | every entry comes from a membership row of the user |
| UseFamily.CreatedFamilyListedLast | src/hooks/useFamily.jsx:114-116 | after the creator's row is added, the refreshed list ends with the new family, as admin |
| UseFamily.FamilyHook.constructor | src/hooks/useFamily.jsx:7-11 | no families, no current family, no members, no error, and `loading` set |
| UseFamily.FamilyHook.CurrentFamilyId | src/hooks/useFamily.jsx:156-157 | `currentFamily.id`: present exactly when there is a current family with a family row |
| UseFamily.FamilyHook.FetchFamilies | src/hooks/useFamily.jsx:14-50 | on success the list is the user's entries and the first becomes current only when none is set; on failure the error is set and the list kept; `loading` is clear afterwards either way; the members list is untouched |
| UseFamily.FamilyHook.FetchFamilyMembers | src/hooks/useFamily.jsx:53-83 | no family id: nothing happens; otherwise the members are that family's rows, or on failure the error is set |
| UseFamily.FamilyHook.CreateFamily | src/hooks/useFamily.jsx:86-121 | the family row is inserted, then the creator's admin row with `added_by` the creator; a failed member insert reports failure and leaves the family row; errors are returned, not thrown |
| UseFamily.FamilyHook.AddMember | src/hooks/useFamily.jsx:124-144 | exactly one row with the given role, added by the current user, then the family's rows are refetched; a failure inserts nothing and is returned |
| UseFamily.FamilyHook.UpdateMemberRole | src/hooks/useFamily.jsx:147-163 | only that row's role changes, then the current family's rows are refetched; a failure changes nothing and is returned |
| UseFamily.FamilyHook.RemoveMember | src/hooks/useFamily.jsx:166-182 | only that row goes, then the current family's rows are refetched; a failure changes nothing and is returned |
| Countdowns.StoredCountdown | src/components/countdowns/Countdowns.jsx:33 | a stored row enters the list with its id and category, not flagged as derived |
| Countdowns.BirthdayCountdown | src/components/countdowns/Countdowns.jsx:38-52 | a member's birthday entry: their display name, the Birthday category and cake emoji, a date from now to under 366 days later, flagged derived |
| Countdowns.BirthdayCountdowns | src/components/countdowns/Countdowns.jsx:36-53 | as many entries as members with a date of birth, the i-th being the birthday entry of the i-th such member; an entry is in the list exactly when some dated member produces it |
| Countdowns.BirthdaysOfDated | src/components/countdowns/Countdowns.jsx:36-53 | the entries made from the dated members, in order, are exactly the birthday entries of the members with a date |
| Countdowns.AnniversaryTitle | src/components/countdowns/Countdowns.jsx:69-82 | with a spouse, the Male partner's name first, the processed member first when neither or both are Male; without a spouse the member's name |
| Countdowns.CoupleTitle | src/components/countdowns/Countdowns.jsx:74-78 | the couple's title: the first display name, the heart, the second display name |
| Countdowns.MaleFirstEitherWay | src/components/countdowns/Countdowns.jsx:73-79 | when exactly one partner is Male the title is the same whichever partner is processed |
| Countdowns.AnniversaryCountdown | src/components/countdowns/Countdowns.jsx:83-90 | the entry has the anniversary title, the Anniversary category and ring emoji, a date from now to under 366 days later, flagged derived |
| Countdowns.CandidateOf | src/components/countdowns/Countdowns.jsx:58-67 | what the `forEach` body reads of a member: user id, whether there is a date, the spouse found |
| Countdowns.AnniversaryPass | src/components/countdowns/Countdowns.jsx:56-92 | the pass picks, in member order, only members with a date |
| Countdowns.Picked | src/components/countdowns/Countdowns.jsx:56-92 | the picks of the whole pass: positions of members with a date, increasing |
| Countdowns.PassMarks | src/components/countdowns/Countdowns.jsx:59-68 | the processed set is exactly the picked members and their spouses |
| Countdowns.PassGrows | src/components/countdowns/Countdowns.jsx:59-68 | nothing leaves the processed set and no pick is undone |
| Countdowns.PassPicksOnce | src/components/countdowns/Countdowns.jsx:59-68 | no member is picked twice, and no pick is the spouse of an earlier pick |
| Countdowns.PassCovers | src/components/countdowns/Countdowns.jsx:59-60 | every member with a date is processed by the end of the pass |
| Countdowns.OneEntryPerMember | src/components/countdowns/Countdowns.jsx:59-60 | no member gets two anniversary entries |
| Countdowns.OneEntryPerCouple | src/components/countdowns/Countdowns.jsx:56-68 | with mutual spouse links and one row per user, a couple gets a single anniversary entry |
| Countdowns.AnniversariesCovered | src/components/countdowns/Countdowns.jsx:56-92 | with one row per user, every member with a date gets an entry or is the spouse of one who does |
| Countdowns.AnniversaryList | src/components/countdowns/Countdowns.jsx:56-92 | every entry is an anniversary entry flagged derived, dated no earlier than now |
| Countdowns.MarkAnniversary | src/components/countdowns/Countdowns.jsx:58-91 | the callback: an unprocessed member with a date is marked with their spouse and gets an entry; anyone else changes nothing |
| Countdowns.AnniversaryCountdowns | src/components/countdowns/Countdowns.jsx:56-92 | the loop over the members yields exactly `AnniversaryList` |
| Countdowns.StoredCountdowns | src/components/countdowns/Countdowns.jsx:33 | one entry per stored row, in order |
| Countdowns.StoredRows | src/components/countdowns/Countdowns.jsx:29-33 | the `countdowns` query: nothing when it fails, else exactly the family's rows, ascending by target date |
| Countdowns.FetchCountdowns | src/components/countdowns/Countdowns.jsx:28-98 | the stored, birthday and anniversary entries merged, sorted ascending by target date, a permutation of the merge |
| Countdowns.DerivedFlagged | src/components/countdowns/Countdowns.jsx:51 | birthday and anniversary entries are flagged derived, stored ones are not |
| Countdowns.RolledTarget | src/components/countdowns/Countdowns.jsx:156-161 | Birthday and Anniversary dates are rolled to a date no earlier than now; other categories keep their date |
| Countdowns.TimeLeftOf | src/components/countdowns/Countdowns.jsx:152-169 | passed exactly when the difference is not positive; otherwise whole days, and for Other non-derived entries hours in 0..23 besides |
| Countdowns.ShowTimeLeft | src/components/countdowns/Countdowns.jsx:164-168 | "Event passed!" exactly when passed; the printed days followed by " days"; or the printed days, "d ", the printed hours and "h" |
| Countdowns.ShowTimeLeftInjective | src/components/countdowns/Countdowns.jsx:164-168 | the card text determines the time left: two different times left never print the same text |
| Countdowns.CalculateTimeLeft | src/components/countdowns/Countdowns.jsx:152-169 | `calculateTimeLeft`: "Event passed!" exactly when the (yearly rolled) target is not after now |
| Countdowns.YearlyEntriesShowDays | src/components/countdowns/Countdowns.jsx:156-166 | a Birthday or Anniversary entry never shows hours, and is passed only at its midnight instant |
| Countdowns.Toggle | src/components/countdowns/Countdowns.jsx:194-196 | an expanded section is removed, any other appended |
| Countdowns.ToggleTwice | src/components/countdowns/Countdowns.jsx:194-196 | toggling twice restores which sections are expanded |
| Countdowns.SectionItems | src/components/countdowns/Countdowns.jsx:204-215 | a section's entries are exactly that category's, sorted by their next date |
| Countdowns.ShowsSection | src/components/countdowns/Countdowns.jsx:188-189 | a category's section is drawn only when some countdown has that category |
| Countdowns.ShowsAdd | src/components/countdowns/Countdowns.jsx:176 | the add button is for an admin or an admin_lite |
| Countdowns.CanDelete | src/components/countdowns/Countdowns.jsx:217 | the delete button: a stored countdown, seen by an admin or an admin_lite (DeleteOnlyStored) |
| Countdowns.DeleteOnlyStored | src/components/countdowns/Countdowns.jsx:217 | a derived entry can never be deleted; a stored one can exactly by an admin or admin_lite |
| Countdowns.SelectCategory | src/components/countdowns/Countdowns.jsx:252-257 | Birthday, Anniversary and Holiday set their emoji; other categories keep it |
| Countdowns.FinalTitle | src/components/countdowns/Countdowns.jsx:107-109 | for an Anniversary with both names the title is exactly the first name, " ❤️ ", then the second name; otherwise the typed title |
| Countdowns.FinalTitleNames | src/components/countdowns/Countdowns.jsx:108 | two anniversary forms (first names without a heart) that give the same title have the same two names |
| Countdowns.HandleAdd | src/components/countdowns/Countdowns.jsx:100-143 | a row is written exactly when the insert does not fail, with the form's category and emoji and the rolled date; success resets the form, failure keeps it |
| Countdowns.AddedYearlyNotPast | src/components/countdowns/Countdowns.jsx:111-119 | a Birthday or Anniversary is never written with a date before now |
| MilkDelivery.Displayed | src/components/milk/MilkDelivery.jsx:8-9 | the year and month shown are those of a valid date |
| MilkDelivery.FirstDay | src/components/milk/MilkDelivery.jsx:10 | the weekday of the 1st, in 0..6 |
| MilkDelivery.DaysInMonth | src/components/milk/MilkDelivery.jsx:11 | day 0 of the next month is the month's last day: 28 to 31, by the leap rule |
| MilkDelivery.GetDaysInMonth | src/components/milk/MilkDelivery.jsx:7-13 | `getDaysInMonth`: the weekday (0..6) of the displayed month's 1st and its 28 to 31 days |
| MilkDelivery.LastDayOfMonth | src/components/milk/MilkDelivery.jsx:11 | `new Date(y, m + 1, 0)` is the last day of month m |
| MilkDelivery.PrevMonthShown | src/components/milk/MilkDelivery.jsx:18 | going back shows the month before, and December of the year before from January |
| MilkDelivery.NextMonthShown | src/components/milk/MilkDelivery.jsx:19 | going forward shows the month after, and January of the next year from December |
| MilkDelivery.PrevMonth | src/components/milk/MilkDelivery.jsx:18 | the month shown after the back button is the 1st of the previous month, December of the year before for January |
| MilkDelivery.NextMonth | src/components/milk/MilkDelivery.jsx:19 | the month shown after the forward button is the 1st of the next month, January of the year after for December |
| MilkDelivery.PrevWithinYear | src/components/milk/MilkDelivery.jsx:18 | from any month but January, going back stays in the year |
| MilkDelivery.NextWithinYear | src/components/milk/MilkDelivery.jsx:19 | from any month but December, going forward stays in the year |
| MilkDelivery.PrevOfJanuary | src/components/milk/MilkDelivery.jsx:18 | from January, going back shows December of the year before |
| MilkDelivery.NextOfDecember | src/components/milk/MilkDelivery.jsx:19 | from December, going forward shows January of the next year |
| MilkDelivery.ReadBackFirst | src/components/milk/MilkDelivery.jsx:18-19 | the 1st of a month reads back as that month |
| MilkDelivery.NextAfterPrev | src/components/milk/MilkDelivery.jsx:18-19 | forward after back shows the same month and year |
| MilkDelivery.PrevAfterNext | src/components/milk/MilkDelivery.jsx:18-19 | back after forward shows the same month and year |
| MilkDelivery.GridOf | src/components/milk/MilkDelivery.jsx:45-48 | `firstDay` blanks, then cells numbered 1..daysInMonth in order, a cell marked today exactly when shown month and year and day are today's |
| MilkDelivery.IsToday | src/components/milk/MilkDelivery.jsx:48 | a cell is today's when its day, and the displayed month and year, are today's |
| MilkDelivery.Grid | src/components/milk/MilkDelivery.jsx:40-49 | the drawn grid: as many blanks as the 1st's weekday, then one cell per day of the shown month, numbered from 1 |
| MilkDelivery.AtMostOneToday | src/components/milk/MilkDelivery.jsx:48 | no two cells are marked today, and one is only in today's month and year |
| MilkDelivery.DayUnderItsWeekday | src/components/milk/MilkDelivery.jsx:42-47 | day d sits in the header column of its own weekday, Sunday first |

## Left out

- Remote I/O: every database query is a read or write of the in-memory tables. Realtime channels and the 3-second polling of the grocery screen (src/components/groceries/GroceryList.jsx:455-528) are not modelled.
- Async interleavings and stale closures: each handler runs to completion on the state it started from.
- The signed-in user is a parameter. The `if (!user) return` of the hook is not modelled.
- The failure of a query is an explicit parameter where the code checks for it. The error text of a failed family read in the add modal (a browser TypeError on a null row) is stood in for by the `FamilyReadError` constant.
- A failed membership check (`.single()` / `.maybeSingle()` returning an error) reads as "no row", as the code does when it ignores the error.
- Uuids and database ids are natural numbers. Ids are handed out by a counter. The `user_id` comparison in the flat view compares the numbers, not the uuid strings.
- Invite codes are parameters: the random code generation is not modelled.
- `created_at` columns and the `created_at` of the embedded family are not modelled.
- `useFamily.fetchFamilyMembers` selects only some profile columns, while the screens read more (spouse, parents, dates). The model's member carries the whole profile.
- Foreign-key and unique constraints of the database are not modelled, except that a list row's item is in the catalogue (`ItemsKnown`). The one-row-per-user property is proved from the handlers' own checks instead.
- Clocks: `new Date()` is the parameter `now`, in milliseconds. The local time zone is taken as UTC. Locale formatting is left out.
- Date strings are already instants. The parsing of date strings and `toISOString` are not modelled.
- Case mapping covers ASCII letters only. No Unicode case folding.
- `parseFloat` and IEEE floating point: prices and quantities are reals.
- WhatsApp, tel and SMS deep links, `encodeURIComponent`, the clipboard, `alert` and `confirm` dialogs are not modelled. The share action is the text it would send.
- `loading` flags are modelled in the add-member dialog, the join form and the `useFamily` hook, as the value each handler leaves. Their value while a request is in flight, before it completes, is not modelled.
- Row order: a query without `.order(...)` (the `family_members` read of src/hooks/useFamily.jsx:19-30, and the other unordered reads) returns its rows in table order, that is, in insertion order. The database does not promise that order. Which family `fetchFamilies` makes current, and UseFamily.CreatedFamilyListedLast, depend on it.
- The `onMemberAdded`, `onJoined` and `onClose` callbacks and `window.location.reload` are not modelled.
- Console logging is not modelled.
- Grocery writes that fail: the grocery handlers (`addToList`, `updateQuantity`, `completePurchase`, `confirmDelete`, `confirmDeleteHistory`, the price field and the save loop) ignore the result of their writes. The store methods AddToList, UpdateQuantity, CompletePurchase, DeleteRow, DeleteRecord, EnterPrice, ArchiveTurn and SavePrices therefore model every write as succeeding. A failed write is not modelled, for example a save-loop turn whose history write fails but that still deletes the row.
- The screen's copies of the tables: `shoppingList` is the family's unbought rows of the current list (`ListedItemIds`). `boughtItems` is a store field set by FetchShoppingList. The handlers that end with `fetchShoppingList()` are modelled without that refetch, except SavePrices: the other store methods leave `boughtItems` as it was, and the refetch is the separate FetchShoppingList. The `added_at` order of `shoppingList` and the profile join are not modelled.
- A list row always refers to a catalogue item (`ItemsKnown`, part of `Store.Valid`), as the `item:grocery_items(*)` join and the screen's `item.item.name` assume. FetchShoppingList, SavePrices and QuantityButton require it.
- The age sort of the flat family view (src/components/family/FamilyDashboard.jsx:275-284) is not modelled: it sorts by `Infinity` and millisecond differences.
- AddMemberModal.CleanPhone: its own contract states only that the result holds only digits and `+`. That the digits are kept, with their counts and in order, is stated by CleanPhoneCounts and CleanPhoneAppend.
- FamilyDashboardOld.CanManageMember: its own contract states only that it grants to managers. Its full behaviour is stated through SameManagementRule.
- There is no milk billing ledger in the code. The milk screen is only a calendar.
- Other parts of the repository are not part of this model: biometric lock and WebAuthn, sign-in and sign-up, profile editing, notifications and the notification bell, the menus, the family switcher, the app shell and configuration.
