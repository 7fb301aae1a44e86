# Inventory tracker engine — a verified Dafny model

This project models the decision logic of a browser inventory tracker (`script.js`).
The state is a list of stocked items `{id, name, quantity, expiry, location, isCompleted}`
and an edit passphrase. The page offers these operations:

- **add-or-merge** from the add-item form: a validated submission either adds its
  quantity to the first uncompleted item with the same name and expiry, or appends
  a new uncompleted item;
- **toggle** the completion flag of the first item with a given id;
- **delete**, after a yes/no confirmation, of every item with a given id;
- a **passphrase gate** in front of toggle and delete, and a three-check
  **passphrase change**;
- the **view**: a completion filter and a case-insensitive name search, a stable sort
  that puts uncompleted items first and orders by expiry with undated items last,
  and an alert class per row from the days left until expiry.

Modules:

- `Wrappers`: `Option`.
- `Seqs`: `Keep` (`Array.prototype.filter`) and `FirstIndex` (`findIndex`), with the
  facts that a filter is order preserving and is determined by what it keeps.
- `Text`: `Trim` over the ECMAScript whitespace set, ASCII `Lower`, and `Contains`
  (`includes`), proved equal to "is a slice".
- `Items`: the item record, `AddOrMerge`, `ToggleById`, `DeleteById`.
- `Gate`: `GetPassword`, `Admits`, `HandleClick`, `CheckChange`, `PassphraseAfter`.
- `Query`: filter, comparator, `Sort`, `View`, `TierOf`, `RowClassOf`.
- `App`: the class `Tracker`, which holds the page-level state (`inventory`,
  `editPassword`, `currentFilter`). Its handler methods update that state in place,
  and each method's contract ties the new state to the functions above.

Inputs that the script takes from the browser are parameters here. These are the
prompt answer (`Option<string>`, with `None` for a cancelled prompt), the
confirmation answer, the new item's id (`Date.now()` in the script), today's day
number, the search text and the clicked filter button.

Notes on the script:

- deletion removes every entry with the id, not just one;
- ids can collide, because two adds in the same millisecond get the same `Date.now()`;
- the file has no quantity-update operation.

## Model

| member | source | states |
|---|---|---|
| `Seqs.Keep` | script.js:203 | the filter result holds only elements of the input that satisfy the predicate, and every such element |
| `Seqs.FirstIndex` | script.js:58-60 | `findIndex`: the index returned satisfies the predicate and no earlier one does; None means no element does |
| `Text.Lower` | script.js:219-220 | every character is mapped by `LowerChar` and the length is kept: A to Z become a to z, and every other character is unchanged |
| `Text.Contains` | script.js:220 | definition: `includes`, scanning for a start position where the needle is a prefix; characterised in `Text.ContainsIff` |
| `Items.IsValid` | script.js:55 | definition: the name is non-blank after trimming, and the quantity is a number and at least 1 |
| `Items.Mergeable` | script.js:58-60 | definition: the item is uncompleted and has the same trimmed name and expiry |
| `Items.NewItem` | script.js:67-74 | definition: the new record has the given id, the trimmed name and location, the submitted quantity and expiry, and is not completed |
| `Items.MergeIntoLast` | script.js:58-64 | a submission that merges only into the last item raises that item's quantity and leaves the rest of the list unchanged |
| `Query.FilterMatch` | script.js:214-217 | definition: "uncompleted" keeps uncompleted items, "completed" keeps completed ones, and "all" keeps every item |
| `Query.SearchMatch` | script.js:219-220 | definition: an empty lower-cased search text matches everything; otherwise the lower-cased name must contain it |
| `Query.Compare` | script.js:225-234 | definition: uncompleted items come before completed ones; otherwise the result is the difference in expiry days, with a missing expiry after every day; its ordering properties are in the rows below |
| `Query.View` | script.js:213-234 | definition: the filtered list, then sorted; its contents and order are in `Query.ViewContents` |
| `Seqs.KeepCount` | script.js:203 | filtering keeps every copy of a selected value and no copy of any other |
| `Seqs.KeepIsSubsequence` | script.js:203 | filtering preserves relative order |
| `Seqs.KeepUnique` | script.js:203 | the only order-preserving selection with exactly those copies is the filter result |
| `Text.Trim` | script.js:50 | the trimmed name has no whitespace at either end, and is empty exactly when the input is all whitespace |
| `Text.TrimIsSlice` | script.js:50 | trim keeps one contiguous slice of the input, starting right after the leading whitespace |
| `Text.TrimRemovesOnlyWhitespace` | script.js:50 | everything trim drops, before and after the kept slice, is whitespace |
| `Text.TrimIdempotent` | script.js:50 | trimming twice equals trimming once |
| `Text.LowerIdempotent` | script.js:219-220 | lower-casing is idempotent and leaves no upper-case letter |
| `Text.ContainsIff` | script.js:220 | `includes` holds exactly when the needle occurs as a slice at some position |
| `Items.AddOrMerge` | script.js:55-76 | an invalid submission changes nothing; a valid one appends exactly the new uncompleted item when no uncompleted item shares name and expiry, and otherwise keeps the length |
| `Items.AddMergesIntoFirst` | script.js:58-64 | when a mergeable item exists, only the first one grows by the submitted quantity; every other item is unchanged |
| `Items.AddRaisesTotal` | script.js:55-76 | a valid add raises the total quantity by exactly the submitted amount, an invalid one by nothing |
| `Items.AddTwiceMerges` | script.js:55-76 | two equal-name, equal-expiry submissions onto a list with no match leave one new item holding the summed quantity |
| `Items.ToggleById` | script.js:190-197 | length and all ids are kept; an absent id is a no-op |
| `Items.ToggleFlipsFirst` | script.js:191-193 | only the first item with the id changes, and only its completion flag flips |
| `Items.ToggleTwice` | script.js:190-197 | toggling the same id twice restores the inventory |
| `Items.DeleteById` | script.js:199-206 | a declined confirmation changes nothing; a confirmed delete keeps exactly the items with other ids |
| `Items.DeleteRemovesExactly` | script.js:203 | a confirmed delete is the original list with exactly the entries carrying the id removed, in order, and no other list is |
| `Items.DeleteAbsentId` | script.js:203 | deleting an id no item carries leaves the list as it was |
| `Gate.GetPassword` | script.js:19-27 | an absent or empty stored passphrase yields "0000"; otherwise the stored value; never empty |
| `Gate.Admits` | script.js:112-113 | the gate opens only for an answer exactly equal to the passphrase; a cancelled prompt never opens it |
| `Gate.HandleClick` | script.js:107-127 | a refused answer leaves the inventory unchanged; an admitted one toggles or deletes the row's id |
| `Gate.RejectedClickChangesNothing` | script.js:112-116 | a cancelled prompt or a wrong answer leaves the inventory unchanged, whatever the button |
| `Gate.CheckChange` | script.js:158-171 | the change succeeds exactly when the current passphrase matches, new equals confirm and the new one has at least 4 characters; the checks take effect in that order |
| `Gate.PassphraseAfter` | script.js:158-175 | the stored passphrase becomes the new one on success and is otherwise unchanged; a change needs the right current passphrase and at least 4 characters |
| `Gate.ChangeMovesTheGate` | script.js:173-174 | after a successful change the gate admits the new passphrase and admits the old one only if the two are equal |
| `Query.ModeOfButton` | script.js:95-101 | the two named buttons select all and completed; any other selects uncompleted |
| `Query.Filtered` | script.js:213-223 | the filtered list holds exactly the inventory items whose completion matches the filter and whose name matches the search |
| `Query.FilteredIsSelection` | script.js:213-223 | the filtered list is an order-preserving subsequence holding every copy of each shown item |
| `Query.SearchIsSubstring` | script.js:219-220 | the search matches exactly when the lower-cased search text occurs in the lower-cased name; empty text always matches |
| `Query.CompareAntisymmetric` | script.js:225-234 | the comparator is antisymmetric, and two items are equal under it exactly when completion and expiry agree |
| `Query.Insert` | script.js:225-234 | inserting adds exactly one copy of the element |
| `Query.Sort` | script.js:225-234 | the sorted list is a permutation of its input |
| `Query.InsertSorted` | script.js:225-234 | inserting into a sorted list keeps it sorted |
| `Query.SortSorts` | script.js:225-234 | the sort result is in comparator order and is a permutation of the filtered list |
| `Query.SortedIffGrouped` | script.js:225-234 | comparator order means uncompleted before completed and, within each group, ascending expiry with undated items last |
| `Query.SortIsStable` | script.js:225 | items that tie under the comparator keep their inventory order |
| `Query.ViewContents` | script.js:213-234 | the drawn list is sorted, grouped and holds each shown item as often as the inventory does |
| `Query.StartupViewShowsAll` | script.js:288-290 | with the filter starting at "all" and no search, the first render draws a reordering of the whole inventory |
| `Query.ViewAsWritten` | script.js:213-217 | with the filter variable never assigned, the render throws exactly when the inventory is non-empty |
| `Query.StartupRenderThrows` | script.js:288-290 | a stored list of one item makes the start-up render throw, while the corrected start draws that item |
| `Query.TierOf` | script.js:256-262 | "expired" for at most 3 days left, "warning" for 4 to 7, "safe" from 8 |
| `Query.TierMonotone` | script.js:256-262 | a later expiry is never flagged more urgently |
| `Query.RowClassOf` | script.js:248-269 | a completed item gets the completed class whatever its expiry; an uncompleted undated item gets none; otherwise the tier of expiry minus today |
| `Query.ViewUrgencyDescends` | script.js:225-269 | down the drawn list, among uncompleted dated items, alerts never become more urgent |
| `App.Tracker.constructor` | script.js:19-38 | start-up state: the stored list or the empty list, the stored passphrase or the default, and the unfiltered view |
| `App.Tracker.SelectFilter` | script.js:90-103 | a filter click sets the current filter from the button and changes nothing else |
| `App.Tracker.SubmitItem` | script.js:47-76 | the inventory becomes the add-or-merge of the submission; passphrase and filter unchanged |
| `App.Tracker.ToggleCompletion` | script.js:190-197 | the inventory becomes the toggle of the id; nothing else changes |
| `App.Tracker.DeleteItem` | script.js:199-206 | the inventory becomes the confirmed or declined delete of the id; nothing else changes |
| `App.Tracker.ClickRow` | script.js:107-127 | reports whether the gate admitted the answer and applies the toggle or delete only then |
| `App.Tracker.ChangePassword` | script.js:151-175 | returns the outcome of the three checks; the passphrase changes only on success; the inventory is untouched |
| `App.Tracker.Render` | script.js:208-269 | the rows are the view of the current filter and search, in order, each with its row class; the no-items notice is shown exactly when the view is empty |

## Left out

- DOM and presentation: element lookup, the row HTML (which does no escaping), the status and button texts, showing and hiding the modal, form resets, message colours and the delayed close. The change form's messages appear only as the `ChangeOutcome` value.
- Durable storage and JSON: `loadInventory` and `getPassword` are represented by the already-parsed values given to the `Tracker` constructor. `saveInventory`, the passphrase write and `getPassword`'s write-back of the default are not modelled.
- Blocking dialogs: `prompt`, `confirm` and `alert` become parameters (`answer`, `confirmed`) and the `admitted` result.
- Id generation: `Date.now()` is a parameter, and ids are not assumed unique. `Number(...dataset.id)` is taken as the integer id.
- Date handling: expiries and today are whole day numbers, a blank expiry is `None`, and the days left are `expiry - today`. Not modelled: date-string parsing, time zones (the expiry is parsed as UTC while today is local midnight) and the millisecond arithmetic with `Math.ceil`.
- App.Tracker.constructor / Query.InitialFilter: the class starts with the filter at `All`. This is the corrected start described under Findings; the script leaves the variable undeclared and uninitialised.
- Query.Compare: returns day differences rather than millisecond differences, and only the sign matters to the sort. The far-future sentinel becomes "a missing expiry sorts after every day". The one date equal to the sentinel, which in the script ties with a missing expiry, sorts before it here.
- Query.Sort: the engine's sort algorithm is replaced by a stable insertion sort. The script's sort is stable (required since ES2019) and the comparator is a total preorder, so every conforming engine produces this order.
- Text.Lower: only A to Z are lower-cased; full Unicode case mapping is not modelled.
- Gate.CheckChange: `length` counts characters, not UTF-16 code units, so a character outside the Basic Multilingual Plane counts once here and twice in the script.
- Quantities are unbounded integers; the script's double-precision sum and `parseInt` are not modelled (the quantity arrives as `Option<int>`, `None` for NaN).
- The item form leaves the name and location to the handler's own `trim`; no other input normalisation exists.

## Findings

| source | as written | input that shows it | evidently intended | confidence | as-written member | corrected member |
|---|---|---|---|---|---|---|
| script.js:213-217 | `currentFilter` is read in the filter callback but is never declared; it is only assigned by the filter buttons (96-100) | a stored inventory of one item and a page load before any filter click: the start-up `renderInventory()` (290) throws a ReferenceError and draws nothing. Until a button is clicked, every later render throws the same way. A search then draws nothing. A valid add still pushes or merges and saves (62-78), but the list is not redrawn and the form is not reset (79-85) | the filter starts at "all", so the whole list is drawn at start-up | medium, not executed | `Query.StartupRenderThrows` | `Query.StartupViewShowsAll` |
