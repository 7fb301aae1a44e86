/**
 * The page's module-level state, `inventory` and `currentEditPassword`, and the
 * event handlers that change it or read it.
 */
module App {
  import opened Wrappers
  import opened Seqs
  import opened Text
  import opened Items
  import opened Gate
  import opened Query

  /** One drawn table row: the item and the class the row gets. */
  datatype Row = Row(item: Item, cls: RowClass)

  class Tracker {
    var inventory: seq<Item>
    var editPassword: string
    var currentFilter: FilterMode

    /** The passphrase is never empty: the default fills an empty store and changes need four characters. */
    ghost predicate Valid()
      reads this
    {
      editPassword != []
    }

    /**
     * Start-up: `loadInventory` (an absent stored list leaves the inventory empty)
     * and `getPassword`; the filter starts at the corrected `InitialFilter`.
     */
    constructor (storedInventory: Option<seq<Item>>, storedPassword: Option<string>)
      ensures Valid()
      ensures inventory == (if storedInventory.Some? then storedInventory.value else [])
      ensures editPassword == GetPassword(storedPassword)
      ensures currentFilter == InitialFilter
    {
      inventory := if storedInventory.Some? then storedInventory.value else [];
      editPassword := GetPassword(storedPassword);
      currentFilter := InitialFilter;
    }

    /** A click on a filter button. */
    method SelectFilter(buttonId: string)
      requires Valid()
      modifies this
      ensures Valid()
      ensures currentFilter == ModeOfButton(buttonId)
      ensures inventory == old(inventory) && editPassword == old(editPassword)
    {
      currentFilter := ModeOfButton(buttonId);
    }

    /** The add-item form's submit handler, with `Date.now()` supplied as id. */
    method SubmitItem(sub: Submission, id: int)
      requires Valid()
      modifies this
      ensures Valid()
      ensures inventory == AddOrMerge(old(inventory), sub, id)
      ensures editPassword == old(editPassword) && currentFilter == old(currentFilter)
    {
      if !IsValid(sub) {
        return;
      }
      var name := Trim(sub.rawName);
      var found := FirstIndex(inventory, (it: Item) => Mergeable(it, name, sub.expiry));
      if found.Some? {
        var i := found.value;
        inventory := inventory[i := inventory[i].(quantity := inventory[i].quantity + sub.quantity.value)];
      } else {
        inventory := inventory + [NewItem(sub, id)];
      }
    }

    /** `toggleCompletion`. */
    method ToggleCompletion(id: int)
      requires Valid()
      modifies this
      ensures Valid()
      ensures inventory == ToggleById(old(inventory), id)
      ensures editPassword == old(editPassword) && currentFilter == old(currentFilter)
    {
      var found := FirstIndex(inventory, (it: Item) => it.id == id);
      if found.Some? {
        var i := found.value;
        inventory := inventory[i := inventory[i].(isCompleted := !inventory[i].isCompleted)];
      }
    }

    /** `deleteItem`, with the confirmation dialog's answer supplied. */
    method DeleteItem(id: int, confirmed: bool)
      requires Valid()
      modifies this
      ensures Valid()
      ensures inventory == DeleteById(old(inventory), id, confirmed)
      ensures editPassword == old(editPassword) && currentFilter == old(currentFilter)
    {
      if !confirmed {
        return;
      }
      inventory := Keep(inventory, (it: Item) => it.id != id);
    }

    /**
     * The list's click handler for a row button, with the prompt's answer
     * supplied; `admitted` is false exactly when the "wrong PW" alert is shown.
     */
    method ClickRow(action: RowAction, answer: Option<string>, id: int, confirmed: bool)
      returns (admitted: bool)
      requires Valid()
      modifies this
      ensures Valid()
      ensures admitted <==> Admits(answer, old(editPassword))
      ensures inventory == HandleClick(old(inventory), old(editPassword), action, answer, id, confirmed)
      ensures editPassword == old(editPassword) && currentFilter == old(currentFilter)
    {
      admitted := Admits(answer, editPassword);
      if !admitted {
        return;
      }
      match action
      case ToggleButton => ToggleCompletion(id);
      case DeleteButton => DeleteItem(id, confirmed);
    }

    /** The passphrase-change form's submit handler. */
    method ChangePassword(current: string, next: string, confirm: string)
      returns (outcome: ChangeOutcome)
      requires Valid()
      modifies this
      ensures Valid()
      ensures outcome == CheckChange(old(editPassword), current, next, confirm)
      ensures editPassword == PassphraseAfter(old(editPassword), current, next, confirm)
      ensures inventory == old(inventory) && currentFilter == old(currentFilter)
    {
      if current != editPassword {
        return WrongCurrent;
      }
      if next != confirm {
        return ConfirmMismatch;
      }
      if |next| < MinPassphraseLength {
        return TooShort;
      }
      editPassword := next;
      return Changed;
    }

    /**
     * `renderInventory` for the current filter, the search text and today's date:
     * the rows drawn, and whether the "no items" notice is shown instead.
     */
    method Render(search: string, today: Day) returns (rows: seq<Row>, noItems: bool)
      ensures noItems <==> View(inventory, currentFilter, search) == []
      ensures |rows| == |View(inventory, currentFilter, search)|
      ensures forall k :: 0 <= k < |rows| ==>
        rows[k] == Row(View(inventory, currentFilter, search)[k], RowClassOf(View(inventory, currentFilter, search)[k], today))
    {
      var shown := View(inventory, currentFilter, search);
      rows := [];
      noItems := |shown| == 0;
      if noItems {
        return;
      }
      var k := 0;
      while k < |shown|
        invariant 0 <= k <= |shown|
        invariant |rows| == k
        invariant forall m :: 0 <= m < k ==> rows[m] == Row(shown[m], RowClassOf(shown[m], today))
      {
        rows := rows + [Row(shown[k], RowClassOf(shown[k], today))];
        k := k + 1;
      }
    }
  }
}
