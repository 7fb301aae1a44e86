/**
 * The inventory records and the three operations that change them: the
 * add-item form's insert-or-merge, the completion toggle and deletion.
 */
module Items {
  import opened Wrappers
  import opened Seqs
  import opened Text

  /** A date as a whole day number; `expiry` is None where the form left it blank. */
  type Day = int

  datatype Item = Item(
    id: int,
    name: string,
    quantity: int,
    expiry: Option<Day>,
    location: string,
    isCompleted: bool)

  /**
   * What the add-item form submits: the raw name and location (trimmed by the
   * handler), the quantity as `parseInt` gives it (None for NaN) and the expiry.
   */
  datatype Submission = Submission(
    rawName: string,
    quantity: Option<int>,
    expiry: Option<Day>,
    rawLocation: string)

  /** The handler's guard: a non-blank name and a numeric quantity of at least 1. */
  predicate IsValid(sub: Submission) {
    Trim(sub.rawName) != [] && sub.quantity.Some? && sub.quantity.value >= 1
  }

  /** it is an uncompleted item with this name and expiry, so new stock merges into it. */
  predicate Mergeable(it: Item, name: string, expiry: Option<Day>) {
    it.name == name && it.expiry == expiry && !it.isCompleted
  }

  /** The record a valid submission creates when nothing merges. */
  function NewItem(sub: Submission, id: int): Item
    requires IsValid(sub)
  {
    Item(id, Trim(sub.rawName), sub.quantity.value, sub.expiry, Trim(sub.rawLocation), false)
  }

  /** The sum of all quantities on the list. */
  function TotalQuantity(inv: seq<Item>): int {
    if inv == [] then 0 else inv[0].quantity + TotalQuantity(inv[1..])
  }

  /**
   * The submit handler: an invalid submission changes nothing; otherwise the
   * quantity is added to the first mergeable item, or a new item is appended.
   */
  function AddOrMerge(inv: seq<Item>, sub: Submission, id: int): (r: seq<Item>)
    ensures !IsValid(sub) ==> r == inv
    ensures IsValid(sub) ==>
      (|r| == |inv| + 1 <==> forall j :: 0 <= j < |inv| ==> !Mergeable(inv[j], Trim(sub.rawName), sub.expiry))
    ensures IsValid(sub) && |r| == |inv| + 1 ==> r == inv + [NewItem(sub, id)]
    ensures IsValid(sub) && |r| != |inv| + 1 ==> |r| == |inv|
  {
    if !IsValid(sub) then inv
    else
      var name := Trim(sub.rawName);
      match FirstIndex(inv, (it: Item) => Mergeable(it, name, sub.expiry))
      case Some(i) => inv[i := inv[i].(quantity := inv[i].quantity + sub.quantity.value)]
      case None => inv + [NewItem(sub, id)]
  }

  /**
   * When some item is mergeable, exactly the first one grows by the submitted
   * quantity and every other item is as it was.
   */
  lemma AddMergesIntoFirst(inv: seq<Item>, sub: Submission, id: int, i: nat)
    requires IsValid(sub)
    requires i < |inv| && Mergeable(inv[i], Trim(sub.rawName), sub.expiry)
    requires forall j :: 0 <= j < i ==> !Mergeable(inv[j], Trim(sub.rawName), sub.expiry)
    ensures var r := AddOrMerge(inv, sub, id);
      |r| == |inv| &&
      r[i] == inv[i].(quantity := inv[i].quantity + sub.quantity.value) &&
      forall j :: 0 <= j < |inv| && j != i ==> r[j] == inv[j]
  {
    var p := (it: Item) => Mergeable(it, Trim(sub.rawName), sub.expiry);
    var f := FirstIndex(inv, p);
    assert f.Some? && f.value == i;
  }

  /** A valid submission raises the total quantity by exactly the submitted amount. */
  lemma {:induction false} AddRaisesTotal(inv: seq<Item>, sub: Submission, id: int)
    ensures TotalQuantity(AddOrMerge(inv, sub, id)) ==
      TotalQuantity(inv) + (if IsValid(sub) then sub.quantity.value else 0)
  {
    if IsValid(sub) {
      var name := Trim(sub.rawName);
      match FirstIndex(inv, (it: Item) => Mergeable(it, name, sub.expiry))
      case Some(i) =>
        TotalUpdate(inv, i, inv[i].quantity + sub.quantity.value);
      case None =>
        TotalAppend(inv, NewItem(sub, id));
    }
  }

  lemma {:induction false} TotalUpdate(inv: seq<Item>, i: nat, q: int)
    requires i < |inv|
    ensures TotalQuantity(inv[i := inv[i].(quantity := q)]) == TotalQuantity(inv) - inv[i].quantity + q
  {
    if i > 0 {
      TotalUpdate(inv[1..], i - 1, q);
      assert inv[i := inv[i].(quantity := q)][1..] == inv[1..][i - 1 := inv[i].(quantity := q)];
    }
  }

  lemma {:induction false} TotalAppend(inv: seq<Item>, x: Item)
    ensures TotalQuantity(inv + [x]) == TotalQuantity(inv) + x.quantity
  {
    if inv != [] {
      TotalAppend(inv[1..], x);
      assert (inv + [x])[1..] == inv[1..] + [x];
    }
  }

  /**
   * Two valid submissions with the same trimmed name and expiry, onto a list
   * with nothing to merge into, leave one new item holding the sum of both.
   */
  lemma AddTwiceMerges(inv: seq<Item>, s1: Submission, s2: Submission, id1: int, id2: int)
    requires IsValid(s1) && IsValid(s2)
    requires Trim(s1.rawName) == Trim(s2.rawName) && s1.expiry == s2.expiry
    requires forall j :: 0 <= j < |inv| ==> !Mergeable(inv[j], Trim(s1.rawName), s1.expiry)
    ensures AddOrMerge(AddOrMerge(inv, s1, id1), s2, id2) ==
      inv + [NewItem(s1, id1).(quantity := s1.quantity.value + s2.quantity.value)]
  {
    var n := NewItem(s1, id1);
    var once := AddOrMerge(inv, s1, id1);
    assert once == inv + [n];
    MergeIntoLast(inv, n, s2, id2);
    var merged := n.(quantity := n.quantity + s2.quantity.value);
    assert merged == NewItem(s1, id1).(quantity := s1.quantity.value + s2.quantity.value);
    calc {
      AddOrMerge(once, s2, id2);
      AddOrMerge(inv + [n], s2, id2);
      inv + [merged];
    }
  }

  /**
   * A submission that merges into the last item of a list and into nothing
   * before it raises that item's quantity and leaves the rest as it was.
   */
  lemma MergeIntoLast(inv: seq<Item>, n: Item, sub: Submission, id: int)
    requires IsValid(sub) && Mergeable(n, Trim(sub.rawName), sub.expiry)
    requires forall j :: 0 <= j < |inv| ==> !Mergeable(inv[j], Trim(sub.rawName), sub.expiry)
    ensures AddOrMerge(inv + [n], sub, id) == inv + [n.(quantity := n.quantity + sub.quantity.value)]
  {
    var once := inv + [n];
    assert forall j :: 0 <= j < |inv| ==> once[j] == inv[j];
    AddMergesIntoFirst(once, sub, id, |inv|);
    var twice := AddOrMerge(once, sub, id);
    var merged := n.(quantity := n.quantity + sub.quantity.value);
    assert twice[|inv|] == merged;
    assert twice == inv + [merged];
  }

  /** `toggleCompletion`: flips the flag of the first item with this id, if there is one. */
  function ToggleById(inv: seq<Item>, id: int): (r: seq<Item>)
    ensures |r| == |inv|
    ensures forall j :: 0 <= j < |inv| ==> r[j].id == inv[j].id
    ensures (forall j :: 0 <= j < |inv| ==> inv[j].id != id) ==> r == inv
  {
    match FirstIndex(inv, (it: Item) => it.id == id)
    case None => inv
    case Some(i) => inv[i := inv[i].(isCompleted := !inv[i].isCompleted)]
  }

  /** Only the first item with the id changes, and only in its completion flag. */
  lemma ToggleFlipsFirst(inv: seq<Item>, id: int, i: nat)
    requires i < |inv| && inv[i].id == id
    requires forall j :: 0 <= j < i ==> inv[j].id != id
    ensures var r := ToggleById(inv, id);
      r[i] == inv[i].(isCompleted := !inv[i].isCompleted) &&
      forall j :: 0 <= j < |inv| && j != i ==> r[j] == inv[j]
  {
    var p := (it: Item) => it.id == id;
    var f := FirstIndex(inv, p);
    assert f.Some? && f.value == i;
  }

  /** Toggling the same id twice restores the list. */
  lemma ToggleTwice(inv: seq<Item>, id: int)
    ensures ToggleById(ToggleById(inv, id), id) == inv
  {
    var p := (it: Item) => it.id == id;
    var once := ToggleById(inv, id);
    match FirstIndex(inv, p)
    case None =>
    case Some(i) =>
      ToggleFlipsFirst(inv, id, i);
      ToggleFlipsFirst(once, id, i);
      assert ToggleById(once, id) == inv;
  }

  /**
   * `deleteItem` for the confirmation answer given: declined, nothing changes;
   * confirmed, every item with the id is dropped.
   */
  function DeleteById(inv: seq<Item>, id: int, confirmed: bool): (r: seq<Item>)
    ensures !confirmed ==> r == inv
    ensures confirmed ==> forall j :: 0 <= j < |r| ==> r[j].id != id && r[j] in inv
    ensures confirmed ==> forall j :: 0 <= j < |inv| && inv[j].id != id ==> inv[j] in r
  {
    if confirmed then Keep(inv, (it: Item) => it.id != id) else inv
  }

  /**
   * r is inv with exactly the entries carrying the id removed: an
   * order-preserving selection holding every copy of every other item.
   */
  ghost predicate IsRemovalOf(r: seq<Item>, inv: seq<Item>, id: int) {
    IsSubsequence(r, inv) &&
    forall x: Item :: multiset(r)[x] == if x.id == id then 0 else multiset(inv)[x]
  }

  /** A confirmed deletion is that removal, and no other list is. */
  lemma DeleteRemovesExactly(inv: seq<Item>, id: int)
    ensures IsRemovalOf(DeleteById(inv, id, true), inv, id)
    ensures forall r :: IsRemovalOf(r, inv, id) ==> r == DeleteById(inv, id, true)
  {
    var p := (it: Item) => it.id != id;
    KeepIsSubsequence(inv, p);
    KeepCount(inv, p);
    forall r | IsRemovalOf(r, inv, id) ensures r == DeleteById(inv, id, true) {
      KeepUnique(inv, p, r);
    }
  }

  /** Deleting an id no item carries leaves the list as it was. */
  lemma DeleteAbsentId(inv: seq<Item>, id: int, confirmed: bool)
    requires forall j :: 0 <= j < |inv| ==> inv[j].id != id
    ensures DeleteById(inv, id, confirmed) == inv
  {
    KeepAll(inv, (it: Item) => it.id != id);
  }
}
