/**
 * What `renderInventory` computes before drawing: the items the filter buttons
 * and the search box let through, in urgency order, each with its row class.
 */
module Query {
  import opened Wrappers
  import opened Seqs
  import opened Text
  import opened Items

  /** The three filter buttons. */
  datatype FilterMode = All | Completed | Uncompleted

  /** The filter-button handler: any button other than the first two selects Uncompleted. */
  function ModeOfButton(buttonId: string): (m: FilterMode)
    ensures m == All <==> buttonId == "filter-all"
    ensures m == Completed <==> buttonId == "filter-completed"
  {
    if buttonId == "filter-all" then All
    else if buttonId == "filter-completed" then Completed
    else Uncompleted
  }

  /**
   * The filter the model starts from before any button is clicked. The script
   * never declares or initialises its filter variable (see `ViewAsWritten`);
   * starting at All is the corrected start.
   */
  const InitialFilter: FilterMode := All

  predicate FilterMatch(mode: FilterMode, it: Item) {
    (mode == Uncompleted && !it.isCompleted) ||
    (mode == Completed && it.isCompleted) ||
    mode == All
  }

  /** An empty search matches everything; otherwise a case-insensitive substring test. */
  predicate SearchMatch(search: string, it: Item) {
    var needle := Lower(search);
    needle == [] || Contains(Lower(it.name), needle)
  }

  predicate Shown(mode: FilterMode, search: string, it: Item) {
    FilterMatch(mode, it) && SearchMatch(search, it)
  }

  /** The filtered list, in inventory order. */
  function Filtered(inv: seq<Item>, mode: FilterMode, search: string): (r: seq<Item>)
    ensures forall j :: 0 <= j < |r| ==> r[j] in inv && Shown(mode, search, r[j])
    ensures forall j :: 0 <= j < |inv| && Shown(mode, search, inv[j]) ==> inv[j] in r
  {
    Keep(inv, (it: Item) => Shown(mode, search, it))
  }

  /**
   * The filter is an order-preserving selection that keeps every copy of each
   * shown item and nothing else.
   */
  lemma FilteredIsSelection(inv: seq<Item>, mode: FilterMode, search: string)
    ensures IsSubsequence(Filtered(inv, mode, search), inv)
    ensures forall x :: multiset(Filtered(inv, mode, search))[x] ==
                        if Shown(mode, search, x) then multiset(inv)[x] else 0
  {
    var p := (it: Item) => Shown(mode, search, it);
    KeepIsSubsequence(inv, p);
    KeepCount(inv, p);
  }

  /**
   * The search test is the plain substring test on lower-cased text: the
   * empty-search shortcut agrees with it, and "occurs" means "is a slice".
   */
  lemma SearchIsSubstring(search: string, it: Item)
    ensures SearchMatch(search, it) ==> exists i :: OccursAt(Lower(it.name), Lower(search), i)
    ensures (exists i :: OccursAt(Lower(it.name), Lower(search), i)) ==> SearchMatch(search, it)
  {
    ContainsIff(Lower(it.name), Lower(search));
    if Lower(search) == [] {
      assert OccursAt(Lower(it.name), Lower(search), 0);
    }
  }

  /** The sign difference of two expiries, a missing expiry counting as the latest date. */
  function ExpiryDiff(x: Option<Day>, y: Option<Day>): int {
    match (x, y)
    case (Some(dx), Some(dy)) => dx - dy
    case (Some(_), None) => -1
    case (None, Some(_)) => 1
    case (None, None) => 0
  }

  /**
   * The sort comparator: uncompleted before completed, then earlier expiry first.
   * Negative means a goes first.
   */
  function Compare(a: Item, b: Item): int {
    if a.isCompleted != b.isCompleted then (if a.isCompleted then 1 else -1)
    else ExpiryDiff(a.expiry, b.expiry)
  }

  /** a and b are equal under the comparator. */
  predicate Ties(a: Item, b: Item) {
    a.isCompleted == b.isCompleted && a.expiry == b.expiry
  }

  lemma CompareAntisymmetric(a: Item, b: Item)
    ensures Compare(b, a) == -Compare(a, b)
    ensures Compare(a, b) == 0 <==> Ties(a, b)
  {
  }

  lemma CompareTransitive(a: Item, b: Item, c: Item)
    requires Compare(a, b) <= 0 && Compare(b, c) <= 0
    ensures Compare(a, c) <= 0
  {
  }

  /** No pair of items is out of comparator order. */
  predicate Sorted(s: seq<Item>) {
    forall i, j :: 0 <= i < j < |s| ==> Compare(s[i], s[j]) <= 0
  }

  /** Places x before the first element it does not sort after. */
  function Insert(x: Item, s: seq<Item>): (r: seq<Item>)
    ensures multiset(r) == multiset(s) + multiset{x}
  {
    if s == [] then [x]
    else if Compare(x, s[0]) <= 0 then [x] + s
    else
      assert s == [s[0]] + s[1..];
      [s[0]] + Insert(x, s[1..])
  }

  /**
   * `Array.prototype.sort` with the comparator: a stable sort, modelled as
   * insertion of each element, first to last, into the sorted rest.
   */
  function Sort(s: seq<Item>): (r: seq<Item>)
    ensures multiset(r) == multiset(s)
  {
    if s == [] then []
    else
      assert s == [s[0]] + s[1..];
      Insert(s[0], Sort(s[1..]))
  }

  /** y sorts no later than any element of u. */
  predicate AllAfter(y: Item, u: seq<Item>) {
    forall k :: 0 <= k < |u| ==> Compare(y, u[k]) <= 0
  }

  lemma SortedCons(y: Item, u: seq<Item>)
    requires Sorted(u) && AllAfter(y, u)
    ensures Sorted([y] + u)
  {
    var r := [y] + u;
    forall i, j | 0 <= i < j < |r| ensures Compare(r[i], r[j]) <= 0 {
      assert r[j] == u[j - 1];
      if i > 0 {
        assert r[i] == u[i - 1];
      }
    }
  }

  lemma InsertAllAfter(y: Item, x: Item, t: seq<Item>)
    requires Compare(y, x) <= 0 && AllAfter(y, t)
    ensures AllAfter(y, Insert(x, t))
  {
    var u := Insert(x, t);
    forall k | 0 <= k < |u| ensures Compare(y, u[k]) <= 0 {
      assert u[k] in multiset(u);
      if u[k] != x {
        assert u[k] in multiset(t);
        var m :| 0 <= m < |t| && t[m] == u[k];
      }
    }
  }

  lemma {:induction false} InsertSorted(x: Item, s: seq<Item>)
    requires Sorted(s)
    ensures Sorted(Insert(x, s))
  {
    if s == [] {
    } else if Compare(x, s[0]) <= 0 {
      forall j | 0 <= j < |s| ensures Compare(x, s[j]) <= 0 {
        CompareTransitive(x, s[0], s[j]);
      }
      SortedCons(x, s);
    } else {
      var t := s[1..];
      assert Sorted(t);
      InsertSorted(x, t);
      CompareAntisymmetric(x, s[0]);
      assert AllAfter(s[0], t);
      InsertAllAfter(s[0], x, t);
      SortedCons(s[0], Insert(x, t));
    }
  }

  /** The sorted list is a reordering of its input in comparator order. */
  lemma {:induction false} SortSorts(s: seq<Item>)
    ensures Sorted(Sort(s)) && multiset(Sort(s)) == multiset(s) && |Sort(s)| == |s|
  {
    if s != [] {
      SortSorts(s[1..]);
      InsertSorted(s[0], Sort(s[1..]));
    }
    assert |multiset(Sort(s))| == |multiset(s)|;
  }

  /**
   * Comparator order means: uncompleted items first; within a group, items
   * with an expiry by ascending date, then the items without one.
   */
  predicate Grouped(s: seq<Item>) {
    (forall i, j :: 0 <= i < j < |s| && s[i].isCompleted ==> s[j].isCompleted) &&
    (forall i, j ::
       (0 <= i < j < |s| && s[i].isCompleted == s[j].isCompleted && s[i].expiry.None?) ==>
       s[j].expiry.None?) &&
    (forall i, j ::
       (0 <= i < j < |s| && s[i].isCompleted == s[j].isCompleted &&
        s[i].expiry.Some? && s[j].expiry.Some?) ==> s[i].expiry.value <= s[j].expiry.value)
  }

  lemma SortedIffGrouped(s: seq<Item>)
    ensures Sorted(s) <==> Grouped(s)
  {
    if Sorted(s) {
      forall i, j | 0 <= i < j < |s| ensures Compare(s[i], s[j]) <= 0 { }
    }
  }

  /** The items of s that tie with k, in their order in s. */
  function TieClass(s: seq<Item>, k: Item): seq<Item> {
    Keep(s, (a: Item) => Ties(a, k))
  }

  /** Inserting x puts it in front of every item it ties with. */
  lemma {:induction false} InsertKeepsTies(x: Item, s: seq<Item>, k: Item)
    ensures TieClass(Insert(x, s), k) == (if Ties(x, k) then [x] else []) + TieClass(s, k)
  {
    if s == [] {
      assert Insert(x, s) == [x] + s;
      TieClassCons(x, s, k);
    } else if Compare(x, s[0]) <= 0 {
      assert Insert(x, s) == [x] + s;
      TieClassCons(x, s, k);
    } else {
      var t := s[1..];
      var u := Insert(x, t);
      InsertKeepsTies(x, t, k);
      assert Insert(x, s) == [s[0]] + u;
      TieClassCons(s[0], u, k);
      assert s == [s[0]] + t;
      TieClassCons(s[0], t, k);
      SwapShares(x, s[0], k, TieClass(t, k));
    }
  }

  /**
   * Two items that do not tie with each other cannot both tie with k, so their
   * shares of k's tie class commute.
   */
  lemma SwapShares(x: Item, y: Item, k: Item, rest: seq<Item>)
    requires Compare(x, y) > 0
    ensures (if Ties(y, k) then [y] else []) + ((if Ties(x, k) then [x] else []) + rest)
         == (if Ties(x, k) then [x] else []) + ((if Ties(y, k) then [y] else []) + rest)
  {
    CompareAntisymmetric(x, y);
  }

  /** The tie class of a list with a head is the head's share followed by the tail's. */
  lemma TieClassCons(h: Item, t: seq<Item>, k: Item)
    ensures TieClass([h] + t, k) == (if Ties(h, k) then [h] else []) + TieClass(t, k)
  {
    assert ([h] + t)[1..] == t;
  }

  /**
   * Stability: the items that tie under the comparator keep their inventory
   * order, since the JavaScript sort is stable.
   */
  lemma {:induction false} SortIsStable(s: seq<Item>, k: Item)
    ensures TieClass(Sort(s), k) == TieClass(s, k)
  {
    if s != [] {
      SortIsStable(s[1..], k);
      InsertKeepsTies(s[0], Sort(s[1..]), k);
      assert TieClass(s, k) == (if Ties(s[0], k) then [s[0]] else []) + TieClass(s[1..], k);
    }
  }

  /** The rows `renderInventory` draws, in order. */
  function View(inv: seq<Item>, mode: FilterMode, search: string): seq<Item> {
    Sort(Filtered(inv, mode, search))
  }

  /**
   * The drawn list holds each shown item as often as the inventory does, no
   * other item, and is in comparator order.
   */
  lemma ViewContents(inv: seq<Item>, mode: FilterMode, search: string)
    ensures var v := View(inv, mode, search);
      Sorted(v) && Grouped(v) &&
      forall x :: multiset(v)[x] == if Shown(mode, search, x) then multiset(inv)[x] else 0
  {
    SortSorts(Filtered(inv, mode, search));
    SortedIffGrouped(View(inv, mode, search));
    FilteredIsSelection(inv, mode, search);
  }

  /** Before any filter click the whole inventory is drawn, as a reordering of itself. */
  lemma StartupViewShowsAll(inv: seq<Item>)
    ensures multiset(View(inv, InitialFilter, "")) == multiset(inv)
  {
    var p := (it: Item) => Shown(InitialFilter, "", it);
    assert Lower("") == [];
    KeepAll(inv, p);
    SortSorts(Filtered(inv, InitialFilter, ""));
  }

  /** The outcome of the filter step when the filter variable may never have been assigned. */
  datatype Rendered = Drawn(rows: seq<Item>) | ReferenceError

  /**
   * The filter step as the script has it: `currentFilter` is read inside the
   * filter callback but never declared, so until a filter button assigns it the
   * read throws, which happens as soon as the callback runs on one item.
   */
  function ViewAsWritten(inv: seq<Item>, lastClicked: Option<FilterMode>, search: string): (r: Rendered)
    ensures lastClicked.Some? ==> r == Drawn(View(inv, lastClicked.value, search))
    ensures lastClicked.None? ==> (r == ReferenceError <==> inv != [])
  {
    match lastClicked
    case Some(mode) => Drawn(View(inv, mode, search))
    case None => if inv == [] then Drawn([]) else ReferenceError
  }

  /** At start-up with a stored list of one item, the script's render throws and nothing is drawn. */
  lemma StartupRenderThrows(it: Item, search: string)
    ensures ViewAsWritten([it], None, search) == ReferenceError
    ensures multiset(View([it], InitialFilter, "")) == multiset{it}
  {
    StartupViewShowsAll([it]);
  }

  /** The three expiry alerts. */
  datatype Tier = Expired | Warning | Safe

  /** The alert for an item expiring diffDays after today. */
  function TierOf(diffDays: int): (t: Tier)
    ensures t == Expired <==> diffDays <= 3
    ensures t == Warning <==> 4 <= diffDays <= 7
    ensures t == Safe <==> diffDays >= 8
  {
    if diffDays <= 3 then Expired
    else if diffDays <= 7 then Warning
    else Safe
  }

  /** How urgent a tier is: Expired above Warning above Safe. */
  function Urgency(t: Tier): nat {
    match t
    case Expired => 2
    case Warning => 1
    case Safe => 0
  }

  /** An item expiring later is never flagged more urgently. */
  lemma TierMonotone(d1: int, d2: int)
    requires d1 <= d2
    ensures Urgency(TierOf(d1)) >= Urgency(TierOf(d2))
  {
  }

  /** The class a row gets: the completed style, an alert, or none. */
  datatype RowClass = NoClass | CompletedItem | Alert(tier: Tier)

  function RowClassOf(it: Item, today: Day): (c: RowClass)
    ensures it.isCompleted <==> c == CompletedItem
    ensures c == NoClass <==> !it.isCompleted && it.expiry.None?
    ensures c.Alert? ==> it.expiry.Some? && c.tier == TierOf(it.expiry.value - today)
  {
    if it.isCompleted then CompletedItem
    else if it.expiry.Some? then Alert(TierOf(it.expiry.value - today))
    else NoClass
  }

  /**
   * Along the drawn list, among uncompleted items with an expiry, alerts never
   * become more urgent further down: the most urgent rows come first.
   */
  lemma ViewUrgencyDescends(inv: seq<Item>, mode: FilterMode, search: string, today: Day, i: nat, j: nat)
    requires i < j < |View(inv, mode, search)|
    requires !View(inv, mode, search)[j].isCompleted && View(inv, mode, search)[j].expiry.Some?
    ensures var v := View(inv, mode, search);
      RowClassOf(v[i], today).Alert? &&
      Urgency(RowClassOf(v[i], today).tier) >= Urgency(RowClassOf(v[j], today).tier)
  {
    var v := View(inv, mode, search);
    SortSorts(Filtered(inv, mode, search));
    assert Compare(v[i], v[j]) <= 0;
    TierMonotone(v[i].expiry.value - today, v[j].expiry.value - today);
  }
}
