/**
 * MultiSelectionFeature: a picker in which the user toggles any number of items,
 * can select or deselect everything on display, narrows the list with a search
 * text, and confirms with "done", which hands the selection back and dismisses.
 *
 * The feature's State is a value; the reducer receives it `inout` and mutates it
 * field by field. Each case of the reducer is modelled as a function from the old
 * value to the new one, and Reduce pairs the new value with the effects the case
 * returns.
 */
module MultiSelection {
  import opened Identified
  import opened Search

  datatype State = State(
    title: string,
    allItems: IdArray,
    filteredItems: IdArray,
    selectedItems: IdArray,
    itemsSearchText: string)

  /** The delegate action through which the feature hands its result to its parent. */
  datatype DelegateAction = Publish(items: IdArray)

  /** A write to a bindable field; `itemsSearchText` is the only one the state declares. */
  datatype BindingAction = SetItemsSearchText(text: string) | OtherBinding

  datatype Action =
    | Dismiss
    | SetSelectedItem(item: Item)
    | SelectAllItems
    | DeselectAllItems
    | DoneButtonTapped
    | Delegate(delegate: DelegateAction)
    | Binding(binding: BindingAction)

  /**
   * What a reducer case returns besides the new state: `Send(a)` feeds action `a`
   * back into the feature, `RunDismiss` runs the injected dismiss dependency.
   * `.none` is the empty list; `.merge` lists its parts in the order written.
   */
  datatype Effect = Send(action: Action) | RunDismiss

  /** State.init: no search text and nothing filtered, so all items are on display. */
  function Init(title: string := "", items: IdArray := [], selectedItems: IdArray := []): (s: State)
    ensures s.itemsSearchText == "" && s.filteredItems == []
    ensures Items(s) == items
    ensures forall x :: IsItemSelected(s, x) <==> x.id in Ids(selectedItems)
    ensures s.title == title && s.allItems == items && s.selectedItems == selectedItems
  {
    State(title, items, [], selectedItems, "")
  }

  /** Some selected item carries the identifier of `x`. */
  predicate IsItemSelected(s: State, x: Item)
    ensures IsItemSelected(s, x) <==> exists i :: 0 <= i < |s.selectedItems| && s.selectedItems[i].id == x.id
  {
    x.id in Ids(s.selectedItems)
  }

  /** The selection equals all items, element for element and in the same order. */
  predicate IsAllItemsSelected(s: State) {
    s.selectedItems == s.allItems
  }

  /** The list on display. */
  function Items(s: State): IdArray {
    Displayed(s.allItems, s.filteredItems, s.itemsSearchText)
  }

  /**
   * setSelectedItem: removes the selected item with the identifier of `x` if there
   * is one, and otherwise appends `x` after the items already selected.
   */
  function ToggleItem(s: State, x: Item): (r: State)
    ensures r == s.(selectedItems := r.selectedItems)
    ensures !IsItemSelected(s, x) ==> r.selectedItems == s.selectedItems + [x]
    ensures IsItemSelected(s, x) ==>
      exists k :: 0 <= k < |s.selectedItems| && s.selectedItems[k].id == x.id &&
        r.selectedItems == s.selectedItems[..k] + s.selectedItems[k + 1..]
    ensures forall y :: IsItemSelected(r, y) <==> (IsItemSelected(s, y) != (y.id == x.id))
  {
    if x.id in Ids(s.selectedItems) then
      s.(selectedItems := Remove(s.selectedItems, x.id))
    else
      s.(selectedItems := Append(s.selectedItems, x))
  }

  /** selectAllItems: the selection becomes the list on display. */
  function SelectAll(s: State): (r: State)
    ensures r == s.(selectedItems := Items(s))
    ensures forall y :: IsItemSelected(r, y) <==> y.id in Ids(Items(s))
    ensures s.itemsSearchText == "" ==> IsAllItemsSelected(r)
    ensures s.itemsSearchText != "" ==> (IsAllItemsSelected(r) <==> s.filteredItems == s.allItems)
  {
    s.(selectedItems := Items(s))
  }

  /** deselectAllItems: the selection becomes empty. */
  function DeselectAll(s: State): (r: State)
    ensures r == s.(selectedItems := [])
    ensures forall y :: !IsItemSelected(r, y)
    ensures IsAllItemsSelected(r) <==> s.allItems == []
  {
    s.(selectedItems := [])
  }

  /**
   * A binding write to `itemsSearchText`: the binding reducer stores the text, then
   * the feature's own case recomputes the filtered items unless the text is empty.
   */
  function UpdateSearchText(s: State, text: string): (r: State)
    ensures r.title == s.title && r.allItems == s.allItems && r.selectedItems == s.selectedItems
    ensures r.itemsSearchText == text
    ensures text != "" ==> r.filteredItems == Items(r)
    ensures text != "" ==> Subseq(Items(r), s.allItems)
    ensures text != "" ==> forall x :: x in Items(r) <==> x in s.allItems && Matches(x, text)
    ensures text == "" ==> r.filteredItems == s.filteredItems && Items(r) == s.allItems
  {
    var bound := s.(itemsSearchText := text);
    if bound.itemsSearchText == "" then bound
    else bound.(filteredItems := Filter(bound.allItems, bound.itemsSearchText))
  }

  /**
   * The feature's body: one action against the current state gives the next state
   * and the effects to run. Only dismiss and "done" have effects; they, the
   * delegate action and any other binding leave the state as it was.
   */
  function Reduce(s: State, a: Action): (r: (State, seq<Effect>))
    ensures a.Dismiss? ==> r == (s, [RunDismiss])
    ensures a.DoneButtonTapped? ==> r == (s, [Send(Delegate(Publish(s.selectedItems))), RunDismiss])
    ensures a.Delegate? || a == Binding(OtherBinding) ==> r == (s, [])
    ensures a.SetSelectedItem? ==> r == (ToggleItem(s, a.item), [])
    ensures a.SelectAllItems? ==> r == (SelectAll(s), [])
    ensures a.DeselectAllItems? ==> r == (DeselectAll(s), [])
    ensures a.Binding? && a.binding.SetItemsSearchText? ==> r == (UpdateSearchText(s, a.binding.text), [])
  {
    match a
    case Dismiss => (s, [RunDismiss])
    case SetSelectedItem(x) => (ToggleItem(s, x), [])
    case SelectAllItems => (SelectAll(s), [])
    case DeselectAllItems => (DeselectAll(s), [])
    case DoneButtonTapped => (s, [Send(Delegate(Publish(s.selectedItems))), RunDismiss])
    case Binding(SetItemsSearchText(text)) => (UpdateSearchText(s, text), [])
    case Delegate(_) => (s, [])
    case Binding(OtherBinding) => (s, [])
  }

  /** Toggling an item that is not selected, twice, gives back the selection exactly. */
  lemma {:induction false} ToggleAbsentTwice(s: State, x: Item)
    requires !IsItemSelected(s, x)
    ensures ToggleItem(ToggleItem(s, x), x) == s
  {
  }

  /**
   * Toggling a selected item twice keeps which identifiers are selected, but the
   * item now stands last, in the form `x` gives it.
   */
  lemma ToggleSelectedTwice(s: State, x: Item)
    requires IsItemSelected(s, x)
    ensures var r := ToggleItem(ToggleItem(s, x), x);
      && r == s.(selectedItems := r.selectedItems)
      && r.selectedItems == Remove(s.selectedItems, x.id) + [x]
      && forall y :: IsItemSelected(r, y) <==> IsItemSelected(s, y)
  {
  }

  /**
   * When "all selected" holds, an item shows as selected exactly when one of all
   * items carries its identifier.
   */
  lemma AllSelectedShowsEveryItem(s: State, x: Item)
    requires IsAllItemsSelected(s)
    ensures IsItemSelected(s, x) <==> exists i :: 0 <= i < |s.allItems| && s.allItems[i].id == x.id
  {
  }

  /**
   * Every action keeps an up-to-date filter up to date; after the action the list
   * on display is all items with no search text and the matching items of the
   * current text otherwise.
   */
  lemma {:induction false} ReduceKeepsFilterUpToDate(s: State, a: Action)
    requires FilterUpToDate(s.allItems, s.filteredItems, s.itemsSearchText)
    ensures var r := Reduce(s, a).0;
      && FilterUpToDate(r.allItems, r.filteredItems, r.itemsSearchText)
      && Items(r) == if r.itemsSearchText == "" then r.allItems else Filter(r.allItems, r.itemsSearchText)
  {
    var r := Reduce(s, a).0;
    if a.Binding? && a.binding.SetItemsSearchText? && a.binding.text != "" {
      FilterIsTheMatchingSubsequence(s.allItems, a.binding.text, r.filteredItems);
    }
    DisplayedWhenUpToDate(r.allItems, r.filteredItems, r.itemsSearchText);
  }

  /** A new state shows all items, and its filter is up to date because no search text is entered. */
  lemma InitFilterUpToDate(title: string, items: IdArray, selectedItems: IdArray)
    ensures var s := Init(title, items, selectedItems);
      FilterUpToDate(s.allItems, s.filteredItems, s.itemsSearchText) && Items(s) == s.allItems
  {
  }

  /**
   * The state after the store has processed `actions` in order, starting from `s`.
   * An action the view sends and one an effect feeds back are processed alike, so
   * every sequence of actions the store can see is some `actions`.
   */
  function Run(s: State, actions: seq<Action>): State
    decreases |actions|
  {
    if actions == [] then s else Run(Reduce(s, actions[0]).0, actions[1..])
  }

  /** However many actions follow, an up-to-date filter stays up to date. */
  lemma {:induction false} RunKeepsFilterUpToDate(s: State, actions: seq<Action>)
    requires FilterUpToDate(s.allItems, s.filteredItems, s.itemsSearchText)
    ensures var r := Run(s, actions);
      FilterUpToDate(r.allItems, r.filteredItems, r.itemsSearchText)
    decreases |actions|
  {
    if actions != [] {
      ReduceKeepsFilterUpToDate(s, actions[0]);
      RunKeepsFilterUpToDate(Reduce(s, actions[0]).0, actions[1..]);
    }
  }

  /**
   * In every state reachable from Init, the list on display is all items with no
   * search text, and the matching items of the current text otherwise.
   */
  lemma {:induction false} ReachableShowsCurrentFilter(title: string, items: IdArray, selectedItems: IdArray, actions: seq<Action>)
    ensures var r := Run(Init(title, items, selectedItems), actions);
      Items(r) == if r.itemsSearchText == "" then r.allItems else Filter(r.allItems, r.itemsSearchText)
  {
    var s := Init(title, items, selectedItems);
    InitFilterUpToDate(title, items, selectedItems);
    RunKeepsFilterUpToDate(s, actions);
    var r := Run(s, actions);
    DisplayedWhenUpToDate(r.allItems, r.filteredItems, r.itemsSearchText);
  }

  /**
   * A session: over items [a, b, c] with `a` preselected, tapping `b`, then
   * "select all", then "done" publishes [a, b, c] and then dismisses.
   */
  lemma SelectThenConfirm(a: Item, b: Item, c: Item)
    requires a.id != b.id && a.id != c.id && b.id != c.id
    ensures
      var s0 := Init(items := [a, b, c], selectedItems := [a]);
      var s1 := Reduce(s0, SetSelectedItem(b)).0;
      var s2 := Reduce(s1, SelectAllItems).0;
      && s1.selectedItems == [a, b]
      && s2.selectedItems == [a, b, c] && IsAllItemsSelected(s2)
      && Reduce(s2, DoneButtonTapped) == (s2, [Send(Delegate(Publish([a, b, c]))), RunDismiss])
  {
  }
}
