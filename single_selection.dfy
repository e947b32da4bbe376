/**
 * SingleSelectionFeature: a picker holding at most one selected item. Every tap
 * on an item is final: the new selection is published and the picker dismisses.
 *
 * As in the multi-selection picker, the state is a value the reducer mutates
 * `inout`; each case is a function from the old value to the new one.
 */
module SingleSelection {
  import opened Identified
  import opened Search

  datatype Option<T> = None | Some(value: T)

  datatype State = State(
    title: string,
    allItems: IdArray,
    filteredItems: IdArray,
    selectedItem: Option<Item>,
    itemsSearchText: string)

  /** The delegate action through which the feature hands its result to its parent. */
  datatype DelegateAction = Publish(item: Option<Item>)

  /** A write to a bindable field; `itemsSearchText` is the only one the state declares. */
  datatype BindingAction = SetItemsSearchText(text: string) | OtherBinding

  datatype Action =
    | Dismiss
    | SetSelectedItem(item: Option<Item>)
    | Delegate(delegate: DelegateAction)
    | Binding(binding: BindingAction)

  /**
   * `Send(a)` feeds action `a` back into the feature, `RunDismiss` runs the injected
   * dismiss dependency; `.merge` lists its parts in the order written.
   */
  datatype Effect = Send(action: Action) | RunDismiss

  /** State.init: no search text and nothing filtered, so all items are on display. */
  function Init(title: string := "", items: IdArray := [], selectedItem: Option<Item> := None): (s: State)
    ensures s.itemsSearchText == "" && s.filteredItems == []
    ensures Items(s) == items
    ensures s.title == title && s.allItems == items && s.selectedItem == selectedItem
  {
    State(title, items, [], selectedItem, "")
  }

  /** The selected item, if any, carries the identifier of `x`. */
  predicate IsItemSelected(s: State, x: Item) {
    match s.selectedItem
    case None => false
    case Some(y) => y.id == x.id
  }

  /** The list on display. */
  function Items(s: State): IdArray {
    Displayed(s.allItems, s.filteredItems, s.itemsSearchText)
  }

  /**
   * setSelectedItem: tapping the item that is already selected clears the
   * selection; any other value becomes the selection.
   */
  function ChooseItem(s: State, x: Option<Item>): (r: State)
    ensures r == s.(selectedItem := r.selectedItem)
    ensures s.selectedItem == x ==> r.selectedItem == None
    ensures s.selectedItem != x ==> r.selectedItem == x
  {
    if s.selectedItem == x then s.(selectedItem := None) else s.(selectedItem := x)
  }

  /**
   * A binding write to `itemsSearchText`: the binding reducer stores the text, then
   * the feature's own case recomputes the filtered items unless the text is empty.
   */
  function UpdateSearchText(s: State, text: string): (r: State)
    ensures r.title == s.title && r.allItems == s.allItems && r.selectedItem == s.selectedItem
    ensures r.itemsSearchText == text
    ensures text != "" ==> r.filteredItems == Items(r)
    ensures text != "" ==> Subseq(Items(r), s.allItems)
    ensures text != "" ==> forall x :: x in Items(r) <==> x in s.allItems && Matches(x, text)
    ensures text == "" ==> r.filteredItems == s.filteredItems && Items(r) == s.allItems
  {
    var bound := s.(itemsSearchText := text);
    if bound.itemsSearchText == "" then bound
    else bound.(filteredItems := Filter(bound.allItems, bound.itemsSearchText))
  }

  /**
   * The feature's body. A tap on an item publishes the selection as it stands after
   * the tap and then sends the dismiss action; dismiss runs the dismiss dependency;
   * the delegate action and any other binding change nothing.
   */
  function Reduce(s: State, a: Action): (r: (State, seq<Effect>))
    ensures a.SetSelectedItem? ==>
      r.0 == ChooseItem(s, a.item) && r.1 == [Send(Delegate(Publish(r.0.selectedItem))), Send(Dismiss)]
    ensures a.Dismiss? ==> r == (s, [RunDismiss])
    ensures a.Delegate? || a == Binding(OtherBinding) ==> r == (s, [])
    ensures a.Binding? && a.binding.SetItemsSearchText? ==> r == (UpdateSearchText(s, a.binding.text), [])
  {
    match a
    case Dismiss => (s, [RunDismiss])
    case SetSelectedItem(x) =>
      var next := ChooseItem(s, x);
      (next, [Send(Delegate(Publish(next.selectedItem))), Send(Dismiss)])
    case Binding(SetItemsSearchText(text)) => (UpdateSearchText(s, text), [])
    case Delegate(_) => (s, [])
    case Binding(OtherBinding) => (s, [])
  }

  /**
   * Tapping `x` twice, starting from any other selection, selects `x` and then
   * clears the selection.
   */
  lemma ChooseTwice(s: State, x: Option<Item>)
    requires s.selectedItem != x
    ensures Reduce(s, SetSelectedItem(x)).0.selectedItem == x
    ensures Reduce(Reduce(s, SetSelectedItem(x)).0, SetSelectedItem(x)).0.selectedItem == None
  {
  }

  /**
   * After tapping `x`, an item shows as selected exactly when it has the identifier
   * of the new selection; when the tap cleared the selection, nothing shows as selected.
   */
  lemma SelectionShownAfterTap(s: State, x: Option<Item>, y: Item)
    ensures var r := Reduce(s, SetSelectedItem(x)).0;
      && (s.selectedItem == x || x.None? ==> r.selectedItem == None && !IsItemSelected(r, y))
      && (s.selectedItem != x && x.Some? ==> (IsItemSelected(r, y) <==> y.id == x.value.id))
  {
  }

  /**
   * Nothing shows as selected without a selection; with one, an item shows as
   * selected exactly when it carries the selected identifier, so at most one
   * identifier shows.
   */
  lemma OneIdentifierShown(s: State, x: Item, y: Item)
    ensures s.selectedItem.None? ==> !IsItemSelected(s, x)
    ensures s.selectedItem.Some? ==> (IsItemSelected(s, x) <==> s.selectedItem.value.id == x.id)
    ensures IsItemSelected(s, x) && IsItemSelected(s, y) ==> x.id == y.id
  {
  }

  /**
   * The two actions a tap sends back change nothing: the delegate action is left to
   * the parent and the dismiss action runs the dismiss dependency once. So a tap
   * leads to exactly one publish, of the selection it left behind, and one dismissal.
   */
  lemma TapPublishesThenDismisses(s: State, x: Option<Item>)
    ensures
      var (next, effects) := Reduce(s, SetSelectedItem(x));
      && |effects| == 2
      && effects[0].Send? && Reduce(next, effects[0].action) == (next, [])
      && effects[1].Send? && Reduce(next, effects[1].action) == (next, [RunDismiss])
  {
  }

  /**
   * Every action keeps an up-to-date filter up to date; after the action the list
   * on display is all items with no search text and the matching items of the
   * current text otherwise.
   */
  lemma {:induction false} ReduceKeepsFilterUpToDate(s: State, a: Action)
    requires FilterUpToDate(s.allItems, s.filteredItems, s.itemsSearchText)
    ensures var r := Reduce(s, a).0;
      && FilterUpToDate(r.allItems, r.filteredItems, r.itemsSearchText)
      && Items(r) == if r.itemsSearchText == "" then r.allItems else Filter(r.allItems, r.itemsSearchText)
  {
    var r := Reduce(s, a).0;
    if a.Binding? && a.binding.SetItemsSearchText? && a.binding.text != "" {
      FilterIsTheMatchingSubsequence(s.allItems, a.binding.text, r.filteredItems);
    }
    DisplayedWhenUpToDate(r.allItems, r.filteredItems, r.itemsSearchText);
  }

  /** A new state shows all items, and its filter is up to date because no search text is entered. */
  lemma InitFilterUpToDate(title: string, items: IdArray, selectedItem: Option<Item>)
    ensures var s := Init(title, items, selectedItem);
      FilterUpToDate(s.allItems, s.filteredItems, s.itemsSearchText) && Items(s) == s.allItems
  {
  }

  /**
   * The state after the store has processed `actions` in order, starting from `s`.
   * An action the view sends and one an effect feeds back are processed alike, so
   * every sequence of actions the store can see is some `actions`.
   */
  function Run(s: State, actions: seq<Action>): State
    decreases |actions|
  {
    if actions == [] then s else Run(Reduce(s, actions[0]).0, actions[1..])
  }

  /** However many actions follow, an up-to-date filter stays up to date. */
  lemma {:induction false} RunKeepsFilterUpToDate(s: State, actions: seq<Action>)
    requires FilterUpToDate(s.allItems, s.filteredItems, s.itemsSearchText)
    ensures var r := Run(s, actions);
      FilterUpToDate(r.allItems, r.filteredItems, r.itemsSearchText)
    decreases |actions|
  {
    if actions != [] {
      ReduceKeepsFilterUpToDate(s, actions[0]);
      RunKeepsFilterUpToDate(Reduce(s, actions[0]).0, actions[1..]);
    }
  }

  /**
   * In every state reachable from Init, the list on display is all items with no
   * search text, and the matching items of the current text otherwise.
   */
  lemma {:induction false} ReachableShowsCurrentFilter(title: string, items: IdArray, selectedItem: Option<Item>, actions: seq<Action>)
    ensures var r := Run(Init(title, items, selectedItem), actions);
      Items(r) == if r.itemsSearchText == "" then r.allItems else Filter(r.allItems, r.itemsSearchText)
  {
    var s := Init(title, items, selectedItem);
    InitFilterUpToDate(title, items, selectedItem);
    RunKeepsFilterUpToDate(s, actions);
    var r := Run(s, actions);
    DisplayedWhenUpToDate(r.allItems, r.filteredItems, r.itemsSearchText);
  }
}
