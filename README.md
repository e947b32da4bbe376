# Feature selection pickers, modelled in Dafny

This project models the two reducers of the FeatureSelection package:

- `MultiSelectionFeature`, a picker over an ordered, identifier-keyed list of
  items. The user toggles items in and out of the selection, selects or deselects
  everything on display, narrows the list with a search text, and confirms with
  "done". Confirming publishes the selection to the parent and dismisses.
- `SingleSelectionFeature`, a picker holding at most one selected item. Every
  tap is final: it publishes the new selection (possibly none) and then dismisses.

Files:

- `identified.dfy` (module `Identified`): `Item` (an identifier and a title) and
  `IdArray`, the ordered collection in which no identifier occurs twice
  (`IdentifiedArrayOf<Item>`). Also the collection operations the reducers call:
  `Remove` and `Append`, both keyed by identifier.
- `search.dfy` (module `Search`): ASCII lower-casing, substring containment, the
  title match, `Filter`, and `Displayed`, the choice between the filtered list and
  all items that both features' `items` view makes. `FilterUpToDate` states that
  the filtered items belong to the current search text; both features' `Init`
  establishes it and their `Reduce` keeps it.
- `multi_selection.dfy` (module `MultiSelection`) and `single_selection.dfy`
  (module `SingleSelection`): each feature's `State`, `Action` and `Effect`, one
  function per reducer case, and `Reduce`, the feature's body.

Each feature's `State` is a Swift value type. The reducer closure receives it
`inout` and assigns one field per case. A value passed `inout` is copied in and
copied out, so each case is modelled as a function from the old state value to
the new one. `Reduce` pairs the new state with the list of effects the case
returns. An effect is `Send(action)` (`.send`, which feeds an action back into the
feature) or `RunDismiss` (`.run { await dismiss() }`). `.none` is the empty list,
and `.merge` lists its parts in the order they are written.

The binding reducer runs before the feature's own `Reduce` closure. For a binding
write to `itemsSearchText` it stores the new text, and then the closure's binding
case recomputes the filtered items. `UpdateSearchText` models both steps in that
order.

Assumptions about code that is not part of this model:

- `IdentifiedArray.contains(_:)`, `remove(_:)` and `append(_:)` are keyed by the
  element's identifier. `append` leaves the array unchanged when the identifier
  is already present. The IdentifiedCollections library is not part of this model.
- `Item` equality (`==` in `isAllItemsSelected` and in the single-selection
  toggle) is modelled as equality of both identifier and title. The
  `SelectableItemProtocol` from the Models module is not part of this model.
  Under this reading, the single-selection picker compares identifiers in
  `isItemSelected` but whole items in its tap. An item that shares the selected
  identifier but has a different title shows as selected, yet tapping it selects
  it instead of clearing the selection.
- Identifiers are modelled as `int`.

## Model

| member | source | states |
|---|---|---|
| `Identified.Remove` | Sources/FeatureSelection/MultiSelectionFeature.swift:72 | Deleting by identifier takes out exactly the one element with that identifier, splicing around it so the others keep their order. When the identifier is absent the collection is unchanged. Either way the identifiers left are the old ones minus that identifier. |
| `Identified.Append` | Sources/FeatureSelection/MultiSelectionFeature.swift:74 | An item with a new identifier goes at the end, after everything already there. An item whose identifier is present changes nothing. The identifiers afterwards are the old ones plus the item's. The result never holds an identifier twice. |
| `Identified.RemoveAppended` | Sources/FeatureSelection/MultiSelectionFeature.swift:71-75 | Appending an item with a new identifier and then removing that identifier restores the collection exactly. |
| `Search.Filter` | Sources/FeatureSelection/MultiSelectionFeature.swift:97 | The filtered list is an order-preserving subsequence of all items. It holds an item exactly when all items hold it and its lowercased title contains the lowercased search text. Its identifiers are among those of all items. |
| `Search.FilterIsTheMatchingSubsequence` | Sources/FeatureSelection/MultiSelectionFeature.swift:97 | Any order-preserving subsequence of the items that holds exactly the matching items equals `Filter`'s result. So "the matching items, in their original order" pins the filtered list down completely. |
| `Search.FilterExample` | Sources/FeatureSelection/MultiSelectionFeature.swift:97 | Searching "an" among items titled Apple, Banana and Grape keeps Banana alone. Searching "BAN" also keeps Banana alone, although "Banana" does not contain "BAN" as written: case does not decide the match. |
| `Search.Lowercased` | Sources/FeatureSelection/MultiSelectionFeature.swift:97 | Lower-casing keeps the length and folds each character on its own, as `LowerChar` does, so only ASCII upper-case letters change. |
| `Search.LowerChar` | Sources/FeatureSelection/MultiSelectionFeature.swift:97 | A character outside 'A'..'Z' stays as it is. A capital becomes the lower-case letter at the same place in the alphabet. So a folded character is never an ASCII upper-case letter, and it is a letter exactly when the original was one, of either case. |
| `Search.LowercasedIdempotent` | Sources/FeatureSelection/MultiSelectionFeature.swift:97 | Lower-casing an already lowercased string changes nothing. |
| `Search.MatchesIgnoresCase` | Sources/FeatureSelection/MultiSelectionFeature.swift:97 | Whether an item matches does not change when the search text, or the title, is lowercased first. |
| `Search.DisplayedWhenUpToDate` | Sources/FeatureSelection/MultiSelectionFeature.swift:38-44 | While the filtered items belong to the current search text, the list on display is all items when the text is empty, and otherwise the items of all items that match the text, in their order. |
| `MultiSelection.Init` | Sources/FeatureSelection/MultiSelectionFeature.swift:20-28 | A new state has an empty search text and no filtered items, and shows all items. The items selected are exactly those with the identifiers of the preselection. Title, items and selection are the ones given, defaulting to an empty title and empty lists. |
| `MultiSelection.InitFilterUpToDate` | Sources/FeatureSelection/MultiSelectionFeature.swift:14-28 | A new state's filter is up to date, and the list on display is all items. |
| `MultiSelection.ReduceKeepsFilterUpToDate` | Sources/FeatureSelection/MultiSelectionFeature.swift:38-44 | Every action keeps the filter up to date, and after it the list on display is all items with no search text, and otherwise exactly the matching items of the current text. |
| `MultiSelection.RunKeepsFilterUpToDate` | Sources/FeatureSelection/MultiSelectionFeature.swift:62-107 | Starting from a state whose filter is up to date, processing any sequence of actions in order leaves the filter up to date. |
| `MultiSelection.ReachableShowsCurrentFilter` | Sources/FeatureSelection/MultiSelectionFeature.swift:38-44 | In every state reachable from `Init` by any sequence of actions, the list on display is all items with no search text, and otherwise exactly the matching items of the current text: never a stale filter result. |
| `MultiSelection.IsItemSelected` | Sources/FeatureSelection/MultiSelectionFeature.swift:30-32 | An item shows as selected exactly when some selected item, at some position, carries its identifier. |
| `MultiSelection.AllSelectedShowsEveryItem` | Sources/FeatureSelection/MultiSelectionFeature.swift:34-36 | When "all selected" holds, an item shows as selected exactly when one of all items carries its identifier. |
| `MultiSelection.ToggleItem` | Sources/FeatureSelection/MultiSelectionFeature.swift:70-76 | Tapping an unselected item appends it after the items already selected, whose order is unchanged. Tapping a selected item removes exactly the element with its identifier. Afterwards the selected identifiers are those selected before, with the tapped identifier added if it was absent and removed if it was present. Only `selectedItems` changes. |
| `MultiSelection.SelectAll` | Sources/FeatureSelection/MultiSelectionFeature.swift:78-80 | The selection becomes the list on display, and nothing else changes. With no search text every item is then selected. With a search text, "all selected" then holds exactly when the filtered list equals all items. |
| `MultiSelection.DeselectAll` | Sources/FeatureSelection/MultiSelectionFeature.swift:82-84 | The selection becomes empty and nothing else changes. No item shows as selected. "All selected" then holds exactly when there are no items. |
| `MultiSelection.UpdateSearchText` | Sources/FeatureSelection/MultiSelectionFeature.swift:92-98 | The text is stored, and title, items and selection are unchanged. A non-empty text makes the list on display the filtered items: the order-preserving subsequence of all items whose lowercased title contains the lowercased text. An empty text leaves the filtered items as they were, possibly stale, and the display shows all items. |
| `MultiSelection.Reduce` | Sources/FeatureSelection/MultiSelectionFeature.swift:62-109 | Dismiss emits only the dismiss effect. Done publishes the current selection and then dismisses. Neither changes the state. The delegate action and other bindings change nothing and emit nothing. Toggling, select all, deselect all and search text updates emit no effect. |
| `MultiSelection.ToggleAbsentTwice` | Sources/FeatureSelection/MultiSelectionFeature.swift:71-75 | Tapping an unselected item twice restores the whole state exactly. |
| `MultiSelection.ToggleSelectedTwice` | Sources/FeatureSelection/MultiSelectionFeature.swift:71-75 | Tapping a selected item twice selects the same identifiers as before. The item now stands last, as the tapped value, and nothing else changes. |
| `MultiSelection.SelectThenConfirm` | Sources/FeatureSelection/MultiSelectionFeature.swift:70-90 | Over items [a, b, c] with a preselected: tapping b selects [a, b]. Select all then selects [a, b, c], and "all selected" holds. Done then publishes [a, b, c], followed by one dismissal. |
| `SingleSelection.Init` | Sources/FeatureSelection/SingleSelectionFeature.swift:21-29 | A new state has an empty search text and no filtered items, and shows all items. It holds the given title, items and preselection, defaulting to an empty title, no items and no selection. |
| `SingleSelection.InitFilterUpToDate` | Sources/FeatureSelection/SingleSelectionFeature.swift:15-29 | A new state's filter is up to date, and the list on display is all items. |
| `SingleSelection.ReduceKeepsFilterUpToDate` | Sources/FeatureSelection/SingleSelectionFeature.swift:37-43 | Every action keeps the filter up to date, and after it the list on display is all items with no search text, and otherwise exactly the matching items of the current text. |
| `SingleSelection.RunKeepsFilterUpToDate` | Sources/FeatureSelection/SingleSelectionFeature.swift:57-92 | Starting from a state whose filter is up to date, processing any sequence of actions in order leaves the filter up to date. |
| `SingleSelection.ReachableShowsCurrentFilter` | Sources/FeatureSelection/SingleSelectionFeature.swift:37-43 | In every state reachable from `Init` by any sequence of actions, the list on display is all items with no search text, and otherwise exactly the matching items of the current text. |
| `SingleSelection.OneIdentifierShown` | Sources/FeatureSelection/SingleSelectionFeature.swift:31-35 | Nothing shows as selected without a selection. With one, an item shows as selected exactly when it carries the selected item's identifier, so two items that both show as selected share an identifier. |
| `SingleSelection.ChooseItem` | Sources/FeatureSelection/SingleSelectionFeature.swift:66-71 | Tapping the value already selected clears the selection. Any other value becomes the selection. Only `selectedItem` changes. |
| `SingleSelection.UpdateSearchText` | Sources/FeatureSelection/SingleSelectionFeature.swift:77-83 | The text is stored, and title, items and selection are unchanged. A non-empty text makes the list on display the order-preserving, case-insensitive substring-match subsequence of all items. An empty text leaves the filtered items unchanged, and the display shows all items. |
| `SingleSelection.Reduce` | Sources/FeatureSelection/SingleSelectionFeature.swift:58-94 | A tap updates the selection and emits exactly two effects: publish of the selection as it stands after the tap, then the dismiss action. Dismiss emits only the dismiss effect. The delegate action and other bindings change nothing and emit nothing. |
| `SingleSelection.ChooseTwice` | Sources/FeatureSelection/SingleSelectionFeature.swift:66-71 | Starting from a different selection, tapping the same value twice selects it and then clears the selection. |
| `SingleSelection.SelectionShownAfterTap` | Sources/FeatureSelection/SingleSelectionFeature.swift:31-35 | A tap on the value already selected, or a tap with no item, clears the selection, and then no item shows as selected. After a tap that selects an item, an item shows as selected exactly when it has that item's identifier. |
| `SingleSelection.TapPublishesThenDismisses` | Sources/FeatureSelection/SingleSelectionFeature.swift:72-75 | Both actions a tap sends back leave the state alone. The delegate action emits nothing, and the dismiss action runs the dismiss dependency once. So one tap leads to exactly one publish, of the new selection, and one dismissal. |

## Left out

- MultiSelectionScreen.swift and SingleSelectionScreen.swift: SwiftUI layout,
  toolbar, overlay, search bar and previews. They render state and send actions,
  and hold no reducer logic.
- The dismiss dependency, `.run`, `.merge` and the `Store` that runs effects are
  not modelled. Effects are returned as a list of symbolic values. `.merge` runs
  its parts concurrently, so the list order is the order they are written, not a
  guaranteed order of execution.
- `Search.Lowercased`: folds ASCII letters only. `String.lowercased()` folds the
  whole of Unicode and may change the length of a string.
- `Search.Matches`: containment is a contiguous run of characters. Unicode
  canonical equivalence, which `String.contains` honours, is not modelled.
- `OtherBinding` stands for a binding action on a field other than
  `itemsSearchText`. The state declares no other bindable field, so the binding
  reducer has nothing to store for it, and the catch-all case leaves the state as
  it is.
- `SingleSelection.ChooseItem`: compares the tapped value with the selection by
  identifier and title together. The protocol's own equality is not part of this
  model and may compare identifiers only. Under that equality, tapping an item
  that shares the selected identifier but has another title would clear the
  selection, where this model selects it.
- `MultiSelection.IsAllItemsSelected`: compares the selection with all items
  element by element, by identifier and title together. Under an
  identifier-only equality, a selection whose items have other titles but the
  same identifiers, in the same order, would also count as all selected.
- `Identified.Append` and `Identified.Remove` model the library's operations by
  their behaviour. The library's dictionary-backed implementation and its
  complexity are not modelled.
