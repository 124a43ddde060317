# MultiSelect: a verified model of the selection, filter and keyboard state machine

`MultiSelect` is a multi-select dropdown widget. It shows a text input that filters a list of
items by title, chips for the selected items, a "remove all" button and a scrollable list of
the visible items. The list opens and closes when the control is clicked, closes on a
pointer-down outside the widget, and is driven from the keyboard with ArrowUp, ArrowDown and
Enter. This project models the widget's state and handlers without the rendering framework
and the DOM:

- `OrderedSet` (ordered_set.dfy) models the JavaScript `Set` of selected ids as a
  duplicate-free sequence in insertion order, the order `Array.from` returns. It covers `add`,
  `delete` and `new Set(xs)`.
- `Items` (items.dfy) holds the items and the derivations recomputed on each render. These are
  the valid initial ids (`validValues`, `defaultValues`) and the visible list (`filterItems`),
  a case-sensitive substring filter over titles.
- `Selection` (selection.dfy) is the update `selectItem` applies. An unselected id is added
  and nothing is emitted. A selected id is deleted and `onChange` receives the remaining ids.
- `Navigation` (navigation.dfy) is the document `keydown` handler as a pure step on the widget
  state. It covers `preventDefault`, Enter, the 100 ms arrow-key debounce on `lastTime` and the
  focus moves.
- `Scroll` (scroll.dfy) is the offset arithmetic of `scrollTo`, as written and corrected (see
  Findings).
- `Widget` (widget.dfy) is the class `MultiSelect`. Its fields are the component's state, and
  each event handler is a method proved against the functions above. `Valid()` says the
  selection has no repeats and the focused row exists (or is 0 when the list is empty).
  `Known()` says every selected id names an item.

Wall-clock reads (`Date.now()`) are an integer parameter `now` in milliseconds. The items are
fixed for the widget's lifetime. Handlers run one at a time, and each sees the state the
previous one left.

The model follows the code: `removeAll` does not call `onChange`, and opening the list does
not reset the focused row (it only scrolls the list to its top). The asymmetric `onChange` behaviour is kept as written:
it is called when an id is deselected and not when one is selected.

## Model

| member | source | states |
|---|---|---|
| `OrderedSet.Add` | component/src/stories/MultiSelect.tsx:61 | `set.add`: membership gains the id; a new id goes at the end with the old order kept, and a present id changes nothing |
| `OrderedSet.Delete` | component/src/stories/MultiSelect.tsx:65 | `set.delete`: exactly the id leaves; the rest is a subsequence in the same order; no repeats appear; an absent id changes nothing |
| `OrderedSet.FromSeq` | component/src/stories/MultiSelect.tsx:43 | `new Set(xs)` holds exactly the elements of `xs`, without repeats, as a subsequence of `xs`, ordered by the position of each element's first occurrence in `xs` |
| `OrderedSet.FromSeqOfNoDup` | component/src/stories/MultiSelect.tsx:43 | a repeat-free sequence becomes a set with the same elements in the same order |
| `OrderedSet.FirstIndexSnoc` | component/src/stories/MultiSelect.tsx:43 | adding an element to the end does not move the first occurrence of an element already present |
| `OrderedSet.AddKeepsFirstOrder` | component/src/stories/MultiSelect.tsx:43 | `set.add` keeps a set ordered by first occurrence in the ids added so far |
| `OrderedSet.DeleteAt` | component/src/stories/MultiSelect.tsx:65-66 | deleting the element at position k leaves exactly the elements before and after it, in order |
| `OrderedSet.DeleteAdded` | component/src/stories/MultiSelect.tsx:57-68 | adding a new id and then deleting it restores the original sequence exactly |
| `Items.Find` | component/src/stories/MultiSelect.tsx:42 | `items.find` finds something exactly when some item has that id, and what it finds is such an item |
| `Items.ContainsIffOccurs` | component/src/stories/MultiSelect.tsx:77 | `title.includes(text)` holds exactly when `text` occurs at some position of `title` |
| `Items.ContainsEmpty` | component/src/stories/MultiSelect.tsx:77 | every title includes the empty text |
| `Items.ContainsShort` | component/src/stories/MultiSelect.tsx:77 | a title no longer than the text includes it only when the two are equal |
| `Items.FilterByTitle` | component/src/stories/MultiSelect.tsx:76-78 | keeps exactly the items whose title includes the text, as a subsequence of the items |
| `Items.FilterItems` | component/src/stories/MultiSelect.tsx:71-79 | empty input gives the items unchanged; otherwise exactly the items whose title includes the input, in item order |
| `Items.FilterByEmptyIsIdentity` | component/src/stories/MultiSelect.tsx:71-79 | the empty-input shortcut agrees with filtering by the empty text |
| `Items.FilterByTitleIdempotent` | component/src/stories/MultiSelect.tsx:76-78 | filtering a filtered list by the same text changes nothing |
| `Items.FilterItemsIdempotent` | component/src/stories/MultiSelect.tsx:71-81 | `filterItems` applied twice with the same input equals applying it once |
| `Items.ValidValues` | component/src/stories/MultiSelect.tsx:42 | keeps exactly the ids of `value` that name an item, each as often as in `value` and none of the others, as a subsequence of `value` |
| `Items.DefaultValues` | component/src/stories/MultiSelect.tsx:42-44 | the initial selection is repeat-free, holds exactly the ids of `value` that name an item, and lists them in the order of their first occurrence in `value` |
| `Items.ValidValuesKeepsAll` | component/src/stories/MultiSelect.tsx:42 | when every id names an item, nothing is dropped |
| `Items.ValidValuesFirstIndex` | component/src/stories/MultiSelect.tsx:42 | dropping the unknown ids keeps the order of the first occurrences of the ids that remain |
| `Items.DefaultValuesKeepsValueOrder` | component/src/stories/MultiSelect.tsx:42-44 | for a repeat-free `value`, the initial selection is exactly the ids that name an item, in `value` order, unknown ids dropped |
| `Selection.Toggle` | component/src/stories/MultiSelect.tsx:57-69 | toggling flips the id's membership and no other; `onChange` is called exactly when the id was selected, with the new selection, a subsequence of the old; an added id goes last; no repeats appear |
| `Selection.RemovalEmitsRemainingInOrder` | component/src/stories/MultiSelect.tsx:65-66 | deselecting the id at position k emits the ids before and after it, in insertion order |
| `Selection.ToggleTwice` | component/src/stories/MultiSelect.tsx:57-69 | toggling twice restores membership; for an unselected id it restores the exact sequence, and only the second toggle emits |
| `Navigation.KeyDown` | component/src/stories/MultiSelect.tsx:90-134 | while hidden, nothing changes and nothing is prevented; while open, exactly Up, Down and Enter are prevented; only Enter changes the selection or emits; only ArrowUp moves the focus up and only ArrowDown moves it down, one row at a time, only past the debounce window and with `lastTime` set to now; a scroll is asked for only when the focus moves; past the window every key except Enter on a non-empty list sets `lastTime` to now; focus stays in range |
| `Navigation.EnterTogglesFocusedRow` | component/src/stories/MultiSelect.tsx:94-99 | Enter on a non-empty list toggles the focused row's id at any time, leaving focus and `lastTime` unchanged |
| `Navigation.EnterOnEmptyList` | component/src/stories/MultiSelect.tsx:94-104 | Enter on an empty list selects nothing and only restamps `lastTime` when past the debounce window |
| `Navigation.ArrowWithinDebounceIgnored` | component/src/stories/MultiSelect.tsx:101-103 | an arrow key less than 100 ms after `lastTime` is prevented and changes nothing |
| `Navigation.ArrowMovesFocus` | component/src/stories/MultiSelect.tsx:101-133 | past the window an arrow key sets `lastTime` to now; Up moves to f-1 only if f > 0, Down to f+1 only if f < len-1 |
| `Navigation.PressAll` | component/src/stories/MultiSelect.tsx:90-134 | any sequence of presses of one key keeps the selection repeat-free and the focus in range |
| `Navigation.DebouncedPressesIgnored` | component/src/stories/MultiSelect.tsx:101-103 | arrow presses that all fall inside the debounce window leave the state unchanged |
| `Navigation.RapidDownPressesMoveOnce` | component/src/stories/MultiSelect.tsx:101-133 | when the first Down press is accepted (past the debounce window), further presses within 100 ms of it leave the focus exactly one row on, or in place at the last row |
| `Scroll.ScrollCalls` | component/src/stories/MultiSelect.tsx:105-116 | `scrollTo` makes one call per test that fires, both tested against the original `scrollTop`: the row top when the row starts above the window, and last the row bottom when it ends below; no call exactly when the row is inside the window |
| `Scroll.ScrollDownHidesRow` | component/src/stories/MultiSelect.tsx:113-114 | as written, a row below the window ends up entirely above the window |
| `Scroll.ScrollDownHidesRowExample` | component/src/stories/MultiSelect.tsx:109-114 | concretely: a 30 px row at 90 in a 100 px list at 0 is scrolled to 120 and stays hidden, where 20 would show it |
| `Scroll.ScrollIntoView` | component/src/stories/MultiSelect.tsx:105-116 | corrected: a row no taller than the list ends up visible, a visible row does not scroll, and no offset showing the row is closer to the old one |
| `Widget.MultiSelect.constructor` | component/src/stories/MultiSelect.tsx:38-46 | mounting: the selection is `DefaultValues`, the input is empty, focus is 0, the list is hidden, and `lastTime` is the mount time |
| `Widget.MultiSelect.Register` | component/src/stories/MultiSelect.tsx:87-88 | the effect re-running sets `lastTime` to now and nothing else |
| `Widget.MultiSelect.SelectItem` | component/src/stories/MultiSelect.tsx:57-69 | the update handed to `setCurrentValues` is `Toggle`: the new selection and the emission are `Toggle`'s; the rest of the state is unchanged; toggling an item's id keeps every selected id an item id |
| `Widget.MultiSelect.RemoveAll` | component/src/stories/MultiSelect.tsx:52-55 | the selection becomes empty, nothing is emitted and nothing else changes |
| `Widget.MultiSelect.ClickRow` | component/src/stories/MultiSelect.tsx:193-195 | clicking visible row i toggles that row's item |
| `Widget.MultiSelect.CloseChip` | component/src/stories/MultiSelect.tsx:169-172 | a chip's close button deselects its id and emits the remaining ids |
| `Widget.MultiSelect.ClickOutside` | component/src/stories/MultiSelect.tsx:83-85 | an outside pointer-down hides the list and changes nothing else |
| `Widget.MultiSelect.SelectOnClick` | component/src/stories/MultiSelect.tsx:153-160 | a click on the control flips the list's hidden flag and sets the focused look; it asks for the list to scroll to the top exactly when the list opens |
| `Widget.MultiSelect.Blur` | component/src/stories/MultiSelect.tsx:212-214 | losing focus clears the focused look and leaves the list alone |
| `Widget.MultiSelect.InputChange` | component/src/stories/MultiSelect.tsx:142-145 | a new input text becomes the filter, the focus resets to 0 and the invariant holds for the new visible list |
| `Widget.MultiSelect.HoverRow` | component/src/stories/MultiSelect.tsx:184-188 | hovering visible row i focuses i and changes nothing else |
| `Widget.MultiSelect.KeyDown` | component/src/stories/MultiSelect.tsx:90-134 | the new state, `preventDefault`, emission and scroll row are those of `Navigation.KeyDown`; validity is preserved |
| `Widget.DemoFilter` | component/src/stories/MultiSelect.stories.tsx:20-27 | with the six demonstration items, the input "title3" leaves exactly item 3 |

`Widget.DemoSession` is a client of the class on the demonstration items. The widget is opened
and Down is pressed five times within 100 ms: only the first press moves the focus, to row 1.
Enter then selects item "2" without calling `onChange`. A second Enter deselects it and calls
`onChange` with no ids.

## Findings

| source | as written | input that shows it | evidently intended | confidence | as-written member | corrected member |
|---|---|---|---|---|---|---|
| component/src/stories/MultiSelect.tsx:113-114 | when the focused row's bottom `maxOffset` is below the window, the list is scrolled to `top: maxOffset` | `scrollTop` 0, list height 100, row at 90 with height 30: the list scrolls to 120 and the row [90, 120) is above the window [120, 220) | scroll to `maxOffset - listHeight` (20 here), the least offset that shows the row | medium, not executed: the browser clamps the offset at the end of the list, which hides the effect for the last rows | `Scroll.ScrollDownHidesRow` | `Scroll.ScrollIntoView` |

The handler model (`Navigation.KeyDown`) reports only which row `scrollTo` is called for, so
no other part of the model depends on either scroll rule.

## Left out

- Rendering: JSX, CSS classes and `classNames`, the placeholder text, the chips' markup and the JSON display of the value (MultiSelect.tsx:162-249) are presentation only.
- DOM measurement and mutation: the input width via `refTextWidth`/`refInput` (MultiSelect.tsx:144, 146-150), the `scroll` calls themselves and `refInput.current?.focus()` are not modelled; they are foreign DOM calls. Only the scroll offsets are computed.
- Listener registration and removal on `document` (MultiSelect.tsx:136-139, ClickOutside.tsx:7-17) is event-loop plumbing. The effect re-runs after every render and restarts `lastTime`; the host is assumed to call `Widget.MultiSelect.Register(now)` then.
- ClickOutside's `contains` test is not modelled: whether a pointer-down is outside the widget is decided by the caller of `ClickOutside`.
- `Date.now()` is the parameter `now`.
- `event.stopPropagation()` in `removeAll` and on the chip buttons is not modelled as a call. Its effect is that these clicks do not also reach `selectOnClick`, so `RemoveAll` and `CloseChip` leave the list's hidden flag alone.
- Stale closures and batched updates: handlers read the state of the last render, and the model assumes a render between any two events. React calling the `setCurrentValues` updater twice (which would call `onChange` twice) is not modelled.
- Items changing after mount are not modelled (`items` is a constant), so the focus is never left beyond a list shortened by new props.
- Widget.MultiSelect.SelectItem: selectItem has no guard, so it also accepts an id that names no item; `Known()` is therefore kept beside `Valid()`, not inside it.
- The teaching snippets example1.tsx, example2.tsx, example3.ts and example5.tsx and the Storybook harness hold no widget logic; only the demonstration items are used, in `Widget.DemoItems`.
