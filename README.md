# InteractiveList: a verified model of the to-do list component

The repository is a small React to-do list. All its rules live in one
component, `InteractiveList`. It holds five pieces of state:

- the list of items (`{id, description}`);
- the ids of the ticked items;
- whether the composition slot for a new item is shown;
- the slot's item;
- whether the slot shows the "add a task first" error.

Its event handlers overwrite that state:

- open the slot;
- type into it;
- confirm the new item (a blank description is refused);
- tick or untick an item;
- delete the ticked items;
- clear the list;
- react to Enter and Escape.

The model has four modules:

- `Seqs` (`seqs.dfy`) — JavaScript's `Array.prototype.filter` as the
  function `Filter`, and a reference definition `IsSubsequence` ("some
  elements deleted, the rest in order"). The lemmas tie the two together:
  a filter is a subsequence; it keeps every occurrence of a kept value and
  none of a dropped one; it distributes over `+`; it keeps a sequence
  duplicate-free.
- `JsText` (`js_text.dfy`) — `String.prototype.trim` over the whitespace
  code points of ECMAScript (ECMA-262, sections 12.2 "White Space" and 12.3
  "Line Terminators"). `TrimStartSpec` and `TrimEndSpec` state what each
  half of `trim` cuts off and keeps. `BlankIffAllWhitespace` proves that `s.trim() === ""`
  holds exactly when every character of `s` is whitespace.
- `ListState` (`list_state.dfy`) — the component as a state machine on a
  `State` value.
  - There is one function per handler.
  - An `Event` type covers each click, keystroke and text change, and
    `Enabled` gives its guard. A guard is either a button's `disabled`
    attribute or the fact that an element is rendered only in some states.
  - `Step`, `IsTrace` and `Run` describe sequences of events.
  - The invariant `Inv` holds in every reachable state:
    - the slot is reset whenever it is closed;
    - the slot carries a timestamp id while it is open;
    - every listed item has a timestamp id;
    - the selection holds only ids of listed items, each id once.
  - Lemmas state what each handler does and prove that every enabled event
    preserves `Inv`.
- `InteractiveListComponent` (`interactive_list.dfy`) — the component as a
  class `InteractiveList`.
  - The class has the five state fields and one method per handler.
  - Each method assigns the fields as the JavaScript setters do.
  - Each method is proved to move `Snapshot()` exactly as the matching
    `ListState` function moves a `State`, and to keep `Valid()` (that is,
    `Inv`). The exception is `ValidateInput`, whose contract gives the new
    state directly.
  - The button guards are the methods' preconditions.

What `InteractiveList.jsx` does, and so what the model does:

- There is no item editing, no completion mark and no confirmation modal.
  Delete and clear act at once. Checkboxes stay active while the slot is
  open.
- The selection is an array in ticking order, not a set. The model keeps
  that order, so `TogglePresentTwice` is stated as equal membership, not as
  equal arrays.
- Nothing in the code checks that ticked ids belong to listed items. The
  guards ensure it, and `ReachableInv` proves it for every reachable state.

## Model

| member | source | states |
|---|---|---|
| `JsText.IsWhitespace` | linux-torwalds-is-a-retard/src/components/InteractiveList.jsx:23 | the characters `trim` strips: the ECMAScript WhiteSpace and LineTerminator sets (ECMA-262 sections 12.2 and 12.3): tab, vertical tab, form feed, space, no-break space, byte order mark, every Unicode `Zs` separator (U+1680, U+2000-U+200A, U+202F, U+205F, U+3000), line feed, carriage return, U+2028 and U+2029 |
| `JsText.Trim` | linux-torwalds-is-a-retard/src/components/InteractiveList.jsx:23 | `s.trim()`: `TrimEnd` after `TrimStart`; what each half cuts off and keeps is proved in `TrimStartSpec` and `TrimEndSpec` |
| `JsText.IsBlank` | linux-torwalds-is-a-retard/src/components/InteractiveList.jsx:23 | the test `description.trim() === ""`; `BlankIffAllWhitespace` proves it holds exactly for empty or all-whitespace text |
| `ListState.StartAdding` | linux-torwalds-is-a-retard/src/components/InteractiveList.jsx:15-18 | `startAddingItem` on the state: the adding flag set, the slot `{id: now, description: ""}`, the error cleared, nothing else changed (proved in `StartAddingOpensSlot`) |
| `ListState.ChangeDescription` | linux-torwalds-is-a-retard/src/components/InteractiveList.jsx:134-137 | the slot's `onChange`: the slot's description replaced and the error cleared, nothing else changed (proved in `ChangeDescriptionEditsText`) |
| `ListState.ConfirmAdd` | linux-torwalds-is-a-retard/src/components/InteractiveList.jsx:22-38 | `confirmAddItem` with `validateInput`: a blank description only raises the error; otherwise the slot's item is appended and the slot closed and reset (proved in `ConfirmRejectsBlank` and `ConfirmAppends`) |
| `ListState.ClearList` | linux-torwalds-is-a-retard/src/components/InteractiveList.jsx:40-46 | `clearList`: all five fields reset (proved in `ClearListResets`, `ClearListIdempotent`) |
| `ListState.IsNot` | linux-torwalds-is-a-retard/src/components/InteractiveList.jsx:51 | the filter callback `(id) => id !== itemId` |
| `ListState.Toggled` | linux-torwalds-is-a-retard/src/components/InteractiveList.jsx:48-54 | the new selection of `toggleSelectItem`: a ticked id filtered out, an unticked one appended (proved in `ToggleSelectSpec`, `ToggleAbsentTwice`, `TogglePresentTwice`) |
| `ListState.ToggleSelect` | linux-torwalds-is-a-retard/src/components/InteractiveList.jsx:48-54 | `toggleSelectItem` on the state: only the selection changes, to `Toggled` (proved in `ToggleSelectSpec`) |
| `ListState.IsUnselected` | linux-torwalds-is-a-retard/src/components/InteractiveList.jsx:58 | the filter callback `(item) => !selectedItems.includes(item.id)` |
| `ListState.DeleteSelected` | linux-torwalds-is-a-retard/src/components/InteractiveList.jsx:56-61 | `deleteSelectedItems`: the unticked items kept by `filter`, the selection emptied (proved in `DeleteSelectedSpec`) |
| `ListState.KeyDown` | linux-torwalds-is-a-retard/src/components/InteractiveList.jsx:63-75 | `handleKeyDown`: Enter is `ConfirmAdd`; Escape empties the selection and closes and resets an open slot; other keys change nothing (proved in `EscapeSpec`, `OtherKeyIgnored`, `IdleEnterOnlyFlagsError`) |
| `ListState.Enabled` | linux-torwalds-is-a-retard/src/components/InteractiveList.jsx:86-138 | the guards: "+" disabled while adding (line 90), delete disabled with an empty selection (line 99), clear disabled with an empty list (line 108), a checkbox only for a listed item (lines 116-121), the slot's input and confirm button only while adding (line 128); key presses always reach the document listener (line 77) |
| `ListState.Step` | linux-torwalds-is-a-retard/src/components/InteractiveList.jsx:15-75 | the handler each event runs |
| `ListState.Inv` | linux-torwalds-is-a-retard/src/components/InteractiveList.jsx:5-75 | the invariant of every reachable state: a closed slot is `{id: null, description: ""}`, an open slot has a timestamp id, every listed item has a timestamp id and a description that is not blank (the guarantee `validateInput` gives, since `confirmAddItem` is the only path that appends), and the selection holds ids of listed items, each once (kept by `StepPreservesInv`, established by `ReachableInv`) |
| `JsText.TrimStartSpec` | linux-torwalds-is-a-retard/src/components/InteractiveList.jsx:23 | the result is a suffix of the input; everything cut off is whitespace; the result is empty or starts with a non-whitespace character |
| `JsText.TrimEndSpec` | linux-torwalds-is-a-retard/src/components/InteractiveList.jsx:23 | the result is a prefix of the input; everything cut off is whitespace; the result is empty or ends with a non-whitespace character |
| `JsText.BlankIffAllWhitespace` | linux-torwalds-is-a-retard/src/components/InteractiveList.jsx:23 | `description.trim() === ""` holds exactly when every character is whitespace (both directions) |
| `Seqs.Filter` | linux-torwalds-is-a-retard/src/components/InteractiveList.jsx:51 | `filter` returns no more elements than its input, and each satisfies the predicate |
| `Seqs.FilterIsSubsequence` | linux-torwalds-is-a-retard/src/components/InteractiveList.jsx:58 | a filter only deletes elements: what it keeps stays in the original relative order |
| `Seqs.FilterCount` | linux-torwalds-is-a-retard/src/components/InteractiveList.jsx:58 | a filter keeps every occurrence of a value the predicate accepts and no occurrence of one it rejects |
| `Seqs.FilterMember` | linux-torwalds-is-a-retard/src/components/InteractiveList.jsx:51 | a value is in the filtered array exactly when it is in the input and the predicate accepts it |
| `Seqs.FilterKeepsAll` | linux-torwalds-is-a-retard/src/components/InteractiveList.jsx:51 | filtering an array whose elements are all accepted returns that array |
| `Seqs.FilterAppend` | linux-torwalds-is-a-retard/src/components/InteractiveList.jsx:51-52 | filtering `[...a, ...b]` is filtering `a` then `b` and joining the results |
| `Seqs.FilterNoDuplicates` | linux-torwalds-is-a-retard/src/components/InteractiveList.jsx:51 | filtering a duplicate-free array gives a duplicate-free array |
| `ListState.StartAddingOpensSlot` | linux-torwalds-is-a-retard/src/components/InteractiveList.jsx:15-18 | starting an add opens the slot with the given timestamp and empty text and clears the error; the list and the selection are untouched |
| `ListState.ChangeDescriptionEditsText` | linux-torwalds-is-a-retard/src/components/InteractiveList.jsx:134-137 | typing replaces only the slot's text (its id stays) and clears the error; list, selection and the adding flag are untouched |
| `ListState.ConfirmRejectsBlank` | linux-torwalds-is-a-retard/src/components/InteractiveList.jsx:22-32 | confirming an empty or whitespace-only description only raises the error flag: the list is unchanged and the slot stays as it was |
| `ListState.ConfirmAppends` | linux-torwalds-is-a-retard/src/components/InteractiveList.jsx:31-38 | confirming a non-blank description appends exactly the slot's item after the unchanged earlier items, closes the slot, resets it to `{id: null, description: ""}` and clears the error; the selection is untouched |
| `ListState.ToggleSelectSpec` | linux-torwalds-is-a-retard/src/components/InteractiveList.jsx:48-54 | toggling never touches the list or the slot. A ticked id loses every occurrence, and the other ids keep their multiplicity and order. An unticked id is appended |
| `ListState.ToggleAbsentTwice` | linux-torwalds-is-a-retard/src/components/InteractiveList.jsx:48-54 | toggling an unticked id twice restores the selection array exactly |
| `ListState.TogglePresentTwice` | linux-torwalds-is-a-retard/src/components/InteractiveList.jsx:48-54 | toggling a ticked id twice yields the same ids (membership in both directions) |
| `ListState.DeleteSelectedSpec` | linux-torwalds-is-a-retard/src/components/InteractiveList.jsx:56-61 | deleting keeps exactly the items whose id is not ticked, every occurrence of them, in their original relative order; the selection becomes empty; the slot is untouched |
| `ListState.ClearListResets` | linux-torwalds-is-a-retard/src/components/InteractiveList.jsx:40-46 | clearing from any state gives the mount state: no items, no selection, no slot, blank slot item, no error |
| `ListState.ClearListIdempotent` | linux-torwalds-is-a-retard/src/components/InteractiveList.jsx:40-46 | clearing twice equals clearing once |
| `ListState.EscapeSpec` | linux-torwalds-is-a-retard/src/components/InteractiveList.jsx:67-74 | Escape empties the selection and leaves the list unchanged. An open slot is closed and reset and its error cleared. A closed slot and its error are left as they were |
| `ListState.OtherKeyIgnored` | linux-torwalds-is-a-retard/src/components/InteractiveList.jsx:63-75 | keys other than Enter and Escape change nothing |
| `ListState.InitialInv` | linux-torwalds-is-a-retard/src/components/InteractiveList.jsx:5-12 | the mount state satisfies the invariant |
| `ListState.ConfirmPreservesInv` | linux-torwalds-is-a-retard/src/components/InteractiveList.jsx:31-38 | confirming keeps the invariant: only a timestamped item is ever appended, and ticked ids stay ids of listed items |
| `ListState.TogglePreservesInv` | linux-torwalds-is-a-retard/src/components/InteractiveList.jsx:48-54 | toggling the id of a listed item keeps the selection duplicate-free and made of listed ids |
| `ListState.DeletePreservesInv` | linux-torwalds-is-a-retard/src/components/InteractiveList.jsx:56-61 | deleting the ticked items keeps the invariant |
| `ListState.StepPreservesInv` | linux-torwalds-is-a-retard/src/components/InteractiveList.jsx:86-138 | every event the rendered buttons, inputs and key listener allow keeps the invariant |
| `ListState.TracePreservesInv` | linux-torwalds-is-a-retard/src/components/InteractiveList.jsx:15-75 | every sequence of allowed events keeps the invariant |
| `ListState.ReachableInv` | linux-torwalds-is-a-retard/src/components/InteractiveList.jsx:5-75 | in every state reachable from mounting the invariant holds, so every listed item has a timestamp id and a non-blank description; in particular, when no add is in progress the slot's description is `""` |
| `ListState.IdleEnterOnlyFlagsError` | linux-torwalds-is-a-retard/src/components/InteractiveList.jsx:63-66 | under the invariant, Enter with no add in progress appends nothing and only raises the error flag |
| `ListState.ReachableIdleEnterKeepsItems` | linux-torwalds-is-a-retard/src/components/InteractiveList.jsx:63-66 | in every state reachable from mounting with no add in progress, Enter leaves everything but the error flag unchanged and raises that flag |
| `InteractiveListComponent.InteractiveList.constructor` | linux-torwalds-is-a-retard/src/components/InteractiveList.jsx:5-12 | the fields start as the mount state, which satisfies the invariant |
| `InteractiveListComponent.InteractiveList.StartAddingItem` | linux-torwalds-is-a-retard/src/components/InteractiveList.jsx:15-20 | allowed only while no add is in progress (button disabled, line 90); the new fields are `StartAdding` of the old ones; keeps the invariant |
| `InteractiveListComponent.InteractiveList.OnDescriptionChange` | linux-torwalds-is-a-retard/src/components/InteractiveList.jsx:134-137 | allowed only while the slot is rendered (line 128); the new fields are `ChangeDescription` of the old ones; keeps the invariant |
| `InteractiveListComponent.InteractiveList.ValidateInput` | linux-torwalds-is-a-retard/src/components/InteractiveList.jsx:22-29 | returns false exactly when the description is all whitespace, and then only raises the error flag; otherwise changes nothing |
| `InteractiveListComponent.InteractiveList.ConfirmAddItem` | linux-torwalds-is-a-retard/src/components/InteractiveList.jsx:31-38 | the new fields are `ConfirmAdd` of the old ones; keeps the invariant |
| `InteractiveListComponent.InteractiveList.ClearList` | linux-torwalds-is-a-retard/src/components/InteractiveList.jsx:40-46 | allowed only with a non-empty list (button disabled, line 108); the new fields are `ClearList` of the old ones; keeps the invariant |
| `InteractiveListComponent.InteractiveList.ToggleSelectItem` | linux-torwalds-is-a-retard/src/components/InteractiveList.jsx:48-54 | called with the id of a listed item (the checkbox, lines 116-121); the new fields are `ToggleSelect` of the old ones; keeps the invariant |
| `InteractiveListComponent.InteractiveList.DeleteSelectedItems` | linux-torwalds-is-a-retard/src/components/InteractiveList.jsx:56-61 | allowed only with a non-empty selection (button disabled, line 99); the new fields are `DeleteSelected` of the old ones; keeps the invariant |
| `InteractiveListComponent.InteractiveList.HandleKeyDown` | linux-torwalds-is-a-retard/src/components/InteractiveList.jsx:63-75 | the new fields are `KeyDown` of the old ones (Enter confirms, Escape empties the selection and closes an open slot); keeps the invariant |

## Left out

- `Date.now()` (line 17) is not modelled as a clock. Its value is the
  `now` parameter of `StartAddingItem` and of the `AddClick` event. Because
  of this, uniqueness of item ids is not modelled.
- The deferred `focus()` through `setTimeout` (line 19) is left out. It is
  a browser side effect and does not touch the state.
- `e.preventDefault()` (line 24) is left out for the same reason.
- Registering and removing the document `keydown` listener (lines 76-82) is
  left out.
- An Enter or Escape typed in the slot reaches `handleKeyDown` twice: once
  through the input's `onKeyDown` (line 138) and once through the document
  listener (line 77). The model treats one key event as one call.
  - What the second call sees depends on how React batches state updates.
    That is not part of this model.
- The rendered markup, CSS, titles, the placeholder text and the error
  class (lines 83-164) are left out. Only the guards they impose are
  modelled: the `disabled` attributes and which inputs exist.
- React's asynchronous state updates are not modelled. Each handler is one
  atomic step from the state at the start of the event.
- JavaScript strings are UTF-16 code units, while Dafny's `char` is a
  Unicode scalar value. Every code point `trim` strips lies in the Basic
  Multilingual Plane, so the blank test is the same in both.
- `Modal.jsx` is not part of this model. It only renders markup when its
  `isOpen` prop is true.
- `SearchInput.jsx` is not part of this model. Its only logic is a 300 ms
  debounce built from timers.
- `main.jsx` is not part of this model. It only mounts the application.
