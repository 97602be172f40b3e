/** The to-do list component as a state machine over its five pieces of
    state. Each handler is a function from the old state to the new one; the
    `disabled` attributes of the buttons and the conditional rendering of the
    composition slot and of the checkboxes are the guards (`Enabled`). */
module ListState {
  import opened Seqs
  import opened JsText

  /** An id as JavaScript holds it: `null` in an empty composition slot,
      otherwise the millisecond timestamp `Date.now()` gave when the slot was
      opened. */
  datatype Id = Null | Stamp(millis: int)

  datatype Item = Item(id: Id, description: string)

  /** `{ id: null, description: "" }`: the slot when nothing is composed. */
  const BlankItem: Item := Item(Null, "")

  datatype State = State(
    items: seq<Item>,          // the list, in display order
    selectedItems: seq<Id>,    // ids whose checkbox is ticked, in ticking order
    isAddingNewItem: bool,     // the composition slot is shown
    newItem: Item,             // the composition slot
    inputError: bool)          // the slot shows the "add a task first" error

  /** The state the component mounts with. */
  const Initial: State := State([], [], false, BlankItem, false)

  /** The keys `handleKeyDown` distinguishes. */
  datatype Key = Enter | Escape | OtherKey

  /* ---------------------------------------------------------------------- */
  /* Handlers                                                               */
  /* ---------------------------------------------------------------------- */

  /** `startAddingItem`, with `now` the value of `Date.now()`. */
  function StartAdding(s: State, now: int): (r: State)
  {
    s.(isAddingNewItem := true, newItem := Item(Stamp(now), ""), inputError := false)
  }

  /** The slot's text `onChange` handler. */
  function ChangeDescription(s: State, text: string): (r: State)
  {
    s.(newItem := s.newItem.(description := text), inputError := false)
  }

  /** `confirmAddItem`: `validateInput` rejects a blank description by raising
      the error flag; otherwise the slot's item is appended and the slot closed. */
  function ConfirmAdd(s: State): (r: State)
  {
    if IsBlank(s.newItem.description) then
      s.(inputError := true)
    else
      s.(items := s.items + [s.newItem], isAddingNewItem := false,
         newItem := BlankItem, inputError := false)
  }

  /** `clearList`. */
  function ClearList(s: State): (r: State)
  {
    s.(items := [], selectedItems := [], isAddingNewItem := false,
       newItem := BlankItem, inputError := false)
  }

  /** The filter predicate `(id) => id !== itemId`. */
  function IsNot(itemId: Id): (r: Id -> bool)
  {
    (id: Id) => id != itemId
  }

  /** The new selection computed by `toggleSelectItem`. */
  function Toggled(selected: seq<Id>, itemId: Id): (r: seq<Id>)
  {
    if itemId in selected then Filter(selected, IsNot(itemId)) else selected + [itemId]
  }

  /** `toggleSelectItem`. */
  function ToggleSelect(s: State, itemId: Id): (r: State)
  {
    s.(selectedItems := Toggled(s.selectedItems, itemId))
  }

  /** The filter predicate `(item) => !selectedItems.includes(item.id)`. */
  function IsUnselected(selected: seq<Id>): (r: Item -> bool)
  {
    (item: Item) => item.id !in selected
  }

  /** `deleteSelectedItems`. */
  function DeleteSelected(s: State): (r: State)
  {
    s.(items := Filter(s.items, IsUnselected(s.selectedItems)), selectedItems := [])
  }

  /** `handleKeyDown`, one key event being one call. */
  function KeyDown(s: State, key: Key): (r: State)
  {
    match key
    case Enter => ConfirmAdd(s)
    case Escape =>
      if s.isAddingNewItem then
        s.(selectedItems := [], isAddingNewItem := false, newItem := BlankItem, inputError := false)
      else
        s.(selectedItems := [])
    case OtherKey => s
  }

  /* ---------------------------------------------------------------------- */
  /* Events, their guards, and runs                                         */
  /* ---------------------------------------------------------------------- */

  datatype Event =
    | AddClick(now: int)           // the "+" button
    | DescriptionInput(text: string)
    | ConfirmClick                 // the check-mark button beside the slot
    | ClearClick                   // the "clear list" button
    | CheckboxChange(itemId: Id)   // the checkbox of the item with that id
    | DeleteSelectedClick          // the "x" button
    | KeyPress(key: Key)           // a key reaching the document listener

  predicate HasItem(items: seq<Item>, id: Id)
  {
    exists i :: 0 <= i < |items| && items[i].id == id
  }

  /** Whether the event can happen: a disabled button cannot be clicked, and
      the slot's input, its confirm button and an item's checkbox exist only
      while rendered. */
  predicate Enabled(s: State, e: Event)
  {
    match e
    case AddClick(_) => !s.isAddingNewItem
    case DescriptionInput(_) => s.isAddingNewItem
    case ConfirmClick => s.isAddingNewItem
    case ClearClick => |s.items| != 0
    case CheckboxChange(id) => HasItem(s.items, id)
    case DeleteSelectedClick => |s.selectedItems| != 0
    case KeyPress(_) => true
  }

  function Step(s: State, e: Event): (r: State)
  {
    match e
    case AddClick(now) => StartAdding(s, now)
    case DescriptionInput(text) => ChangeDescription(s, text)
    case ConfirmClick => ConfirmAdd(s)
    case ClearClick => ClearList(s)
    case CheckboxChange(id) => ToggleSelect(s, id)
    case DeleteSelectedClick => DeleteSelected(s)
    case KeyPress(key) => KeyDown(s, key)
  }

  /** Every event of `events` is enabled when it happens, starting from `s`. */
  predicate IsTrace(s: State, events: seq<Event>)
    decreases |events|
  {
    events == [] || (Enabled(s, events[0]) && IsTrace(Step(s, events[0]), events[1..]))
  }

  function Run(s: State, events: seq<Event>): (r: State)
    decreases |events|
  {
    if events == [] then s else Run(Step(s, events[0]), events[1..])
  }

  /* ---------------------------------------------------------------------- */
  /* The invariant                                                          */
  /* ---------------------------------------------------------------------- */

  /** What every reachable state satisfies: the slot is reset whenever it is
      closed and carries a timestamp while open, every listed item has a
      timestamp id and a description that is not blank, and the selection holds ids of listed items, each once. */
  predicate Inv(s: State)
  {
    (!s.isAddingNewItem ==> s.newItem == BlankItem) &&
    (s.isAddingNewItem ==> s.newItem.id.Stamp?) &&
    (forall i :: 0 <= i < |s.items| ==> s.items[i].id.Stamp?) &&
    (forall i :: 0 <= i < |s.items| ==> !AllWhitespace(s.items[i].description)) &&
    (forall i :: 0 <= i < |s.selectedItems| ==> HasItem(s.items, s.selectedItems[i])) &&
    NoDuplicates(s.selectedItems)
  }

  /* ---------------------------------------------------------------------- */
  /* Properties of single handlers                                          */
  /* ---------------------------------------------------------------------- */

  /** Opening the slot: a fresh timestamped item with empty text, no error,
      the list and the selection untouched. */
  lemma StartAddingOpensSlot(s: State, now: int)
    ensures var r := StartAdding(s, now);
      r.isAddingNewItem && r.newItem == Item(Stamp(now), "") && !r.inputError &&
      r.items == s.items && r.selectedItems == s.selectedItems
  {
  }

  /** Typing replaces only the slot's text and clears the error. */
  lemma ChangeDescriptionEditsText(s: State, text: string)
    ensures var r := ChangeDescription(s, text);
      r.newItem == Item(s.newItem.id, text) && !r.inputError &&
      r.items == s.items && r.selectedItems == s.selectedItems &&
      r.isAddingNewItem == s.isAddingNewItem
  {
  }

  /** Confirming an empty or whitespace-only description changes nothing but
      the error flag, which it raises; the slot stays as it was. */
  lemma ConfirmRejectsBlank(s: State)
    requires AllWhitespace(s.newItem.description)
    ensures ConfirmAdd(s) == s.(inputError := true)
  {
    BlankIffAllWhitespace(s.newItem.description);
  }

  /** Confirming a description with a non-whitespace character appends
      exactly the slot's item after the earlier items, closes and resets the
      slot and clears the error; the selection is untouched. */
  lemma ConfirmAppends(s: State)
    requires !AllWhitespace(s.newItem.description)
    ensures var r := ConfirmAdd(s);
      |r.items| == |s.items| + 1 && r.items[..|s.items|] == s.items &&
      r.items[|s.items|] == s.newItem &&
      !r.isAddingNewItem && r.newItem == BlankItem && !r.inputError &&
      r.selectedItems == s.selectedItems
  {
    BlankIffAllWhitespace(s.newItem.description);
    var r := ConfirmAdd(s);
    assert r.items == s.items + [s.newItem];
    assert r.items[..|s.items|] == s.items;
  }

  /** Toggling a selected id removes every occurrence of it and keeps the
      other ids, each as often as before and in the same order; toggling an
      unselected id appends it. The list is never touched. */
  lemma ToggleSelectSpec(s: State, id: Id)
    ensures var r := ToggleSelect(s, id);
      r.items == s.items && r.isAddingNewItem == s.isAddingNewItem &&
      r.newItem == s.newItem && r.inputError == s.inputError
    ensures var sel, sel' := s.selectedItems, ToggleSelect(s, id).selectedItems;
      id in sel ==>
        id !in sel' && IsSubsequence(sel', sel) &&
        forall x :: x != id ==> multiset(sel')[x] == multiset(sel)[x]
    ensures id !in s.selectedItems ==>
      ToggleSelect(s, id).selectedItems == s.selectedItems + [id]
  {
    var sel := s.selectedItems;
    if id in sel {
      FilterMember(sel, IsNot(id), id);
      FilterIsSubsequence(sel, IsNot(id));
      forall x | x != id
        ensures multiset(Filter(sel, IsNot(id)))[x] == multiset(sel)[x]
      {
        FilterCount(sel, IsNot(id), x);
      }
    }
  }

  /** Toggling an unselected id twice restores the selection exactly. */
  lemma ToggleAbsentTwice(selected: seq<Id>, id: Id)
    requires id !in selected
    ensures Toggled(Toggled(selected, id), id) == selected
  {
    assert id in selected + [id];
    FilterAppend(selected, [id], IsNot(id));
    FilterKeepsAll(selected, IsNot(id));
  }

  /** Toggling a selected id twice gives the same set of ids: the id is
      dropped and then appended again. */
  lemma TogglePresentTwice(selected: seq<Id>, id: Id)
    requires id in selected
    ensures var twice := Toggled(Toggled(selected, id), id);
      forall x :: x in twice <==> x in selected
  {
    var once := Toggled(selected, id);
    FilterMember(selected, IsNot(id), id);
    assert id !in once;
    forall x
      ensures x in once + [id] <==> x in selected
    {
      FilterMember(selected, IsNot(id), x);
    }
  }

  /** Deleting the selection keeps exactly the items whose id is not
      selected, every occurrence of them and in their original order, and
      empties the selection; the slot is untouched. */
  lemma DeleteSelectedSpec(s: State)
    ensures var r := DeleteSelected(s);
      IsSubsequence(r.items, s.items) &&
      (forall it :: multiset(r.items)[it] ==
         if it.id in s.selectedItems then 0 else multiset(s.items)[it]) &&
      (forall it :: it in r.items <==> it in s.items && it.id !in s.selectedItems) &&
      r.selectedItems == [] &&
      r.isAddingNewItem == s.isAddingNewItem && r.newItem == s.newItem &&
      r.inputError == s.inputError
  {
    var keep := IsUnselected(s.selectedItems);
    FilterIsSubsequence(s.items, keep);
    forall it
      ensures multiset(Filter(s.items, keep))[it] ==
        if it.id in s.selectedItems then 0 else multiset(s.items)[it]
      ensures it in Filter(s.items, keep) <==> it in s.items && it.id !in s.selectedItems
    {
      FilterCount(s.items, keep, it);
      FilterMember(s.items, keep, it);
    }
  }

  /** Clearing returns the component to the state it mounts with, whatever
      the state before. */
  lemma ClearListResets(s: State)
    ensures ClearList(s) == Initial
  {
  }

  /** Clearing twice is clearing once. */
  lemma ClearListIdempotent(s: State)
    ensures ClearList(ClearList(s)) == ClearList(s)
  {
  }

  /** Escape empties the selection and leaves the list alone; an open slot
      is closed and reset and its error cleared, a closed one is untouched. */
  lemma EscapeSpec(s: State)
    ensures var r := KeyDown(s, Escape);
      r.selectedItems == [] && r.items == s.items &&
      (s.isAddingNewItem ==> !r.isAddingNewItem && r.newItem == BlankItem && !r.inputError) &&
      (!s.isAddingNewItem ==> r.newItem == s.newItem && r.inputError == s.inputError &&
                              !r.isAddingNewItem)
  {
  }

  /** Keys other than Enter and Escape are ignored. */
  lemma OtherKeyIgnored(s: State)
    ensures KeyDown(s, OtherKey) == s
  {
  }

  /* ---------------------------------------------------------------------- */
  /* The invariant is kept                                                  */
  /* ---------------------------------------------------------------------- */

  lemma InitialInv()
    ensures Inv(Initial)
  {
  }

  lemma HasItemAppend(items: seq<Item>, item: Item, id: Id)
    requires HasItem(items, id)
    ensures HasItem(items + [item], id)
  {
    var i :| 0 <= i < |items| && items[i].id == id;
    assert (items + [item])[i] == items[i];
  }

  /** Every enabled event keeps the invariant. */
  lemma StepPreservesInv(s: State, e: Event)
    requires Inv(s) && Enabled(s, e)
    ensures Inv(Step(s, e))
  {
    match e
    case ConfirmClick =>
      ConfirmPreservesInv(s);
    case KeyPress(Enter) =>
      ConfirmPreservesInv(s);
    case CheckboxChange(id) =>
      TogglePreservesInv(s, id);
    case DeleteSelectedClick =>
      DeletePreservesInv(s);
    case _ =>
  }

  lemma ConfirmPreservesInv(s: State)
    requires Inv(s)
    ensures Inv(ConfirmAdd(s))
  {
    BlankIffAllWhitespace(s.newItem.description);
    if !IsBlank(s.newItem.description) {
      var r := ConfirmAdd(s);
      assert s.isAddingNewItem;
      forall i | 0 <= i < |r.selectedItems|
        ensures HasItem(r.items, r.selectedItems[i])
      {
        HasItemAppend(s.items, s.newItem, s.selectedItems[i]);
      }
    }
  }

  lemma DeletePreservesInv(s: State)
    requires Inv(s)
    ensures Inv(DeleteSelected(s))
  {
    var items' := DeleteSelected(s).items;
    forall i | 0 <= i < |items'|
      ensures items'[i].id.Stamp? && !AllWhitespace(items'[i].description)
    {
      FilterMember(s.items, IsUnselected(s.selectedItems), items'[i]);
    }
  }

  lemma TogglePreservesInv(s: State, id: Id)
    requires Inv(s) && HasItem(s.items, id)
    ensures Inv(ToggleSelect(s, id))
  {
    var sel := s.selectedItems;
    var sel' := Toggled(sel, id);
    if id in sel {
      FilterNoDuplicates(sel, IsNot(id));
      forall i | 0 <= i < |sel'|
        ensures HasItem(s.items, sel'[i])
      {
        FilterMember(sel, IsNot(id), sel'[i]);
      }
    }
  }

  /** Every run of enabled events keeps the invariant. */
  lemma {:induction false} TracePreservesInv(s: State, events: seq<Event>)
    requires Inv(s) && IsTrace(s, events)
    ensures Inv(Run(s, events))
    decreases |events|
  {
    if events != [] {
      StepPreservesInv(s, events[0]);
      TracePreservesInv(Step(s, events[0]), events[1..]);
    }
  }

  /** Every state reachable from mounting satisfies the invariant; in
      particular, whenever no add is in progress the slot's text is empty. */
  lemma ReachableInv(events: seq<Event>)
    requires IsTrace(Initial, events)
    ensures Inv(Run(Initial, events))
    ensures !Run(Initial, events).isAddingNewItem ==> Run(Initial, events).newItem.description == ""
  {
    TracePreservesInv(Initial, events);
  }

  /** Enter while no add is in progress never appends an item: it only
      raises the error flag. */
  lemma IdleEnterOnlyFlagsError(s: State)
    requires Inv(s) && !s.isAddingNewItem
    ensures KeyDown(s, Enter) == s.(inputError := true)
  {
    ConfirmRejectsBlank(s);
  }

  /** The same, for every state reachable from mounting. */
  lemma ReachableIdleEnterKeepsItems(events: seq<Event>, s: State)
    requires IsTrace(Initial, events) && s == Run(Initial, events)
    requires !s.isAddingNewItem
    ensures KeyDown(s, Enter) == s.(inputError := true)
  {
    ReachableInv(events);
    IdleEnterOnlyFlagsError(s);
  }
}
