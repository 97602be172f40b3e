/** The component itself: its five pieces of state are fields, and each event
    handler is a method that overwrites them. Every method is proved to move
    the fields exactly as the corresponding function of `ListState` moves a
    `State`, and to keep the invariant `Inv`. */
module InteractiveListComponent {
  import opened Seqs
  import opened JsText
  import opened ListState

  class InteractiveList {
    var items: seq<Item>
    var selectedItems: seq<Id>
    var isAddingNewItem: bool
    var newItem: Item
    var inputError: bool

    /** The fields as one value. */
    function Snapshot(): State
      reads this
    {
      State(items, selectedItems, isAddingNewItem, newItem, inputError)
    }

    ghost predicate Valid()
      reads this
    {
      Inv(Snapshot())
    }

    /** Mounting: an empty list, nothing selected, no slot, no error. */
    constructor ()
      ensures Valid() && Snapshot() == Initial
    {
      items := [];
      selectedItems := [];
      isAddingNewItem := false;
      newItem := BlankItem;
      inputError := false;
    }

    /** `startAddingItem`; `now` is the value of `Date.now()`. The "+" button
        is disabled while an add is in progress. */
    method StartAddingItem(now: int)
      requires Valid() && !isAddingNewItem
      modifies this
      ensures Valid()
      ensures Snapshot() == StartAdding(old(Snapshot()), now)
    {
      isAddingNewItem := true;
      newItem := Item(Stamp(now), "");
      inputError := false;
    }

    /** The slot's `onChange`; the input exists only while the slot is shown. */
    method OnDescriptionChange(text: string)
      requires Valid() && isAddingNewItem
      modifies this
      ensures Valid()
      ensures Snapshot() == ChangeDescription(old(Snapshot()), text)
    {
      newItem := newItem.(description := text);
      inputError := false;
    }

    /** `validateInput`: a blank description is refused and raises the error
        flag; anything else is accepted and changes nothing. */
    method ValidateInput() returns (valid: bool)
      modifies this`inputError
      ensures valid <==> !AllWhitespace(old(newItem.description))
      ensures Snapshot() == if valid then old(Snapshot()) else old(Snapshot()).(inputError := true)
    {
      BlankIffAllWhitespace(newItem.description);
      if IsBlank(newItem.description) {
        inputError := true;
        return false;
      }
      return true;
    }

    /** `confirmAddItem`, reached from the confirm button and from Enter. */
    method ConfirmAddItem()
      requires Valid()
      modifies this
      ensures Valid()
      ensures Snapshot() == ConfirmAdd(old(Snapshot()))
    {
      ConfirmPreservesInv(Snapshot());
      BlankIffAllWhitespace(newItem.description);
      var valid := ValidateInput();
      if !valid {
        return;
      }
      items := items + [newItem];
      isAddingNewItem := false;
      newItem := BlankItem;
      inputError := false;
    }

    /** `clearList`; its button is disabled while the list is empty. */
    method ClearList()
      requires Valid() && |items| != 0
      modifies this
      ensures Valid()
      ensures Snapshot() == ListState.ClearList(old(Snapshot()))
    {
      items := [];
      selectedItems := [];
      isAddingNewItem := false;
      newItem := BlankItem;
      inputError := false;
    }

    /** `toggleSelectItem`, called by the checkbox of a listed item. */
    method ToggleSelectItem(itemId: Id)
      requires Valid() && HasItem(items, itemId)
      modifies this
      ensures Valid()
      ensures Snapshot() == ToggleSelect(old(Snapshot()), itemId)
    {
      TogglePreservesInv(Snapshot(), itemId);
      if itemId in selectedItems {
        selectedItems := Filter(selectedItems, IsNot(itemId));
      } else {
        selectedItems := selectedItems + [itemId];
      }
    }

    /** `deleteSelectedItems`; its button is disabled while nothing is
        selected. */
    method DeleteSelectedItems()
      requires Valid() && |selectedItems| != 0
      modifies this
      ensures Valid()
      ensures Snapshot() == DeleteSelected(old(Snapshot()))
    {
      DeletePreservesInv(Snapshot());
      items := Filter(items, IsUnselected(selectedItems));
      selectedItems := [];
    }

    /** `handleKeyDown`: Enter confirms the add, Escape empties the selection
        and closes an open slot, other keys do nothing. */
    method HandleKeyDown(key: Key)
      requires Valid()
      modifies this
      ensures Valid()
      ensures Snapshot() == KeyDown(old(Snapshot()), key)
    {
      if key == Enter {
        ConfirmAddItem();
      }
      if key == Escape {
        selectedItems := [];
        if isAddingNewItem {
          isAddingNewItem := false;
          newItem := BlankItem;
          inputError := false;
        }
      }
    }
  }
}
