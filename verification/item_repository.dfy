/** ItemRepository.java: the items in insertion order, unique by id. */
module ItemRepository {
  import opened Wrappers
  import opened Errors
  import opened Items
  import Keyed

  predicate Unique(items: seq<Item>) {
    Keyed.DistinctKeys(items, ItemId)
  }

  /** `itemExists`: some stored item has the same id. */
  predicate ItemExists(items: seq<Item>, i: Item) {
    Keyed.HasKey(items, ItemId, i.id)
  }

  /** `addItem`: a duplicate id is refused with the list unchanged; otherwise the item is
      appended and ids stay unique. */
  function AddItem(items: seq<Item>, i: Item): (r: Result<seq<Item>, Error>)
    ensures r.Failure? <==> ItemExists(items, i)
    ensures r.Failure? ==> r.error == IdExists
    ensures r.Success? ==> r.value == items + [i] && |r.value| == |items| + 1
    ensures r.Success? && Unique(items) ==> Unique(r.value) && ItemExists(r.value, i)
  {
    if ItemExists(items, i) then Failure(IdExists)
    else
      assert (items + [i])[|items|] == i;
      assert Unique(items) ==> Unique(items + [i]) by {
        if Unique(items) { Keyed.AppendFreshKeepsDistinct(items, ItemId, i); }
      }
      Success(items + [i])
  }

  /** `deleteItem`: the item with that id is removed and the others keep their order;
      an absent item changes nothing. */
  function DeleteItem(items: seq<Item>, i: Item): (r: seq<Item>)
    ensures !ItemExists(items, i) ==> r == items
    ensures ItemExists(items, i) ==> |r| == |items| - 1
    ensures Unique(items) ==> Unique(r) && !ItemExists(r, i)
    ensures Unique(items) ==> r == Keyed.Without(items, ItemId, i.id)
  {
    var r := Keyed.RemoveFirst(items, ItemId, i.id);
    assert Unique(items) ==> Unique(r) && !ItemExists(r, i) && r == Keyed.Without(items, ItemId, i.id) by {
      if Unique(items) {
        Keyed.RemoveFirstKeepsDistinct(items, ItemId, i.id, ItemId);
        Keyed.RemoveFirstIsWithout(items, ItemId, i.id);
      }
    }
    r
  }

  /** `itemExists` is `List.contains`, which compares with `Item.equals`: it holds exactly
      when some stored item equals `i`, and then the id lookup finds one. */
  lemma ContainsIsKeyPresence(items: seq<Item>, i: Item)
    ensures ItemExists(items, i) <==> exists k | 0 <= k < |items| :: Items.Equal(items[k], i)
    ensures ItemExists(items, i) <==> Keyed.Find(items, ItemId, i.id).Some?
  {
  }

  /** Deleting an item that was just added restores the repository. */
  lemma DeleteUndoesAdd(items: seq<Item>, i: Item)
    requires AddItem(items, i).Success?
    ensures DeleteItem(AddItem(items, i).value, i) == items
  {
    Keyed.RemoveAppended(items, ItemId, i);
  }
}
