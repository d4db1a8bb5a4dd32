/** ItemController.java: one attempt of item creation, and item deletion with its cascade. */
module ItemController {
  import opened Wrappers
  import opened Errors
  import opened Lending
  import Members
  import Items
  import MemberRepository
  import ItemRepository
  import ContractRepository
  import MemberController
  import Contracts
  import Keyed

  /** One attempt of `createItem(owner)` with the parsed cost and a fresh id. A negative
      cost or an id already stored is reported and re-prompted with nothing changed; on
      success the item is appended and `owner.addCredits(cost)` runs on the stored owner. */
  function CreateItem(s: State, owner: Members.Member, id: string, name: string, cost: int): (r: Attempt)
    ensures cost < 0 ==> r == Retry(Refused(NegativeCost))
    ensures cost >= 0 && ItemRepository.ItemExists(s.items, Items.Item(id, name, cost, owner.id)) ==>
      r == Retry(Refused(IdExists))
    ensures r.Done? <==> cost >= 0 && !ItemRepository.ItemExists(s.items, Items.Item(id, name, cost, owner.id))
    ensures r.Done? ==> r.state.items == s.items + [Items.Item(id, name, cost, owner.id)]
    ensures r.Done? ==> r.state.contracts == s.contracts
    ensures r.Done? ==> r.state.members == MemberRepository.Store(s.members, owner.(credits := owner.credits + cost))
    ensures !r.Done? ==> r.Retry?
  {
    if cost < 0 then Retry(Refused(NegativeCost))
    else
      match Items.NewItem(id, owner.id, name, cost)
      case Failure(e) => Retry(Refused(e))
      case Success(item) =>
        if ItemRepository.ItemExists(s.items, item) then Retry(Refused(IdExists))
        else
          match ItemRepository.AddItem(s.items, item)
          case Failure(e) => Retry(Refused(e))
          case Success(items) =>
            match Members.AddCredits(owner, item.cost)
            case Failure(e) => Retry(Refused(e))
            case Success(credited) =>
              Done(s.(items := items, members := MemberRepository.Store(s.members, credited)))
  }

  /** A successful creation keeps the state valid and credits the stored owner with exactly
      the item's cost. */
  lemma CreateItemCreditsOwner(s: State, i: int, id: string, name: string, cost: int)
    requires Valid(s) && 0 <= i < |s.members|
    requires CreateItem(s, s.members[i], id, name, cost).Done?
    ensures Valid(CreateItem(s, s.members[i], id, name, cost).state)
    ensures MemberController.FindMemberById(CreateItem(s, s.members[i], id, name, cost).state.members, s.members[i].id)
      == Some(s.members[i].(credits := s.members[i].credits + cost))
  {
    var owner := s.members[i];
    var item := Items.Item(id, name, cost, owner.id);
    MemberController.StoreKeepsValid(s, i, owner.(credits := owner.credits + cost));
    var s' := s.(members := MemberRepository.Store(s.members, owner.(credits := owner.credits + cost)));
    assert ItemRepository.AddItem(s.items, item).Success?;
    assert ItemRepository.Unique(s.items + [item]);
    assert forall k | 0 <= k < |s.items + [item]| :: Items.Valid((s.items + [item])[k]);
  }

  /** `deleteItem(item)`: null changes nothing. Otherwise every contract on the item is
      cancelled (kept, but made inactive) and the item is removed: afterwards no active
      contract refers to it, no contract is deleted, and contracts on other items and all
      members are untouched. */
  function DeleteItem(s: State, item: Option<Items.Item>): (r: State)
    ensures item.None? ==> r == s
    ensures r.members == s.members
    ensures |r.contracts| == |s.contracts|
    ensures forall k | 0 <= k < |s.contracts| :: r.contracts[k] == s.contracts[k].(active := r.contracts[k].active)
    ensures item.Some? ==> !ContractRepository.HasActiveOn(r.contracts, item.value)
    ensures item.Some? ==> forall k | 0 <= k < |s.contracts| && !Items.Equal(s.contracts[k].item, item.value) ::
      r.contracts[k] == s.contracts[k]
    ensures item.Some? && !ItemRepository.ItemExists(s.items, item.value) ==> r.items == s.items
    ensures item.Some? && ItemRepository.Unique(s.items) ==>
      && !ItemRepository.ItemExists(r.items, item.value)
      && r.items == Keyed.Without(s.items, Items.ItemId, item.value.id)
  {
    match item
    case None => s
    case Some(i) =>
      ContractRepository.CancelIdempotent(s.contracts, i);
      s.(contracts := ContractRepository.CancelContractsForItem(s.contracts, i),
         items := ItemRepository.DeleteItem(s.items, i))
  }

  /** Deleting an item keeps the state valid. */
  lemma DeleteItemKeepsValid(s: State, item: Items.Item)
    requires Valid(s)
    ensures Valid(DeleteItem(s, Some(item)))
  {
    var r := DeleteItem(s, Some(item));
    ContractRepository.CancelKeepsUnique(s.contracts, item);
    forall k | 0 <= k < |r.items| ensures Items.Valid(r.items[k]) {
      assert r.items[k] in s.items;
    }
    forall k | 0 <= k < |r.contracts|
      ensures Contracts.Valid(r.contracts[k]) && Items.Valid(r.contracts[k].item)
    {
      assert r.contracts[k] == s.contracts[k].(active := r.contracts[k].active);
    }
  }
}
