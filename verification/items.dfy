/** Item.java: a rentable asset with an owner and a non-negative cost. */
module Items {
  import opened Wrappers
  import opened Errors

  /** The owner is held by id. The Java keeps a defensive copy of the owning Member;
      only its identity matters to the rest of the model. */
  datatype Item = Item(id: string, name: string, cost: int, ownerId: string)

  /** The class invariant: a cost is never negative. */
  predicate Valid(i: Item) {
    i.cost >= 0
  }

  /** The key under which items are compared (`equals` and `hashCode` use only the id). */
  function ItemId(i: Item): string {
    i.id
  }

  /** `equals`: two items are the same item iff their ids are equal. */
  predicate Equal(a: Item, b: Item) {
    a.id == b.id
  }

  /** The validating constructor. The id is a fresh value supplied by the caller, standing
      in for the generated UUID. */
  function NewItem(id: string, ownerId: string, name: string, cost: int): (r: Result<Item, Error>)
    ensures r.Failure? <==> cost < 0
    ensures r.Failure? ==> r.error == NegativeCost
    ensures r.Success? ==> Valid(r.value)
    ensures r.Success? ==> r.value.id == id && r.value.ownerId == ownerId
    ensures r.Success? ==> r.value.name == name && r.value.cost == cost
  {
    if cost < 0 then Failure(NegativeCost) else Success(Item(id, name, cost, ownerId))
  }

  /** The copy constructor that re-owns the copy: id, name and cost carry over. */
  function CopyWithOwner(other: Item, newOwnerId: string): (r: Item)
    ensures Equal(r, other)
    ensures r.name == other.name && r.cost == other.cost
    ensures r.ownerId == newOwnerId
    ensures Valid(other) ==> Valid(r)
  {
    other.(ownerId := newOwnerId)
  }

  /** The plain copy constructor: with value semantics the copy is indistinguishable from
      the original. */
  function Copy(other: Item): (r: Item)
    ensures r == other
  {
    CopyWithOwner(other, other.ownerId)
  }

  /** `setName`: only the name changes. */
  function SetName(i: Item, name: string): (r: Item)
    ensures r.name == name
    ensures r.id == i.id && r.cost == i.cost && r.ownerId == i.ownerId
  {
    i.(name := name)
  }

  /** `setCost`: a negative cost is refused and nothing changes; otherwise only the cost
      changes. */
  function SetCost(i: Item, cost: int): (r: Result<Item, Error>)
    ensures r.Failure? <==> cost < 0
    ensures r.Failure? ==> r.error == NegativeCost
    ensures r.Success? ==> r.value.cost == cost && Valid(r.value)
    ensures r.Success? ==> r.value.id == i.id && r.value.name == i.name && r.value.ownerId == i.ownerId
  {
    if cost < 0 then Failure(NegativeCost) else Success(i.(cost := cost))
  }

  /** Every constructor and mutator leaves a valid item valid, so `cost >= 0` is an
      invariant of the class. */
  lemma CostInvariant(i: Item, name: string, cost: int, ownerId: string)
    requires Valid(i)
    ensures Valid(SetName(i, name))
    ensures Valid(CopyWithOwner(i, ownerId)) && Valid(Copy(i))
    ensures SetCost(i, cost).Success? ==> Valid(SetCost(i, cost).value)
    ensures NewItem(i.id, ownerId, name, cost).Success? ==> Valid(NewItem(i.id, ownerId, name, cost).value)
  {
  }

  /** Id equality is an equivalence relation, and a re-owned copy still equals the original. */
  lemma EqualIsEquivalence(a: Item, b: Item, c: Item, o: string)
    ensures Equal(a, a)
    ensures Equal(a, b) <==> Equal(b, a)
    ensures Equal(a, b) && Equal(b, c) ==> Equal(a, c)
    ensures Equal(a, b) <==> ItemId(a) == ItemId(b)
  {
  }
}
