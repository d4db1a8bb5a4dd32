/** ContractRepository.java: the contracts in insertion order, unique by id. */
module ContractRepository {
  import opened Wrappers
  import opened Errors
  import opened Contracts
  import Items
  import Keyed

  predicate Unique(cs: seq<Contract>) {
    Keyed.DistinctKeys(cs, ContractId)
  }

  /** Some contract on `item` (compared by id) is still active. */
  predicate HasActiveOn(cs: seq<Contract>, item: Items.Item) {
    exists i | 0 <= i < |cs| :: Items.Equal(cs[i].item, item) && cs[i].active
  }

  /** `addContract`: a duplicate id is refused with the list unchanged; otherwise the
      contract is appended and ids stay unique. */
  function AddContract(cs: seq<Contract>, c: Contract): (r: Result<seq<Contract>, Error>)
    ensures r.Failure? <==> Keyed.HasKey(cs, ContractId, c.id)
    ensures r.Failure? ==> r.error == IdExists
    ensures r.Success? ==> r.value == cs + [c]
    ensures r.Success? && Unique(cs) ==> Unique(r.value)
  {
    if Keyed.HasKey(cs, ContractId, c.id) then Failure(IdExists)
    else
      assert Unique(cs) ==> Unique(cs + [c]) by {
        if Unique(cs) { Keyed.AppendFreshKeepsDistinct(cs, ContractId, c); }
      }
      Success(cs + [c])
  }

  /** `deleteContract`: the contract with that id is removed and the others keep their
      order; an absent contract changes nothing. */
  function DeleteContract(cs: seq<Contract>, c: Contract): (r: seq<Contract>)
    ensures !Keyed.HasKey(cs, ContractId, c.id) ==> r == cs
    ensures Unique(cs) ==> Unique(r) && !Keyed.HasKey(r, ContractId, c.id)
    ensures Unique(cs) ==> r == Keyed.Without(cs, ContractId, c.id)
  {
    var r := Keyed.RemoveFirst(cs, ContractId, c.id);
    assert Unique(cs) ==> Unique(r) && !Keyed.HasKey(r, ContractId, c.id) && r == Keyed.Without(cs, ContractId, c.id) by {
      if Unique(cs) {
        Keyed.RemoveFirstKeepsDistinct(cs, ContractId, c.id, ContractId);
        Keyed.RemoveFirstIsWithout(cs, ContractId, c.id);
      }
    }
    r
  }

  /** `getContract`: the contract with that id, or null. */
  function GetContract(cs: seq<Contract>, id: string): (r: Option<Contract>)
    ensures r.Some? <==> Keyed.HasKey(cs, ContractId, id)
    ensures r.Some? ==> r.value.id == id && r.value in cs
    ensures r.Some? ==> exists i | 0 <= i < |cs| :: cs[i] == r.value && !Keyed.HasKey(cs[..i], ContractId, id)
  {
    Keyed.Find(cs, ContractId, id)
  }

  /** `cancelContractsForItem`: every contract on that item becomes inactive (none is
      deleted); contracts on other items are untouched; nothing but the flag changes. */
  function CancelContractsForItem(cs: seq<Contract>, item: Items.Item): (r: seq<Contract>)
    ensures |r| == |cs|
    ensures forall i | 0 <= i < |cs| :: r[i] == cs[i].(active := r[i].active)
    ensures forall i | 0 <= i < |cs| && Items.Equal(cs[i].item, item) :: !r[i].active
    ensures forall i | 0 <= i < |cs| && !Items.Equal(cs[i].item, item) :: r[i] == cs[i]
  {
    if |cs| == 0 then []
    else
      var c := cs[0];
      var head := if Items.Equal(c.item, item) && c.active then SetActive(c, false) else c;
      var rest := CancelContractsForItem(cs[1..], item);
      assert forall i | 1 <= i < |cs| :: cs[i] == cs[1..][i - 1];
      [head] + rest
  }

  /** Cancelling keeps ids unique and never activates a contract. */
  lemma CancelKeepsUnique(cs: seq<Contract>, item: Items.Item)
    ensures Unique(cs) ==> Unique(CancelContractsForItem(cs, item))
    ensures forall i | 0 <= i < |cs| :: CancelContractsForItem(cs, item)[i].active ==> cs[i].active
  {
    var r := CancelContractsForItem(cs, item);
    assert forall i | 0 <= i < |cs| :: ContractId(r[i]) == ContractId(cs[i]);
  }

  /** After cancelling, no active contract refers to the item, and cancelling again
      changes nothing. */
  lemma CancelIdempotent(cs: seq<Contract>, item: Items.Item)
    ensures !HasActiveOn(CancelContractsForItem(cs, item), item)
    ensures CancelContractsForItem(CancelContractsForItem(cs, item), item) == CancelContractsForItem(cs, item)
  {
    var r := CancelContractsForItem(cs, item);
    var r2 := CancelContractsForItem(r, item);
    assert forall i | 0 <= i < |r| :: r2[i] == r[i];
  }
}
