/** The state the controllers share, and the outcome of one controller attempt.
    The Java controllers each hold their own shallow copy of the repositories; the model
    keeps one state with value semantics instead. */
module Lending {
  import opened Errors
  import Members
  import Items
  import Contracts
  import MemberRepository
  import ItemRepository
  import ContractRepository

  datatype State = State(
    members: seq<Members.Member>,
    items: seq<Items.Item>,
    contracts: seq<Contracts.Contract>)

  /** What every operation keeps: the uniqueness rules of the three repositories, the item
      cost invariant, and the contract date invariant (with a valid item snapshot). */
  predicate Valid(s: State) {
    && MemberRepository.Unique(s.members)
    && ItemRepository.Unique(s.items)
    && ContractRepository.Unique(s.contracts)
    && (forall i | 0 <= i < |s.items| :: Items.Valid(s.items[i]))
    && (forall i | 0 <= i < |s.contracts| :: Contracts.Valid(s.contracts[i]) && Items.Valid(s.contracts[i].item))
  }

  /** Why an attempt was turned down with a message while its retry loop carries on. */
  datatype Rejection =
    | Refused(error: Error)
    | ItemOrBorrowerNotFound
    | InsufficientFunds
    | ConflictingContract

  /** One pass through a controller's retry loop: it completes with a new state, is turned
      down and would prompt again, or raises an exception the loop does not catch. In the
      last two cases no repository has changed. */
  datatype Attempt =
    | Done(state: State)
    | Retry(reason: Rejection)
    | Abort(error: Error)
}
