/** Contract.java: a borrowing agreement over a closed range of days, active until it is
    settled or cancelled. Dates are integer day numbers. */
module Contracts {
  import opened Wrappers
  import opened Errors
  import Items

  /** `item` is the snapshot of the item taken when the contract was made; the borrower is
      held by id (the Java keeps a defensive copy of the Member). Only `active` ever changes. */
  datatype Contract = Contract(
    id: string,
    item: Items.Item,
    borrowerId: string,
    start: int,
    end: int,
    active: bool)

  /** The constructor's invariant: the end date is not before the start date. */
  predicate Valid(c: Contract) {
    c.start <= c.end
  }

  function ContractId(c: Contract): string {
    c.id
  }

  /** `equals`: two contracts are the same contract iff their ids are equal. */
  predicate Equal(a: Contract, b: Contract) {
    a.id == b.id
  }

  /** Day `d` lies in the contract's closed range. */
  predicate Covers(c: Contract, d: int) {
    c.start <= d <= c.end
  }

  /** The constructor: fails with InvalidEndDate iff end < start (a one-day contract, with
      end == start, is allowed); a new contract is active. */
  function NewContract(id: string, item: Items.Item, borrowerId: string, start: int, end: int): (r: Result<Contract, Error>)
    ensures r.Failure? <==> end < start
    ensures r.Failure? ==> r.error == InvalidEndDate
    ensures r.Success? ==> Valid(r.value) && r.value.active
    ensures r.Success? ==> r.value.id == id && r.value.item == item && r.value.borrowerId == borrowerId
    ensures r.Success? ==> r.value.start == start && r.value.end == end
  {
    if end < start then Failure(InvalidEndDate)
    else Success(Contract(id, item, borrowerId, start, end, true))
  }

  /** The copy constructor: runs the validating constructor on the other contract's id and
      dates with a new item and borrower, then carries over the active flag. */
  function Copy(other: Contract, newItem: Items.Item, newBorrowerId: string): (r: Result<Contract, Error>)
    ensures !Valid(other) ==> r == Failure(InvalidEndDate)
    ensures Valid(other) ==> r.Success?
    ensures r.Success? ==> Equal(r.value, other) && r.value.active == other.active
    ensures r.Success? ==> r.value.start == other.start && r.value.end == other.end
    ensures r.Success? ==> r.value.item == newItem && r.value.borrowerId == newBorrowerId
  {
    match NewContract(other.id, newItem, newBorrowerId, other.start, other.end)
    case Failure(e) => Failure(e)
    case Success(c) => Success(c.(active := other.active))
  }

  /** `setActive`: the only mutator; everything else about the contract is final. */
  function SetActive(c: Contract, active: bool): (r: Contract)
    ensures r.active == active
    ensures Equal(r, c) && r.item == c.item && r.borrowerId == c.borrowerId
    ensures r.start == c.start && r.end == c.end
    ensures Valid(c) ==> Valid(r)
  {
    c.(active := active)
  }

  /** `conflictsWith`: same item (by id), both active, and the closed ranges are not
      disjoint. */
  predicate ConflictsWith(a: Contract, b: Contract) {
    && Items.Equal(a.item, b.item)
    && a.active
    && b.active
    && !(a.end < b.start || a.start > b.end)
  }

  /** Conflict is symmetric, and an inactive contract conflicts with nothing. */
  lemma ConflictSymmetric(a: Contract, b: Contract)
    ensures ConflictsWith(a, b) <==> ConflictsWith(b, a)
    ensures !a.active ==> !ConflictsWith(a, b) && !ConflictsWith(b, a)
  {
  }

  /** For valid contracts the range test means exactly "some day is covered by both". */
  lemma ConflictMeansSharedDay(a: Contract, b: Contract)
    requires Valid(a) && Valid(b)
    ensures ConflictsWith(a, b) <==>
      Items.Equal(a.item, b.item) && a.active && b.active && exists d :: Covers(a, d) && Covers(b, d)
  {
    if Items.Equal(a.item, b.item) && a.active && b.active && !(a.end < b.start || a.start > b.end) {
      var d := if a.start < b.start then b.start else a.start;
      assert Covers(a, d) && Covers(b, d);
    }
  }

  /** Touching endpoints conflict: [1,10] and [10,20] share day 10; [1,9] and [10,20] do not. */
  lemma TouchingEndpointsConflict(item: Items.Item)
    ensures ConflictsWith(Contract("A", item, "M", 1, 10, true), Contract("B", item, "N", 10, 20, true))
    ensures !ConflictsWith(Contract("A", item, "M", 1, 9, true), Contract("B", item, "N", 10, 20, true))
  {
  }
}
