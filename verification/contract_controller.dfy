/** ContractController.java: time-advance settlement, the conflict scan, and one attempt
    of contract creation. */
module ContractController {
  import opened Wrappers
  import opened Errors
  import opened Lending
  import opened Contracts
  import Members
  import Items
  import ContractRepository
  import MemberController
  import Keyed

  /** A debit of `amount` credits owed by the member with id `borrowerId`. */
  datatype Charge = Charge(borrowerId: string, amount: int)

  /** A contract is settled by advancing to `newDate` iff it is active and its end date is
      strictly before `newDate`. */
  predicate Due(c: Contract, newDate: int) {
    c.end < newDate && c.active
  }

  /** The flag half of `advanceTime`: every due contract is made inactive, in place. */
  function SettleContracts(cs: seq<Contract>, newDate: int): (r: seq<Contract>)
    ensures |r| == |cs|
    ensures forall i | 0 <= i < |cs| :: r[i] == cs[i].(active := r[i].active)
    ensures forall i | 0 <= i < |cs| :: r[i].active <==> cs[i].active && !Due(cs[i], newDate)
  {
    if |cs| == 0 then []
    else
      var head := if Due(cs[0], newDate) then SetActive(cs[0], false) else cs[0];
      assert forall i | 1 <= i < |cs| :: cs[i] == cs[1..][i - 1];
      [head] + SettleContracts(cs[1..], newDate)
  }

  /** The debit half of `advanceTime`: one charge of the item's cost to the borrower for
      each due contract, in list order. */
  function Charges(cs: seq<Contract>, newDate: int): (r: seq<Charge>)
    ensures |r| <= |cs|
    ensures r == [] <==> forall i | 0 <= i < |cs| :: !Due(cs[i], newDate)
    ensures (forall i | 0 <= i < |cs| :: Items.Valid(cs[i].item)) ==> forall k | 0 <= k < |r| :: r[k].amount >= 0
  {
    if |cs| == 0 then []
    else
      assert forall i | 1 <= i < |cs| :: cs[i] == cs[1..][i - 1];
      var rest := Charges(cs[1..], newDate);
      if Due(cs[0], newDate) then [Charge(cs[0].borrowerId, cs[0].item.cost)] + rest else rest
  }

  /** Reference definition: one charge for each contract whose flag went from active to
      inactive between `before` and `after`. */
  function FlipCharges(before: seq<Contract>, after: seq<Contract>): seq<Charge>
    requires |before| == |after|
  {
    if |before| == 0 then []
    else
      var rest := FlipCharges(before[1..], after[1..]);
      if before[0].active && !after[0].active then [Charge(before[0].borrowerId, before[0].item.cost)] + rest
      else rest
  }

  /** Settlement charges exactly the contracts it deactivates, each once. */
  lemma {:induction false} ChargesAreFlips(cs: seq<Contract>, newDate: int)
    ensures Charges(cs, newDate) == FlipCharges(cs, SettleContracts(cs, newDate))
  {
    if |cs| > 0 {
      ChargesAreFlips(cs[1..], newDate);
      var r := SettleContracts(cs, newDate);
      assert r[1..] == SettleContracts(cs[1..], newDate);
    }
  }

  /** Total owed by member `id` under a list of charges. */
  function Owed(charges: seq<Charge>, id: string): int {
    if |charges| == 0 then 0
    else (if charges[0].borrowerId == id then charges[0].amount else 0) + Owed(charges[1..], id)
  }

  /** `borrower.deductCredits(cost)` with its NegativeAmount handler: a refused deduction
      leaves the member as it was. */
  function Charged(m: Members.Member, amount: int): (r: Members.Member)
    ensures amount >= 0 ==> r.credits == m.credits - amount
    ensures amount < 0 ==> r == m
    ensures r == m.(credits := r.credits)
  {
    match Members.DeductCredits(m, amount)
    case Success(m') => m'
    case Failure(_) => m
  }

  /** Apply one charge to the stored member with the borrower's id. */
  function ApplyCharge(ms: seq<Members.Member>, charge: Charge): (r: seq<Members.Member>)
    ensures |r| == |ms|
    ensures forall i | 0 <= i < |ms| :: r[i] == ms[i].(credits := r[i].credits)
    ensures charge.amount >= 0 ==> forall i | 0 <= i < |ms| ::
      r[i].credits == ms[i].credits - (if ms[i].id == charge.borrowerId then charge.amount else 0)
  {
    seq(|ms|, i requires 0 <= i < |ms| => if ms[i].id == charge.borrowerId then Charged(ms[i], charge.amount) else ms[i])
  }

  /** Apply the charges in order. Each member loses exactly what it owes; nothing but
      balances changes. */
  function ApplyCharges(ms: seq<Members.Member>, charges: seq<Charge>): (r: seq<Members.Member>)
    ensures |r| == |ms|
    ensures forall i | 0 <= i < |ms| :: r[i] == ms[i].(credits := r[i].credits)
    ensures (forall k | 0 <= k < |charges| :: charges[k].amount >= 0) ==>
      forall i | 0 <= i < |ms| :: r[i].credits == ms[i].credits - Owed(charges, ms[i].id)
    decreases |charges|
  {
    if |charges| == 0 then ms
    else
      assert forall k | 1 <= k < |charges| :: charges[k] == charges[1..][k - 1];
      ApplyCharges(ApplyCharge(ms, charges[0]), charges[1..])
  }

  /** `advanceTime(days)` as the evidently intended behaviour: with `today` standing for
      `LocalDate.now()`, every active contract ending strictly before today + days is
      deactivated and its borrower, as stored, is charged the item's cost. */
  function AdvanceTime(s: State, today: int, days: int): (r: State)
    ensures r.items == s.items
    ensures |r.contracts| == |s.contracts| && |r.members| == |s.members|
    ensures forall i | 0 <= i < |s.contracts| ::
      r.contracts[i].active <==> s.contracts[i].active && s.contracts[i].end >= today + days
    ensures forall i | 0 <= i < |s.members| :: r.members[i] == s.members[i].(credits := r.members[i].credits)
    ensures forall i | 0 <= i < |s.contracts| :: r.contracts[i] == s.contracts[i].(active := r.contracts[i].active)
    ensures (forall i | 0 <= i < |s.contracts| :: Items.Valid(s.contracts[i].item)) ==>
      forall i | 0 <= i < |s.members| ::
        r.members[i].credits == s.members[i].credits - Owed(Charges(s.contracts, today + days), s.members[i].id)
  {
    var newDate := today + days;
    s.(contracts := SettleContracts(s.contracts, newDate),
       members := ApplyCharges(s.members, Charges(s.contracts, newDate)))
  }

  /** `advanceTime(days)` as written. The flags change on the stored contracts, but
      `contract.getBorrower()` returns a fresh copy of the contract's own copy of the
      borrower, so the deduction lands on a throw-away object and no member changes. */
  function AdvanceTimeAsWritten(s: State, today: int, days: int): (r: State)
    ensures r == AdvanceTime(s, today, days).(members := s.members)
  {
    s.(contracts := SettleContracts(s.contracts, today + days))
  }

  /** With valid stored items no charge is negative, so the NegativeAmount handler never
      runs and every borrower loses exactly what its settled contracts cost. */
  lemma SettlementChargesInFull(s: State, today: int, days: int)
    requires Lending.Valid(s)
    ensures var charges := Charges(s.contracts, today + days);
      forall k | 0 <= k < |charges| :: charges[k].amount >= 0
    ensures forall i | 0 <= i < |s.members| ::
      AdvanceTime(s, today, days).members[i].credits
        == s.members[i].credits - Owed(Charges(s.contracts, today + days), s.members[i].id)
  {
  }

  /** Settlement keeps the state valid. */
  lemma AdvanceTimeKeepsValid(s: State, today: int, days: int)
    requires Lending.Valid(s)
    ensures Lending.Valid(AdvanceTime(s, today, days))
  {
    var r := AdvanceTime(s, today, days);
    assert forall i | 0 <= i < |r.members| :: Members.MemberId(r.members[i]) == Members.MemberId(s.members[i]);
    assert forall i | 0 <= i < |r.members| :: Members.MemberEmail(r.members[i]) == Members.MemberEmail(s.members[i]);
    assert forall i | 0 <= i < |r.members| :: Members.MemberPhone(r.members[i]) == Members.MemberPhone(s.members[i]);
    assert forall i | 0 <= i < |r.contracts| :: ContractId(r.contracts[i]) == ContractId(s.contracts[i]);
  }

  /** Re-running settlement with the same or fewer days changes nothing: no flag flips and
      no charge is made a second time. */
  lemma AdvanceTimeIdempotent(s: State, today: int, days: int, fewer: int)
    requires fewer <= days
    ensures Charges(AdvanceTime(s, today, days).contracts, today + fewer) == []
    ensures AdvanceTime(AdvanceTime(s, today, days), today, fewer) == AdvanceTime(s, today, days)
  {
    var once := AdvanceTime(s, today, days);
    var twice := AdvanceTime(once, today, fewer);
    assert twice.contracts == once.contracts;
  }

  /** `isConflictingContract`: some stored contract conflicts with the candidate. */
  function IsConflictingContract(cs: seq<Contract>, c: Contract): (r: bool)
    ensures r <==> exists i | 0 <= i < |cs| :: ConflictsWith(cs[i], c)
  {
    if |cs| == 0 then false
    else
      assert forall i | 1 <= i < |cs| :: cs[i] == cs[1..][i - 1];
      ConflictsWith(cs[0], c) || IsConflictingContract(cs[1..], c)
  }

  /** One attempt of `createContract` with the parsed 1-based choices, id and day numbers.
      In order: both choices must select something, the borrower must afford the item, the
      dates must be ordered, the contract must conflict with no stored one, and its id must
      be new; each failure is reported and re-prompted with nothing changed. Success appends
      the active contract and charges nobody. Reversed dates are reported here as
      `Refused(InvalidEndDate)`; the Java shows the invalid-end-date message and then the
      conflicting-contract message for the same attempt, and either way nothing changes. */
  function CreateContract(s: State, itemChoice: int, borrowerChoice: int, id: string, start: int, end: int): (r: Attempt)
    ensures MemberController.Select(s.items, itemChoice).None? || MemberController.Select(s.members, borrowerChoice).None? ==>
      r == Retry(ItemOrBorrowerNotFound)
    ensures !r.Abort?
    ensures r.Done? <==>
      && 1 <= itemChoice <= |s.items| && 1 <= borrowerChoice <= |s.members|
      && var item := s.items[itemChoice - 1];
         var borrower := s.members[borrowerChoice - 1];
         var c := Contract(id, item, borrower.id, start, end, true);
         && borrower.credits >= item.cost
         && start <= end
         && !IsConflictingContract(s.contracts, c)
         && !Keyed.HasKey(s.contracts, ContractId, id)
    ensures r.Done? ==>
      var item := s.items[itemChoice - 1];
      var borrower := s.members[borrowerChoice - 1];
      && 1 <= itemChoice <= |s.items| && 1 <= borrowerChoice <= |s.members|
      && borrower.credits >= item.cost
      && r.state == s.(contracts := s.contracts + [Contract(id, item, borrower.id, start, end, true)])
      && start <= end
      && !IsConflictingContract(s.contracts, Contract(id, item, borrower.id, start, end, true))
      && !Keyed.HasKey(s.contracts, ContractId, id)
    ensures (1 <= itemChoice <= |s.items| && 1 <= borrowerChoice <= |s.members|) ==>
      var item := s.items[itemChoice - 1];
      var borrower := s.members[borrowerChoice - 1];
      var c := Contract(id, item, borrower.id, start, end, true);
      && (borrower.credits < item.cost ==> r == Retry(InsufficientFunds))
      && (borrower.credits >= item.cost && end < start ==> r == Retry(Refused(InvalidEndDate)))
      && (borrower.credits >= item.cost && start <= end && IsConflictingContract(s.contracts, c) ==>
            r == Retry(ConflictingContract))
      && ((borrower.credits >= item.cost && start <= end && !IsConflictingContract(s.contracts, c) &&
           Keyed.HasKey(s.contracts, ContractId, id)) ==> r == Retry(Refused(IdExists)))
  {
    var selectedItem := MemberController.Select(s.items, itemChoice);
    var selectedBorrower := MemberController.Select(s.members, borrowerChoice);
    if selectedItem.None? || selectedBorrower.None? then Retry(ItemOrBorrowerNotFound)
    else
      var item := selectedItem.value;
      var borrower := selectedBorrower.value;
      if borrower.credits < item.cost then Retry(InsufficientFunds)
      else
        match NewContract(id, item, borrower.id, start, end)
        case Failure(e) => Retry(Refused(e))
        case Success(c) =>
          if IsConflictingContract(s.contracts, c) then Retry(ConflictingContract)
          else
            match ContractRepository.AddContract(s.contracts, c)
            case Failure(e) => Retry(Refused(e))
            case Success(cs) => Done(s.(contracts := cs))
  }

  /** A created contract keeps the state valid, conflicts with no stored contract, and
      leaves every balance as it was. */
  lemma CreateContractKeepsValid(s: State, itemChoice: int, borrowerChoice: int, id: string, start: int, end: int)
    requires Lending.Valid(s) && CreateContract(s, itemChoice, borrowerChoice, id, start, end).Done?
    ensures Lending.Valid(CreateContract(s, itemChoice, borrowerChoice, id, start, end).state)
    ensures CreateContract(s, itemChoice, borrowerChoice, id, start, end).state.members == s.members
    ensures forall k | 0 <= k < |s.contracts| ::
      var cs := CreateContract(s, itemChoice, borrowerChoice, id, start, end).state.contracts;
      !ConflictsWith(s.contracts[k], cs[|cs| - 1])
  {
    var item := s.items[itemChoice - 1];
    var c := Contract(id, item, s.members[borrowerChoice - 1].id, start, end, true);
    Keyed.AppendFreshKeepsDistinct(s.contracts, ContractId, c);
    var cs := s.contracts + [c];
    assert forall k | 0 <= k < |s.contracts| :: cs[k] == s.contracts[k];
  }
}
