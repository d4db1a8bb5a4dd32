/** Member.java: a participant with contact details, a credit balance and the lists of
    owned items and contracts. */
module Members {
  import opened Wrappers
  import opened Errors
  import Items
  import Contracts
  import Keyed

  /** A format check supplied by the caller. The Java passes a regular expression and
      calls `String.matches`; the model takes the resulting predicate instead. */
  type Pattern = string -> bool

  datatype Member = Member(
    id: string,
    name: string,
    email: string,
    phone: string,
    credits: int,
    items: seq<Items.Item>,
    contracts: seq<Contracts.Contract>)

  function MemberId(m: Member): string { m.id }
  function MemberEmail(m: Member): string { m.email }
  function MemberPhone(m: Member): string { m.phone }

  /** `equals`: two members are the same member iff their ids are equal. */
  predicate Equal(a: Member, b: Member) {
    a.id == b.id
  }

  /** The validating constructor. Credits are checked first, then the email format, then
      the phone format; a new member owns nothing and has no contracts. */
  function NewMember(id: string, name: string, email: string, phone: string, credits: int,
                     emailPattern: Pattern, phonePattern: Pattern): (r: Result<Member, Error>)
    ensures r.Success? <==> credits >= 0 && emailPattern(email) && phonePattern(phone)
    ensures credits < 0 ==> r == Failure(NegativeCredits)
    ensures credits >= 0 && !emailPattern(email) ==> r == Failure(InvalidEmailFormat)
    ensures credits >= 0 && emailPattern(email) && !phonePattern(phone) ==> r == Failure(InvalidPhoneNumber)
    ensures r.Success? ==> r.value.credits >= 0 && r.value.items == [] && r.value.contracts == []
    ensures r.Success? ==> r.value.id == id && r.value.name == name && r.value.email == email
    ensures r.Success? ==> r.value.phone == phone && r.value.credits == credits
  {
    if credits < 0 then Failure(NegativeCredits)
    else if !emailPattern(email) then Failure(InvalidEmailFormat)
    else if !phonePattern(phone) then Failure(InvalidPhoneNumber)
    else Success(Member(id, name, email, phone, credits, [], []))
  }

  /** `addCredits`: a negative amount is refused; otherwise only the balance grows.
      Credits are a mathematical integer here; the Java `int` would wrap past 2^31 - 1. */
  function AddCredits(m: Member, amount: int): (r: Result<Member, Error>)
    ensures r.Failure? <==> amount < 0
    ensures r.Failure? ==> r.error == NegativeAmount
    ensures r.Success? ==> r.value.credits == m.credits + amount
    ensures r.Success? ==> r.value.(credits := m.credits) == m
  {
    if amount < 0 then Failure(NegativeAmount) else Success(m.(credits := m.credits + amount))
  }

  /** `deductCredits`: a negative amount is refused; otherwise the balance drops by the
      amount with no floor, so it may become negative. */
  function DeductCredits(m: Member, amount: int): (r: Result<Member, Error>)
    ensures r.Failure? <==> amount < 0
    ensures r.Failure? ==> r.error == NegativeAmount
    ensures r.Success? ==> r.value.credits == m.credits - amount
    ensures r.Success? ==> r.value.(credits := m.credits) == m
  {
    if amount < 0 then Failure(NegativeAmount) else Success(m.(credits := m.credits - amount))
  }

  /** Deducting what was just added restores the member, and the other way round. */
  lemma DeductUndoesAdd(m: Member, amount: int)
    requires amount >= 0
    ensures AddCredits(m, amount).Success?
    ensures DeductCredits(AddCredits(m, amount).value, amount) == Success(m)
    ensures AddCredits(DeductCredits(m, amount).value, amount) == Success(m)
  {
  }

  /** There is no floor: a member with no credits can be charged into a negative balance. */
  lemma DeductHasNoFloor(m: Member)
    requires m.credits == 0
    ensures DeductCredits(m, 5).Success? && DeductCredits(m, 5).value.credits == -5
    ensures DeductCredits(m, -5) == Failure(NegativeAmount)
  {
  }

  /** `setName`: only the name changes. */
  function SetName(m: Member, name: string): (r: Member)
    ensures r.name == name && r.(name := m.name) == m
  {
    m.(name := name)
  }

  /** `setEmail`: a value that does not match the pattern is refused and nothing changes;
      otherwise only the email changes. */
  function SetEmail(m: Member, email: string, emailPattern: Pattern): (r: Result<Member, Error>)
    ensures r.Failure? <==> !emailPattern(email)
    ensures r.Failure? ==> r.error == InvalidEmailFormat
    ensures r.Success? ==> r.value.email == email && r.value.(email := m.email) == m
  {
    if !emailPattern(email) then Failure(InvalidEmailFormat) else Success(m.(email := email))
  }

  /** `setPhone`: a value that does not match the pattern is refused and nothing changes;
      otherwise only the phone number changes. */
  function SetPhone(m: Member, phone: string, phonePattern: Pattern): (r: Result<Member, Error>)
    ensures r.Failure? <==> !phonePattern(phone)
    ensures r.Failure? ==> r.error == InvalidPhoneNumber
    ensures r.Success? ==> r.value.phone == phone && r.value.(phone := m.phone) == m
  {
    if !phonePattern(phone) then Failure(InvalidPhoneNumber) else Success(m.(phone := phone))
  }

  /** No mutator changes the id, and re-setting a valid email or phone is a no-op. */
  lemma SettersKeepIdentity(m: Member, name: string, value: string, p: Pattern)
    ensures SetName(m, name).id == m.id
    ensures SetEmail(m, value, p).Success? ==> Equal(SetEmail(m, value, p).value, m)
    ensures SetPhone(m, value, p).Success? ==> Equal(SetPhone(m, value, p).value, m)
    ensures p(m.email) ==> SetEmail(m, m.email, p) == Success(m)
    ensures p(m.phone) ==> SetPhone(m, m.phone, p) == Success(m)
  {
  }

  /** `addContract`: null, or a contract whose id is already listed, is ignored; otherwise
      the contract is appended. The list therefore never holds two contracts with one id. */
  function AddContract(m: Member, contract: Option<Contracts.Contract>): (r: Member)
    ensures r.(contracts := m.contracts) == m
    ensures contract.None? ==> r == m
    ensures contract.Some? && Keyed.HasKey(m.contracts, Contracts.ContractId, contract.value.id) ==> r == m
    ensures contract.Some? && !Keyed.HasKey(m.contracts, Contracts.ContractId, contract.value.id) ==>
      r.contracts == m.contracts + [contract.value]
    ensures Keyed.DistinctKeys(m.contracts, Contracts.ContractId) ==> Keyed.DistinctKeys(r.contracts, Contracts.ContractId)
  {
    match contract
    case None => m
    case Some(c) =>
      if Keyed.HasKey(m.contracts, Contracts.ContractId, c.id) then m
      else
        assert Keyed.DistinctKeys(m.contracts, Contracts.ContractId) ==>
          Keyed.DistinctKeys(m.contracts + [c], Contracts.ContractId) by {
          if Keyed.DistinctKeys(m.contracts, Contracts.ContractId) {
            Keyed.AppendFreshKeepsDistinct(m.contracts, Contracts.ContractId, c);
          }
        }
        m.(contracts := m.contracts + [c])
  }

  /** `removeContract`: the contract with that id is removed (the first one, as
      `List.remove` does); the others stay in their order; absent ids change nothing. */
  function RemoveContract(m: Member, contract: Contracts.Contract): (r: Member)
    ensures r.(contracts := m.contracts) == m
    ensures !Keyed.HasKey(m.contracts, Contracts.ContractId, contract.id) ==> r == m
    ensures Keyed.DistinctKeys(m.contracts, Contracts.ContractId) ==>
      && Keyed.DistinctKeys(r.contracts, Contracts.ContractId)
      && !Keyed.HasKey(r.contracts, Contracts.ContractId, contract.id)
      && r.contracts == Keyed.Without(m.contracts, Contracts.ContractId, contract.id)
  {
    var cs := Keyed.RemoveFirst(m.contracts, Contracts.ContractId, contract.id);
    assert Keyed.DistinctKeys(m.contracts, Contracts.ContractId) ==>
      && Keyed.DistinctKeys(cs, Contracts.ContractId)
      && !Keyed.HasKey(cs, Contracts.ContractId, contract.id)
      && cs == Keyed.Without(m.contracts, Contracts.ContractId, contract.id) by {
      if Keyed.DistinctKeys(m.contracts, Contracts.ContractId) {
        Keyed.RemoveFirstKeepsDistinct(m.contracts, Contracts.ContractId, contract.id, Contracts.ContractId);
        Keyed.RemoveFirstIsWithout(m.contracts, Contracts.ContractId, contract.id);
      }
    }
    m.(contracts := cs)
  }

  /** Removing a contract that was just added restores the member. */
  lemma RemoveUndoesAdd(m: Member, c: Contracts.Contract)
    requires !Keyed.HasKey(m.contracts, Contracts.ContractId, c.id)
    ensures RemoveContract(AddContract(m, Some(c)), c) == m
  {
    Keyed.RemoveAppended(m.contracts, Contracts.ContractId, c);
  }

  /** Id equality is an equivalence relation on members. */
  lemma EqualIsEquivalence(a: Member, b: Member, c: Member)
    ensures Equal(a, a)
    ensures Equal(a, b) <==> Equal(b, a)
    ensures Equal(a, b) && Equal(b, c) ==> Equal(a, c)
  {
  }
}
