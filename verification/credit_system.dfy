/** CreditSystem.java: null-tolerant credit operations that delegate to the member. */
module CreditSystem {
  import opened Wrappers
  import opened Errors
  import Members

  /** `addCredits(member, amount)`: a null member is left alone; otherwise exactly
      `member.addCredits(amount)`, including its NegativeAmount failure. */
  function AddCredits(member: Option<Members.Member>, amount: int): (r: Result<Option<Members.Member>, Error>)
    ensures member.None? ==> r == Success(None)
    ensures member.Some? && amount < 0 ==> r == Failure(NegativeAmount)
    ensures member.Some? && amount >= 0 ==>
      r == Success(Some(member.value.(credits := member.value.credits + amount)))
  {
    match member
    case None => Success(None)
    case Some(m) =>
      match Members.AddCredits(m, amount)
      case Failure(e) => Failure(e)
      case Success(m') => Success(Some(m'))
  }

  /** `deductCredits(member, amount)`: a null member is left alone; otherwise exactly
      `member.deductCredits(amount)`, with no floor on the resulting balance. */
  function DeductCredits(member: Option<Members.Member>, amount: int): (r: Result<Option<Members.Member>, Error>)
    ensures member.None? ==> r == Success(None)
    ensures member.Some? && amount < 0 ==> r == Failure(NegativeAmount)
    ensures member.Some? && amount >= 0 ==>
      r == Success(Some(member.value.(credits := member.value.credits - amount)))
  {
    match member
    case None => Success(None)
    case Some(m) =>
      match Members.DeductCredits(m, amount)
      case Failure(e) => Failure(e)
      case Success(m') => Success(Some(m'))
  }
}
