/** MemberController.java: one attempt of each member operation, without the console. */
module MemberController {
  import opened Wrappers
  import opened Errors
  import opened Lending
  import Members
  import MemberRepository
  import Keyed

  /** `parseInputToIndex` applied to the parsed number `choice`: a 1-based choice within
      [1, maxSize] becomes its 0-based index, anything else -1. Input that does not parse
      behaves like 0. The Java's `int` subtraction cannot wrap into range, so mathematical
      integers give the same answers. */
  function ParseInputToIndex(choice: int, maxSize: nat): (r: int)
    ensures 1 <= choice <= maxSize ==> r == choice - 1
    ensures !(1 <= choice <= maxSize) ==> r == -1
    ensures -1 <= r < maxSize
  {
    var index := choice - 1;
    if index >= 0 && index < maxSize then index else -1
  }

  /** Selecting from a listing by a 1-based choice, as the `select...FromInput` helpers do. */
  function Select<T>(xs: seq<T>, choice: int): (r: Option<T>)
    ensures r.Some? <==> 1 <= choice <= |xs|
    ensures r.Some? ==> r.value == xs[choice - 1]
  {
    var index := ParseInputToIndex(choice, |xs|);
    if index >= 0 then Some(xs[index]) else None
  }

  /** One attempt of `createMember`. Negative credits and a duplicate email or phone are
      reported and re-prompted; a duplicate id or a badly formatted email or phone escapes
      the loop, which does not catch them. On success exactly the new member is appended. */
  function CreateMember(s: State, id: string, name: string, email: string, phone: string, credits: int,
                        emailPattern: Members.Pattern, phonePattern: Members.Pattern): (r: Attempt)
    ensures r.Done? <==>
      && Members.NewMember(id, name, email, phone, credits, emailPattern, phonePattern).Success?
      && MemberRepository.ValidateMember(s.members, Members.Member(id, name, email, phone, credits, [], [])).None?
    ensures r.Done? ==> r.state == s.(members := s.members + [Members.Member(id, name, email, phone, credits, [], [])])
    ensures r.Done? && Valid(s) ==> Valid(r.state)
    ensures credits < 0 ==> r == Retry(Refused(NegativeCredits))
    ensures var made := Members.NewMember(id, name, email, phone, credits, emailPattern, phonePattern);
      made.Failure? && credits >= 0 ==> r == Abort(made.error)
    ensures var made := Members.NewMember(id, name, email, phone, credits, emailPattern, phonePattern);
      var clash := MemberRepository.ValidateMember(s.members, Members.Member(id, name, email, phone, credits, [], []));
      made.Success? && clash.Some? ==> r == (if clash.value == IdExists then Abort(IdExists) else Retry(Refused(clash.value)))
    ensures r.Retry? ==> r.reason in {Refused(NegativeCredits), Refused(EmailExists), Refused(PhoneExists)}
    ensures r.Abort? ==> r.error in {IdExists, InvalidEmailFormat, InvalidPhoneNumber}
  {
    match Members.NewMember(id, name, email, phone, credits, emailPattern, phonePattern)
    case Failure(e) => if e == NegativeCredits then Retry(Refused(e)) else Abort(e)
    case Success(m) =>
      match MemberRepository.AddMember(s.members, m)
      case Failure(e) => if e == IdExists then Abort(e) else Retry(Refused(e))
      case Success(ms) => Done(s.(members := ms))
  }

  /** `deleteMember(Member)`: null changes nothing; otherwise the member is removed by id. */
  function DeleteMember(s: State, member: Option<Members.Member>): (r: State)
    ensures member.None? ==> r == s
    ensures member.Some? ==> r == s.(members := MemberRepository.DeleteMember(s.members, member.value))
    ensures Valid(s) ==> Valid(r)
    ensures Valid(s) && member.Some? ==> !MemberRepository.MemberExists(r.members, member.value)
  {
    match member
    case None => s
    case Some(m) => s.(members := MemberRepository.DeleteMember(s.members, m))
  }

  /** `addCreditsToMember`: an amount of zero or less, or a null member, changes nothing;
      otherwise `member.addCredits(amount)` runs on the stored member object. */
  function AddCreditsToMember(s: State, member: Option<Members.Member>, amount: int): (r: State)
    ensures amount <= 0 || member.None? ==> r == s
    ensures amount > 0 && member.Some? ==>
      r == s.(members := MemberRepository.Store(s.members, member.value.(credits := member.value.credits + amount)))
  {
    if amount <= 0 then s
    else
      match member
      case None => s
      case Some(m) =>
        match Members.AddCredits(m, amount)
        case Failure(_) => s
        case Success(m') => s.(members := MemberRepository.Store(s.members, m'))
  }

  /** `deductCreditsFromMember`: an amount of zero or less, or a null member, changes
      nothing; otherwise `member.deductCredits(amount)` runs on the stored member object,
      with no floor on the balance. */
  function DeductCreditsFromMember(s: State, member: Option<Members.Member>, amount: int): (r: State)
    ensures amount <= 0 || member.None? ==> r == s
    ensures amount > 0 && member.Some? ==>
      r == s.(members := MemberRepository.Store(s.members, member.value.(credits := member.value.credits - amount)))
  {
    if amount <= 0 then s
    else
      match member
      case None => s
      case Some(m) =>
        match Members.DeductCredits(m, amount)
        case Failure(_) => s
        case Success(m') => s.(members := MemberRepository.Store(s.members, m'))
  }

  /** `findMemberById`: the first member with that id, or null. */
  function FindMemberById(ms: seq<Members.Member>, id: string): (r: Option<Members.Member>)
    ensures r.Some? <==> Keyed.HasKey(ms, Members.MemberId, id)
    ensures r.Some? ==> r.value.id == id && r.value in ms
    ensures r.Some? ==> exists i | 0 <= i < |ms| :: ms[i] == r.value && !Keyed.HasKey(ms[..i], Members.MemberId, id)
  {
    Keyed.Find(ms, Members.MemberId, id)
  }

  /** The credit guards act on the stored member: afterwards the lookup by id finds the
      same member with its balance moved by exactly the amount, and the state stays valid. */
  lemma AddCreditsMovesBalance(s: State, i: int, amount: int)
    requires Valid(s) && 0 <= i < |s.members| && amount > 0
    ensures Valid(AddCreditsToMember(s, Some(s.members[i]), amount))
    ensures FindMemberById(AddCreditsToMember(s, Some(s.members[i]), amount).members, s.members[i].id)
      == Some(s.members[i].(credits := s.members[i].credits + amount))
  {
    var m := s.members[i];
    StoreKeepsValid(s, i, m.(credits := m.credits + amount));
  }

  lemma DeductCreditsMovesBalance(s: State, i: int, amount: int)
    requires Valid(s) && 0 <= i < |s.members| && amount > 0
    ensures Valid(DeductCreditsFromMember(s, Some(s.members[i]), amount))
    ensures FindMemberById(DeductCreditsFromMember(s, Some(s.members[i]), amount).members, s.members[i].id)
      == Some(s.members[i].(credits := s.members[i].credits - amount))
  {
    var m := s.members[i];
    StoreKeepsValid(s, i, m.(credits := m.credits - amount));
  }

  /** Storing a member with unchanged contact details keeps the state valid, and it is
      what the id lookup then finds. */
  lemma StoreKeepsValid(s: State, i: int, m: Members.Member)
    requires Valid(s) && 0 <= i < |s.members|
    requires s.members[i].id == m.id && s.members[i].email == m.email && s.members[i].phone == m.phone
    ensures Valid(s.(members := MemberRepository.Store(s.members, m)))
    ensures FindMemberById(MemberRepository.Store(s.members, m), m.id) == Some(m)
  {
    MemberRepository.StoreKeepsUnique(s.members, i, m);
    Keyed.FindUnique(MemberRepository.Store(s.members, m), Members.MemberId, i);
  }
}
