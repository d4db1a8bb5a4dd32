/** MemberRepository.java: the members in insertion order, unique by id, email and phone. */
module MemberRepository {
  import opened Wrappers
  import opened Errors
  import opened Members
  import Keyed

  /** The repository's invariant: no two members share an id, an email or a phone number. */
  predicate Unique(ms: seq<Member>) {
    && Keyed.DistinctKeys(ms, MemberId)
    && Keyed.DistinctKeys(ms, MemberEmail)
    && Keyed.DistinctKeys(ms, MemberPhone)
  }

  /** `memberExists`: membership under id equality. */
  predicate MemberExists(ms: seq<Member>, m: Member) {
    Keyed.HasKey(ms, MemberId, m.id)
  }

  predicate EmailExists(ms: seq<Member>, email: string) {
    Keyed.HasKey(ms, MemberEmail, email)
  }

  predicate PhoneExists(ms: seq<Member>, phone: string) {
    Keyed.HasKey(ms, MemberPhone, phone)
  }

  /** `validateMember`: the id is checked first, then the email, then the phone. */
  function ValidateMember(ms: seq<Member>, m: Member): (r: Option<Error>)
    ensures r.None? <==> !MemberExists(ms, m) && !EmailExists(ms, m.email) && !PhoneExists(ms, m.phone)
    ensures MemberExists(ms, m) ==> r == Some(IdExists)
    ensures !MemberExists(ms, m) && EmailExists(ms, m.email) ==> r == Some(Error.EmailExists)
    ensures !MemberExists(ms, m) && !EmailExists(ms, m.email) && PhoneExists(ms, m.phone) ==> r == Some(Error.PhoneExists)
  {
    if MemberExists(ms, m) then Some(IdExists)
    else if EmailExists(ms, m.email) then Some(Error.EmailExists)
    else if PhoneExists(ms, m.phone) then Some(Error.PhoneExists)
    else None
  }

  /** `addMember`: validation failure leaves the list as it was; success appends at the end
      and keeps ids, emails and phones unique. */
  function AddMember(ms: seq<Member>, m: Member): (r: Result<seq<Member>, Error>)
    ensures r.Failure? <==> ValidateMember(ms, m).Some?
    ensures r.Failure? ==> Some(r.error) == ValidateMember(ms, m)
    ensures r.Success? ==> r.value == ms + [m]
    ensures r.Success? && Unique(ms) ==> Unique(r.value)
  {
    match ValidateMember(ms, m)
    case Some(e) => Failure(e)
    case None =>
      assert Unique(ms) ==> Unique(ms + [m]) by {
        if Unique(ms) {
          Keyed.AppendFreshKeepsDistinct(ms, MemberId, m);
          Keyed.AppendFreshKeepsDistinct(ms, MemberEmail, m);
          Keyed.AppendFreshKeepsDistinct(ms, MemberPhone, m);
        }
      }
      Success(ms + [m])
  }

  /** `deleteMember`: the member with that id is removed and the others keep their order;
      an absent member changes nothing. */
  function DeleteMember(ms: seq<Member>, m: Member): (r: seq<Member>)
    ensures !MemberExists(ms, m) ==> r == ms
    ensures Unique(ms) ==> Unique(r) && !MemberExists(r, m)
    ensures Unique(ms) ==> r == Keyed.Without(ms, MemberId, m.id)
  {
    var r := Keyed.RemoveFirst(ms, MemberId, m.id);
    assert Unique(ms) ==> Unique(r) && !MemberExists(r, m) && r == Keyed.Without(ms, MemberId, m.id) by {
      if Unique(ms) {
        Keyed.RemoveFirstKeepsDistinct(ms, MemberId, m.id, MemberId);
        Keyed.RemoveFirstKeepsDistinct(ms, MemberId, m.id, MemberEmail);
        Keyed.RemoveFirstKeepsDistinct(ms, MemberId, m.id, MemberPhone);
        Keyed.RemoveFirstIsWithout(ms, MemberId, m.id);
      }
    }
    r
  }

  /** `getMemberByEmail`: the first member with that email, or null. */
  function GetMemberByEmail(ms: seq<Member>, email: string): (r: Option<Member>)
    ensures r.Some? <==> EmailExists(ms, email)
    ensures r.Some? ==> r.value.email == email && r.value in ms
    ensures r.Some? ==> exists i | 0 <= i < |ms| :: ms[i] == r.value && !EmailExists(ms[..i], email)
  {
    Keyed.Find(ms, MemberEmail, email)
  }

  /** `getMemberByPhone`: the first member with that phone number, or null. */
  function GetMemberByPhone(ms: seq<Member>, phone: string): (r: Option<Member>)
    ensures r.Some? <==> PhoneExists(ms, phone)
    ensures r.Some? ==> r.value.phone == phone && r.value in ms
    ensures r.Some? ==> exists i | 0 <= i < |ms| :: ms[i] == r.value && !PhoneExists(ms[..i], phone)
  {
    Keyed.Find(ms, MemberPhone, phone)
  }

  /** The stored object for `m` mutated in place: the entry with m's id becomes m. */
  function Store(ms: seq<Member>, m: Member): (r: seq<Member>)
    ensures |r| == |ms|
    ensures forall i | 0 <= i < |ms| :: r[i] == (if ms[i].id == m.id then m else ms[i])
  {
    Keyed.Replace(ms, MemberId, m)
  }

  /** Storing a member whose contact details are unchanged keeps the repository unique, and
      the stored member is then the one found under its email. */
  lemma StoreKeepsUnique(ms: seq<Member>, i: int, m: Member)
    requires Unique(ms) && 0 <= i < |ms|
    requires ms[i].id == m.id && ms[i].email == m.email && ms[i].phone == m.phone
    ensures Unique(Store(ms, m))
    ensures GetMemberByEmail(Store(ms, m), m.email) == Some(m)
  {
    Keyed.ReplaceKeepsDistinct(ms, MemberId, m, MemberId, i);
    Keyed.ReplaceKeepsDistinct(ms, MemberId, m, MemberEmail, i);
    Keyed.ReplaceKeepsDistinct(ms, MemberId, m, MemberPhone, i);
    Keyed.FindUnique(Store(ms, m), MemberEmail, i);
  }

  /** `memberExists` is `List.contains`, which compares with `Member.equals`: it holds
      exactly when some stored member equals `m`, and then the id lookup finds one. */
  lemma ContainsIsKeyPresence(ms: seq<Member>, m: Member)
    ensures MemberExists(ms, m) <==> exists i | 0 <= i < |ms| :: Members.Equal(ms[i], m)
    ensures MemberExists(ms, m) <==> Keyed.Find(ms, MemberId, m.id).Some?
  {
  }

  /** After a successful add, the new member is what the email and phone lookups return. */
  lemma LookupAfterAdd(ms: seq<Member>, m: Member)
    requires Unique(ms) && AddMember(ms, m).Success?
    ensures GetMemberByEmail(AddMember(ms, m).value, m.email) == Some(m)
    ensures GetMemberByPhone(AddMember(ms, m).value, m.phone) == Some(m)
    ensures MemberExists(AddMember(ms, m).value, m)
  {
    var r := ms + [m];
    assert r[|ms|] == m;
    Keyed.FindUnique(r, MemberEmail, |ms|);
    Keyed.FindUnique(r, MemberPhone, |ms|);
  }

  /** `emailExists(e)` iff `getMemberByEmail(e)` is non-null, and likewise for phones. */
  lemma ExistsIffFound(ms: seq<Member>, email: string, phone: string)
    ensures EmailExists(ms, email) <==> GetMemberByEmail(ms, email) != None
    ensures PhoneExists(ms, phone) <==> GetMemberByPhone(ms, phone) != None
  {
  }
}
