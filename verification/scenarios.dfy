/** Concrete runs of the model: the data App.setupTestData seeds, and what settling its
    contract does to the borrower, as written and as intended. */
module Scenarios {
  import opened Wrappers
  import opened Lending
  import Members
  import Items
  import Contracts
  import MemberRepository
  import ItemRepository
  import ContractRepository
  import ContractController

  /** 2024-01-05 and 2024-01-07 as day numbers counted from 1970-01-01. */
  const Jan5: int := 19727
  const Jan7: int := 19729

  /** The entities setupTestData creates. Item ids stand for the generated UUIDs. */
  const M1 := Members.Member("M1", "Member One", "m1@example.com", "1234567890", 500, [], [])
  const M2 := Members.Member("M2", "Member Two", "m2@example.com", "0987654321", 100, [], [])
  const M3 := Members.Member("M3", "Member Three", "m3@example.com", "1122334455", 100, [], [])
  const I1 := Items.Item("I1", "Item One", 50, "M1")
  const I2 := Items.Item("I2", "Item Two", 10, "M1")
  const I3 := Items.Item("I3", "Item Three for M3", 10, "M3")
  const C1 := Contracts.Contract("C1", I3, "M2", Jan5, Jan7, true)

  /** The state setupTestData leaves behind: three members, three items added straight to
      the repository (so no owner is credited), and M2 borrowing M3's item. */
  function TestData(): State {
    State([M1, M2, M3], [I1, I2, I3], [C1])
  }

  /** The seeded state satisfies every repository and entity invariant. */
  lemma TestDataValid()
    ensures Valid(TestData())
  {
    assert "M1"[1] != "M2"[1] && "M1"[1] != "M3"[1] && "M2"[1] != "M3"[1];
    assert "I1"[1] != "I2"[1] && "I1"[1] != "I3"[1] && "I2"[1] != "I3"[1];
    assert "m1@example.com"[1] != "m2@example.com"[1];
    assert "m1@example.com"[1] != "m3@example.com"[1];
    assert "m2@example.com"[1] != "m3@example.com"[1];
    assert "1234567890"[0] != "0987654321"[0];
    assert "1234567890"[1] != "1122334455"[1];
    assert "0987654321"[0] != "1122334455"[0];
  }

  /** When the injected patterns accept the seeded contact details, every step of
      setupTestData succeeds, in the order App.java takes them, and yields TestData. */
  lemma SetupTestDataSucceeds(emailPattern: Members.Pattern, phonePattern: Members.Pattern)
    requires emailPattern("m1@example.com") && emailPattern("m2@example.com") && emailPattern("m3@example.com")
    requires phonePattern("1234567890") && phonePattern("0987654321") && phonePattern("1122334455")
    ensures Members.NewMember("M1", "Member One", "m1@example.com", "1234567890", 500, emailPattern, phonePattern) == Success(M1)
    ensures MemberRepository.AddMember([], M1) == Success([M1])
    ensures Items.NewItem("I1", M1.id, "Item One", 50) == Success(I1)
    ensures Items.NewItem("I2", M1.id, "Item Two", 10) == Success(I2)
    ensures ItemRepository.AddItem([], I1) == Success([I1])
    ensures ItemRepository.AddItem([I1], I2) == Success([I1, I2])
    ensures Members.NewMember("M2", "Member Two", "m2@example.com", "0987654321", 100, emailPattern, phonePattern) == Success(M2)
    ensures MemberRepository.AddMember([M1], M2) == Success([M1, M2])
    ensures Members.NewMember("M3", "Member Three", "m3@example.com", "1122334455", 100, emailPattern, phonePattern) == Success(M3)
    ensures MemberRepository.AddMember([M1, M2], M3) == Success([M1, M2, M3])
    ensures Items.NewItem("I3", M3.id, "Item Three for M3", 10) == Success(I3)
    ensures ItemRepository.AddItem([I1, I2], I3) == Success([I1, I2, I3])
    ensures Contracts.NewContract("C1", I3, M2.id, Jan5, Jan7) == Success(C1)
    ensures ContractRepository.AddContract([], C1) == Success([C1])
    ensures Valid(TestData())
  {
    TestDataValid();
    assert MemberRepository.ValidateMember([], M1).None?;
    assert MemberRepository.ValidateMember([M1], M2).None?;
    assert MemberRepository.ValidateMember([M1, M2], M3).None?;
    assert !ItemRepository.ItemExists([], I1);
    assert !MemberRepository.MemberExists([M1], M2) && !MemberRepository.EmailExists([M1], M2.email);
    assert !MemberRepository.PhoneExists([M1], M2.phone);
    assert !MemberRepository.MemberExists([M1, M2], M3) && !MemberRepository.EmailExists([M1, M2], M3.email);
    assert !MemberRepository.PhoneExists([M1, M2], M3.phone);
    assert !ItemRepository.ItemExists([I1], I2);
    assert !ItemRepository.ItemExists([I1, I2], I3);
    assert MemberRepository.AddMember([], M1).value == [M1];
    assert MemberRepository.AddMember([M1], M2).value == [M1, M2];
    assert MemberRepository.AddMember([M1, M2], M3).value == [M1, M2, M3];
    assert ItemRepository.AddItem([], I1).value == [I1];
    assert ItemRepository.AddItem([I1], I2).value == [I1, I2];
    assert ItemRepository.AddItem([I1, I2], I3).value == [I1, I2, I3];
    assert ContractRepository.AddContract([], C1).value == [C1];
  }

  /** Advancing 3 days from any date after 2024-01-07 settles C1. As written, M2 keeps all
      100 credits; as intended, M2 pays the item's cost of 10. A second run changes nothing. */
  lemma SettlementChargesTheBorrower(today: int)
    requires today > Jan7
    ensures !ContractController.AdvanceTimeAsWritten(TestData(), today, 3).contracts[0].active
    ensures ContractController.AdvanceTimeAsWritten(TestData(), today, 3).members[1].credits == 100
    ensures !ContractController.AdvanceTime(TestData(), today, 3).contracts[0].active
    ensures ContractController.AdvanceTime(TestData(), today, 3).members[1].credits == 90
    ensures ContractController.AdvanceTime(TestData(), today, 3).members[0] == TestData().members[0]
    ensures var once := ContractController.AdvanceTime(TestData(), today, 3);
      ContractController.AdvanceTime(once, today, 3) == once
  {
    ContractController.AdvanceTimeIdempotent(TestData(), today, 3, 3);
    var charges := ContractController.Charges(TestData().contracts, today + 3);
    assert charges == [ContractController.Charge("M2", 10)];
    assert ContractController.Owed(charges, "M2") == 10;
    assert ContractController.Owed(charges, "M1") == 0;
  }
}
