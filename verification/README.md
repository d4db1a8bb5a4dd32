# Lending system domain model in Dafny

This project models the in-memory domain of a small console lending system. **Members** hold
credits and own **items**. Members borrow each other's items under **contracts** that span a
closed range of days. Three list-backed repositories hold the members, items and contracts.
Three controllers apply the lending rules on top of them:

- members are created with checked contact details;
- owners are credited when they list an item;
- deleting an item cancels its contracts;
- contracts are created only when the borrower can afford the item and the dates do not clash;
- advancing time settles expired contracts; the charge meant for each borrower lands on a
  copy of the member, so as written no one is charged (see Findings).

Modules follow the Java classes:

| module | models |
|---|---|
| `Wrappers`, `Errors` | `Result`/`Option` for exceptions and `null`; the exception kinds of `ModelExceptions.java` |
| `Keyed` | id-keyed sequences: `List.contains`, `List.remove(Object)` and `findFirst` under id equality |
| `Items`, `Contracts`, `Members` | the three entities, as immutable values |
| `MemberRepository`, `ItemRepository`, `ContractRepository` | the repositories, as sequences with distinct keys |
| `CreditSystem` | the null-tolerant credit operations |
| `Lending` | the state the controllers share, and the outcome of one controller attempt |
| `MemberController`, `ItemController`, `ContractController` | one pass of each controller operation |
| `Scenarios` | the seed data of `App.setupTestData`, and settlement applied to it |

Entities refer to one another by id. A contract keeps a snapshot of its item, because it
charges that item's cost. Mutation of a stored object becomes a new state: `MemberRepository.Store`
replaces the entry that has the same id. Each controller loop runs `while (true)` with
re-prompting. The model captures one pass of it as a `Lending.Attempt`:

- `Done(state)`: the attempt completed;
- `Retry(reason)`: the attempt was reported and would prompt again, with nothing changed;
- `Abort(error)`: an exception escaped the loop, with nothing changed.

Parameters stand in for the environment:

- Regular-expression checks are injected predicates (`Members.Pattern`).
- Item ids are fresh values supplied by the caller, in place of generated UUIDs.
- Dates are integer day numbers.
- `today` stands for `LocalDate.now()`.
- Console choices are the integers the user typed.

Behaviour of the code a reader might not expect:

- The class comment of `Member.java` (line 10) says credits are never negative. Only the
  constructor enforces that; `deductCredits` has no floor (`Members.DeductHasNoFloor`).
- The settlement loop of `advanceTime` calls `borrower.deductCredits(item.getCost())`
  (ContractController.java:66-69), evidently to charge the borrower, but the call lands on a
  copy: see Findings. `ContractController.AdvanceTime` models the evident intent, and
  `ContractController.AdvanceTimeAsWritten` models the code as written.
- `conflictsWith` and `cancelContractsForItem` compare items with `Item.equals`, which
  compares ids, so the model compares items by id.
- The seeded contract C1 is for item "Item Three for M3", which costs 10. Settling it takes
  M2 from 100 to 90 credits under the intended behaviour
  (`Scenarios.SettlementChargesTheBorrower`).

## Model

| member | source | states |
|---|---|---|
| Items.NewItem | app/src/main/java/model/Item.java:22-30 | fails with NegativeCost exactly when cost < 0; otherwise the item carries the given id, owner, name and cost, and is valid |
| Items.CopyWithOwner | app/src/main/java/model/Item.java:50-55 | the re-owned copy equals the original by id, keeps name and cost, has the new owner, and stays valid |
| Items.Copy | app/src/main/java/model/Item.java:37-42 | the copy is indistinguishable from the original |
| Items.SetName | app/src/main/java/model/Item.java:89-91 | only the name changes |
| Items.SetCost | app/src/main/java/model/Item.java:108-113 | a negative cost fails with NegativeCost; otherwise only the cost changes and the item stays valid |
| Items.CostInvariant | app/src/main/java/model/Item.java:22-55 | cost >= 0 is preserved by every constructor and mutator |
| Items.EqualIsEquivalence | app/src/main/java/model/Item.java:133-148 | item equality is an equivalence relation, and holds exactly when the ids are equal |
| Contracts.NewContract | app/src/main/java/model/Contract.java:28-38 | fails with InvalidEndDate exactly when end < start, so a one-day contract is allowed; a new contract is active and keeps its inputs |
| Contracts.Copy | app/src/main/java/model/Contract.java:47-50 | re-validates the dates; the copy keeps id, dates and active flag, and takes the new item and borrower |
| Contracts.SetActive | app/src/main/java/model/Contract.java:76-78 | sets the flag and nothing else; id, item, borrower and dates are final |
| Contracts.ConflictSymmetric | app/src/main/java/model/Contract.java:86-92 | conflict is symmetric, and an inactive contract conflicts with nothing |
| Contracts.ConflictMeansSharedDay | app/src/main/java/model/Contract.java:86-92 | for valid contracts, the range test means exactly that the same item is active in both and some day lies in both ranges |
| Contracts.TouchingEndpointsConflict | app/src/main/java/model/Contract.java:90-91 | ranges [1,10] and [10,20] conflict; [1,9] and [10,20] do not |
| Members.NewMember | app/src/main/java/model/Member.java:38-56 | succeeds exactly when credits >= 0 and both formats match; the checks run in the order credits, then email, then phone; a new member has credits >= 0 and owns no items or contracts |
| Members.AddCredits | app/src/main/java/model/Member.java:173-178 | a negative amount fails with NegativeAmount; otherwise only the balance changes, growing by the amount |
| Members.DeductCredits | app/src/main/java/model/Member.java:187-192 | a negative amount fails with NegativeAmount; otherwise only the balance changes, dropping by the amount |
| Members.DeductUndoesAdd | app/src/main/java/model/Member.java:173-192 | deducting what was added restores the member, and the other way round |
| Members.DeductHasNoFloor | app/src/main/java/model/Member.java:187-192 | a member with 0 credits can be charged 5 and end at -5; deducting -5 fails |
| Members.SetName | app/src/main/java/model/Member.java:103-105 | only the name changes |
| Members.SetEmail | app/src/main/java/model/Member.java:125-130 | a non-matching email fails with InvalidEmailFormat and changes nothing; otherwise only the email changes |
| Members.SetPhone | app/src/main/java/model/Member.java:150-155 | a non-matching phone fails with InvalidPhoneNumber and changes nothing; otherwise only the phone changes |
| Members.SettersKeepIdentity | app/src/main/java/model/Member.java:103-155 | no setter changes the id, and setting the current valid email or phone again is a no-op |
| Members.AddContract | app/src/main/java/model/Member.java:246-250 | null, or an id already listed, changes nothing; otherwise the contract is appended; contract ids stay distinct; nothing else about the member changes |
| Members.RemoveContract | app/src/main/java/model/Member.java:257-259 | an absent id changes nothing; with distinct ids, it removes exactly that id and keeps the rest in order |
| Members.RemoveUndoesAdd | app/src/main/java/model/Member.java:246-259 | removing a freshly added contract restores the member |
| Members.EqualIsEquivalence | app/src/main/java/model/Member.java:262-271 | member equality by id is an equivalence relation |
| Keyed.RemoveFirstIsWithout | app/src/main/java/model/ItemRepository.java:51-53 | with distinct keys, `List.remove` of the first match equals removing every element with that key, keeping the rest in order |
| Keyed.FindUnique | app/src/main/java/model/MemberRepository.java:90-92 | with distinct keys, the first-match lookup finds the one element that carries the key |
| MemberRepository.ValidateMember | app/src/main/java/model/MemberRepository.java:48-63 | reports IdExists, else EmailExists, else PhoneExists, and reports nothing exactly when id, email and phone are all new |
| MemberRepository.AddMember | app/src/main/java/model/MemberRepository.java:70-73 | fails with the validation error and leaves the list as it was; otherwise appends at the end and keeps ids, emails and phones unique |
| MemberRepository.DeleteMember | app/src/main/java/model/MemberRepository.java:80-82 | an absent member changes nothing; under uniqueness, exactly that id is removed, the rest keep their order, and uniqueness is kept |
| MemberRepository.GetMemberByEmail | app/src/main/java/model/MemberRepository.java:90-92 | finds something exactly when the email exists, and then returns the first stored member with that email |
| MemberRepository.GetMemberByPhone | app/src/main/java/model/MemberRepository.java:100-102 | finds something exactly when the phone exists, and then returns the first stored member with that phone |
| MemberRepository.Store | app/src/main/java/controller/MemberController.java:127-129 | a stored member mutated in place: the entry with the same id is replaced and every other entry is untouched |
| MemberRepository.StoreKeepsUnique | app/src/main/java/controller/MemberController.java:127-129 | storing a member with unchanged contact details keeps the repository unique, and the email lookup then finds it |
| MemberRepository.ContainsIsKeyPresence | app/src/main/java/model/MemberRepository.java:110-112 | `memberExists` (`List.contains` under `Member.equals`) holds exactly when some stored member has the same id, and exactly when the id lookup finds one |
| MemberRepository.LookupAfterAdd | app/src/main/java/model/MemberRepository.java:70-102 | after a successful add, the email and phone lookups return the new member, and it exists |
| MemberRepository.ExistsIffFound | app/src/main/java/model/MemberRepository.java:90-133 | `emailExists` holds exactly when `getMemberByEmail` is non-null, and likewise for phones |
| ItemRepository.AddItem | app/src/main/java/model/ItemRepository.java:39-44 | a present id fails with IdExists and leaves the list unchanged; otherwise the item is appended, the length grows by one, and ids stay unique |
| ItemRepository.DeleteItem | app/src/main/java/model/ItemRepository.java:51-53 | an absent item changes nothing; under uniqueness, exactly that id is removed and the rest keep their order |
| ItemRepository.ContainsIsKeyPresence | app/src/main/java/model/ItemRepository.java:70-72 | `itemExists` (`List.contains` under `Item.equals`) holds exactly when some stored item has the same id, and exactly when the id lookup finds one |
| ItemRepository.DeleteUndoesAdd | app/src/main/java/model/ItemRepository.java:39-53 | deleting a freshly added item restores the repository |
| ContractRepository.AddContract | app/src/main/java/model/ContractRepository.java:37-42 | a duplicate id fails with IdExists and leaves the list unchanged; otherwise the contract is appended and ids stay unique |
| ContractRepository.DeleteContract | app/src/main/java/model/ContractRepository.java:49-51 | an absent contract changes nothing; under uniqueness, exactly that id is removed and the rest keep their order |
| ContractRepository.GetContract | app/src/main/java/model/ContractRepository.java:59-64 | returns a contract exactly when the id is stored, and then the first stored contract with that id |
| ContractRepository.CancelContractsForItem | app/src/main/java/model/ContractRepository.java:80-86 | the length is kept; only the active flag changes; every contract on the item is inactive; contracts on other items are unchanged |
| ContractRepository.CancelKeepsUnique | app/src/main/java/model/ContractRepository.java:80-86 | cancelling keeps ids unique and never activates a contract |
| ContractRepository.CancelIdempotent | app/src/main/java/model/ContractRepository.java:80-86 | afterwards no active contract refers to the item, and cancelling again changes nothing |
| CreditSystem.AddCredits | app/src/main/java/model/CreditSystem.java:24-28 | null changes nothing; otherwise behaves exactly like `Member.addCredits` |
| CreditSystem.DeductCredits | app/src/main/java/model/CreditSystem.java:36-40 | null changes nothing; otherwise behaves exactly like `Member.deductCredits`, with no floor |
| MemberController.ParseInputToIndex | app/src/main/java/controller/MemberController.java:209-216 | a choice k in [1, maxSize] gives k - 1; anything else gives -1; the result lies in [-1, maxSize) |
| MemberController.Select | app/src/main/java/controller/MemberController.java:224-235 | a choice selects an element exactly when it is in range, and then selects the element at position choice - 1 |
| MemberController.CreateMember | app/src/main/java/controller/MemberController.java:45-77 | completes exactly when the constructor checks and the repository checks pass, and then appends exactly the new member; negative credits and a duplicate email or phone are re-prompted with the error; a duplicate id or a bad format escapes the loop with its error |
| MemberController.DeleteMember | app/src/main/java/controller/MemberController.java:82-89 | null changes nothing; otherwise the member is removed by id, and the state stays valid |
| MemberController.AddCreditsToMember | app/src/main/java/controller/MemberController.java:120-138 | an amount <= 0 or a null member changes nothing; otherwise the stored member's credits grow by the amount |
| MemberController.DeductCreditsFromMember | app/src/main/java/controller/MemberController.java:144-162 | an amount <= 0 or a null member changes nothing; otherwise the stored member's credits drop by the amount |
| MemberController.FindMemberById | app/src/main/java/controller/MemberController.java:171-173 | finds something exactly when the id is stored, and then returns the first member with that id |
| MemberController.AddCreditsMovesBalance | app/src/main/java/controller/MemberController.java:120-132 | after adding, the state stays valid and the id lookup finds the member with its balance raised by exactly the amount |
| MemberController.DeductCreditsMovesBalance | app/src/main/java/controller/MemberController.java:144-156 | after deducting, the state stays valid and the id lookup finds the member with its balance lowered by exactly the amount |
| MemberController.StoreKeepsValid | app/src/main/java/controller/MemberController.java:127-129 | writing back a member with unchanged contact details keeps the state valid, and the id lookup finds it |
| ItemController.CreateItem | app/src/main/java/controller/ItemController.java:57-104 | a negative cost, or an id already stored, is re-prompted with nothing changed; otherwise the item is appended, the owner is credited with its cost, and contracts are untouched |
| ItemController.CreateItemCreditsOwner | app/src/main/java/controller/ItemController.java:72-73 | a created item keeps the state valid, and the stored owner gains exactly the item's cost |
| ItemController.DeleteItem | app/src/main/java/controller/ItemController.java:111-119 | null changes nothing; otherwise no contract is deleted and only active flags change, no active contract refers to the item, contracts on other items are unchanged, and members are untouched; under unique ids the item no longer exists and the other items keep their order |
| ItemController.DeleteItemKeepsValid | app/src/main/java/controller/ItemController.java:111-119 | deleting an item keeps the state valid |
| ContractController.SettleContracts | app/src/main/java/controller/ContractController.java:63-65 | the length is kept and only flags change; a contract stays active exactly when it was active and not due, that is, not ending strictly before the new date |
| ContractController.Charges | app/src/main/java/controller/ContractController.java:63-70 | there are no charges exactly when no contract is due, and with valid items no charge is negative |
| ContractController.ChargesAreFlips | app/src/main/java/controller/ContractController.java:63-70 | one charge of the item's cost to the borrower for each contract that settlement deactivates, in order, and no others |
| ContractController.Charged | app/src/main/java/controller/ContractController.java:68-72 | an allowed deduction lowers the balance by the amount and changes nothing else; a refused one leaves the member unchanged |
| ContractController.ApplyCharge | app/src/main/java/controller/ContractController.java:66-69 | only the balance of the member with the borrower's id changes, and it drops by the amount |
| ContractController.ApplyCharges | app/src/main/java/controller/ContractController.java:63-73 | each member loses exactly what it owes under the charges, and nothing but balances changes |
| ContractController.AdvanceTime | app/src/main/java/controller/ContractController.java:59-77 | items are untouched; contracts keep id, item, borrower and dates, and one stays active exactly when it was active and ends on or after today + days; members change only in their balances, and with valid item snapshots each member loses exactly the cost of the contracts settled for it |
| ContractController.AdvanceTimeAsWritten | app/src/main/java/controller/ContractController.java:59-77 | as written, the flags change as in the intended version but every member is unchanged |
| ContractController.SettlementChargesInFull | app/src/main/java/controller/ContractController.java:68-72 | with valid items no charge is negative, so the NegativeAmount handler never runs and each borrower loses exactly its total charges |
| ContractController.AdvanceTimeKeepsValid | app/src/main/java/controller/ContractController.java:59-77 | settlement keeps the state valid |
| ContractController.AdvanceTimeIdempotent | app/src/main/java/controller/ContractController.java:63-65 | re-running with the same or fewer days makes no charges and changes nothing |
| ContractController.IsConflictingContract | app/src/main/java/controller/ContractController.java:150-153 | holds exactly when some stored contract conflicts with the candidate |
| ContractController.CreateContract | app/src/main/java/controller/ContractController.java:82-141 | succeeds exactly when both choices are in range, the borrower can afford the item, the dates are ordered, nothing conflicts and the id is new; rejects, in that order, a missing item or borrower, insufficient funds, a bad end date, a conflict and a duplicate id, each with nothing changed; success appends one active contract and never aborts |
| ContractController.CreateContractKeepsValid | app/src/main/java/controller/ContractController.java:109 | a created contract keeps the state valid, conflicts with no stored contract, and leaves every balance as it was |
| Scenarios.TestDataValid | app/src/main/java/controller/App.java:69-101 | the seeded state satisfies every repository and entity invariant |
| Scenarios.SetupTestDataSucceeds | app/src/main/java/controller/App.java:73-100 | with accepting patterns, every construction and add of the seed data succeeds, in order |
| Scenarios.SettlementChargesTheBorrower | app/src/main/java/controller/ContractController.java:59-77 | settling the seeded contract after 2024-01-07 deactivates it; as written M2 keeps 100 credits, and as intended M2 ends with 90, M1 is unchanged, and a second run changes nothing |

## Left out

- The console views and view interfaces: they only print and read input.
- `MainController`: menu dispatch only. Its `parseInputToIndex` and the copies in `ItemController` and `ContractController` match the one modelled in `MemberController`.
- `App.main`: wiring only. `setupTestData` appears as the `Scenarios` lemmas.
- The controller retry loops: each operation is modelled as one attempt.
- The controller menu paths (`deleteMember()`, `createItem(owner)`'s prompting, `deleteContract()`, the `view...` listings): these are prompting around operations that are modelled. The `getAll...` accessors return the stored sequence, which the model uses directly.
- Regular-expression matching: it is a library call, so the pattern is an injected predicate.
- UUID generation: the item id is supplied by the caller.
- `LocalDate.now()` and date parsing: dates are integer day numbers, and today is a parameter. An unparsable date yields the same "no contract" retry as a bad end date.
- Integer parsing of menu and list choices: a choice that does not parse behaves like 0, which `parseInputToIndex` also maps to -1.
- Unparsable credits, cost or days input: the model takes these as integers and does not represent a parse failure. In the Java an unparsable credits value re-prompts `createMember` (MemberController.java:73), an unparsable cost re-prompts `createItem` (ItemController.java:100-103), and an unparsable days value is rethrown (MainController.java:241-247) to the main loop.
- Defensive copies of entities: the model has one shared state with value semantics. Their effect on `advanceTime` is recorded under Findings.
- The per-controller repository lists: `MemberController`, `ItemController` and `ContractController` each build their own list copies (MemberController.java:25, ItemController.java:33-36, ContractController.java:36-38), and `MainController` copies the controllers again (MainController.java:31-33). The copies share the stored objects, so flag and credit changes are seen everywhere, but additions and removals are seen only by the controller that made them. The model keeps one shared state instead and does not reproduce these consequences:
  - a contract added by `createContract` is not cancelled when `ItemController.deleteItem` deletes its item;
  - members and items created after start-up are not offered by `createContract`;
  - an item deleted through `ItemController` can still be chosen there.
- `Member.addItem`/`removeItem` and the member-item back-links: nothing modelled calls them. `removeItem` passes `null` to the copy constructor, and the back-links only hold copies.
- Null names, emails and phones: strings are never null here. A null email or phone fails the format check in the Java.
- Members.AddCredits: does not model 32-bit wrap-around of credits, because credits are mathematical integers.
- Members.DeductCredits: does not model 32-bit wrap-around of credits, because credits are mathematical integers.

## Findings

| source | as written | input that shows it | evidently intended | confidence | as-written member | corrected member |
|---|---|---|---|---|---|---|
| app/src/main/java/controller/ContractController.java:66-69 | `advanceTime` deducts the item's cost from `contract.getBorrower()`. That is a fresh copy of the contract's own copy of the borrower, so no stored member is charged | the seed data: advancing 3 days from any date after 2024-01-07 settles C1, but M2 keeps 100 credits (`Scenarios.SettlementChargesTheBorrower`) | the stored borrower of each settled contract loses the item's cost, so M2 ends with 90 | high, not executed | ContractController.AdvanceTimeAsWritten | ContractController.AdvanceTime |
