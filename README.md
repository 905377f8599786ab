# Beer stock service: a verified model

The beer stock service keeps a repository of beer records (identifier, name,
brand, capacity `max`, current `quantity`, type). It offers six operations:

- `createBeer` registers a new beer and refuses a name that is already taken.
- `findByName` returns the beer registered under a name.
- `listAll` returns every stored beer.
- `deleteById` removes a beer.
- `increment` adds to a beer's stock.
- `decrement` takes stock away.

The service maintains two invariants. Every stored quantity stays in the range
`0 <= quantity <= max`, and no two beers share a name. Each adjustment checks
its guard first and then either saves the change or rejects it without
changing anything.

The project has two files.

- `beer_stock.dfy`, module `BeerStock`. This holds the entity `Beer` and the
  outcome type `Outcome = Ok(beer) | NotFound | AlreadyRegistered |
  StockExceeded`, which replaces the service's three exception classes. The
  repository is a value `Store = map<int, Beer>` keyed by identifier. The
  invariant `Valid` says each record sits under its own identifier, each
  record is well formed (so its quantity is within the bounds), and names are
  unique. Every operation is a function of the repository: `FindByName` and
  `ListAll` return a result, and `CreateBeer`, `DeleteById`, `Increment` and
  `Decrement` return a `Transition` (the outcome plus the repository after the
  call). The lemmas beside them relate the operations to each other. `Run`
  serves any sequence of requests and keeps the invariant throughout. The
  module ends with the test scenarios, replayed on the tests' fixture (10 in
  stock, capacity 50).
- `beer_service.dfy`, module `BeerService`. This holds the class
  `StockService`, which owns the repository in a mutable field `store`. Its
  constructor takes the repository, as in constructor injection. Its methods
  `CreateBeer`, `DeleteById`, `Increment` and `Decrement` work step by step:
  look the record up, check the guard, then save or delete. Each method is
  proved to agree with the `BeerStock` function of the same name and to keep
  the invariant. A ghost field `calls` logs the repository calls each method
  makes. The contracts therefore also state what the tests check with
  `verify(...)`: a lookup happens exactly once, and a delete or save happens
  once, only after the guard has passed. Two client methods,
  `RegistryClient` and `AdjustmentClient`, replay the service tests against
  the class, each test on a fresh service, using only the class's contracts.

Class `StockService` models the Java `BeerService`. Its behaviour is derived
from the service unit tests in
`src/test/java/com/severo/beerstock/service/BeerServiceTest.java`, which stub
the repository and assert results, exceptions and call counts. Only
deleteById's repository calls are asserted with `verify`; for create,
increment and decrement the model makes its calls in the order the tests'
stubs require (a lookup first, and a save only where `save` is stubbed). The
entity, DTO, mapper, repository and test-builder sources are not part of this
model. The older `src/test/java/one/digitalinnovation/beerstock/service/BeerServiceTest.java`
states the same create, find, list and delete contract, and the same members
cover both files:

| test in the older file | lines | members |
|---|---|---|
| create | 39-54 | `BeerStock.CreateBeer`, `BeerStock.CreateThenFind` |
| duplicate create | 57-65 | `BeerStock.CreateBeer` |
| find | 68-88 | `BeerStock.FindByName` |
| list | 91-113 | `BeerStock.ListAllSingle`, `BeerStock.ListAllEmpty` |
| delete | 116-127 | `BeerService.StockService.DeleteById`, `BeerStock.DeleteKeepsOthers` |

The fixture's numbers come from the tests. A decrement by 10 empties the
stock, so the quantity is 10. Adding 10 stays below `max` and adding 45
exceeds it, so 20 < `max` < 55; the model uses 50. The fixture's id is 1. Its
name, brand and type strings are placeholders.

The create test asserts that the returned identifier equals the candidate's
own identifier, so the model keeps the candidate's identifier and saves the
record as an insert-or-update under that key.

## Model

| member | source | states |
|---|---|---|
| `BeerStock.FindByName` | src/test/java/com/severo/beerstock/service/BeerServiceTest.java:69-89 | Succeeds exactly when some stored beer has the name. It then returns that stored record, and because names are unique it is the only match. Otherwise it returns NotFound. |
| `BeerStock.ListAll` | src/test/java/com/severo/beerstock/service/BeerServiceTest.java:92-114 | Returns as many beers as are stored. A beer is in the list iff it is in the repository. Under the invariant, ids strictly ascend, so no beer appears twice. |
| `BeerStock.CreateBeer` | src/test/java/com/severo/beerstock/service/BeerServiceTest.java:40-66 | Fails with AlreadyRegistered exactly when the name is taken, and then the repository is unchanged. Otherwise it returns the candidate itself (same id, name and quantity), stores it under its id and leaves every other entry alone. The invariant is kept. |
| `BeerStock.DeleteById` | src/test/java/com/severo/beerstock/service/BeerServiceTest.java:117-128 | Fails with NotFound exactly when the id is unknown. Otherwise it returns the removed record. Afterwards the id is absent, every other entry is unchanged and the invariant holds. |
| `BeerStock.Increment` | src/test/java/com/severo/beerstock/service/BeerServiceTest.java:132-186 | NotFound iff the id is unknown. StockExceeded iff quantity + n > max. Ok iff quantity + n <= max, and then only the quantity changes, to exactly quantity + n. On failure nothing changes. The invariant is kept. |
| `BeerStock.Decrement` | src/test/java/com/severo/beerstock/service/BeerServiceTest.java:190-245 | NotFound iff the id is unknown. StockExceeded iff quantity - n < 0. Ok iff quantity - n >= 0 (reaching zero is allowed), and then only the quantity changes, to exactly quantity - n. On failure nothing changes. The invariant is kept. |
| `BeerStock.SortedIds` | src/test/java/com/severo/beerstock/service/BeerServiceTest.java:92-114 | Ordering machinery behind `ListAll`, not a model of a test line: lists a set of identifiers in strictly ascending order, each exactly once and nothing else. |
| `BeerStock.LeastExists` | src/test/java/com/severo/beerstock/service/BeerServiceTest.java:92-114 | Ordering machinery behind `ListAll`, not a model of a test line: every non-empty set of identifiers has a least element, which `SortedIds` takes first. |
| `BeerStock.Run` | src/test/java/com/severo/beerstock/service/BeerServiceTest.java:40-245 | After any sequence of admissible create, delete, increment and decrement requests, successful or not, the repository still satisfies the invariant: every quantity is within [0, max] and names are unique. |
| `BeerStock.CreateThenFind` | src/test/java/com/severo/beerstock/service/BeerServiceTest.java:40-79 | Creating a beer with a fresh name succeeds, and a later findByName of that name returns exactly the created beer. |
| `BeerStock.CreateThenList` | src/test/java/com/severo/beerstock/service/BeerServiceTest.java:92-103 | Creating a beer with a fresh name and a fresh id makes the listing exactly one longer, and the new beer is in it. |
| `BeerStock.DeleteThenNotFound` | src/test/java/com/severo/beerstock/service/BeerServiceTest.java:117-128 | After a delete by id, another delete, an increment and a decrement on that id all fail with NotFound. |
| `BeerStock.DeleteKeepsOthers` | src/test/java/one/digitalinnovation/beerstock/service/BeerServiceTest.java:116-127 | Deleting one beer does not change the result of findByName for any other name. |
| `BeerStock.IncrementThenDecrement` | src/test/java/com/severo/beerstock/service/BeerServiceTest.java:132-147 | A successful increment by n, followed by a decrement by n, succeeds and restores both the record and the repository. |
| `BeerStock.DecrementThenIncrement` | src/test/java/com/severo/beerstock/service/BeerServiceTest.java:190-204 | A successful decrement by n, followed by an increment by n, succeeds and restores both the record and the repository. |
| `BeerStock.IncrementsCompose` | src/test/java/com/severo/beerstock/service/BeerServiceTest.java:151-175 | Incrementing by a and then by b succeeds exactly when incrementing by a + b does, and then both give the same outcome and repository. The capacity check is on the running sum, not on each amount alone. |
| `BeerStock.AdjustKeepsNames` | src/test/java/com/severo/beerstock/service/BeerServiceTest.java:132-147 | An increment or decrement, successful or not, never changes which names are registered. |
| `BeerStock.ListAllEmpty` | src/test/java/com/severo/beerstock/service/BeerServiceTest.java:105-114 | Listing an empty repository gives the empty list. |
| `BeerStock.ListAllSingle` | src/test/java/com/severo/beerstock/service/BeerServiceTest.java:91-103 | Listing a repository that holds one beer gives the one-element list of that beer. |
| `BeerStock.SampleBeer` | src/test/java/com/severo/beerstock/service/BeerServiceTest.java:247-249 | The test fixture is well formed, with quantity 10 and capacity 50. |
| `BeerStock.SampleStore` | src/test/java/com/severo/beerstock/service/BeerServiceTest.java:137 | A repository holding only the fixture satisfies the invariant and has only the fixture's id. |
| `BeerStock.IncrementScenarios` | src/test/java/com/severo/beerstock/service/BeerServiceTest.java:132-186 | On the fixture, +10 gives quantity 20. +80 and +45 fail with StockExceeded and leave the repository unchanged. On an empty repository, +10 fails with NotFound. |
| `BeerStock.DecrementScenarios` | src/test/java/com/severo/beerstock/service/BeerServiceTest.java:190-245 | On the fixture, -5 gives 5 and -10 gives 0. -80 fails with StockExceeded and leaves the repository unchanged. On an empty repository, -10 fails with NotFound. |
| `BeerStock.FillToCapacity` | src/test/java/com/severo/beerstock/service/BeerServiceTest.java:132-175 | 10 + 10 = 20, then + 30 reaches exactly 50 (the bound is inclusive), and then + 1 fails with StockExceeded and leaves the repository unchanged. |
| `BeerStock.DrainBelowZero` | src/test/java/com/severo/beerstock/service/BeerServiceTest.java:190-235 | 10 - 5 = 5, then - 10 fails with StockExceeded and the quantity stays 5. |
| `BeerStock.RegistryScenarios` | src/test/java/one/digitalinnovation/beerstock/service/BeerServiceTest.java:39-127 | On the fixture: create into an empty repository succeeds and returns the fixture. A second create fails with AlreadyRegistered and changes nothing. findByName finds the fixture, and on an empty repository it fails with NotFound. listAll gives the one fixture. deleteById removes it. |
| `BeerService.RegistryClient` | src/test/java/com/severo/beerstock/service/BeerServiceTest.java:40-128 | Each create, find, list and delete test on its own fresh service: create returns the candidate's id, name and quantity (above 2); a duplicate create gives AlreadyRegistered; find gives the fixture and, on an empty repository, NotFound; list gives the one fixture or the empty list; the delete makes exactly one findById and one deleteById call, the `verify(times(1))` of lines 126-127. |
| `BeerService.AdjustmentClient` | src/test/java/com/severo/beerstock/service/BeerServiceTest.java:132-245 | Each increment and decrement test on its own fresh service over the fixture: +10 gives 20 (below max), +80 and +45 give StockExceeded, and the +80 call makes only the lookup and no save; -5 gives 5, -10 gives 0, -80 gives StockExceeded; an unknown id gives NotFound for both. |
| `BeerService.StockService.constructor` | src/test/java/com/severo/beerstock/service/BeerServiceTest.java:31-37 | The service starts over the repository it is given (which must satisfy the invariant) and has made no repository calls yet. |
| `BeerService.StockService.CreateBeer` | src/test/java/com/severo/beerstock/service/BeerServiceTest.java:40-66 | Has exactly the effect and outcome of `BeerStock.CreateBeer` and keeps the invariant. It makes one findByName call, followed by one save only when it succeeds. |
| `BeerService.StockService.DeleteById` | src/test/java/com/severo/beerstock/service/BeerServiceTest.java:117-128 | Has exactly the effect and outcome of `BeerStock.DeleteById` and keeps the invariant. It makes one findById call, followed by one deleteById call only when the id exists. |
| `BeerService.StockService.Increment` | src/test/java/com/severo/beerstock/service/BeerServiceTest.java:132-186 | Has exactly the effect and outcome of `BeerStock.Increment` and keeps the invariant. It makes one findById call, and the save of the updated record happens only when it succeeds, so a rejected increment never saves. |
| `BeerService.StockService.Decrement` | src/test/java/com/severo/beerstock/service/BeerServiceTest.java:190-245 | Has exactly the effect and outcome of `BeerStock.Decrement` and keeps the invariant. It makes one findById call, and the save happens only when it succeeds. |

## Left out

- HTTP routing, status-code mapping, JSON and the Swagger documentation (the controller and its docs interface) are transport glue with no invariant of their own.
- The Mockito and JPA machinery and the MapStruct mapper are replaced. The repository is a plain map, and the DTO-to-entity mapping is the identity, so `Beer` stands for both.
- Bean validation at the boundary (for example a missing brand gives 400) happens before the service runs. The model puts it in the precondition `WellFormed`: non-empty name and brand, positive capacity, and 0 <= quantity <= max.
- Negative adjustment amounts: no test exercises them. Amounts are `nat` in the model.
- Identifier generation: the candidate brings its own identifier, and saving is insert-or-update under it. Assigning an identifier to a candidate without one is not modelled.
- Increment: Java's 32-bit `int` addition is not modelled; the model uses unbounded integers. With 32-bit addition an amount near 2^31 - 1 wraps quantity + amount to a negative number, which passes the `<= max` guard and stores a negative quantity; the model answers StockExceeded there. `Run`'s invariant therefore holds for the model, and for the Java service only while quantity + amount stays within `int`. (Decrement is unaffected: with 0 <= quantity and 0 <= amount <= 2^31 - 1, quantity - amount cannot wrap.)
- In-place mutation of the entity object, and the aliasing between the object returned by `findById` and the one passed to `save`, are not modelled. Records are values: the service replaces the stored record with an updated copy and returns that copy.
- ListAll: the repository's `findAll` promises no order. The model fixes ascending identifier order.
- FindByName: the repository's behaviour when two records share a name is not modelled, because the invariant rules it out. The service's own `findByName` and `listAll` calls on the repository are not logged, because they are read-only functions of the store.
- The beer type enumeration is not part of this model. A type is carried by its constant's name as a string.
- Persistence transactions and concurrency are outside the service's contract.
