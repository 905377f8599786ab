/**
  The stock service as an object that owns its repository.  Each state-changing
  operation looks the record up, checks its guard and only then saves or
  deletes, in the order the service tests' repository stubs and `verify`
  calls require; every method is proved to agree with the matching function
  of module BeerStock and to keep the service invariant.  A ghost log records
  the repository calls each operation makes, so the contracts also say which
  calls happen (a lookup exactly once, a save or delete only after the guard
  passed).
*/
module BeerService {
  import BeerStock

  /** A call the service makes on its repository. */
  datatype RepositoryCall =
    | FindByNameCall(name: string)
    | FindByIdCall(id: int)
    | SaveCall(beer: BeerStock.Beer)
    | DeleteByIdCall(id: int)

  class StockService {
    /** The repository's content: beer records by identifier. */
    var store: BeerStock.Store
    /** The repository calls made so far, oldest first. */
    ghost var calls: seq<RepositoryCall>

    ghost predicate Valid()
      reads this
    {
      BeerStock.Valid(store)
    }

    /** The service is built over an existing repository. */
    constructor (repository: BeerStock.Store)
      requires BeerStock.Valid(repository)
      ensures Valid() && store == repository && calls == []
    {
      store := repository;
      calls := [];
    }

    /**
      createBeer: look the candidate's name up; when it is taken, fail with
      AlreadyRegistered without saving; otherwise save the candidate and return it.
    */
    method CreateBeer(candidate: BeerStock.Beer) returns (r: BeerStock.Outcome)
      requires Valid() && BeerStock.WellFormed(candidate)
      modifies this
      ensures Valid()
      ensures BeerStock.Transition(r, store) == BeerStock.CreateBeer(old(store), candidate)
      ensures calls == old(calls) + [FindByNameCall(candidate.name)]
                      + (if r.Ok? then [SaveCall(candidate)] else [])
    {
      calls := calls + [FindByNameCall(candidate.name)];
      var found := BeerStock.FindByName(store, candidate.name);
      if found.Ok? {
        return BeerStock.AlreadyRegistered;
      }
      store := store[candidate.id := candidate];
      calls := calls + [SaveCall(candidate)];
      r := BeerStock.Ok(candidate);
    }

    /** deleteById: look the identifier up once; when present, delete it once. */
    method DeleteById(id: int) returns (r: BeerStock.Outcome)
      requires Valid()
      modifies this
      ensures Valid()
      ensures BeerStock.Transition(r, store) == BeerStock.DeleteById(old(store), id)
      ensures calls == old(calls) + [FindByIdCall(id)]
                      + (if r.Ok? then [DeleteByIdCall(id)] else [])
    {
      calls := calls + [FindByIdCall(id)];
      if id !in store {
        return BeerStock.NotFound;
      }
      var beer := store[id];
      store := store - {id};
      calls := calls + [DeleteByIdCall(id)];
      r := BeerStock.Ok(beer);
    }

    /**
      increment: look the identifier up; refuse with StockExceeded, before any
      save, when quantity + amount would pass the capacity; otherwise set the
      new quantity, save the record and return it.
    */
    method Increment(id: int, amount: nat) returns (r: BeerStock.Outcome)
      requires Valid()
      modifies this
      ensures Valid()
      ensures BeerStock.Transition(r, store) == BeerStock.Increment(old(store), id, amount)
      ensures calls == old(calls) + [FindByIdCall(id)]
                      + (if r.Ok? then [SaveCall(r.beer)] else [])
    {
      calls := calls + [FindByIdCall(id)];
      if id !in store {
        return BeerStock.NotFound;
      }
      var beer := store[id];
      var quantityAfterIncrement := beer.quantity + amount;
      if quantityAfterIncrement > beer.max {
        return BeerStock.StockExceeded;
      }
      beer := beer.(quantity := quantityAfterIncrement);
      store := store[id := beer];
      calls := calls + [SaveCall(beer)];
      r := BeerStock.Ok(beer);
    }

    /**
      decrement: look the identifier up; refuse with StockExceeded, before any
      save, when quantity - amount would fall below zero; otherwise set the new
      quantity, save the record and return it.
    */
    method Decrement(id: int, amount: nat) returns (r: BeerStock.Outcome)
      requires Valid()
      modifies this
      ensures Valid()
      ensures BeerStock.Transition(r, store) == BeerStock.Decrement(old(store), id, amount)
      ensures calls == old(calls) + [FindByIdCall(id)]
                      + (if r.Ok? then [SaveCall(r.beer)] else [])
    {
      calls := calls + [FindByIdCall(id)];
      if id !in store {
        return BeerStock.NotFound;
      }
      var beer := store[id];
      var quantityAfterDecrement := beer.quantity - amount;
      if quantityAfterDecrement < 0 {
        return BeerStock.StockExceeded;
      }
      beer := beer.(quantity := quantityAfterDecrement);
      store := store[id := beer];
      calls := calls + [SaveCall(beer)];
      r := BeerStock.Ok(beer);
    }
  }

  // ---------------------------------------------------------------------------
  // Clients: the service tests, each on a fresh service, proved from the
  // contracts above alone
  // ---------------------------------------------------------------------------

  /**
    The create, find, list and delete tests.  Each test starts from its own
    service over the repository its stubs describe: an empty one when
    findByName is stubbed to answer empty, the fixture alone otherwise.
    `deleteCalls` is every repository call the delete test makes.
  */
  method RegistryClient() returns (created: BeerStock.Outcome, duplicate: BeerStock.Outcome,
                                   found: BeerStock.Outcome, missing: BeerStock.Outcome,
                                   listed: seq<BeerStock.Beer>, listedEmpty: seq<BeerStock.Beer>,
                                   deleted: BeerStock.Outcome, ghost deleteCalls: seq<RepositoryCall>)
    ensures created.Ok? && created.beer.id == BeerStock.SampleBeer().id
    ensures created.Ok? && created.beer.name == BeerStock.SampleBeer().name
    ensures created.Ok? && created.beer.quantity == BeerStock.SampleBeer().quantity && created.beer.quantity > 2
    ensures duplicate == BeerStock.AlreadyRegistered
    ensures found == BeerStock.Ok(BeerStock.SampleBeer()) && missing == BeerStock.NotFound
    ensures listed == [BeerStock.SampleBeer()] && listedEmpty == []
    ensures deleted.Ok?
    ensures deleteCalls == [FindByIdCall(BeerStock.SampleBeer().id), DeleteByIdCall(BeerStock.SampleBeer().id)]
  {
    var fixture := BeerStock.SampleBeer();
    BeerStock.RegistryScenarios();
    BeerStock.ListAllEmpty();

    var creating := new StockService(map[]);
    created := creating.CreateBeer(fixture);

    var duplicating := new StockService(BeerStock.SampleStore());
    duplicate := duplicating.CreateBeer(fixture);

    var finding := new StockService(BeerStock.SampleStore());
    found := BeerStock.FindByName(finding.store, fixture.name);
    var missingOne := new StockService(map[]);
    missing := BeerStock.FindByName(missingOne.store, fixture.name);

    var listing := new StockService(BeerStock.SampleStore());
    listed := BeerStock.ListAll(listing.store);
    var listingEmpty := new StockService(map[]);
    listedEmpty := BeerStock.ListAll(listingEmpty.store);

    var deleting := new StockService(BeerStock.SampleStore());
    deleted := deleting.DeleteById(fixture.id);
    deleteCalls := deleting.calls;
  }

  /**
    The increment and decrement tests on the fixture (10 in stock, capacity
    50), each on a fresh service, and on an identifier the repository does not
    hold.  `rejectedCalls` is every repository call of the increment by 80: a
    lookup and no save.
  */
  method AdjustmentClient() returns (inc10: BeerStock.Outcome, inc80: BeerStock.Outcome,
                                     inc45: BeerStock.Outcome, incMissing: BeerStock.Outcome,
                                     dec5: BeerStock.Outcome, dec10: BeerStock.Outcome,
                                     dec80: BeerStock.Outcome, decMissing: BeerStock.Outcome,
                                     ghost rejectedCalls: seq<RepositoryCall>)
    ensures inc10.Ok? && inc10.beer.quantity == 10 + 10 && inc10.beer.quantity < BeerStock.SampleBeer().max
    ensures inc80 == BeerStock.StockExceeded && inc45 == BeerStock.StockExceeded
    ensures incMissing == BeerStock.NotFound
    ensures dec5.Ok? && dec5.beer.quantity == 10 - 5 && dec5.beer.quantity > 0
    ensures dec10.Ok? && dec10.beer.quantity == 0
    ensures dec80 == BeerStock.StockExceeded && decMissing == BeerStock.NotFound
    ensures rejectedCalls == [FindByIdCall(1)]
  {
    var s1 := new StockService(BeerStock.SampleStore());
    inc10 := s1.Increment(1, 10);
    var s2 := new StockService(BeerStock.SampleStore());
    inc80 := s2.Increment(1, 80);
    rejectedCalls := s2.calls;
    var s3 := new StockService(BeerStock.SampleStore());
    inc45 := s3.Increment(1, 45);
    var s4 := new StockService(map[]);
    incMissing := s4.Increment(1, 10);

    var s5 := new StockService(BeerStock.SampleStore());
    dec5 := s5.Decrement(1, 5);
    var s6 := new StockService(BeerStock.SampleStore());
    dec10 := s6.Decrement(1, 10);
    var s7 := new StockService(BeerStock.SampleStore());
    dec80 := s7.Decrement(1, 80);
    var s8 := new StockService(map[]);
    decMissing := s8.Decrement(1, 10);
  }
}
