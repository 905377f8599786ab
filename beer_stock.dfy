/**
  The business rules of the beer stock service, stated over the value of the
  beer repository.  The repository (find-by-name, find-by-id, find-all, save,
  delete-by-id) is a finite map from identifier to beer record; every service
  operation is a function from the repository before the call to an outcome
  and the repository after it.  The class in beer_service.dfy performs the same
  operations step by step and is proved to agree with these functions.
*/
module BeerStock {

  /** A beer type as its enumeration constant's name (for example "LAGER"). */
  type BeerType = string

  /** One stock item: the entity the repository stores and the service returns. */
  datatype Beer = Beer(id: int, name: string, brand: string, max: int, quantity: int, kind: BeerType)

  /**
    What a service call ends in.  `Ok` carries the beer the call returns; the
    other three stand for the service's exceptions (beer not found, beer
    already registered, stock capacity exceeded).
  */
  datatype Outcome = Ok(beer: Beer) | NotFound | AlreadyRegistered | StockExceeded

  /** The repository: beer records by identifier. */
  type Store = map<int, Beer>

  /** The outcome of a state-changing call and the repository after it. */
  datatype Transition = Transition(outcome: Outcome, after: Store)

  /** The quantity lies in the closed range from zero to the beer's capacity. */
  predicate InBounds(b: Beer) {
    0 <= b.quantity <= b.max
  }

  /** What boundary validation guarantees of a candidate before it reaches the service. */
  predicate WellFormed(b: Beer) {
    |b.name| > 0 && |b.brand| > 0 && b.max > 0 && InBounds(b)
  }

  /** Some stored beer carries this name. */
  predicate HasName(s: Store, name: string) {
    exists id :: id in s && s[id].name == name
  }

  /**
    The service invariant: every record is filed under its own identifier and
    is well formed (so its quantity is within [0, max]), and no two records
    share a name.
  */
  ghost predicate Valid(s: Store) {
    && (forall id | id in s :: s[id].id == id && WellFormed(s[id]))
    && (forall i, j | i in s && j in s && s[i].name == s[j].name :: i == j)
  }

  /** Two records are the same item, whatever their quantities. */
  predicate SameItem(a: Beer, b: Beer) {
    a.id == b.id && a.name == b.name && a.brand == b.brand && a.max == b.max && a.kind == b.kind
  }

  // ---------------------------------------------------------------------------
  // Queries
  // ---------------------------------------------------------------------------

  /** findByName: the beer registered under `name`, or NotFound. */
  function FindByName(s: Store, name: string): (r: Outcome)
    requires Valid(s)
    ensures r.Ok? || r.NotFound?
    ensures r.Ok? <==> HasName(s, name)
    ensures r.Ok? ==> r.beer.name == name && r.beer.id in s && s[r.beer.id] == r.beer
    ensures forall id | id in s && s[id].name == name :: r == Ok(s[id])
  {
    if HasName(s, name) then
      var id :| id in s && s[id].name == name;
      Ok(s[id])
    else
      NotFound
  }

  /** `m` is the least identifier of `ks`. */
  predicate IsLeast(m: int, ks: set<int>) {
    m in ks && forall k | k in ks :: m <= k
  }

  /** A finite non-empty set of identifiers has a least element. */
  lemma {:induction false} LeastExists(ks: set<int>)
    requires ks != {}
    ensures exists m :: IsLeast(m, ks)
    decreases |ks|
  {
    // Gives the solver the witness for the `:|` below: with no element, ks would be {}.
    if forall k :: k !in ks { assert false; }
    var x :| x in ks;
    var rest := ks - {x};
    assert ks == rest + {x};
    if rest == {} {
      assert IsLeast(x, ks);
    } else {
      LeastExists(rest);
      var m :| IsLeast(m, rest);
      if x < m {
        assert IsLeast(x, ks);
      } else {
        assert IsLeast(m, ks);
      }
    }
  }

  /** `r` is strictly ascending. */
  predicate Ascending(r: seq<int>) {
    forall i, j | 0 <= i < j < |r| :: r[i] < r[j]
  }

  /** Putting an identifier below all of an ascending sequence in front keeps it ascending. */
  lemma PrependAscending(m: int, tail: seq<int>)
    requires Ascending(tail) && forall k | k in tail :: m < k
    ensures Ascending([m] + tail)
  {
    var r := [m] + tail;
    forall i, j | 0 <= i < j < |r| ensures r[i] < r[j] {
      if i == 0 { assert r[j] == tail[j - 1]; assert r[j] in tail; }
      else { assert r[i] == tail[i - 1] && r[j] == tail[j - 1]; }
    }
  }

  /** The identifiers of a set in ascending order, each once. */
  function SortedIds(ks: set<int>): (r: seq<int>)
    ensures |r| == |ks|
    ensures forall k :: k in r <==> k in ks
    ensures Ascending(r)
    decreases ks
  {
    if ks == {} then []
    else
      LeastExists(ks);
      var m :| IsLeast(m, ks);
      var rest := ks - {m};
      var tail := SortedIds(rest);
      assert |ks| == |rest| + 1 by { assert ks == rest + {m}; }
      PrependAscending(m, tail);
      [m] + tail
  }

  /**
    listAll: every stored beer exactly once, in ascending identifier order
    (the repository promises no order; ascending identifiers is this model's).
  */
  function ListAll(s: Store): (r: seq<Beer>)
    ensures |r| == |s|
    ensures forall b :: b in r <==> b in s.Values
    ensures Valid(s) ==> forall i, j | 0 <= i < j < |r| :: r[i].id < r[j].id
  {
    var ids := SortedIds(s.Keys);
    var r := seq(|ids|, i requires 0 <= i < |ids| => s[ids[i]]);
    ListingCovers(s, ids, r);
    r
  }

  /** Reading the records under every identifier yields exactly the stored beers. */
  lemma ListingCovers(s: Store, ids: seq<int>, r: seq<Beer>)
    requires forall k :: k in ids <==> k in s
    requires |r| == |ids| && forall i | 0 <= i < |ids| :: ids[i] in s && r[i] == s[ids[i]]
    ensures forall b :: b in r <==> b in s.Values
  {
    forall b | b in s.Values ensures b in r {
      // Gives the solver the witness for the `:|` below: b is some record's value.
      if forall k | k in s :: s[k] != b { assert false; }
      var k :| k in s && s[k] == b;
      var i :| 0 <= i < |ids| && ids[i] == k;
      assert r[i] == b;
    }
  }

  // ---------------------------------------------------------------------------
  // Commands
  // ---------------------------------------------------------------------------

  /**
    createBeer: rejects a candidate whose name is already registered and
    otherwise saves it (insert-or-update under its identifier) and returns it.
  */
  function CreateBeer(s: Store, candidate: Beer): (t: Transition)
    requires Valid(s) && WellFormed(candidate)
    ensures Valid(t.after)
    ensures t.outcome.Ok? || t.outcome.AlreadyRegistered?
    ensures t.outcome.AlreadyRegistered? <==> HasName(s, candidate.name)
    ensures t.outcome.AlreadyRegistered? ==> t.after == s
    ensures t.outcome.Ok? ==>
      && t.outcome.beer == candidate
      && t.after.Keys == s.Keys + {candidate.id}
      && t.after[candidate.id] == candidate
      && forall id | id in s && id != candidate.id :: t.after[id] == s[id]
  {
    if FindByName(s, candidate.name).Ok? then
      Transition(AlreadyRegistered, s)
    else
      Transition(Ok(candidate), s[candidate.id := candidate])
  }

  /** deleteById: NotFound for an unknown identifier, otherwise that record is removed. */
  function DeleteById(s: Store, id: int): (t: Transition)
    requires Valid(s)
    ensures Valid(t.after)
    ensures t.outcome.Ok? || t.outcome.NotFound?
    ensures t.outcome.NotFound? <==> id !in s
    ensures t.outcome.Ok? ==> t.outcome.beer == s[id]
    ensures t.after.Keys == s.Keys - {id}
    ensures forall k | k in t.after :: t.after[k] == s[k]
  {
    if id !in s then
      Transition(NotFound, s)
    else
      Transition(Ok(s[id]), s - {id})
  }

  /**
    increment: NotFound for an unknown identifier; StockExceeded, with nothing
    changed, when quantity + amount would pass the capacity; otherwise the
    record's quantity grows by `amount` and the updated record is returned.
  */
  function Increment(s: Store, id: int, amount: nat): (t: Transition)
    requires Valid(s)
    ensures Valid(t.after)
    ensures t.outcome.NotFound? <==> id !in s
    ensures t.outcome.StockExceeded? <==> id in s && s[id].quantity + amount > s[id].max
    ensures t.outcome.Ok? <==> id in s && s[id].quantity + amount <= s[id].max
    ensures !t.outcome.Ok? ==> t.after == s
    ensures t.outcome.Ok? ==>
      && SameItem(t.outcome.beer, s[id])
      && t.outcome.beer.quantity == s[id].quantity + amount
      && t.after == s[id := t.outcome.beer]
  {
    if id !in s then
      Transition(NotFound, s)
    else
      var beer := s[id];
      var quantityAfterIncrement := beer.quantity + amount;
      if quantityAfterIncrement <= beer.max then
        var updated := beer.(quantity := quantityAfterIncrement);
        Transition(Ok(updated), s[id := updated])
      else
        Transition(StockExceeded, s)
  }

  /**
    decrement: NotFound for an unknown identifier; StockExceeded, with nothing
    changed, when quantity - amount would fall below zero; otherwise the
    record's quantity shrinks by `amount` (reaching zero is allowed).
  */
  function Decrement(s: Store, id: int, amount: nat): (t: Transition)
    requires Valid(s)
    ensures Valid(t.after)
    ensures t.outcome.NotFound? <==> id !in s
    ensures t.outcome.StockExceeded? <==> id in s && s[id].quantity - amount < 0
    ensures t.outcome.Ok? <==> id in s && s[id].quantity - amount >= 0
    ensures !t.outcome.Ok? ==> t.after == s
    ensures t.outcome.Ok? ==>
      && SameItem(t.outcome.beer, s[id])
      && t.outcome.beer.quantity == s[id].quantity - amount
      && t.after == s[id := t.outcome.beer]
  {
    if id !in s then
      Transition(NotFound, s)
    else
      var beer := s[id];
      var quantityAfterDecrement := beer.quantity - amount;
      if quantityAfterDecrement >= 0 then
        var updated := beer.(quantity := quantityAfterDecrement);
        Transition(Ok(updated), s[id := updated])
      else
        Transition(StockExceeded, s)
  }

  // ---------------------------------------------------------------------------
  // Any sequence of requests keeps the invariant
  // ---------------------------------------------------------------------------

  /** A state-changing request as the transport layer hands it to the service. */
  datatype Request =
    | Create(candidate: Beer)
    | Delete(id: int)
    | IncrementBy(id: int, amount: nat)
    | DecrementBy(id: int, amount: nat)

  /** A request that got past boundary validation. */
  predicate Admissible(req: Request) {
    req.Create? ==> WellFormed(req.candidate)
  }

  function Apply(s: Store, req: Request): (t: Transition)
    requires Valid(s) && Admissible(req)
    ensures Valid(t.after)
  {
    match req
    case Create(c) => CreateBeer(s, c)
    case Delete(id) => DeleteById(s, id)
    case IncrementBy(id, n) => Increment(s, id, n)
    case DecrementBy(id, n) => Decrement(s, id, n)
  }

  /**
    The repository after serving `reqs` one after another: it still satisfies
    the invariant, so every stored quantity stays within [0, max] and names
    stay unique, whatever the requests were and however many failed.
  */
  function Run(s: Store, reqs: seq<Request>): (r: Store)
    requires Valid(s)
    requires forall i | 0 <= i < |reqs| :: Admissible(reqs[i])
    ensures Valid(r)
    ensures forall id | id in r :: 0 <= r[id].quantity <= r[id].max
    decreases |reqs|
  {
    if reqs == [] then s
    else Run(Apply(s, reqs[0]).after, reqs[1..])
  }

  // ---------------------------------------------------------------------------
  // Properties relating the operations
  // ---------------------------------------------------------------------------

  /** A created beer is then found by its name. */
  lemma CreateThenFind(s: Store, candidate: Beer)
    requires Valid(s) && WellFormed(candidate) && !HasName(s, candidate.name)
    ensures CreateBeer(s, candidate).outcome == Ok(candidate)
    ensures FindByName(CreateBeer(s, candidate).after, candidate.name) == Ok(candidate)
  {
  }

  /** A created beer with a new identifier adds exactly one entry to the listing. */
  lemma CreateThenList(s: Store, candidate: Beer)
    requires Valid(s) && WellFormed(candidate) && !HasName(s, candidate.name) && candidate.id !in s
    ensures |ListAll(CreateBeer(s, candidate).after)| == |ListAll(s)| + 1
    ensures candidate in ListAll(CreateBeer(s, candidate).after)
  {
  }

  /** After a delete, every identifier-based operation on that identifier fails with NotFound. */
  lemma DeleteThenNotFound(s: Store, id: int, amount: nat)
    requires Valid(s)
    ensures var after := DeleteById(s, id).after;
      && DeleteById(after, id).outcome == NotFound
      && Increment(after, id, amount).outcome == NotFound
      && Decrement(after, id, amount).outcome == NotFound
  {
  }

  /** A delete leaves every other beer findable by name. */
  lemma DeleteKeepsOthers(s: Store, id: int, name: string)
    requires Valid(s) && (id in s ==> s[id].name != name)
    ensures FindByName(DeleteById(s, id).after, name) == FindByName(s, name)
  {
  }

  /** A successful increment is undone by a decrement of the same amount. */
  lemma IncrementThenDecrement(s: Store, id: int, amount: nat)
    requires Valid(s) && Increment(s, id, amount).outcome.Ok?
    ensures Decrement(Increment(s, id, amount).after, id, amount) == Transition(Ok(s[id]), s)
  {
  }

  /** A successful decrement is undone by an increment of the same amount. */
  lemma DecrementThenIncrement(s: Store, id: int, amount: nat)
    requires Valid(s) && Decrement(s, id, amount).outcome.Ok?
    ensures Increment(Decrement(s, id, amount).after, id, amount) == Transition(Ok(s[id]), s)
  {
  }

  /** Incrementing by a then by b succeeds exactly when incrementing by a + b does, with the same result. */
  lemma IncrementsCompose(s: Store, id: int, a: nat, b: nat)
    requires Valid(s)
    ensures var first := Increment(s, id, a);
      && (first.outcome.Ok? && Increment(first.after, id, b).outcome.Ok? <==> Increment(s, id, a + b).outcome.Ok?)
      && (Increment(s, id, a + b).outcome.Ok? ==> Increment(first.after, id, b) == Increment(s, id, a + b))
  {
  }

  /** Increment and decrement change nothing but the quantity: lookups by name still find the item. */
  lemma AdjustKeepsNames(s: Store, id: int, amount: nat, name: string)
    requires Valid(s)
    ensures HasName(Increment(s, id, amount).after, name) <==> HasName(s, name)
    ensures HasName(Decrement(s, id, amount).after, name) <==> HasName(s, name)
  {
    var inc := Increment(s, id, amount).after;
    var dec := Decrement(s, id, amount).after;
    if HasName(s, name) {
      var k :| k in s && s[k].name == name;
      assert k in inc && inc[k].name == name;
      assert k in dec && dec[k].name == name;
    }
    if HasName(inc, name) {
      var k :| k in inc && inc[k].name == name;
      assert k in s && s[k].name == name;
    }
    if HasName(dec, name) {
      var k :| k in dec && dec[k].name == name;
      assert k in s && s[k].name == name;
    }
  }

  /** listAll of an empty repository is the empty list. */
  lemma ListAllEmpty()
    ensures ListAll(map[]) == []
  {
  }

  /** listAll of a repository holding one beer is the one-element list of that beer. */
  lemma ListAllSingle(b: Beer)
    ensures ListAll(map[b.id := b]) == [b]
  {
  }

  // ---------------------------------------------------------------------------
  // The test scenarios, on the fixture the tests build
  // ---------------------------------------------------------------------------

  /** The fixture beer of the service tests: 10 in stock of a capacity of 50. */
  function SampleBeer(): (b: Beer)
    ensures WellFormed(b) && b.quantity == 10 && b.max == 50
  {
    Beer(1, "Sample Lager", "Sample Brewery", 50, 10, "LAGER")
  }

  /** A repository holding only the fixture. */
  function SampleStore(): (s: Store)
    ensures Valid(s) && s.Keys == {SampleBeer().id}
  {
    map[SampleBeer().id := SampleBeer()]
  }

  /** Adjustments of the fixture: 10 + 10 is accepted, 10 + 80 and 10 + 45 pass the capacity of 50. */
  lemma IncrementScenarios()
    ensures Increment(SampleStore(), 1, 10).outcome == Ok(SampleBeer().(quantity := 20))
    ensures Increment(SampleStore(), 1, 80) == Transition(StockExceeded, SampleStore())
    ensures Increment(SampleStore(), 1, 45) == Transition(StockExceeded, SampleStore())
    ensures Increment(map[], 1, 10).outcome == NotFound
  {
  }

  /** 10 - 5 leaves 5, 10 - 10 empties the stock (zero is allowed), 10 - 80 is refused. */
  lemma DecrementScenarios()
    ensures Decrement(SampleStore(), 1, 5).outcome == Ok(SampleBeer().(quantity := 5))
    ensures Decrement(SampleStore(), 1, 10).outcome == Ok(SampleBeer().(quantity := 0))
    ensures Decrement(SampleStore(), 1, 80) == Transition(StockExceeded, SampleStore())
    ensures Decrement(map[], 1, 10).outcome == NotFound
  {
  }

  /** Filling to capacity: 10 + 10 = 20, 20 + 30 = 50 (the bound is inclusive), then + 1 is refused. */
  lemma FillToCapacity()
    ensures var s1 := Increment(SampleStore(), 1, 10);
      var s2 := Increment(s1.after, 1, 30);
      && s2.outcome == Ok(SampleBeer().(quantity := 50))
      && Increment(s2.after, 1, 1) == Transition(StockExceeded, s2.after)
  {
  }

  /** Draining: 10 - 5 = 5, then - 10 is refused and the quantity stays 5. */
  lemma DrainBelowZero()
    ensures var s1 := Decrement(SampleStore(), 1, 5);
      && s1.after[1].quantity == 5
      && Decrement(s1.after, 1, 10) == Transition(StockExceeded, s1.after)
  {
  }

  /** Create, find, duplicate create, list and delete on the fixture. */
  lemma RegistryScenarios()
    ensures CreateBeer(map[], SampleBeer()) == Transition(Ok(SampleBeer()), SampleStore())
    ensures CreateBeer(SampleStore(), SampleBeer()) == Transition(AlreadyRegistered, SampleStore())
    ensures FindByName(SampleStore(), SampleBeer().name) == Ok(SampleBeer())
    ensures FindByName(map[], SampleBeer().name) == NotFound
    ensures ListAll(SampleStore()) == [SampleBeer()]
    ensures DeleteById(SampleStore(), 1) == Transition(Ok(SampleBeer()), map[])
  {
  }
}
