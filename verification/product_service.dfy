/**
 The product service: business rules over the product store. Each operation
 writes at most one entry; it returns its C# result together with the store
 as it leaves it. Failed operations leave the store
 untouched, and successful ones change nothing but their target entry.
 */
module ProductService {
  import opened ProductModel
  import UniqueIdGenerator

  /** A service result paired with the store after the call. */
  datatype Step<T> = Step(result: T, store: Store)

  /** Outcome of inserting a product: the stored record, or a rejection
      because the table already holds a row with that primary key. */
  datatype AddResult = Added(product: Product) | DuplicateId(id: int)

  /** GetAllAsync: every stored product and nothing else, in no particular
      order. */
  function GetAll(s: Store): (r: set<Product>)
    ensures forall k | k in s :: s[k] in r
    ensures forall p | p in r :: exists k | k in s :: s[k] == p
  {
    set k | k in s :: s[k]
  }

  /** GetByIdAsync: the record stored under `id`, or none. */
  function GetById(s: Store, id: int): (r: Option<Product>)
    ensures r.Some? <==> id in s
    ensures r.Some? ==> r.value == s[id]
  {
    if id in s then Some(s[id]) else None
  }

  /** AddAsync: an `Id` of 0 asks for a generated id; a nonzero `Id` is kept
      as given. The insert is refused, leaving the store as it was, when the
      key is already taken. The generator is invoked only for an `Id` of 0. */
  method Add(s: Store, cache: set<int>, product: Product)
    returns (r: AddResult, s': Store, cache': set<int>)
    requires product.id == 0 ==> UniqueIdGenerator.SpaceAvailable(cache, s)
    ensures product.id != 0 ==> cache' == cache
    ensures product.id == 0 ==>
              exists id :: UniqueIdGenerator.Claimed(cache, s, id, cache')
                           && (r.Added? ==> r.product.id == id)
    ensures product.id != 0 ==> (r.DuplicateId? <==> product.id in s)
    ensures product.id == 0 && Keyed(s) ==> r.Added?
    ensures r.Added? ==>
              && r.product.name == product.name
              && r.product.price == product.price
              && r.product.stock == product.stock
              && (product.id != 0 ==> r.product.id == product.id)
              && r.product.id !in s
              && s'.Keys == s.Keys + {r.product.id}
              && s'[r.product.id] == r.product
              && (forall k | k in s :: s'[k] == s[k])
    ensures r.Added? ==> GetById(s', r.product.id) == Some(r.product)
    ensures r.Added? ==> Delete(s', r.product.id) == Step(true, s)
    ensures Keyed(s) ==> Keyed(s')
    ensures r.DuplicateId? ==> s' == s
  {
    var id := product.id;
    cache' := cache;
    if id == 0 {
      id, cache' := UniqueIdGenerator.GenerateUniqueId(cache, s);
      assert UniqueIdGenerator.Claimed(cache, s, id, cache');
      if Keyed(s) {
        KeyedIdsAreKeys(s, id);
      }
    }
    if id in s {
      r, s' := DuplicateId(id), s;
    } else {
      var stored := product.(id := id);
      r, s' := Added(stored), s[id := stored];
      assert s' - {id} == s;
    }
  }

  /** UpdateAsync: on a missing id, returns null and changes nothing;
      otherwise overwrites name, price and stock from `updated` and keeps the
      stored id, whatever `updated.id` is. */
  function Update(s: Store, id: int, updated: Product): (r: Step<Option<Product>>)
    ensures id !in s ==> r.result.None? && r.store == s
    ensures id in s ==>
              && r.result.Some?
              && r.store.Keys == s.Keys
              && r.result.value == r.store[id]
              && r.store[id].id == s[id].id
              && r.store[id].name == updated.name
              && r.store[id].price == updated.price
              && r.store[id].stock == updated.stock
              && (forall k | k in s && k != id :: r.store[k] == s[k])
  {
    if id !in s then Step(None, s)
    else
      var p := s[id].(name := updated.name, price := updated.price, stock := updated.stock);
      Step(Some(p), s[id := p])
  }

  /** DeleteAsync: true, and the entry is gone, exactly when it existed. */
  function Delete(s: Store, id: int): (r: Step<bool>)
    ensures r.result <==> id in s
    ensures r.store.Keys == s.Keys - {id}
    ensures forall k | k in r.store :: r.store[k] == s[k]
  {
    if id in s then Step(true, s - {id}) else Step(false, s)
  }

  /** DecrementStockAsync: refused when the product is missing or its stock
      is below `quantity`; otherwise lowers that entry's stock by `quantity`.
      A successful decrement never leaves the stock negative. */
  function DecrementStock(s: Store, id: int, quantity: int): (r: Step<bool>)
    ensures r.result <==> id in s && s[id].stock >= quantity
    ensures !r.result ==> r.store == s
    ensures r.result ==> OnlyStockChanged(s, r.store, id)
                         && r.store[id].stock == s[id].stock - quantity
                         && r.store[id].stock >= 0
  {
    if id !in s || s[id].stock < quantity then Step(false, s)
    else Step(true, s[id := s[id].(stock := s[id].stock - quantity)])
  }

  /** AddToStockAsync: refused only when the product is missing; otherwise
      raises that entry's stock by `quantity`, which may be negative. */
  function AddToStock(s: Store, id: int, quantity: int): (r: Step<bool>)
    ensures r.result <==> id in s
    ensures !r.result ==> r.store == s
    ensures r.result ==> OnlyStockChanged(s, r.store, id)
                         && r.store[id].stock == s[id].stock + quantity
  {
    if id !in s then Step(false, s)
    else Step(true, s[id := s[id].(stock := s[id].stock + quantity)])
  }

  // ---------------------------------------------------------------------
  // Properties relating the operations to one another and to the store's
  // invariants.
  // ---------------------------------------------------------------------

  /** Every mutating operation keeps each entry under its own id. */
  lemma OperationsPreserveKeyed(s: Store, id: int, updated: Product, quantity: int)
    requires Keyed(s)
    ensures Keyed(Update(s, id, updated).store)
    ensures Keyed(Delete(s, id).store)
    ensures Keyed(DecrementStock(s, id, quantity).store)
    ensures Keyed(AddToStock(s, id, quantity).store)
  {
  }

  /** In a keyed store, listing and fetching agree: every listed product is
      the one GetById returns for its id, and every present id is listed. */
  lemma GetAllMatchesGetById(s: Store, id: int)
    requires Keyed(s)
    ensures GetById(s, id).Some? ==> GetById(s, id).value in GetAll(s)
    ensures forall p | p in GetAll(s) :: GetById(s, p.id) == Some(p)
  {
  }

  /** In a keyed store the listing has exactly one product per stored row:
      rows under distinct keys carry distinct ids, so no two collapse. */
  lemma {:induction false} GetAllCount(s: Store)
    requires Keyed(s)
    ensures |GetAll(s)| == |s|
    decreases |s|
  {
    if |s| > 0 {
      var k := SomeKey(s);
      var rest := s - {k};
      assert Keyed(rest);
      GetAllCount(rest);
      assert forall j | j in rest :: rest[j].id != s[k].id;
      assert s[k] !in GetAll(rest);
      forall p | p in GetAll(s)
        ensures p in GetAll(rest) + {s[k]}
      {
        var j :| j in s && s[j] == p;
        if j != k {
          assert rest[j] == p;
        }
      }
      assert GetAll(s) == GetAll(rest) + {s[k]};
      assert rest.Keys == s.Keys - {k};
      assert |rest.Keys| == |s.Keys| - 1;
    }
  }

  /** The `id` carried in an update's body never matters. */
  lemma UpdateIgnoresBodyId(s: Store, id: int, updated: Product, bodyId: int)
    ensures Update(s, id, updated.(id := bodyId)) == Update(s, id, updated)
  {
  }

  /** Repeating an update with the same body changes nothing further. */
  lemma UpdateIdempotent(s: Store, id: int, updated: Product)
    ensures var once := Update(s, id, updated);
            Update(once.store, id, updated) == once
  {
  }

  /** Adding `quantity` and then decrementing by the same amount succeeds on
      an existing product whose stock is not negative, and restores the store. */
  lemma AddThenDecrementRestores(s: Store, id: int, quantity: int)
    requires id in s && s[id].stock >= 0
    ensures var added := AddToStock(s, id, quantity);
            var back := DecrementStock(added.store, id, quantity);
            back.result && back.store == s
  {
  }

  /** A successful decrement is undone by adding the same amount back. */
  lemma DecrementThenAddRestores(s: Store, id: int, quantity: int)
    requires DecrementStock(s, id, quantity).result
    ensures var taken := DecrementStock(s, id, quantity);
            var back := AddToStock(taken.store, id, quantity);
            back.result && back.store == s
  {
  }

  /** After a delete the product can no longer be fetched, and a second
      delete of the same id reports failure. */
  lemma DeleteRemovesForGood(s: Store, id: int)
    ensures GetById(Delete(s, id).store, id).None?
    ensures !Delete(Delete(s, id).store, id).result
  {
  }

  /** The stock of an existing product can be driven negative through
      AddToStock, which has no guard on the sign of `quantity`; so
      non-negative stock is not an invariant of the service. */
  lemma AddToStockCanMakeStockNegative()
    ensures var s := map[1 := Product(1, "Laptop", 1200.0, 0)];
            AllStockNonNegative(s)
            && AddToStock(s, 1, -1).result
            && !AllStockNonNegative(AddToStock(s, 1, -1).store)
  {
  }

  /** The repository's decrement scenarios: a stock of 10 less 5 leaves 5,
      and a stock of 3 refuses a decrement of 5 and stays 3. */
  lemma DecrementStockScenarios()
    ensures var s := map[1 := Product(1, "", 0.0, 10)];
            var r := DecrementStock(s, 1, 5);
            r.result && r.store[1].stock == 5
    ensures var s := map[1 := Product(1, "", 0.0, 3)];
            var r := DecrementStock(s, 1, 5);
            !r.result && r.store[1].stock == 3
  {
  }
}
