/**
 The HTTP controller's decision logic. Each action makes at most one service
 call and maps its result to a status; the action is modelled together with
 the call it makes, so it takes the store (and, for creation, the id cache)
 and returns the status with the store as the call leaves it. An action that
 rejects a request before calling the service returns the store untouched.
 */
module ProductController {
  import opened ProductModel
  import ProductService
  import UniqueIdGenerator

  /** The text a 400 or 404 carries, when the action supplies one. */
  datatype Reason =
    | ProductDataRequired             // "Product data is required."
    | IdChangeNotAllowed              // "Updating 'Id' is not allowed."
    | InsufficientStock               // "Insufficient stock"
    | ProductNotFound(id: int)        // "Product with ID {id} not found."

  /** The value an Ok result carries. */
  datatype Body = One(product: Product) | All(products: set<Product>)

  /** The action results the controller produces. `Created` names the
      GetById route with `routeId` as its `id` value. `ServerError` is an
      exception from the store escaping the action. */
  datatype Status =
    | Ok(body: Option<Body>)
    | Created(routeId: int, product: Product)
    | BadRequest(reason: Option<Reason>)
    | NotFound(reason: Option<Reason>)
    | ServerError

  /** The HTTP status code each result is sent with. */
  function Code(st: Status): int
  {
    match st
    case Ok(_) => 200
    case Created(_, _) => 201
    case BadRequest(_) => 400
    case NotFound(_) => 404
    case ServerError => 500
  }

  /** An action's result and the store after the request. */
  datatype Response = Response(status: Status, store: Store)

  /** GET api/products: every stored product. */
  function GetAll(s: Store): (r: Response)
    ensures r.store == s
    ensures r.status.Ok? && r.status.body.Some? && r.status.body.value.All?
    ensures forall k | k in s :: s[k] in r.status.body.value.products
    ensures forall p | p in r.status.body.value.products :: exists k | k in s :: s[k] == p
  {
    Response(Ok(Some(All(ProductService.GetAll(s)))), s)
  }

  /** GET api/products/{id}: the product with a 200, or a bare 404 when the
      service finds nothing. The store is only read. */
  function GetById(s: Store, id: int): (r: Response)
    ensures r.store == s
    ensures r.status.NotFound? <==> id !in s
    ensures r.status.NotFound? ==> r.status.reason.None?
    ensures id in s ==> r.status == Ok(Some(One(s[id])))
    ensures Code(r.status) == (if id in s then 200 else 404)
  {
    var product := ProductService.GetById(s, id);
    Response(if product.Some? then Ok(Some(One(product.value))) else NotFound(None), s)
  }

  /** POST api/products: stores the product through the service and answers
      201 naming the GetById route with the created product's id. A
      nonzero id that is already taken makes the insert throw. */
  method Create(s: Store, cache: set<int>, product: Product)
    returns (r: Response, cache': set<int>)
    requires product.id == 0 ==> UniqueIdGenerator.SpaceAvailable(cache, s)
    ensures r.status.Created? || r.status.ServerError?
    ensures r.status.Created? ==>
              && r.status.routeId == r.status.product.id
              && r.status.routeId !in s
              && r.store == s[r.status.routeId := r.status.product]
              && GetById(r.store, r.status.routeId).status == Ok(Some(One(r.status.product)))
              && r.status.product.name == product.name
              && r.status.product.price == product.price
              && r.status.product.stock == product.stock
    ensures product.id != 0 ==> (r.status.Created? <==> product.id !in s)
    ensures product.id != 0 && r.status.Created? ==> r.status.routeId == product.id
    ensures product.id == 0 && Keyed(s) ==>
              r.status.Created? && UniqueIdGenerator.InRange(r.status.routeId)
    ensures r.status.ServerError? ==> r.store == s
    ensures product.id != 0 ==> cache' == cache
    ensures product.id == 0 ==>
              exists id :: UniqueIdGenerator.Claimed(cache, s, id, cache')
                           && (r.status.Created? ==> r.status.routeId == id)
  {
    var added, s';
    added, s', cache' := ProductService.Add(s, cache, product);
    if added.Added? {
      var expected := s[added.product.id := added.product];
      assert s'.Keys == expected.Keys;
      assert forall k | k in s' :: s'[k] == expected[k];
      assert s' == expected;
      r := Response(Created(added.product.id, added.product), s');
    } else {
      r := Response(ServerError, s);
    }
  }

  /** The checks made before the service is called: a missing body, or a
      body whose nonzero id differs from the path id, is a bad request. */
  function UpdateRejection(id: int, body: Option<Product>): (r: Option<Reason>)
    ensures r == Some(ProductDataRequired) <==> body.None?
    ensures r == Some(IdChangeNotAllowed) <==>
              body.Some? && body.value.id != 0 && body.value.id != id
    ensures r.None? <==> body.Some? && (body.value.id == 0 || body.value.id == id)
  {
    if body.None? then Some(ProductDataRequired)
    else if body.value.id != 0 && body.value.id != id then Some(IdChangeNotAllowed)
    else None
  }

  /** PUT api/products/{id}: 400 without calling the service when the body
      is missing or would change the id; otherwise 404 when the product is
      missing and 200 with the updated product when it is present. */
  function UpdateProduct(s: Store, id: int, body: Option<Product>): (r: Response)
    ensures UpdateRejection(id, body).Some? ==>
              r == Response(BadRequest(UpdateRejection(id, body)), s)
    ensures UpdateRejection(id, body).None? && id !in s ==>
              r == Response(NotFound(Some(ProductNotFound(id))), s)
    ensures UpdateRejection(id, body).None? && id in s ==>
              && r.status.Ok?
              && r.store.Keys == s.Keys
              && r.status == Ok(Some(One(r.store[id])))
              && r.store[id] == s[id].(name := body.value.name,
                                       price := body.value.price,
                                       stock := body.value.stock)
              && (forall k | k in s && k != id :: r.store[k] == s[k])
  {
    var rejection := UpdateRejection(id, body);
    if rejection.Some? then Response(BadRequest(rejection), s)
    else
      var updated := ProductService.Update(s, id, body.value);
      if updated.result.Some? then Response(Ok(Some(One(updated.result.value))), updated.store)
      else Response(NotFound(Some(ProductNotFound(id))), updated.store)
  }

  /** DELETE api/products/{id}: 200 when the product existed and is now
      gone, a bare 404 otherwise. */
  function Delete(s: Store, id: int): (r: Response)
    ensures r.status == Ok(None) <==> id in s
    ensures r.status != Ok(None) ==> r.status == NotFound(None)
    ensures r.store.Keys == s.Keys - {id}
    ensures forall k | k in r.store :: r.store[k] == s[k]
  {
    var deleted := ProductService.Delete(s, id);
    Response(if deleted.result then Ok(None) else NotFound(None), deleted.store)
  }

  /** PUT api/products/decrement-stock/{id}/{quantity}: 200 when the stock
      was lowered, otherwise 400 "Insufficient stock" with the store as it
      was, including when the product does not exist. */
  function DecrementStock(s: Store, id: int, quantity: int): (r: Response)
    ensures r.status == Ok(None) <==> id in s && s[id].stock >= quantity
    ensures r.status != Ok(None) ==>
              r == Response(BadRequest(Some(InsufficientStock)), s)
    ensures r.status == Ok(None) ==>
              OnlyStockChanged(s, r.store, id) && r.store[id].stock == s[id].stock - quantity
  {
    var decremented := ProductService.DecrementStock(s, id, quantity);
    Response(if decremented.result then Ok(None) else BadRequest(Some(InsufficientStock)),
             decremented.store)
  }

  /** PUT api/products/add-to-stock/{id}/{quantity}: 200 when the product
      exists and its stock was raised, a bare 400 with the store as it was
      otherwise. */
  function AddToStock(s: Store, id: int, quantity: int): (r: Response)
    ensures r.status == Ok(None) <==> id in s
    ensures r.status != Ok(None) ==> r == Response(BadRequest(None), s)
    ensures r.status == Ok(None) ==>
              OnlyStockChanged(s, r.store, id) && r.store[id].stock == s[id].stock + quantity
  {
    var added := ProductService.AddToStock(s, id, quantity);
    Response(if added.result then Ok(None) else BadRequest(None), added.store)
  }

  // ---------------------------------------------------------------------
  // The endpoint table: which code each request is answered with.
  // ---------------------------------------------------------------------

  /** PUT api/products/{id} answers 400 exactly when the pre-checks reject
      the body, 404 exactly when they pass and the product is missing, and
      200 otherwise; the store changes only on a 200. */
  lemma UpdateProductCodes(s: Store, id: int, body: Option<Product>)
    ensures var r := UpdateProduct(s, id, body);
            && (Code(r.status) == 400 <==>
                  body.None? || (body.value.id != 0 && body.value.id != id))
            && (Code(r.status) == 404 <==>
                  body.Some? && (body.value.id == 0 || body.value.id == id) && id !in s)
            && (Code(r.status) == 200 <==>
                  body.Some? && (body.value.id == 0 || body.value.id == id) && id in s)
            && (Code(r.status) != 200 ==> r.store == s)
  {
  }

  /** The stock endpoints answer 200 or 400 and nothing else; a 400 leaves
      the store as it was. */
  lemma StockEndpointCodes(s: Store, id: int, quantity: int)
    ensures Code(DecrementStock(s, id, quantity).status) in {200, 400}
    ensures Code(AddToStock(s, id, quantity).status) in {200, 400}
    ensures Code(DecrementStock(s, id, quantity).status) == 400 ==>
              DecrementStock(s, id, quantity).store == s
    ensures Code(AddToStock(s, id, quantity).status) == 400 ==>
              AddToStock(s, id, quantity).store == s
  {
  }

  /** An update that passes the pre-checks answers with exactly the record
      a following GET returns. */
  lemma UpdateThenGet(s: Store, id: int, body: Option<Product>)
    requires UpdateRejection(id, body).None? && id in s
    ensures var r := UpdateProduct(s, id, body);
            GetById(r.store, id).status == r.status
  {
  }
}
