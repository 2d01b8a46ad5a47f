# ProductAPI core, modelled in Dafny

ProductAPI is a small product-catalogue web service. A product has an `Id`,
a `Name`, a `Price` and a `Stock`. This project models three parts of it as
pure functions and short methods over an abstract product store, and proves
properties about them:

- the **product service** (`ProductService`): get, list, add, update,
  delete, decrement stock and add to stock. Each operation writes at most
  one store entry and returns its result with the new store.
- the **unique-id generator** (`UniqueIdGenerator`): draws 6-digit ids
  until one is neither in the claimed-id cache nor the `Id` of a stored
  product, then adds it to the cache.
- the **controller decision logic** (`ProductController`): maps each
  request and its service result to a status (200, 201, 400, 404). Each
  action is modelled together with the one service call it makes, so "the
  service is not called" shows up as "the store is returned unchanged".

`ProductModel` holds the `Product` record and the store, a
`map<int, Product>` keyed by product id. `Keyed(s)` says that every entry is
stored under its own id, which is what the table's primary key guarantees.
`ServiceTraces` replays sequences of service calls. It proves that ids never
change, that no call other than add creates a row, and that stocks stay
non-negative under calls that cannot bring in a negative amount.

Modelling choices:

- `Price` is a C# `decimal` that the core only copies. It is modelled as a
  `real`.
- `Id`, `Stock` and `quantity` are unbounded integers.
- The random draw `Random.Next(100000, 999999)` has an exclusive upper
  bound, so ids lie in 100000..999998. `GenerateUniqueId` models the draw as
  a nondeterministic choice among the ids the retry loop would accept.
  `GenerateFromDraws` runs the retry loop itself over an explicit stream of
  draws. Both require that the loop can finish, because the source loop
  never ends once the id space is used up.
- The repository's `AddAsync` is known only from its tests: an `Id` of 0
  gets a generated id and a nonzero `Id` is kept. The test at
  ProductAPITests/ProductRepositoryTests.cs:94 expects a generated id
  strictly above 100000. The code can return 100000 itself, and the model
  follows the code.
- A nonzero `Id` that is already present is refused by the table's unique
  key (ProductAPI/Data/ProductDbContext.cs:16-18). `ProductService.Add`
  returns `DuplicateId` and leaves the store as it was. The controller does
  not catch that exception, so `ProductController.Create` answers with
  `ServerError` (500).
- `AddToStockAsync` has no guard on the sign of `quantity`. The model does
  not claim that stock stays non-negative under it.
  `ProductService.AddToStockCanMakeStockNegative` shows a store where it
  goes negative.

## Model

| member | source | states |
|---|---|---|
| `ProductModel.KeyedIdsAreKeys` | ProductAPI/Data/ProductDbContext.cs:16-18 | in a store whose entries sit under their own ids, "some product has this `Id`" is the same as "this key is present" |
| `ProductService.GetAll` | ProductAPI/Services/ProductService.cs:13 | the listing holds every stored product and nothing else |
| `ProductService.GetById` | ProductAPI/Services/ProductService.cs:15 | a product is returned exactly when the id is present, and it is the stored one |
| `ProductService.Add` | ProductAPITests/ProductRepositoryTests.cs:83-114 | an `Id` of 0 gets a freshly claimed id and always succeeds on a keyed store; a nonzero `Id` is kept, leaves the cache alone, and is refused exactly when already present; name, price and stock are copied; a success adds only the new entry, which a lookup then returns and whose deletion restores the previous store; a refusal changes nothing; the store stays keyed |
| `ProductService.Update` | ProductAPI/Services/ProductService.cs:19-30 | an absent id yields null and an unchanged store; a present id gets name, price and stock from the body and keeps its stored id; no other entry changes |
| `ProductService.Delete` | ProductAPI/Services/ProductService.cs:32 | true exactly when the id was present; the entry is removed and every other entry is unchanged |
| `ProductService.DecrementStock` | ProductAPI/Services/ProductService.cs:34-41 | succeeds exactly when the product exists and its stock is at least `quantity`; a failure changes nothing; a success lowers only that entry's stock by `quantity` and leaves it non-negative |
| `ProductService.AddToStock` | ProductAPI/Services/ProductService.cs:43-50 | fails exactly when the product is absent, changing nothing; otherwise raises only that entry's stock by `quantity` |
| `ProductService.OperationsPreserveKeyed` | ProductAPI/Services/ProductService.cs:19-50 | update, delete and both stock operations keep every entry stored under its own id |
| `ProductService.GetAllMatchesGetById` | ProductAPI/Services/ProductService.cs:13-15 | in a keyed store, every listed product is what a lookup of its id returns, and every found product is listed |
| `ProductService.GetAllCount` | ProductAPI/Services/ProductService.cs:13 | in a keyed store the listing has exactly one product per stored row |
| `ProductService.UpdateIgnoresBodyId` | ProductAPI/Services/ProductService.cs:24-27 | the `Id` in an update's body never affects the result or the store |
| `ProductService.UpdateIdempotent` | ProductAPI/Services/ProductService.cs:19-30 | repeating an update with the same body changes nothing further |
| `ProductService.AddThenDecrementRestores` | ProductAPI/Services/ProductService.cs:34-50 | adding `quantity` to a non-negative stock and then decrementing by it succeeds and restores the store |
| `ProductService.DecrementThenAddRestores` | ProductAPI/Services/ProductService.cs:34-50 | a successful decrement is undone by adding the same amount back |
| `ProductService.DeleteRemovesForGood` | ProductAPI/Services/ProductService.cs:32 | after a delete the id is not found, and a second delete reports false |
| `ProductService.AddToStockCanMakeStockNegative` | ProductAPI/Services/ProductService.cs:43-49 | a negative `quantity` can drive a stock from 0 to -1, so non-negative stock is not an invariant of the service |
| `ProductService.DecrementStockScenarios` | ProductAPITests/ProductServiceTests.cs:143-170 | a stock of 10 decremented by 5 succeeds and leaves 5; a stock of 3 refuses a decrement of 5 and stays 3 |
| `UniqueIdGenerator.GenerateUniqueId` | ProductAPI/Utilities/UniqueIdGenerator.cs:17-33 | the id lies in 100000..999998, was not cached on entry, is no stored product's id, and is the only addition to the cache; the store is only read |
| `UniqueIdGenerator.GenerateFromDraws` | ProductAPI/Utilities/UniqueIdGenerator.cs:21-31 | the retry loop returns the first draw that is neither cached nor stored, rejects every earlier draw, and caches only the winner |
| `UniqueIdGenerator.GenerateTwice` | ProductAPI/Utilities/UniqueIdGenerator.cs:26-31 | two successive calls with no expiry in between return distinct ids, both new to the original cache |
| `UniqueIdGenerator.LoopPreconditionGivesSpace` | ProductAPI/Utilities/UniqueIdGenerator.cs:22-26 | whenever the retry loop can finish on some stream of draws, a free id in range exists |
| `UniqueIdGenerator.SpaceAvailableWhenNotFull` | ProductAPI/Utilities/UniqueIdGenerator.cs:22-26 | with fewer than 899,999 cached and stored ids together, a free id exists, so the loop can finish |
| `ServiceTraces.ApplyAllKeepsRowsAndIds` | ProductAPI/Services/ProductService.cs:19-50 | no sequence of update, delete and stock calls creates a row or changes a surviving row's id |
| `ServiceTraces.ApplyAllPreservesKeyed` | ProductAPI/Services/ProductService.cs:19-50 | any sequence of those calls keeps every entry under its own id |
| `ServiceTraces.ApplyAllPreservesNonNegativeStock` | ProductAPI/Services/ProductService.cs:34-50 | non-negative stocks stay so under deletes, decrements, updates with a non-negative stock and additions of a non-negative amount |
| `ProductController.GetAll` | ProductAPI/Controllers/ProductController.cs:16 | 200 whose body holds every stored product and nothing else; the store is only read |
| `ProductController.GetById` | ProductAPI/Controllers/ProductController.cs:19-23 | 404 with no message exactly when the id is absent, otherwise 200 with the stored product; the store is only read |
| `ProductController.Create` | ProductAPI/Controllers/ProductController.cs:26-30 | a 201 names the created product's id as its route id; that id was free, and a GET of it returns the product; a nonzero body id is kept, leaves the id cache unchanged, and fails only when taken; an `Id` of 0 claims one id in the cache, which is the route id, and always succeeds on a keyed store |
| `ProductController.UpdateRejection` | ProductAPI/Controllers/ProductController.cs:35-39 | a missing body is rejected as "data required"; a body whose nonzero id differs from the path id is rejected as "id change"; nothing else is rejected |
| `ProductController.UpdateProduct` | ProductAPI/Controllers/ProductController.cs:33-44 | a rejected request gets 400 with the store untouched; otherwise 404 naming the id when absent, or 200 with the updated record, whose id is the stored one and whose other fields come from the body |
| `ProductController.Delete` | ProductAPI/Controllers/ProductController.cs:47 | 200 exactly when the product existed, otherwise a bare 404; the entry is removed and nothing else changes |
| `ProductController.DecrementStock` | ProductAPI/Controllers/ProductController.cs:49-51 | 200 exactly when the product exists with enough stock, with only its stock lowered; otherwise 400 "Insufficient stock" with the store unchanged |
| `ProductController.AddToStock` | ProductAPI/Controllers/ProductController.cs:53-55 | 200 exactly when the product exists, with only its stock raised; otherwise a bare 400 with the store unchanged |
| `ProductController.UpdateProductCodes` | ProductAPI/Controllers/ProductController.cs:33-44 | the update endpoint answers 400, 404 or 200 exactly under the body, id and presence conditions of its table row, and changes the store only on 200 |
| `ProductController.StockEndpointCodes` | ProductAPI/Controllers/ProductController.cs:49-55 | the stock endpoints answer only 200 or 400, and a 400 leaves the store unchanged |
| `ProductController.UpdateThenGet` | ProductAPI/Controllers/ProductController.cs:19-44 | after an accepted update of a present product, a GET of the id returns the same result the update did |

## Left out

- `async`/`Task`, dependency injection, ASP.NET routing and model binding. The controller is modelled only through its decisions. The automatic 400 that model binding gives a `Create` request without a body is not modelled.
- The `lock` in the generator, and the race between the read and the write of the stock operations. Calls are modelled as sequential.
- The ten-minute expiry of cache entries. The cache is a set that only grows. How uniform `Random` is falls outside a model that treats the draw as a choice.
- `GenerateUniqueId`, `GenerateFromDraws`: both require that a free id in range exists (or appears in the stream of draws). The source loop does not terminate otherwise.
- Int32 overflow of `Stock ± quantity` and of ids. All integers are unbounded.
- `decimal` precision and the two-digit rounding of `Price` in the table. `Price` is an exactly copied `real`.
- The repository implementation is not part of this model. The store is an abstract map, and the repository's `UpdateAsync` writes the record back under its key.
- The EF Core configuration in ProductAPI/Data/ProductDbContext.cs. Its unique key on `Id` is captured by the map's keys and by the `DuplicateId` refusal.
