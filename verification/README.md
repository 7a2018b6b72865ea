# Product store of the inventory service, in Dafny

This project models `ProductService`, the product store of a small inventory
service. The store maps integer product ids to products. Each product has a
name, a stock flag (`available`), an optional supplier id and a display-only
supplier name. The store offers six operations: list all products, list the
available ones, get by id, create, update and delete. Every product handed to
a caller first goes through *enrichment*. When the product has a supplier id,
enrichment asks the supplier directory for the supplier's name. On success it
sets `supplierName` to that name. On any failure it sets `supplierName` to the
sentinel `"Unknown Supplier"`.

Files:

- `products.dfy` (module `Products`): the `Product` datatype, its
  authoritative `Fields`, `Option`/`Result`, the `Directory` abstraction and
  the sentinel.
- `product_service.dfy` (module `ProductService`): the store, enrichment and
  the six operations.
- `store_properties.dfy` (module `StoreProperties`): lemmas that relate
  several calls, plus the scenarios on the seed data.
- `store_history.dfy` (module `StoreHistory`): operations as atomic
  transitions, and invariants over every history of calls.

Modelling choices:

- **Write-back enrichment.** The Java code enriches the stored objects in
  place, so a read also rewrites the stored supplier name. The model uses
  value semantics. Every operation returns the store after the call together
  with the caller's result (`Step`). An enriched product is written back under
  its key exactly when the Java code mutates the stored object. So `getAll`
  writes back every product, and `getAvailableStockProducts` writes back only
  the available ones. `create` writes back only when it inserts. The code
  does not recompute the supplier name on every read. It keeps the last
  enrichment, which matters when an update clears the supplier id: the old
  name stays.
- **Directory.** The supplier service is a total function
  `int -> Option<string>` passed to each call. `None` stands for every
  failure that enrichment catches, which is any `RuntimeException` from the
  lookup. That covers "no such supplier", and also a null supplier, whose
  `getName()` throws a `NullPointerException`.
- **Iteration order.** The map's iteration order is unspecified. The listing
  methods therefore take it as a parameter, `order`, which lists each key
  exactly once (`Enumerates`). `EveryStoreIsEnumerable` shows that such an
  order exists for every store. `getAll` returns the products in that order.
  `getAvailableStockProducts` keeps their relative order (`Before`).
- **Atomicity.** `computeIfAbsent`, `compute` and `remove` each act on one
  key atomically. The model makes a further choice: each whole operation,
  including its enrichment, is one state transition, and a history is a
  sequence of them (`StoreHistory.Run`). That is stronger than the Java code
  guarantees, because enrichment in `getAll`, `getAvailableStockProducts`,
  `getById` and `create` mutates stored objects outside the per-key lock.
  Only `compute` (update) writes the authoritative fields, so the history
  lemmas about those fields do not depend on this choice. When `compute`
  throws, the mapping is left unchanged. The model represents this as
  `Err(ProductNotFound)` with the store unchanged.
- **Create on a taken id.** The model reproduces the code. The store keeps
  the old product, and the caller still receives the enriched *input*.

## Model

| member | source | states |
|---|---|---|
| ProductService.Seed | src/main/java/uk/co/prodapt/inventory/service/ProductService.java:24-28 | the initial store holds products 1, 2 and 3 under their own ids, with supplier ids 1, 2, 3 and no supplier name; exactly 1 and 3 are available |
| ProductService.Enrich | src/main/java/uk/co/prodapt/inventory/service/ProductService.java:76-85 | enrichment changes only the supplier name; it becomes the directory's answer when the lookup succeeds and "Unknown Supplier" when it fails; without a supplier id the name is left as it was; it never fails |
| ProductService.EveryStoreIsEnumerable | src/main/java/uk/co/prodapt/inventory/service/ProductService.java:31-38 | every store has an iteration order listing each id exactly once, so the precondition of both listing operations can always be met |
| ProductService.EnrichKeys | src/main/java/uk/co/prodapt/inventory/service/ProductService.java:69-74 | enriching stored products in place keeps the set of ids and every authoritative field |
| ProductService.EnrichEach | src/main/java/uk/co/prodapt/inventory/service/ProductService.java:69-74 | the list overload returns one enriched product per listed id, in list order, writes each back under its id, and on a well-keyed store returns no duplicates |
| ProductService.AvailableInOrder | src/main/java/uk/co/prodapt/inventory/service/ProductService.java:37-40 | the stock filter keeps exactly the listed ids whose product is available, keeps them distinct, and keeps their relative order |
| ProductService.GetAll | src/main/java/uk/co/prodapt/inventory/service/ProductService.java:30-34 | the list holds exactly the stored products after write-back, one per id, in iteration order; authoritative fields are unchanged; on a well-keyed store there are no duplicates, so `.distinct()` removes nothing |
| ProductService.GetAvailableStockProducts | src/main/java/uk/co/prodapt/inventory/service/ProductService.java:36-41 | a product is listed iff it is in what getAll returns from the same store and is available; one entry per available id, in iteration order; only available products are written back |
| ProductService.GetById | src/main/java/uk/co/prodapt/inventory/service/ProductService.java:43-46 | the result is present iff the id is stored, and is then the enriched stored product, which is written back; no other key changes and no authoritative field changes |
| ProductService.Create | src/main/java/uk/co/prodapt/inventory/service/ProductService.java:48-51 | the caller always receives the enriched input; a taken id leaves the store unchanged; a fresh id adds exactly that product under it and changes no other key |
| ProductService.Update | src/main/java/uk/co/prodapt/inventory/service/ProductService.java:53-63 | fails with ProductNotFound iff the id is absent, then with the store unchanged; otherwise name, stock flag and supplier id come from the argument, the stored id is kept, and the supplier name is re-resolved or, with no supplier id, kept; the result is stored and no other key changes |
| ProductService.Delete | src/main/java/uk/co/prodapt/inventory/service/ProductService.java:65-67 | the id is absent afterwards; no other key changes; deleting an absent id changes nothing |
| StoreProperties.EnrichIdempotent | src/main/java/uk/co/prodapt/inventory/service/ProductService.java:76-85 | enriching twice against the same directory gives the same result as enriching once |
| StoreProperties.EnrichForgetsStaleName | src/main/java/uk/co/prodapt/inventory/service/ProductService.java:77-83 | with a supplier id, the supplier name already present has no effect on the result |
| StoreProperties.CreateThenGet | src/main/java/uk/co/prodapt/inventory/service/ProductService.java:43-50 | after a create under a fresh id, a get finds a product with the created id, name, stock flag and supplier id |
| StoreProperties.CreateOnTakenIdKeepsStored | src/main/java/uk/co/prodapt/inventory/service/ProductService.java:43-50 | after a create under a taken id, a get still returns the original product, enriched |
| StoreProperties.CreateCollisionDiverges | src/main/java/uk/co/prodapt/inventory/service/ProductService.java:48-50 | on the seed data, creating id 1 under another name returns that name while a later get still says "Product A" |
| StoreProperties.CreateDeleteRoundTrip | src/main/java/uk/co/prodapt/inventory/service/ProductService.java:48-50 | creating under a fresh id and then deleting that id gives back exactly the original store |
| StoreProperties.UpdateThenGet | src/main/java/uk/co/prodapt/inventory/service/ProductService.java:53-61 | after a successful update, a get reports the argument's name, stock flag and supplier id under the old id |
| StoreProperties.UpdateWithoutSupplierKeepsName | src/main/java/uk/co/prodapt/inventory/service/ProductService.java:58-61 | an update that clears the supplier id keeps the earlier supplier name, and later gets report it too |
| StoreProperties.UpdatesDoNotMix | src/main/java/uk/co/prodapt/inventory/service/ProductService.java:53-62 | after two updates of one id, the authoritative fields are exactly what the second update would give alone, never a mix of the two |
| StoreProperties.UpdateAbsentThenGet | src/main/java/uk/co/prodapt/inventory/service/ProductService.java:54-57 | an update of an absent id fails with ProductNotFound, and a later get still finds nothing |
| StoreProperties.DeleteIdempotent | src/main/java/uk/co/prodapt/inventory/service/ProductService.java:65-67 | deleting twice gives the same store as deleting once |
| StoreProperties.DeleteThenGet | src/main/java/uk/co/prodapt/inventory/service/ProductService.java:43-46 | after a delete, a get returns nothing and leaves the store unchanged |
| StoreProperties.SeedLookupResolved | src/main/java/uk/co/prodapt/inventory/service/ProductService.java:25 | with supplier 1 resolving to "Acme", getting product 1 yields Product A, available, supplier 1, named "Acme" |
| StoreProperties.SeedLookupUnresolved | src/main/java/uk/co/prodapt/inventory/service/ProductService.java:26 | with supplier 2 unresolved, getting product 2 yields supplier name "Unknown Supplier" |
| StoreProperties.UpdateOnEmptyStore | src/main/java/uk/co/prodapt/inventory/service/ProductService.java:54-57 | updating id 99 of an empty store fails with ProductNotFound, and the store stays empty |
| StoreHistory.Apply | src/main/java/uk/co/prodapt/inventory/service/ProductService.java:30-67 | as one atomic transition, a read leaves every authoritative field unchanged; create can only add its product's id, delete removes its id, and the other calls keep the ids |
| StoreHistory.ApplyPreservesWellKeyed | src/main/java/uk/co/prodapt/inventory/service/ProductService.java:48-62 | no call stores a product under an id other than its own |
| StoreHistory.RunPreservesWellKeyed | src/main/java/uk/co/prodapt/inventory/service/ProductService.java:30-67 | every history of calls keeps each stored product under its own id |
| StoreHistory.ApplyCoreCongruent | src/main/java/uk/co/prodapt/inventory/service/ProductService.java:30-85 | after one call, the authoritative fields depend only on the authoritative fields before it, never on the directory |
| StoreHistory.RunCoreIndependentOfDirectory | src/main/java/uk/co/prodapt/inventory/service/ProductService.java:30-85 | whatever the directory answers, a history produces the same authoritative fields |
| StoreHistory.ReadsDoNotChangeCore | src/main/java/uk/co/prodapt/inventory/service/ProductService.java:30-46 | a history ends with the same authoritative fields as the history with its reads removed |

## Left out

- Spring wiring (`@Service`, `@Autowired`) and `SupplierService`. `SupplierService` is not part of this model; the directory is a parameter of each call.
- Concurrency. Interleavings, thread safety and `ConcurrentHashMap` internals are not modelled. Each operation is one atomic transition.
- Java object aliasing. Callers in Java hold live references to stored objects. The model uses values with write-back instead.
- Null ids and a null update argument, each a `NullPointerException` in the Java code. Ids are `int`.
- Null product names, and a supplier whose name is null. Names are `string`.
- A directory failure that is not a `RuntimeException`: the catch in `enrichWithSupplierInfo` (ProductService.java:81) does not handle it, so it would propagate. The model's directory never fails that way.
- Enrichment racing with a concurrent update of the same product. In the Java code a reader can write a supplier name resolved for the old supplier id after an update has committed a new one. The model treats each operation as one transition and does not model these interleavings.
- `Product.equals` and `Product`'s own class are not part of this model. `.distinct()` is modelled only through the fact that a well-keyed store yields no duplicate products.
- The exception's type and message text. The model has only the `ProductNotFound` variant.
- The directory is a fixed function during one call. A supplier service whose answers change while `getAll` enriches the list is not modelled.
