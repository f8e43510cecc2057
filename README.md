# Create order — a verified model

This project models the "create order" use case of a small e-commerce
backend: `CreateOrderService.execute`. The caller names a customer and a
list of requested (product id, quantity) pairs. `execute` then does these
steps in order:

1. Looks up the customer.
2. Batch-looks-up the requested products.
3. Rejects the request when no product was found.
4. Rejects it when a requested id has no product, naming the first such
   entry in request order.
5. Rejects it when a found product has less stock than the first request
   entry for its id asks, naming the first such product in lookup order.
6. Builds one order line per request entry, with the price of the first
   found product with that id.
7. Stores the order.
8. Writes one batch of new stock levels, each the found stock minus the
   line's own quantity.

The files:

- `domain.dfy` (module `OrderDomain`): the values that flow through the use
  case. These are customers, requested products, product rows, order lines,
  orders, stock updates, and the four errors `execute` throws.
- `catalog.dfy` (module `Catalog`): the products table as `execute` sees it
  through its repository.
  - `FindAllById` is the batch lookup.
  - `ApplyUpdates` is the batch write `updateQuantity`.
  - `FirstIndex` is the "first row with this id" that every
    `.filter(...)[0]` in the use case picks.
- `create_order.dfy` (module `CreateOrder`): the steps of `execute` as pure
  functions over the request and the looked-up rows.
  - `ProductIds` and `InexistentProducts` are the existence check.
  - `InsufficientProducts` is the stock check.
  - `OrderLines` builds the order lines and `StockUpdates` builds the stock
    batch.
  - `Decide` is the whole use case as one value: the error thrown, or the
    order created together with the stock batch written.
- `store.dfy` (module `OrderStore`): the three repositories as one `Store`
  object, holding the customers, the products table and the orders.
  - `Store.Execute` runs the steps against the store.
  - It is proved to leave the store untouched on every error.
  - On success it is proved to append exactly the order `Decide` builds and
    to write exactly the batch `Decide` computes.
- `properties.dfy` (module `CreateOrderProperties`): what `execute`
  promises, stated against the products table itself rather than against
  the intermediate filters.
  - Each error is characterised in both directions, including the id its
    message names.
  - Also stated: when an order is created, what it holds, and what the
    stock is afterwards.
- `scenarios.dfy` (module `CreateOrderScenarios`): sample requests
  against a two-product table. They cover:
  - an order that is placed, and one request for each error;
  - a request that names a product twice;
  - the same order placed twice.

Two behaviours of the source are kept as written, not corrected:

- **Only the first entry for an id is checked.** When a request names a
  product id more than once, the stock check (line 60) compares only the
  first entry's quantity with the stock.
- **Each new stock is computed from the original stock.** Each line's new
  stock (lines 87-90) is the looked-up stock minus that line's own quantity,
  not minus what earlier lines already took. Under the model's assumption
  that `updateQuantity` writes the batch one entry after another (see
  "Left out"), the last entry for an id decides that row's stock.

`RepeatedIdOversells` shows the two together: 6 units of a product with 1
in stock pass the stock check. Under the same assumption, its stock
becomes -4.

One would expect a product's decrements to add up to the quantity ordered
for it. That holds only when no id is repeated in the request.
`StockDecrementedByOrderedQuantity` proves it under that condition, and
`StockAfterPlacement` states what happens in general.

## Model

| member | source | states |
|---|---|---|
| OrderStore.Store.Execute | src/modules/orders/services/CreateOrderService.ts:31-95 | On every error the orders and the products table are unchanged and the error is returned. On success exactly one order is appended, that same order is returned, the table becomes the old table with the stock batch written, and the customers are unchanged. All of this is stated against `Decide` on the old store. On success the new table is also related to the old one through `StockOutcome`: rows the request does not name are unchanged, and a requested row loses the quantity of the last entry naming it. |
| OrderStore.Store.FindById | src/modules/orders/services/CreateOrderService.ts:32-36 | The customer lookup finds a customer exactly when the id is in the customers table, and the customer found has that id. |
| OrderStore.Store.Create | src/modules/orders/services/CreateOrderService.ts:78-81 | `ordersRepository.create` appends one order for the customer with the given lines and returns it; the customers and products are unchanged. |
| OrderStore.Store.UpdateQuantity | src/modules/orders/services/CreateOrderService.ts:83-92 | Writing the batch one entry at a time leaves the table equal to `ApplyUpdates` of the old table. Row ids stay distinct, and the customers and orders are unchanged. |
| OrderStore.Store.constructor | src/modules/orders/services/CreateOrderService.ts:22-29 | A store starts with the given customers and products and no orders. |
| CreateOrder.Decide | src/modules/orders/services/CreateOrderService.ts:31-95 | The use case fails with "customer not found" exactly when the customer lookup found nothing. A created order belongs to the looked-up customer and has one line per request entry. |
| Catalog.FindAllById | src/modules/orders/services/CreateOrderService.ts:38-40 | Every row the lookup returns has an id the request names. For every requested id, the lookup has a row with it exactly when the table has one. |
| Catalog.LookupReturnsTableRows | src/modules/orders/services/CreateOrderService.ts:38-40 | The lookup returns table rows unchanged: a row is returned exactly when the table holds it and the request names its id. |
| Catalog.FirstIndex | src/modules/orders/services/CreateOrderService.ts:73-75 | The index that `.filter(row => row.id === id)[0]` picks: a row with the id, and no earlier row has it. |
| CreateOrder.FirstRequestIndex | src/modules/orders/services/CreateOrderService.ts:60 | The request entry that `products.filter(p => p.id === id)[0]` picks: an entry with the id, and no earlier entry has it. |
| CreateOrder.ProductIds | src/modules/orders/services/CreateOrderService.ts:46 | An id is in the mapped id list exactly when some looked-up row has it. |
| CreateOrder.InexistentProducts | src/modules/orders/services/CreateOrderService.ts:48-54 | An entry is kept exactly when it is in the request and its id is not among the ids. When the result is non-empty, its first element is the first such entry in request order. |
| CreateOrder.Short | src/modules/orders/services/CreateOrderService.ts:59-61 | The per-row stock test; its contract is `ShortFirstEntry`. |
| CreateOrder.ShortFirstEntry | src/modules/orders/services/CreateOrderService.ts:59-61 | A row fails the stock test exactly when the first request entry naming its id asks for more than the row's stock; later entries for that id are not looked at. |
| CreateOrder.InsufficientProducts | src/modules/orders/services/CreateOrderService.ts:58-66 | The result is non-empty exactly when some looked-up row has less stock than the first request entry for its id asks. Its first element is the first such row in lookup order. |
| CreateOrder.OrderLines | src/modules/orders/services/CreateOrderService.ts:70-76 | One line per request entry, in request order. Line i has entry i's id and quantity and the price of the first looked-up row with that id. |
| CreateOrder.StockUpdates | src/modules/orders/services/CreateOrderService.ts:83-91 | One stock update per order line, in line order. Update i has line i's id, and its new stock is the first looked-up row's stock minus line i's quantity. |
| Catalog.LastUpdate | src/modules/orders/services/CreateOrderService.ts:83-92 | Finds no update exactly when no update names the id. Otherwise it gives the quantity of the last update that names it. |
| Catalog.ApplyUpdates | src/modules/orders/services/CreateOrderService.ts:83-92 | The batch write `updateQuantity` keeps the table's length and every row's id and price; the stock each row ends with is stated by `ApplyUpdatesAt`. |
| Catalog.ApplyUpdatesAt | src/modules/orders/services/CreateOrderService.ts:83-92 | After a batch write the table has the same length. Each row keeps its id and price and takes the stock of the last update for its id, or keeps its stock when no update names it. |
| CreateOrderProperties.NoProductsFoundIff | src/modules/orders/services/CreateOrderService.ts:38-44 | "Could not find any products" is thrown exactly when the customer exists and no request entry names a product of the table, an empty request included. |
| CreateOrderProperties.ProductNotFoundIff | src/modules/orders/services/CreateOrderService.ts:46-56 | "Could not find the product X" is thrown exactly when the customer exists, some entry names a product of the table, and X is the id of the first entry in request order whose product the table lacks. |
| CreateOrderProperties.InsufficientStockIff | src/modules/orders/services/CreateOrderService.ts:58-68 | "Ordered quantity of X is not available" is thrown exactly when the customer exists, the request is non-empty, and every entry names a product of the table. X must also be the first requested table row whose stock is below the quantity of the first request entry for its id. |
| CreateOrderProperties.SuccessIff | src/modules/orders/services/CreateOrderService.ts:31-68 | An order is created exactly when the customer exists, the request is non-empty, every entry names a product of the table, and no requested row fails the stock check. |
| CreateOrderProperties.PlacementContents | src/modules/orders/services/CreateOrderService.ts:70-92 | A created order belongs to the looked-up customer. Its lines are, per request entry and in request order, the entry's id and quantity and the price of the first table row with that id. The stock batch is, per entry, that row's stock minus the entry's quantity. |
| CreateOrderProperties.LookupKeepsFirstMatch | src/modules/orders/services/CreateOrderService.ts:38-40 | For a requested id, the first looked-up row with it is the first table row with it, so every "first match" in the use case sees the table's first row. |
| CreateOrderProperties.StockCheckFailsInTable | src/modules/orders/services/CreateOrderService.ts:58-62 | The stock check over the looked-up rows fails exactly when some requested table row fails it. |
| CreateOrderProperties.StockCheckReportsFirstInTable | src/modules/orders/services/CreateOrderService.ts:58-66 | When the stock check fails, the row it reports first is the first requested table row, in table order, that fails it. |
| CreateOrderProperties.LookupInTableTerms | src/modules/orders/services/CreateOrderService.ts:38-52 | The lookup is empty exactly when no entry names a product of the table. An entry's id is among the looked-up ids exactly when the table has it. No entry is missing exactly when every entry names a product of the table. |
| CreateOrderProperties.StockAfterPlacement | src/modules/orders/services/CreateOrderService.ts:83-92 | After a created order's batch, `StockOutcome` holds between the old and the new table: every row keeps its id and price, and rows the request does not name are unchanged. A requested row's stock is its old stock minus the quantity of the last request entry naming it. |
| CreateOrderProperties.LastWriteIsLastEntry | src/modules/orders/services/CreateOrderService.ts:84-91 | In a batch with one write per request entry, an id is written exactly when the request names it. The write that stays is the one from the last entry naming it. |
| CreateOrderProperties.StockUpdatesNonNegative | src/modules/orders/services/CreateOrderService.ts:58-62 | When no id is requested twice, every new stock in the batch of a created order is at least zero. |
| CreateOrderProperties.StockDecrementedByOrderedQuantity | src/modules/orders/services/CreateOrderService.ts:86-90 | When no id is requested twice and table ids are distinct, each requested row loses exactly the quantity ordered for it and stays non-negative. A table with non-negative stocks keeps them non-negative. |
| CreateOrderProperties.FirstShortUnique | src/modules/orders/services/CreateOrderService.ts:66 | The product the stock error names is unique: there is only one first failing row. |
| CreateOrderScenarios.ScenarioOrderPlaced | src/modules/orders/services/CreateOrderService.ts:70-92 | Ordering 2 of P1 (10.00, 5 in stock) and 1 of P2 (20.00, 1 in stock) creates both lines at table prices and leaves P1 at 3 and P2 at 0. |
| CreateOrderScenarios.ScenarioInsufficientStock | src/modules/orders/services/CreateOrderService.ts:58-68 | Ordering 2 of P2, which has 1 in stock, fails naming P2. |
| CreateOrderScenarios.ScenarioNoProducts | src/modules/orders/services/CreateOrderService.ts:42-44 | Ordering only an unknown product fails with "could not find any products". |
| CreateOrderScenarios.ScenarioUnknownProduct | src/modules/orders/services/CreateOrderService.ts:46-56 | Ordering a known and an unknown product fails naming the unknown one. |
| CreateOrderScenarios.RepeatedIdBatch | src/modules/orders/services/CreateOrderService.ts:58-62 | Naming P2 (1 in stock) twice, for 1 and then 5 units, passes the stock check, and the batch holds two writes for P2: 0 and then -4. |
| CreateOrderScenarios.RepeatedIdOversells | src/modules/orders/services/CreateOrderService.ts:58-62 | The same request leaves P2 at -4 under the model's assumption that `updateQuantity` writes its batch in order, and P1 unchanged. |
| CreateOrderScenarios.OrderTwoOfP1 | src/modules/orders/services/CreateOrderService.ts:70-92 | Ordering 2 of P1 while it has at least 2 in stock creates one line at 10.00 and lowers P1's stock by 2, leaving P2 untouched. |
| CreateOrderScenarios.RepeatedOrderTakesStockTwice | src/modules/orders/services/CreateOrderService.ts:78-92 | Placing the same order twice is not idempotent. Both calls create equal orders and P1's stock goes from 5 to 3 to 1. |

## Left out

- **Schema migration.** The migration that adds the orders' customer
  column is database schema plumbing with no behaviour of its own.
- **Dependency injection and `async`/`await`.** The injection decorators
  and the asynchronous calls are not modelled. The repositories are one
  `Store` object and the calls are sequential steps.
- **Product repository internals.** Its implementation is not part of
  this model. The model assumes two things about it:
  - `findAllById` returns the table rows whose id is requested, in table
    order, and leaves out ids that have no row without an error.
  - `updateQuantity` writes its batch one entry after another, so for a
    repeated id the last write stays.
- **Generated ids and timestamps.** Those of a created order are not
  modelled. `create` appends the order value and returns it, so two
  equal orders are two records in the orders list.
- **Error message text.** The `AppError` messages are not modelled. Each
  error is a datatype variant that carries the id its message names.
- **Concurrency.** Concurrent orders, the overselling race between them,
  and the missing transaction around `create` and `updateQuantity` are out
  of scope for a sequential model. A failure of `updateQuantity` after
  `create` is not modelled either.
- **Prices and quantities as JavaScript numbers.** Prices are integers
  (cents): the code only copies them. Quantities are unbounded integers:
  the code only compares and subtracts them. Fractional, `NaN` and very
  large numbers are not modelled.
- CreateOrder.InsufficientProducts: requires that every looked-up row is
  named by the request. Without it, `products.filter(...)[0]` on line 60
  would be undefined and the property access would throw. Under the
  lookup's contract that case cannot arise, and `Decide` proves the
  requirement before calling it.
- **Customer fields.** Customer rows carry only their id. The use case
  reads nothing else from them.
