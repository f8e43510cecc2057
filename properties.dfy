/**
 * What `execute` promises, stated against the products table itself rather
 * than against the intermediate filters: which error comes first, what a
 * created order holds, and what the stock is afterwards.
 */
module CreateOrderProperties {
  import opened OrderDomain
  import opened Catalog
  import opened CreateOrder

  /** Request entry `k` is the first whose id has no row in the table. */
  ghost predicate FirstUnlisted(request: seq<RequestedProduct>, catalog: seq<Product>, k: int) {
    && 0 <= k < |request|
    && !Listed(catalog, request[k].id)
    && forall j :: 0 <= j < k ==> Listed(catalog, request[j].id)
  }

  /** Every request entry names a product the table has. */
  ghost predicate AllListed(request: seq<RequestedProduct>, catalog: seq<Product>) {
    forall i :: 0 <= i < |request| ==> Listed(catalog, request[i].id)
  }

  /** No requested row has less stock than the first entry for its id asks. */
  ghost predicate StockCheckPasses(request: seq<RequestedProduct>, catalog: seq<Product>) {
    forall k :: 0 <= k < |catalog| && Requested(request, catalog[k].id) ==> !Short(request, catalog[k])
  }

  /** Request entry `i` is the last one naming `id`. */
  ghost predicate LastEntry(request: seq<RequestedProduct>, id: ProductId, i: int) {
    && 0 <= i < |request|
    && request[i].id == id
    && forall j :: i < j < |request| ==> request[j].id != id
  }

  /** No product id appears twice in the request. */
  ghost predicate DistinctRequestIds(request: seq<RequestedProduct>) {
    forall i, j :: 0 <= i < |request| && 0 <= j < |request| && request[i].id == request[j].id ==> i == j
  }

  /** The two checks on the looked-up rows, restated on the table. */
  lemma LookupInTableTerms(request: seq<RequestedProduct>, catalog: seq<Product>)
    ensures var rows := FindAllById(catalog, request);
      && (rows == [] <==> forall i :: 0 <= i < |request| ==> !Listed(catalog, request[i].id))
      && (forall i :: 0 <= i < |request| ==> (request[i].id in ProductIds(rows) <==> Listed(catalog, request[i].id)))
      && (InexistentProducts(request, ProductIds(rows)) == [] <==> AllListed(request, catalog))
  {
    var rows := FindAllById(catalog, request);
    forall i | 0 <= i < |request|
      ensures request[i].id in ProductIds(rows) <==> Listed(catalog, request[i].id)
    {
      assert Requested(request, request[i].id);
    }
    if rows != [] {
      assert Listed(rows, rows[0].id);
      var i :| 0 <= i < |request| && request[i].id == rows[0].id;
      assert Listed(catalog, request[i].id);
    }
    var missing := InexistentProducts(request, ProductIds(rows));
    if !AllListed(request, catalog) {
      var i :| 0 <= i < |request| && !Listed(catalog, request[i].id);
      assert request[i] in missing;
    }
  }

  /** For a requested id, the first looked-up row with it is the first table row with it. */
  lemma {:induction false} LookupKeepsFirstMatch(catalog: seq<Product>, request: seq<RequestedProduct>, id: ProductId)
    requires Requested(request, id) && Listed(catalog, id)
    ensures Listed(FindAllById(catalog, request), id)
    ensures var rows := FindAllById(catalog, request);
      rows[FirstIndex(rows, id)] == catalog[FirstIndex(catalog, id)]
  {
    if catalog[0].id == id {
      assert FindAllById(catalog, request) == [catalog[0]] + FindAllById(catalog[1..], request);
    } else {
      assert Listed(catalog[1..], id) by { ListedSplit(catalog); }
      LookupKeepsFirstMatch(catalog[1..], request, id);
      LookupSkipsOtherRow(catalog, request, id);
      assert FirstIndex(catalog, id) == 1 + FirstIndex(catalog[1..], id);
    }
  }

  /** A first table row with another id does not change which looked-up row comes first for `id`. */
  lemma LookupSkipsOtherRow(catalog: seq<Product>, request: seq<RequestedProduct>, id: ProductId)
    requires catalog != [] && catalog[0].id != id
    requires Listed(FindAllById(catalog[1..], request), id)
    ensures Listed(FindAllById(catalog, request), id)
    ensures var rows := FindAllById(catalog, request);
      var rest := FindAllById(catalog[1..], request);
      rows[FirstIndex(rows, id)] == rest[FirstIndex(rest, id)]
  {
    var rest := FindAllById(catalog[1..], request);
    var rows := FindAllById(catalog, request);
    if Requested(request, catalog[0].id) {
      assert rows == [catalog[0]] + rest;
      assert rows[1..] == rest;
      assert rows[1 + FirstIndex(rest, id)].id == id;
      assert FirstIndex(rows, id) == 1 + FirstIndex(rest, id);
    } else {
      assert rows == rest;
    }
  }

  /** Some requested row of `products` fails the stock check. */
  ghost predicate SomeShort(request: seq<RequestedProduct>, products: seq<Product>) {
    exists k :: 0 <= k < |products| && Requested(request, products[k].id) && Short(request, products[k])
  }

  lemma SomeShortSplit(request: seq<RequestedProduct>, products: seq<Product>)
    requires products != []
    ensures SomeShort(request, products) <==>
      (Requested(request, products[0].id) && Short(request, products[0])) || SomeShort(request, products[1..])
  {
    if SomeShort(request, products[1..]) {
      var k :| 0 <= k < |products[1..]| && Requested(request, products[1..][k].id) && Short(request, products[1..][k]);
      assert products[k + 1] == products[1..][k];
    }
    if SomeShort(request, products) && !(Requested(request, products[0].id) && Short(request, products[0])) {
      var k :| 0 <= k < |products| && Requested(request, products[k].id) && Short(request, products[k]);
      assert products[1..][k - 1] == products[k];
    }
  }

  /** The stock check over the looked-up rows fails exactly when some requested table row fails it. */
  lemma {:induction false} StockCheckFailsInTable(request: seq<RequestedProduct>, catalog: seq<Product>)
    ensures InsufficientProducts(request, FindAllById(catalog, request)) != [] <==> SomeShort(request, catalog)
  {
    if catalog != [] {
      StockCheckFailsInTable(request, catalog[1..]);
      SomeShortSplit(request, catalog);
      var rest := FindAllById(catalog[1..], request);
      var rows := FindAllById(catalog, request);
      if Requested(request, catalog[0].id) {
        assert rows == [catalog[0]] + rest;
        assert rows[1..] == rest;
      } else {
        assert rows == rest;
      }
    }
  }

  /** When the stock check fails, it reports the first requested table row that fails it. */
  lemma {:induction false} StockCheckReportsFirstInTable(request: seq<RequestedProduct>, catalog: seq<Product>)
    requires InsufficientProducts(request, FindAllById(catalog, request)) != []
    ensures exists k :: (FirstShort(request, catalog, k)
      && InsufficientProducts(request, FindAllById(catalog, request))[0] == catalog[k])
  {
    if Requested(request, catalog[0].id) && Short(request, catalog[0]) {
      ShortLookupHead(request, catalog);
      assert FirstShort(request, catalog, 0);
    } else {
      ShortLookupTail(request, catalog);
      StockCheckReportsFirstInTable(request, catalog[1..]);
      var k :| FirstShort(request, catalog[1..], k)
        && InsufficientProducts(request, FindAllById(catalog[1..], request))[0] == catalog[1..][k];
      FirstShortShift(request, catalog, k);
    }
  }

  /** A failing first table row is the first row the stock check reports. */
  lemma ShortLookupHead(request: seq<RequestedProduct>, catalog: seq<Product>)
    requires catalog != [] && Requested(request, catalog[0].id) && Short(request, catalog[0])
    ensures var short := InsufficientProducts(request, FindAllById(catalog, request));
      short != [] && short[0] == catalog[0]
  {
    var rows := FindAllById(catalog, request);
    assert rows == [catalog[0]] + FindAllById(catalog[1..], request);
  }

  /** A first table row that passes or is not requested leaves the report to the rest of the table. */
  lemma ShortLookupTail(request: seq<RequestedProduct>, catalog: seq<Product>)
    requires catalog != [] && !(Requested(request, catalog[0].id) && Short(request, catalog[0]))
    ensures InsufficientProducts(request, FindAllById(catalog, request))
         == InsufficientProducts(request, FindAllById(catalog[1..], request))
  {
    var rest := FindAllById(catalog[1..], request);
    var rows := FindAllById(catalog, request);
    if Requested(request, catalog[0].id) {
      assert rows == [catalog[0]] + rest;
      assert rows[1..] == rest;
    }
  }

  /** There is at most one first failing row. */
  lemma FirstShortUnique(request: seq<RequestedProduct>, catalog: seq<Product>, k1: int, k2: int)
    requires FirstShort(request, catalog, k1) && FirstShort(request, catalog, k2)
    ensures k1 == k2
  {
  }

  /**
   * "Could not find any products" is thrown exactly when the customer exists
   * and no request entry names a product of the table (an empty request
   * included).
   */
  lemma NoProductsFoundIff(customer: Option<Customer>, request: seq<RequestedProduct>, catalog: seq<Product>)
    ensures Decide(customer, request, catalog) == Failure(NoProductsFound) <==>
      customer.Some? && forall i :: 0 <= i < |request| ==> !Listed(catalog, request[i].id)
  {
    LookupInTableTerms(request, catalog);
  }

  /**
   * "Could not find the product" is thrown exactly when the customer exists,
   * some entry names a product of the table and some does not; it names the
   * first entry, in request order, whose product the table lacks.
   */
  lemma ProductNotFoundIff(customer: Option<Customer>, request: seq<RequestedProduct>, catalog: seq<Product>, id: ProductId)
    ensures Decide(customer, request, catalog) == Failure(ProductNotFound(id)) <==>
      && customer.Some?
      && (exists i :: 0 <= i < |request| && Listed(catalog, request[i].id))
      && exists k :: FirstUnlisted(request, catalog, k) && request[k].id == id
  {
    LookupInTableTerms(request, catalog);
    var rows := FindAllById(catalog, request);
    var ids := ProductIds(rows);
    assert forall k :: FirstMissing(request, ids, k) <==> FirstUnlisted(request, catalog, k);
    if exists k :: FirstUnlisted(request, catalog, k) {
      var k :| FirstUnlisted(request, catalog, k);
      assert request[k] in InexistentProducts(request, ids);
    }
  }

  /**
   * "Ordered quantity ... is not available" is thrown exactly when the
   * customer exists, the request is non-empty, every entry names a product of
   * the table, and some requested row has less stock than the FIRST entry for
   * its id asks; it names the first such row in table order.
   */
  lemma InsufficientStockIff(customer: Option<Customer>, request: seq<RequestedProduct>, catalog: seq<Product>, id: ProductId)
    ensures Decide(customer, request, catalog) == Failure(InsufficientStock(id)) <==>
      && customer.Some?
      && |request| > 0
      && AllListed(request, catalog)
      && exists k :: FirstShort(request, catalog, k) && catalog[k].id == id
  {
    LookupInTableTerms(request, catalog);
    StockCheckFailsInTable(request, catalog);
    var short := InsufficientProducts(request, FindAllById(catalog, request));
    if short != [] {
      StockCheckReportsFirstInTable(request, catalog);
      var k2 :| FirstShort(request, catalog, k2) && short[0] == catalog[k2];
      if exists k :: FirstShort(request, catalog, k) && catalog[k].id == id {
        var k :| FirstShort(request, catalog, k) && catalog[k].id == id;
        FirstShortUnique(request, catalog, k, k2);
      }
    }
  }

  /**
   * `execute` creates an order exactly when the customer exists, the request is
   * non-empty, every entry names a product of the table and no requested row
   * fails the stock check.
   */
  lemma SuccessIff(customer: Option<Customer>, request: seq<RequestedProduct>, catalog: seq<Product>)
    ensures Decide(customer, request, catalog).Success? <==>
      && customer.Some?
      && |request| > 0
      && AllListed(request, catalog)
      && StockCheckPasses(request, catalog)
  {
    LookupInTableTerms(request, catalog);
    StockCheckFailsInTable(request, catalog);
    if !StockCheckPasses(request, catalog) {
      assert SomeShort(request, catalog);
    }
  }

  /**
   * A created order belongs to the looked-up customer and has one line per
   * request entry, in request order, with the entry's id and quantity and the
   * price of the first table row with that id; the stock batch has one entry
   * per line, that row's stock minus the line's quantity.
   */
  lemma PlacementContents(customer: Option<Customer>, request: seq<RequestedProduct>, catalog: seq<Product>)
    requires Decide(customer, request, catalog).Success?
    ensures customer.Some? && AllListed(request, catalog)
    ensures var p := Decide(customer, request, catalog).value;
      && p.order.customer == customer.value
      && |p.order.lines| == |request|
      && p.order.lines == OrderLinesFromTable(request, catalog)
      && p.updates == BatchFromTable(request, catalog)
  {
    SuccessIff(customer, request, catalog);
    var rows := FindAllById(catalog, request);
    LookupLinesMatchTable(request, catalog);
    assert Decide(customer, request, catalog).value ==
      Placement(Order(customer.value, OrderLines(request, rows)), StockUpdates(OrderLines(request, rows), rows));
  }

  /** Lines and batch built from the looked-up rows are those built from the table. */
  lemma LookupLinesMatchTable(request: seq<RequestedProduct>, catalog: seq<Product>)
    requires AllListed(request, catalog)
    ensures var rows := FindAllById(catalog, request);
      && (forall i :: 0 <= i < |request| ==> Listed(rows, request[i].id))
      && OrderLines(request, rows) == OrderLinesFromTable(request, catalog)
      && StockUpdates(OrderLines(request, rows), rows) == BatchFromTable(request, catalog)
  {
    var rows := FindAllById(catalog, request);
    forall i | 0 <= i < |request|
      ensures SameFirstRow(rows, catalog, request[i].id)
    {
      assert Requested(request, request[i].id);
      LookupKeepsFirstMatch(catalog, request, request[i].id);
    }
    LinesFromSameRows(request, rows, catalog);
    BatchFromSameRows(request, rows, catalog);
  }

  /** Both tables have a row with `id`, and their first such rows are equal. */
  ghost predicate SameFirstRow(rows: seq<Product>, catalog: seq<Product>, id: ProductId) {
    Listed(rows, id) && Listed(catalog, id) && rows[FirstIndex(rows, id)] == catalog[FirstIndex(catalog, id)]
  }

  lemma LinesFromSameRows(request: seq<RequestedProduct>, rows: seq<Product>, catalog: seq<Product>)
    requires forall i :: 0 <= i < |request| ==> Listed(rows, request[i].id)
    requires forall i :: 0 <= i < |request| ==> SameFirstRow(rows, catalog, request[i].id)
    ensures AllListed(request, catalog)
    ensures OrderLines(request, rows) == OrderLinesFromTable(request, catalog)
  {
    EqualPointwise(OrderLines(request, rows), OrderLinesFromTable(request, catalog));
  }

  lemma BatchFromSameRows(request: seq<RequestedProduct>, rows: seq<Product>, catalog: seq<Product>)
    requires forall i :: 0 <= i < |request| ==> Listed(rows, request[i].id)
    requires forall i :: 0 <= i < |request| ==> SameFirstRow(rows, catalog, request[i].id)
    ensures AllListed(request, catalog)
    ensures forall i :: 0 <= i < |OrderLines(request, rows)| ==> Listed(rows, OrderLines(request, rows)[i].productId)
    ensures StockUpdates(OrderLines(request, rows), rows) == BatchFromTable(request, catalog)
  {
    var lines := OrderLines(request, rows);
    EqualPointwise(StockUpdates(lines, rows), BatchFromTable(request, catalog));
  }

  lemma EqualPointwise<T>(a: seq<T>, b: seq<T>)
    requires |a| == |b| && forall i :: 0 <= i < |a| ==> a[i] == b[i]
    ensures a == b
  {
  }

  /**
   * The order lines a request gets from the table: per entry, its id and
   * quantity and the price of the first row with its id.
   */
  ghost function OrderLinesFromTable(request: seq<RequestedProduct>, catalog: seq<Product>): seq<OrderLine>
    requires AllListed(request, catalog)
  {
    seq(|request|, i requires 0 <= i < |request| =>
      OrderLine(request[i].id, request[i].quantity, catalog[FirstIndex(catalog, request[i].id)].price))
  }

  /**
   * The stock batch a request gets from the table: per entry, its id and the
   * stock of the first row with its id minus the entry's quantity.
   */
  ghost function BatchFromTable(request: seq<RequestedProduct>, catalog: seq<Product>): seq<StockUpdate>
    requires AllListed(request, catalog)
  {
    seq(|request|, i requires 0 <= i < |request| =>
      StockUpdate(request[i].id, catalog[FirstIndex(catalog, request[i].id)].quantity - request[i].quantity))
  }

  /** The batch has one write per request entry, for that entry's id. */
  lemma BatchShape(request: seq<RequestedProduct>, catalog: seq<Product>)
    requires AllListed(request, catalog)
    ensures var updates := BatchFromTable(request, catalog);
      && |updates| == |request|
      && forall i {:trigger updates[i]} :: 0 <= i < |request| ==>
        && updates[i].id == request[i].id
        && updates[i].quantity == catalog[FirstIndex(catalog, request[i].id)].quantity - request[i].quantity
  {
  }

  /**
   * In a batch with one write per request entry, for that entry's id, the last
   * write for an id comes from the last entry naming it, and an id the
   * request does not name is not written.
   */
  lemma LastWriteIsLastEntry(request: seq<RequestedProduct>, updates: seq<StockUpdate>, id: ProductId)
    requires |updates| == |request|
    requires forall i :: 0 <= i < |request| ==> updates[i].id == request[i].id
    ensures var q := LastUpdate(updates, id);
      && (q.None? <==> !Requested(request, id))
      && (q.Some? ==> exists i :: LastEntry(request, id, i) && q.value == updates[i].quantity)
  {
    var q := LastUpdate(updates, id);
    if Requested(request, id) {
      var i :| 0 <= i < |request| && request[i].id == id;
      assert updates[i].id == id;
    }
    if q.Some? {
      var j :| 0 <= j < |updates| && updates[j].id == id && updates[j].quantity == q.value
               && forall j' :: j < j' < |updates| ==> updates[j'].id != id;
      assert LastEntry(request, id, j);
    }
  }

  /** Row `k` of the table after the batch of `request` is written. */
  lemma BatchEffectAt(request: seq<RequestedProduct>, catalog: seq<Product>, k: int)
    requires DistinctIds(catalog) && AllListed(request, catalog)
    requires 0 <= k < |catalog|
    ensures var after := ApplyUpdates(catalog, BatchFromTable(request, catalog));
      && |after| == |catalog|
      && after[k].id == catalog[k].id && after[k].price == catalog[k].price
      && (!Requested(request, catalog[k].id) ==> after[k] == catalog[k])
      && (Requested(request, catalog[k].id) ==>
            exists i :: LastEntry(request, catalog[k].id, i) && after[k].quantity == catalog[k].quantity - request[i].quantity)
  {
    var id := catalog[k].id;
    var updates := BatchFromTable(request, catalog);
    ApplyUpdatesAt(catalog, updates, k);
    BatchShape(request, catalog);
    LastWriteIsLastEntry(request, updates, id);
    if Requested(request, id) {
      var i :| LastEntry(request, id, i) && LastUpdate(updates, id).value == updates[i].quantity;
      assert FirstIndex(catalog, id) == k;
    }
  }

  /**
   * The table `after` a created order's stock batch, compared with the table
   * `before` it: ids and prices are kept, rows the request does not name keep
   * their stock, and a requested row has its old stock minus the quantity of
   * the LAST entry naming it (the batch holds one write per entry and the last
   * write stays).
   */
  ghost predicate StockOutcome(request: seq<RequestedProduct>, before: seq<Product>, after: seq<Product>) {
    && |after| == |before|
    && (forall k :: 0 <= k < |before| ==> after[k].id == before[k].id && after[k].price == before[k].price)
    && (forall k :: 0 <= k < |before| && !Requested(request, before[k].id) ==> after[k] == before[k])
    && (forall k :: 0 <= k < |before| && Requested(request, before[k].id) ==>
          exists i :: LastEntry(request, before[k].id, i) && after[k].quantity == before[k].quantity - request[i].quantity)
  }

  /** The stock a created order leaves behind is as `StockOutcome` describes. */
  lemma StockAfterPlacement(customer: Option<Customer>, request: seq<RequestedProduct>, catalog: seq<Product>)
    requires DistinctIds(catalog)
    requires Decide(customer, request, catalog).Success?
    ensures StockOutcome(request, catalog, ApplyUpdates(catalog, Decide(customer, request, catalog).value.updates))
  {
    PlacementContents(customer, request, catalog);
    var after := ApplyUpdates(catalog, BatchFromTable(request, catalog));
    forall k | 0 <= k < |catalog|
      ensures !Requested(request, catalog[k].id) ==> after[k] == catalog[k]
      ensures Requested(request, catalog[k].id) ==>
        exists i :: LastEntry(request, catalog[k].id, i) && after[k].quantity == catalog[k].quantity - request[i].quantity
    {
      BatchEffectAt(request, catalog, k);
    }
  }

  /**
   * When no product id is requested twice, every new stock in the batch of a
   * created order is non-negative: the stock check then looked at every
   * entry.
   */
  lemma StockUpdatesNonNegative(customer: Option<Customer>, request: seq<RequestedProduct>, catalog: seq<Product>)
    requires DistinctRequestIds(request)
    requires Decide(customer, request, catalog).Success?
    ensures var updates := Decide(customer, request, catalog).value.updates;
      forall i :: 0 <= i < |updates| ==> updates[i].quantity >= 0
  {
    SuccessIff(customer, request, catalog);
    PlacementContents(customer, request, catalog);
    forall i | 0 <= i < |request|
      ensures catalog[FirstIndex(catalog, request[i].id)].quantity - request[i].quantity >= 0
    {
      var id := request[i].id;
      var f := FirstIndex(catalog, id);
      assert Requested(request, catalog[f].id);
      assert !Short(request, catalog[f]);
      assert FirstRequestIndex(request, id) == i;
    }
  }

  /** Row `k` after the batch, for a request without repeated ids that passed the stock check. */
  lemma DistinctBatchAt(request: seq<RequestedProduct>, catalog: seq<Product>, k: int, i: int)
    requires DistinctIds(catalog) && DistinctRequestIds(request)
    requires AllListed(request, catalog) && StockCheckPasses(request, catalog)
    requires 0 <= k < |catalog| && 0 <= i < |request| && request[i].id == catalog[k].id
    ensures var after := ApplyUpdates(catalog, BatchFromTable(request, catalog));
      |after| == |catalog| && after[k].quantity == catalog[k].quantity - request[i].quantity >= 0
  {
    var after := ApplyUpdates(catalog, BatchFromTable(request, catalog));
    assert Requested(request, catalog[k].id);
    BatchEffectAt(request, catalog, k);
    var i' :| LastEntry(request, catalog[k].id, i') && after[k].quantity == catalog[k].quantity - request[i'].quantity;
    assert i' == i;
    assert !Short(request, catalog[k]);
    assert FirstRequestIndex(request, catalog[k].id) == i;
  }

  /**
   * When no product id is requested twice and the table ids are distinct, a
   * created order takes from each requested row exactly the quantity ordered
   * for it, and a table whose stocks were non-negative keeps them so.
   */
  lemma StockDecrementedByOrderedQuantity(customer: Option<Customer>, request: seq<RequestedProduct>, catalog: seq<Product>)
    requires DistinctIds(catalog) && DistinctRequestIds(request)
    requires Decide(customer, request, catalog).Success?
    ensures var after := ApplyUpdates(catalog, Decide(customer, request, catalog).value.updates);
      && |after| == |catalog|
      && (forall k, i :: 0 <= k < |catalog| && 0 <= i < |request| && request[i].id == catalog[k].id ==>
            after[k].quantity == catalog[k].quantity - request[i].quantity >= 0)
      && ((forall k :: 0 <= k < |catalog| ==> catalog[k].quantity >= 0) ==>
            forall k :: 0 <= k < |after| ==> after[k].quantity >= 0)
  {
    SuccessIff(customer, request, catalog);
    PlacementContents(customer, request, catalog);
    var after := ApplyUpdates(catalog, BatchFromTable(request, catalog));
    forall k, i | 0 <= k < |catalog| && 0 <= i < |request| && request[i].id == catalog[k].id
      ensures after[k].quantity == catalog[k].quantity - request[i].quantity >= 0
    {
      DistinctBatchAt(request, catalog, k, i);
    }
    forall k | 0 <= k < |catalog| && catalog[k].quantity >= 0
      ensures after[k].quantity >= 0
    {
      if Requested(request, catalog[k].id) {
        var i :| 0 <= i < |request| && request[i].id == catalog[k].id;
        DistinctBatchAt(request, catalog, k, i);
      } else {
        BatchEffectAt(request, catalog, k);
      }
    }
  }
}
