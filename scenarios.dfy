/**
 * Sample requests against a two-product table (P1 at 10.00 with 5 in stock,
 * P2 at 20.00 with 1 in stock) for customer C1: an order that is placed, one
 * request for each error, a request that repeats a product id, and an order
 * placed twice. Each lemma takes the table and the request as parameters
 * fixed by its requires.
 */
module CreateOrderScenarios {
  import opened OrderDomain
  import opened Catalog
  import opened CreateOrder
  import opened CreateOrderProperties

  ghost predicate IsSampleTable(catalog: seq<Product>) {
    catalog == [Product("P1", 1000, 5), Product("P2", 2000, 1)]
  }

  /** Facts about a table whose rows are P1 and then P2, whatever their prices and stock. */
  lemma SampleTableFacts(catalog: seq<Product>)
    requires |catalog| == 2 && catalog[0].id == "P1" && catalog[1].id == "P2"
    ensures DistinctIds(catalog)
    ensures Listed(catalog, "P1") && FirstIndex(catalog, "P1") == 0
    ensures Listed(catalog, "P2") && FirstIndex(catalog, "P2") == 1
    ensures !Listed(catalog, "P9")
  {
    assert "P1" != "P2" by { assert "P1"[1] != "P2"[1]; }
    assert "P1" != "P9" by { assert "P1"[1] != "P9"[1]; }
    assert "P2" != "P9" by { assert "P2"[1] != "P9"[1]; }
  }

  lemma TwoLinePlacement(catalog: seq<Product>, request: seq<RequestedProduct>)
    requires IsSampleTable(catalog)
    requires request == [RequestedProduct("P1", 2), RequestedProduct("P2", 1)]
    ensures Decide(Some(Customer("C1")), request, catalog) == Success(Placement(
      Order(Customer("C1"), [OrderLine("P1", 2, 1000), OrderLine("P2", 1, 2000)]),
      [StockUpdate("P1", 3), StockUpdate("P2", 0)]))
  {
    var customer := Some(Customer("C1"));
    SampleTableFacts(catalog);
    assert FirstRequestIndex(request, "P1") == 0 by { assert request[0].id == "P1"; }
    assert FirstRequestIndex(request, "P2") == 1 by { assert request[1].id == "P2"; }
    assert StockCheckPasses(request, catalog);
    SuccessIff(customer, request, catalog);
    PlacementContents(customer, request, catalog);
    var lines := OrderLinesFromTable(request, catalog);
    assert lines[0] == OrderLine("P1", 2, 1000) && lines[1] == OrderLine("P2", 1, 2000);
    assert lines == [OrderLine("P1", 2, 1000), OrderLine("P2", 1, 2000)];
    var batch := BatchFromTable(request, catalog);
    assert batch[0] == StockUpdate("P1", 3) && batch[1] == StockUpdate("P2", 0);
    assert batch == [StockUpdate("P1", 3), StockUpdate("P2", 0)];
  }

  /** Ordering 2 of P1 and 1 of P2 creates both lines at table prices and leaves P1 = 3, P2 = 0. */
  lemma ScenarioOrderPlaced(catalog: seq<Product>, request: seq<RequestedProduct>)
    requires IsSampleTable(catalog)
    requires request == [RequestedProduct("P1", 2), RequestedProduct("P2", 1)]
    ensures var d := Decide(Some(Customer("C1")), request, catalog);
      && d == Success(Placement(
           Order(Customer("C1"), [OrderLine("P1", 2, 1000), OrderLine("P2", 1, 2000)]),
           [StockUpdate("P1", 3), StockUpdate("P2", 0)]))
      && ApplyUpdates(catalog, d.value.updates) == [Product("P1", 1000, 3), Product("P2", 2000, 0)]
  {
    var customer := Some(Customer("C1"));
    TwoLinePlacement(catalog, request);
    assert DistinctIds(catalog) && DistinctRequestIds(request) by { SampleTableFacts(catalog); }
    StockDecrementedByOrderedQuantity(customer, request, catalog);
    var after := ApplyUpdates(catalog, [StockUpdate("P1", 3), StockUpdate("P2", 0)]);
    assert after[0] == Product("P1", 1000, 3) by { assert request[0].id == catalog[0].id; }
    assert after[1] == Product("P2", 2000, 0) by { assert request[1].id == catalog[1].id; }
  }

  /** Ordering 2 of P2, which has 1 in stock, fails naming P2. */
  lemma ScenarioInsufficientStock(catalog: seq<Product>, request: seq<RequestedProduct>)
    requires IsSampleTable(catalog)
    requires request == [RequestedProduct("P2", 2)]
    ensures Decide(Some(Customer("C1")), request, catalog) == Failure(InsufficientStock("P2"))
  {
    SampleTableFacts(catalog);
    assert Requested(request, "P2") by { assert request[0].id == "P2"; }
    assert !Requested(request, "P1");
    assert FirstShort(request, catalog, 1);
    InsufficientStockIff(Some(Customer("C1")), request, catalog, "P2");
  }

  /** Ordering only an unknown product fails with "could not find any products". */
  lemma ScenarioNoProducts(catalog: seq<Product>, request: seq<RequestedProduct>)
    requires IsSampleTable(catalog)
    requires request == [RequestedProduct("P9", 1)]
    ensures Decide(Some(Customer("C1")), request, catalog) == Failure(NoProductsFound)
  {
    SampleTableFacts(catalog);
    NoProductsFoundIff(Some(Customer("C1")), request, catalog);
  }

  /** Ordering a known and an unknown product fails naming the unknown one. */
  lemma ScenarioUnknownProduct(catalog: seq<Product>, request: seq<RequestedProduct>)
    requires IsSampleTable(catalog)
    requires request == [RequestedProduct("P1", 1), RequestedProduct("P9", 1)]
    ensures Decide(Some(Customer("C1")), request, catalog) == Failure(ProductNotFound("P9"))
  {
    SampleTableFacts(catalog);
    assert FirstUnlisted(request, catalog, 1);
    ProductNotFoundIff(Some(Customer("C1")), request, catalog, "P9");
  }

  /**
   * A request that names P2 twice, for 1 and then 5 units, passes the stock
   * check (only the first entry is compared with the stock of 1), and the
   * batch writes 1 - 1 and then 1 - 5: P2 ends at -4 after 6 units were sold
   * from a stock of 1.
   */
  lemma RepeatedIdOversells(catalog: seq<Product>, request: seq<RequestedProduct>)
    requires IsSampleTable(catalog)
    requires request == [RequestedProduct("P2", 1), RequestedProduct("P2", 5)]
    ensures var d := Decide(Some(Customer("C1")), request, catalog);
      && d.Success?
      && d.value.updates == [StockUpdate("P2", 0), StockUpdate("P2", -4)]
      && ApplyUpdates(catalog, d.value.updates) == [Product("P1", 1000, 5), Product("P2", 2000, -4)]
  {
    var customer := Some(Customer("C1"));
    RepeatedIdBatch(catalog, request);
    assert DistinctIds(catalog) && !Requested(request, "P1") by { SampleTableFacts(catalog); }
    StockAfterPlacement(customer, request, catalog);
    var after := ApplyUpdates(catalog, Decide(customer, request, catalog).value.updates);
    assert LastEntry(request, "P2", 1);
    assert after[1].quantity == -4;
  }

  /** The repeated-id request passes the stock check and writes P2 twice, 1 - 1 and then 1 - 5. */
  lemma RepeatedIdBatch(catalog: seq<Product>, request: seq<RequestedProduct>)
    requires IsSampleTable(catalog)
    requires request == [RequestedProduct("P2", 1), RequestedProduct("P2", 5)]
    ensures var d := Decide(Some(Customer("C1")), request, catalog);
      && d.Success?
      && d.value.updates == [StockUpdate("P2", 0), StockUpdate("P2", -4)]
  {
    var customer := Some(Customer("C1"));
    SampleTableFacts(catalog);
    assert Requested(request, "P2") by { assert request[0].id == "P2"; }
    assert !Requested(request, "P1");
    assert FirstRequestIndex(request, "P2") == 0;
    assert StockCheckPasses(request, catalog);
    SuccessIff(customer, request, catalog);
    PlacementContents(customer, request, catalog);
    var batch := BatchFromTable(request, catalog);
    assert batch[0] == StockUpdate("P2", 0) && batch[1] == StockUpdate("P2", -4);
    assert batch == [StockUpdate("P2", 0), StockUpdate("P2", -4)];
  }

  /** Ordering 2 of P1 while P1 has `stock` >= 2 creates one line at 10.00 and leaves P1 at `stock` - 2. */
  lemma OrderTwoOfP1(catalog: seq<Product>, request: seq<RequestedProduct>, stock: int)
    requires stock >= 2
    requires catalog == [Product("P1", 1000, stock), Product("P2", 2000, 1)]
    requires request == [RequestedProduct("P1", 2)]
    ensures var d := Decide(Some(Customer("C1")), request, catalog);
      && d == Success(Placement(Order(Customer("C1"), [OrderLine("P1", 2, 1000)]), [StockUpdate("P1", stock - 2)]))
      && ApplyUpdates(catalog, d.value.updates) == [Product("P1", 1000, stock - 2), Product("P2", 2000, 1)]
  {
    var customer := Some(Customer("C1"));
    SampleTableFacts(catalog);
    assert Requested(request, "P1") by { assert request[0].id == "P1"; }
    assert !Requested(request, "P2");
    assert FirstRequestIndex(request, "P1") == 0;
    assert StockCheckPasses(request, catalog);
    SuccessIff(customer, request, catalog);
    PlacementContents(customer, request, catalog);
    var lines := OrderLinesFromTable(request, catalog);
    assert lines[0] == OrderLine("P1", 2, 1000);
    assert lines == [OrderLine("P1", 2, 1000)];
    var batch := BatchFromTable(request, catalog);
    assert batch[0] == StockUpdate("P1", stock - 2);
    assert batch == [StockUpdate("P1", stock - 2)];
    StockAfterPlacement(customer, request, catalog);
    var after := ApplyUpdates(catalog, batch);
    assert after[0] == Product("P1", 1000, stock - 2) by { assert LastEntry(request, "P1", 0); }
    assert after[1] == Product("P2", 2000, 1);
  }

  /**
   * Placing the same order twice is not idempotent: both calls create an
   * order (equal as values, stored as two records) and the stock of P1 goes
   * from 5 to 3 to 1.
   */
  lemma RepeatedOrderTakesStockTwice(catalog: seq<Product>, request: seq<RequestedProduct>)
    requires IsSampleTable(catalog)
    requires request == [RequestedProduct("P1", 2)]
    ensures var first := Decide(Some(Customer("C1")), request, catalog);
      && first.Success?
      && var between := ApplyUpdates(catalog, first.value.updates);
      var second := Decide(Some(Customer("C1")), request, between);
      && second.Success?
      && second.value.order == first.value.order
      && ApplyUpdates(between, second.value.updates) == [Product("P1", 1000, 1), Product("P2", 2000, 1)]
  {
    OrderTwoOfP1(catalog, request, 5);
    var between := ApplyUpdates(catalog, Decide(Some(Customer("C1")), request, catalog).value.updates);
    OrderTwoOfP1(between, request, 3);
  }
}
