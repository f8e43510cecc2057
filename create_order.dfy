/**
 * The steps of `CreateOrderService.execute` as pure functions over the
 * request and the rows the product lookup returned, and `Decide`, the whole
 * use case as one value: the error it throws, or the order it creates and
 * the stock updates it issues.
 */
module CreateOrder {
  import opened OrderDomain
  import opened Catalog

  /** Index of the first request entry naming `id`. */
  function FirstRequestIndex(request: seq<RequestedProduct>, id: ProductId): (k: nat)
    requires Requested(request, id)
    ensures k < |request| && request[k].id == id
    ensures forall j :: 0 <= j < k ==> request[j].id != id
  {
    if request[0].id == id then 0
    else
      assert Requested(request[1..], id) by {
        var i :| 0 <= i < |request| && request[i].id == id;
        assert request[1..][i - 1].id == id;
      }
      1 + FirstRequestIndex(request[1..], id)
  }

  /** The ids of the registered products. */
  function ProductIds(registered: seq<Product>): (ids: seq<ProductId>)
    ensures forall id :: id in ids <==> Listed(registered, id)
  {
    var ids := seq(|registered|, i requires 0 <= i < |registered| => registered[i].id);
    assert forall i :: 0 <= i < |registered| ==> ids[i] == registered[i].id;
    ids
  }

  /** Request entry `k` is the first whose id is not among `ids`. */
  ghost predicate FirstMissing(request: seq<RequestedProduct>, ids: seq<ProductId>, k: int) {
    && 0 <= k < |request|
    && request[k].id !in ids
    && forall j :: 0 <= j < k ==> request[j].id in ids
  }

  /** The request entries whose id is not among `ids`, in request order. */
  function InexistentProducts(request: seq<RequestedProduct>, ids: seq<ProductId>): (missing: seq<RequestedProduct>)
    ensures forall e :: e in missing <==> e in request && e.id !in ids
    ensures missing != [] ==> exists k :: FirstMissing(request, ids, k) && missing[0] == request[k]
  {
    if request == [] then []
    else
      var rest := InexistentProducts(request[1..], ids);
      assert request == [request[0]] + request[1..];
      if request[0].id !in ids then
        assert FirstMissing(request, ids, 0);
        [request[0]] + rest
      else
        assert rest != [] ==> exists k :: FirstMissing(request, ids, k) && rest[0] == request[k] by {
          if rest != [] {
            var k :| FirstMissing(request[1..], ids, k) && rest[0] == request[1..][k];
            FirstMissingShift(request, ids, k);
          }
        }
        rest
  }

  lemma FirstMissingShift(request: seq<RequestedProduct>, ids: seq<ProductId>, k: int)
    requires request != [] && request[0].id in ids && FirstMissing(request[1..], ids, k)
    ensures FirstMissing(request, ids, k + 1)
  {
    assert forall j :: 0 < j <= k + 1 ==> request[1..][j - 1] == request[j];
  }

  /**
   * The stock check of one registered product: the quantity of the FIRST
   * request entry with its id exceeds its stock. Later entries with the same
   * id are not looked at.
   */
  predicate Short(request: seq<RequestedProduct>, p: Product)
    requires Requested(request, p.id)
  {
    request[FirstRequestIndex(request, p.id)].quantity > p.quantity
  }

  /**
   * The stock check of a row compares its stock with the quantity of the
   * request entry that is the first to name its id, whatever later entries
   * for that id ask.
   */
  lemma ShortFirstEntry(request: seq<RequestedProduct>, p: Product, i: int)
    requires 0 <= i < |request| && request[i].id == p.id
    requires forall j :: 0 <= j < i ==> request[j].id != p.id
    ensures Requested(request, p.id)
    ensures Short(request, p) <==> request[i].quantity > p.quantity
  {
    var f := FirstRequestIndex(request, p.id);
    assert !(f < i) && !(i < f);
  }

  /** Row `k` of `products` is the first requested row that fails the stock check. */
  ghost predicate FirstShort(request: seq<RequestedProduct>, products: seq<Product>, k: int) {
    && 0 <= k < |products|
    && Requested(request, products[k].id)
    && Short(request, products[k])
    && forall j :: 0 <= j < k && Requested(request, products[j].id) ==> !Short(request, products[j])
  }

  /** The registered products that fail the stock check, in registered order. */
  function InsufficientProducts(request: seq<RequestedProduct>, registered: seq<Product>): (short: seq<Product>)
    requires forall i :: 0 <= i < |registered| ==> Requested(request, registered[i].id)
    ensures short != [] <==> exists i :: 0 <= i < |registered| && Short(request, registered[i])
    ensures short != [] ==> exists k :: FirstShort(request, registered, k) && short[0] == registered[k]
  {
    if registered == [] then []
    else
      var rest := InsufficientProducts(request, registered[1..]);
      assert forall i :: 0 < i < |registered| ==> registered[1..][i - 1] == registered[i];
      if Short(request, registered[0]) then
        assert FirstShort(request, registered, 0);
        [registered[0]] + rest
      else
        assert rest != [] ==> exists k :: FirstShort(request, registered, k) && rest[0] == registered[k] by {
          if rest != [] {
            var k :| FirstShort(request, registered[1..], k) && rest[0] == registered[1..][k];
            FirstShortShift(request, registered, k);
          }
        }
        rest
  }

  /** A first row that is not a failing requested row shifts the first failing row by one. */
  lemma FirstShortShift(request: seq<RequestedProduct>, products: seq<Product>, k: int)
    requires products != [] && !(Requested(request, products[0].id) && Short(request, products[0]))
    requires FirstShort(request, products[1..], k)
    ensures FirstShort(request, products, k + 1)
  {
    assert forall j :: 0 < j <= k + 1 ==> products[1..][j - 1] == products[j];
  }

  /**
   * The order lines: one per request entry, in request order, each with the
   * entry's id and quantity and the price of the first registered row with
   * that id.
   */
  function OrderLines(request: seq<RequestedProduct>, registered: seq<Product>): (lines: seq<OrderLine>)
    requires forall i :: 0 <= i < |request| ==> Listed(registered, request[i].id)
    ensures |lines| == |request|
    ensures forall i {:trigger lines[i]} :: 0 <= i < |request| ==>
      lines[i] == OrderLine(request[i].id, request[i].quantity, registered[FirstIndex(registered, request[i].id)].price)
  {
    if request == [] then []
    else
      var line := OrderLine(request[0].id, request[0].quantity, registered[FirstIndex(registered, request[0].id)].price);
      [line] + OrderLines(request[1..], registered)
  }

  /**
   * The batch for `updateQuantity`: one entry per order line, whose new stock
   * is the stock of the first registered row with the line's id minus the
   * line's own quantity (not minus what earlier lines for that id took).
   */
  function StockUpdates(lines: seq<OrderLine>, registered: seq<Product>): (updates: seq<StockUpdate>)
    requires forall i :: 0 <= i < |lines| ==> Listed(registered, lines[i].productId)
    ensures |updates| == |lines|
    ensures forall i {:trigger updates[i]} :: 0 <= i < |lines| ==>
      updates[i] == StockUpdate(lines[i].productId, registered[FirstIndex(registered, lines[i].productId)].quantity - lines[i].quantity)
  {
    if lines == [] then []
    else
      var u := StockUpdate(lines[0].productId, registered[FirstIndex(registered, lines[0].productId)].quantity - lines[0].quantity);
      [u] + StockUpdates(lines[1..], registered)
  }

  /** What a successful `execute` writes: the order it creates and the stock batch. */
  datatype Placement = Placement(order: Order, updates: seq<StockUpdate>)

  /**
   * `execute` for a customer lookup result `customer`, a request and the
   * products table: the checks in the order the source makes them, then the
   * order and the stock batch.
   */
  function Decide(customer: Option<Customer>, request: seq<RequestedProduct>, catalog: seq<Product>): (r: Result<Placement, OrderError>)
    ensures r == Failure(CustomerNotFound) <==> customer.None?
    ensures r.Success? ==> r.value.order.customer == customer.value && |r.value.order.lines| == |request|
  {
    if customer.None? then Failure(CustomerNotFound)
    else
      var registered := FindAllById(catalog, request);
      if registered == [] then Failure(NoProductsFound)
      else
        var missing := InexistentProducts(request, ProductIds(registered));
        if missing != [] then Failure(ProductNotFound(missing[0].id))
        else
          assert forall i :: 0 <= i < |request| ==> request[i] in request;
          var short := InsufficientProducts(request, registered);
          if short != [] then Failure(InsufficientStock(short[0].id))
          else
            var lines := OrderLines(request, registered);
            Success(Placement(Order(customer.value, lines), StockUpdates(lines, registered)))
  }
}
