/**
 * The three repositories `execute` talks to, held as one store, and
 * `execute` itself as a method that changes the store.
 */
module OrderStore {
  import opened OrderDomain
  import opened Catalog
  import opened CreateOrder
  import opened CreateOrderProperties

  class Store {
    /** The customers table (ids only). */
    var customers: set<CustomerId>
    /** The products table, in the order its rows are returned. */
    var catalog: seq<Product>
    /** The orders table, in creation order. */
    var orders: seq<Order>

    /**
     * The product id is the table's primary key. The store keeps it distinct
     * so that the stock `Execute` leaves behind is as `StockAfterPlacement`
     * and `StockDecrementedByOrderedQuantity` describe.
     */
    ghost predicate Valid()
      reads this
    {
      DistinctIds(catalog)
    }

    constructor (customers: set<CustomerId>, catalog: seq<Product>)
      requires DistinctIds(catalog)
      ensures Valid()
      ensures this.customers == customers && this.catalog == catalog && orders == []
    {
      this.customers := customers;
      this.catalog := catalog;
      orders := [];
    }

    /** `customersRepository.findById`. */
    function FindById(id: CustomerId): (c: Option<Customer>)
      reads this
      ensures c.Some? <==> id in customers
      ensures c.Some? ==> c.value.id == id
    {
      if id in customers then Some(Customer(id)) else None
    }

    /** `ordersRepository.create`: stores one new order and returns it. */
    method Create(customer: Customer, lines: seq<OrderLine>) returns (order: Order)
      modifies this
      ensures order == Order(customer, lines)
      ensures orders == old(orders) + [order]
      ensures customers == old(customers) && catalog == old(catalog)
    {
      order := Order(customer, lines);
      orders := orders + [order];
    }

    /** `productsRepository.updateQuantity`: writes the new stocks one after another. */
    method UpdateQuantity(updates: seq<StockUpdate>)
      requires Valid()
      modifies this
      ensures Valid()
      ensures catalog == ApplyUpdates(old(catalog), updates)
      ensures customers == old(customers) && orders == old(orders)
    {
      var i := 0;
      while i < |updates|
        invariant 0 <= i <= |updates|
        invariant catalog == ApplyUpdates(old(catalog), updates[..i])
        invariant |catalog| == |old(catalog)|
        invariant forall k :: 0 <= k < |catalog| ==> catalog[k].id == old(catalog)[k].id
        invariant customers == old(customers) && orders == old(orders)
      {
        assert updates[..i + 1][..i] == updates[..i];
        catalog := SetQuantity(catalog, updates[i]);
        i := i + 1;
      }
      assert updates[..i] == updates;
    }

    /**
     * `CreateOrderService.execute`: on a failed check nothing is written;
     * otherwise exactly one order is created and returned, and the stock batch
     * is written.
     */
    method Execute(customerId: CustomerId, request: seq<RequestedProduct>) returns (r: Result<Order, OrderError>)
      requires Valid()
      modifies this
      ensures Valid()
      ensures customers == old(customers)
      ensures match Decide(old(FindById(customerId)), request, old(catalog))
        case Failure(e) =>
          r == Failure(e) && catalog == old(catalog) && orders == old(orders)
        case Success(p) =>
          && r == Success(p.order)
          && orders == old(orders) + [p.order]
          && catalog == ApplyUpdates(old(catalog), p.updates)
          && StockOutcome(request, old(catalog), catalog)
    {
      var customer := FindById(customerId);
      ghost var before := catalog;
      if customer.None? {
        return Failure(CustomerNotFound);
      }
      var registered := FindAllById(catalog, request);
      if registered == [] {
        return Failure(NoProductsFound);
      }
      var missing := InexistentProducts(request, ProductIds(registered));
      if missing != [] {
        return Failure(ProductNotFound(missing[0].id));
      }
      assert forall i :: 0 <= i < |request| ==> request[i] in request;
      var short := InsufficientProducts(request, registered);
      if short != [] {
        return Failure(InsufficientStock(short[0].id));
      }
      var lines := OrderLines(request, registered);
      var order := Create(customer.value, lines);
      UpdateQuantity(StockUpdates(lines, registered));
      StockAfterPlacement(customer, request, before);
      return Success(order);
    }
  }
}
