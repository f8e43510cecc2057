/**
 * The products table as the use case sees it through its repository: the
 * batch lookup `findAllById` and the batch write `updateQuantity`.
 */
module Catalog {
  import opened OrderDomain

  /** Some row of `products` has this id. */
  predicate Listed(products: seq<Product>, id: ProductId) {
    exists i :: 0 <= i < |products| && products[i].id == id
  }

  /** Some entry of the request names this id. */
  predicate Requested(request: seq<RequestedProduct>, id: ProductId) {
    exists i :: 0 <= i < |request| && request[i].id == id
  }

  /** No two rows share an id: the id is the table's primary key. */
  predicate DistinctIds(products: seq<Product>) {
    forall i, j :: 0 <= i < |products| && 0 <= j < |products| && products[i].id == products[j].id ==> i == j
  }

  lemma ListedSplit(products: seq<Product>)
    requires products != []
    ensures forall id :: Listed(products, id) <==> products[0].id == id || Listed(products[1..], id)
  {
    forall id ensures Listed(products, id) <==> products[0].id == id || Listed(products[1..], id) {
      if Listed(products, id) && products[0].id != id {
        var i :| 0 <= i < |products| && products[i].id == id;
        assert products[1..][i - 1].id == id;
      }
      if Listed(products[1..], id) {
        var i :| 0 <= i < |products[1..]| && products[1..][i].id == id;
        assert products[i + 1].id == id;
      }
    }
  }

  /**
   * Index of the first row with this id: the row that
   * `rows.filter(row => row.id === id)[0]` picks.
   */
  function FirstIndex(products: seq<Product>, id: ProductId): (k: nat)
    requires Listed(products, id)
    ensures k < |products| && products[k].id == id
    ensures forall j :: 0 <= j < k ==> products[j].id != id
  {
    ListedSplit(products);
    if products[0].id == id then 0 else 1 + FirstIndex(products[1..], id)
  }

  /**
   * `findAllById(request)`: the rows whose id the request names, in table
   * order; ids that have no row are left out without an error.
   */
  function FindAllById(catalog: seq<Product>, request: seq<RequestedProduct>): (rows: seq<Product>)
    ensures forall i :: 0 <= i < |rows| ==> Requested(request, rows[i].id)
    ensures forall id :: Requested(request, id) ==> (Listed(rows, id) <==> Listed(catalog, id))
  {
    if catalog == [] then []
    else
      var rest := FindAllById(catalog[1..], request);
      ListedSplit(catalog);
      if Requested(request, catalog[0].id) then
        var rows := [catalog[0]] + rest;
        assert rows[1..] == rest;
        ListedSplit(rows);
        rows
      else rest
  }

  /**
   * The lookup returns table rows as they are, not other values with a
   * requested id: a row is returned exactly when the table has it and the
   * request names its id.
   */
  lemma {:induction false} LookupReturnsTableRows(catalog: seq<Product>, request: seq<RequestedProduct>)
    ensures forall p :: p in FindAllById(catalog, request) <==> p in catalog && Requested(request, p.id)
  {
    if catalog != [] {
      LookupReturnsTableRows(catalog[1..], request);
      assert catalog == [catalog[0]] + catalog[1..];
    }
  }

  /** Every row with `u.id` gets the stock `u.quantity`; nothing else changes. */
  function SetQuantity(catalog: seq<Product>, u: StockUpdate): seq<Product> {
    seq(|catalog|, i requires 0 <= i < |catalog| =>
      if catalog[i].id == u.id then catalog[i].(quantity := u.quantity) else catalog[i])
  }

  /**
   * `updateQuantity(updates)`: the updates are written one after another, so
   * of two updates for the same id the later one is the one that stays.
   */
  function ApplyUpdates(catalog: seq<Product>, updates: seq<StockUpdate>): (after: seq<Product>)
    ensures |after| == |catalog|
    ensures forall i :: 0 <= i < |catalog| ==> after[i].id == catalog[i].id && after[i].price == catalog[i].price
    decreases |updates|
  {
    if updates == [] then catalog
    else SetQuantity(ApplyUpdates(catalog, updates[..|updates| - 1]), updates[|updates| - 1])
  }

  /** The quantity of the last update that names `id`, if any does. */
  function LastUpdate(updates: seq<StockUpdate>, id: ProductId): (q: Option<int>)
    ensures q.None? <==> forall k :: 0 <= k < |updates| ==> updates[k].id != id
    ensures q.Some? ==> exists k :: 0 <= k < |updates| && updates[k].id == id && updates[k].quantity == q.value
                                   && forall j :: k < j < |updates| ==> updates[j].id != id
    decreases |updates|
  {
    if updates == [] then None
    else if updates[|updates| - 1].id == id then Some(updates[|updates| - 1].quantity)
    else
      var prefix := updates[..|updates| - 1];
      var q := LastUpdate(prefix, id);
      assert q.Some? ==> exists k :: 0 <= k < |updates| && updates[k].id == id && updates[k].quantity == q.value
                                     && forall j :: k < j < |updates| ==> updates[j].id != id by {
        if q.Some? {
          var k :| 0 <= k < |prefix| && prefix[k].id == id && prefix[k].quantity == q.value
                   && forall j :: k < j < |prefix| ==> prefix[j].id != id;
          assert forall j :: k < j < |updates| ==> updates[j].id != id by {
            assert forall j :: 0 <= j < |prefix| ==> prefix[j] == updates[j];
          }
        }
      }
      q
  }

  /**
   * After a batch update each row keeps its id and price, and its stock is the
   * one the last update for its id wrote, or the old one if no update names it.
   */
  lemma {:induction false} ApplyUpdatesAt(catalog: seq<Product>, updates: seq<StockUpdate>, i: int)
    requires 0 <= i < |catalog|
    ensures |ApplyUpdates(catalog, updates)| == |catalog|
    ensures ApplyUpdates(catalog, updates)[i] ==
      match LastUpdate(updates, catalog[i].id)
      case None => catalog[i]
      case Some(q) => catalog[i].(quantity := q)
    decreases |updates|
  {
    if updates != [] {
      ApplyUpdatesAt(catalog, updates[..|updates| - 1], i);
    }
  }
}
