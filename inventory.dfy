/** The stock bookkeeping of OrderService as functions on the product table:
    what createOrder's item loop does to the table (reserving), and what
    cancelOrder's item loop does to it (releasing), with the properties that
    relate the two. The methods of Store.Store are proved against these. */
module Inventory {
  import opened Common
  import opened Products
  import opened Orders

  type ProductTable = map<nat, Product>

  /** The state of createOrder's loop after some requests: the product table
      with the stock taken so far, and the line items built so far. */
  datatype Reservation = Reservation(products: ProductTable, lines: seq<OrderItem>)

  /** One pass of createOrder's loop body: the product must exist and hold at
      least the requested quantity (a quantity equal to the stock passes);
      the line snapshots the current price and the stock is reduced. */
  function Take(products: ProductTable, r: ItemRequest): (t: Result<(ProductTable, OrderItem)>)
    ensures t.Ok? <==> r.productId in products && products[r.productId].stockQuantity >= r.quantity
    ensures t.Err? ==> t.error == MisfitError(products, r.productId)
    ensures t.Ok? ==> && t.value.0.Keys == products.Keys
                      && StockRaised(products, t.value.0, r.productId, -r.quantity)
                      && (forall id :: id in products && id != r.productId ==> t.value.0[id] == products[id])
                      && t.value.1 == OrderItem(r.productId, r.quantity, products[r.productId].price)
  {
    if r.productId !in products then Err(NotFound)
    else
      var p := products[r.productId];
      if p.stockQuantity < r.quantity then Err(InsufficientStock)
      else Ok((products[r.productId := p.(stockQuantity := p.stockQuantity - r.quantity)],
               OrderItem(r.productId, r.quantity, p.price)))
  }

  /** createOrder's loop over the requests, in order; the first request that
      fails decides the error. */
  function Reserve(products: ProductTable, reqs: seq<ItemRequest>): (r: Result<Reservation>)
    ensures r.Err? ==> r.error == NotFound || r.error == InsufficientStock
    ensures r.Ok? ==> |r.value.lines| == |reqs|
  {
    if reqs == [] then Ok(Reservation(products, []))
    else
      match Reserve(products, reqs[..|reqs| - 1])
      case Err(e) => Err(e)
      case Ok(res) =>
        match Take(res.products, reqs[|reqs| - 1])
        case Err(e) => Err(e)
        case Ok((products', line)) => Ok(Reservation(products', res.lines + [line]))
  }

  /** One pass of cancelOrder's loop body: the item's quantity goes back to
      its product, if that product is still in the table. */
  function Restore(products: ProductTable, item: OrderItem): (r: ProductTable)
    ensures r.Keys == products.Keys
    ensures item.productId in products ==> StockRaised(products, r, item.productId, item.quantity)
    ensures forall id :: id in products && id != item.productId ==> r[id] == products[id]
  {
    if item.productId in products then
      var p := products[item.productId];
      products[item.productId := p.(stockQuantity := p.stockQuantity + item.quantity)]
    else products
  }

  /** cancelOrder's loop over the items of an order, in order. */
  function Release(products: ProductTable, items: seq<OrderItem>): (r: ProductTable)
    ensures r.Keys == products.Keys
  {
    if items == [] then products else Restore(Release(products, items[..|items| - 1]), items[|items| - 1])
  }

  /** The total quantity of one product over a list of requests. */
  function Requested(reqs: seq<ItemRequest>, productId: nat): int {
    if reqs == [] then 0
    else Requested(reqs[..|reqs| - 1], productId)
         + (if reqs[|reqs| - 1].productId == productId then reqs[|reqs| - 1].quantity else 0)
  }

  /** The price of the requests at the prices in the table (unknown products
      contribute nothing). */
  function Quote(products: ProductTable, reqs: seq<ItemRequest>): Cents {
    if reqs == [] then 0
    else
      var r := reqs[|reqs| - 1];
      Quote(products, reqs[..|reqs| - 1]) + (if r.productId in products then r.quantity * products[r.productId].price else 0)
  }

  /** Request `k` passes its check: its product exists and still holds the
      quantity after the earlier requests for the same product. */
  ghost predicate Fits(products: ProductTable, reqs: seq<ItemRequest>, k: nat)
    requires k < |reqs|
  {
    && reqs[k].productId in products
    && products[reqs[k].productId].stockQuantity - Requested(reqs[..k], reqs[k].productId) >= reqs[k].quantity
  }

  /** The error raised by a request that does not fit. */
  function MisfitError(products: ProductTable, productId: nat): Error {
    if productId in products then InsufficientStock else NotFound
  }

  ghost predicate NoNegativeStock(products: ProductTable) {
    forall id :: id in products ==> products[id].stockQuantity >= 0
  }

  ghost predicate AllMeetConstraints(products: ProductTable) {
    forall id :: id in products ==> MeetsConstraints(products[id])
  }

  /** `after` is `before` with the stock of product `id` raised by `delta`. */
  ghost predicate StockRaised(before: ProductTable, after: ProductTable, id: nat, delta: int)
    requires id in before && id in after
  {
    after[id] == before[id].(stockQuantity := before[id].stockQuantity + delta)
  }

  // ---------------------------------------------------------------------------
  // Reserving

  /** A successful reservation takes from each product exactly the total
      quantity requested for it and changes nothing else; its line items
      follow the requests one for one, in order, each carrying the price the
      product had before the call. */
  lemma {:induction false} ReserveShape(products: ProductTable, reqs: seq<ItemRequest>)
    requires Reserve(products, reqs).Ok?
    ensures Reserve(products, reqs).value.products.Keys == products.Keys
    ensures forall id :: id in products ==>
              StockRaised(products, Reserve(products, reqs).value.products, id, -Requested(reqs, id))
    ensures |Reserve(products, reqs).value.lines| == |reqs|
    ensures forall k :: 0 <= k < |reqs| ==>
              && reqs[k].productId in products
              && Reserve(products, reqs).value.lines[k]
                 == OrderItem(reqs[k].productId, reqs[k].quantity, products[reqs[k].productId].price)
    decreases |reqs|
  {
    if reqs != [] {
      var init, last := reqs[..|reqs| - 1], reqs[|reqs| - 1];
      ReserveShape(products, init);
      var res := Reserve(products, init).value;
      var lines := Reserve(products, reqs).value.lines;
      assert lines == res.lines + [OrderItem(last.productId, last.quantity, products[last.productId].price)];
      forall k | 0 <= k < |reqs|
        ensures reqs[k].productId in products
        ensures lines[k] == OrderItem(reqs[k].productId, reqs[k].quantity, products[reqs[k].productId].price)
      {
        if k < |init| {
          assert reqs[k] == init[k];
        }
      }
    }
  }

  /** Reservation succeeds exactly when every request fits, each checked
      against the stock left by the requests before it. */
  lemma {:induction false} ReserveOkIff(products: ProductTable, reqs: seq<ItemRequest>)
    ensures Reserve(products, reqs).Ok? <==> forall k :: 0 <= k < |reqs| ==> Fits(products, reqs, k)
    decreases |reqs|
  {
    if reqs != [] {
      var n := |reqs| - 1;
      var init := reqs[..n];
      ReserveOkIff(products, init);
      forall k | 0 <= k < n
        ensures Fits(products, reqs, k) <==> Fits(products, init, k)
      {
        assert reqs[k] == init[k];
        assert reqs[..k] == init[..k];
      }
      assert reqs[..n] == init;
      if Reserve(products, init).Ok? {
        ReserveShape(products, init);
        var last := reqs[n];
        var res := Reserve(products, init).value;
        assert Reserve(products, reqs).Ok? <==> Take(res.products, last).Ok?;
        assert Take(res.products, last).Ok? <==> Fits(products, reqs, n);
      }
    }
  }

  /** A failed reservation fails at the first request that does not fit: with
      NotFound when its product is unknown, and with InsufficientStock when
      the stock left is below the quantity. */
  lemma {:induction false} ReserveErrAtFirstMisfit(products: ProductTable, reqs: seq<ItemRequest>)
    requires Reserve(products, reqs).Err?
    ensures exists k :: && 0 <= k < |reqs|
                        && (forall j :: 0 <= j < k ==> Fits(products, reqs, j))
                        && !Fits(products, reqs, k)
                        && Reserve(products, reqs).error == MisfitError(products, reqs[k].productId)
    decreases |reqs|
  {
    var n := |reqs| - 1;
    var init := reqs[..n];
    forall k | 0 <= k < n
      ensures Fits(products, reqs, k) <==> Fits(products, init, k)
    {
      assert reqs[k] == init[k];
      assert reqs[..k] == init[..k];
    }
    if Reserve(products, init).Err? {
      ReserveErrAtFirstMisfit(products, init);
      var k :| && 0 <= k < |init|
               && (forall j :: 0 <= j < k ==> Fits(products, init, j))
               && !Fits(products, init, k)
               && Reserve(products, init).error == MisfitError(products, init[k].productId);
      assert reqs[k] == init[k];
    } else {
      ReserveOkIff(products, init);
      ReserveShape(products, init);
      assert reqs[..n] == init;
      assert !Fits(products, reqs, n);
    }
  }

  /** Once a prefix of the requests fails, the whole reservation fails with
      the same error: later requests are never looked at. */
  lemma {:induction false} ReserveErrPersists(products: ProductTable, reqs: seq<ItemRequest>, i: nat)
    requires i <= |reqs|
    requires Reserve(products, reqs[..i]).Err?
    ensures Reserve(products, reqs) == Reserve(products, reqs[..i])
    decreases |reqs| - i
  {
    if i < |reqs| {
      assert reqs[..i + 1][..i] == reqs[..i];
      ReserveErrPersists(products, reqs, i + 1);
    } else {
      assert reqs[..i] == reqs;
    }
  }

  /** Reserving never drives a stock below zero: every product that was
      requested ends with a non-negative stock (even a product whose stock
      was negative before), and a table with no negative stock keeps none. */
  lemma {:induction false} ReserveKeepsStockNonNegative(products: ProductTable, reqs: seq<ItemRequest>)
    requires Reserve(products, reqs).Ok?
    ensures forall k :: 0 <= k < |reqs| ==>
              && reqs[k].productId in Reserve(products, reqs).value.products
              && Reserve(products, reqs).value.products[reqs[k].productId].stockQuantity >= 0
    ensures NoNegativeStock(products) ==> NoNegativeStock(Reserve(products, reqs).value.products)
    decreases |reqs|
  {
    if reqs != [] {
      var init, last := reqs[..|reqs| - 1], reqs[|reqs| - 1];
      ReserveKeepsStockNonNegative(products, init);
      ReserveShape(products, init);
      var before := Reserve(products, init).value.products;
      var after := Reserve(products, reqs).value.products;
      forall k | 0 <= k < |reqs|
        ensures reqs[k].productId in after && after[reqs[k].productId].stockQuantity >= 0
      {
        if k < |init| {
          assert reqs[k] == init[k];
        }
      }
    }
  }

  /** Reserving touches only stock, so the entity constraints keep holding. */
  lemma ReserveKeepsConstraints(products: ProductTable, reqs: seq<ItemRequest>)
    requires Reserve(products, reqs).Ok? && AllMeetConstraints(products)
    ensures Reserve(products, reqs).value.products.Keys == products.Keys
    ensures AllMeetConstraints(Reserve(products, reqs).value.products)
  {
    ReserveShape(products, reqs);
  }

  /** The sum of the subtotals of a successful reservation is the price of
      the requests at the prices the products had before the call. */
  lemma {:induction false} ReserveTotalIsQuote(products: ProductTable, reqs: seq<ItemRequest>)
    requires Reserve(products, reqs).Ok?
    ensures SumSubtotals(Reserve(products, reqs).value.lines) == Quote(products, reqs)
    decreases |reqs|
  {
    if reqs != [] {
      var init := reqs[..|reqs| - 1];
      ReserveTotalIsQuote(products, init);
      ReserveShape(products, init);
      var lines := Reserve(products, reqs).value.lines;
      assert lines[..|lines| - 1] == Reserve(products, init).value.lines;
    }
  }

  // ---------------------------------------------------------------------------
  // Releasing

  /** Releasing gives back to each product still in the table exactly the
      total quantity of its items, and changes nothing else. */
  lemma {:induction false} ReleaseShape(products: ProductTable, items: seq<OrderItem>)
    ensures Release(products, items).Keys == products.Keys
    ensures forall id :: id in products ==> StockRaised(products, Release(products, items), id, Ordered(items, id))
    decreases |items|
  {
    if items != [] {
      ReleaseShape(products, items[..|items| - 1]);
    }
  }

  /** Line items that follow the requests one for one carry the same
      quantity of every product. */
  lemma {:induction false} OrderedMatchesRequested(lines: seq<OrderItem>, reqs: seq<ItemRequest>, id: nat)
    requires |lines| == |reqs|
    requires forall k :: 0 <= k < |reqs| ==>
               lines[k].productId == reqs[k].productId && lines[k].quantity == reqs[k].quantity
    ensures Ordered(lines, id) == Requested(reqs, id)
    decreases |reqs|
  {
    if reqs != [] {
      var n := |reqs| - 1;
      OrderedMatchesRequested(lines[..n], reqs[..n], id);
    }
  }

  /** Cancelling an order right after creating it gives back every product's
      stock as it was before the order: the release undoes the reservation. */
  lemma CreateThenCancelRestores(products: ProductTable, reqs: seq<ItemRequest>)
    requires Reserve(products, reqs).Ok?
    ensures Release(Reserve(products, reqs).value.products, Reserve(products, reqs).value.lines) == products
  {
    var res := Reserve(products, reqs).value;
    ReserveShape(products, reqs);
    ReleaseShape(res.products, res.lines);
    var back := Release(res.products, res.lines);
    forall id | id in products
      ensures back[id] == products[id]
    {
      OrderedMatchesRequested(res.lines, reqs, id);
    }
  }

  /** Nothing guards a second cancellation: releasing the same items twice
      gives every product back twice their quantity. */
  lemma CancelTwiceReleasesTwice(products: ProductTable, items: seq<OrderItem>)
    ensures Release(Release(products, items), items).Keys == products.Keys
    ensures forall id :: id in products ==>
              StockRaised(products, Release(Release(products, items), items), id, 2 * Ordered(items, id))
  {
    ReleaseShape(products, items);
    ReleaseShape(Release(products, items), items);
  }

  /** Releasing items of non-negative quantity keeps every stock non-negative. */
  lemma ReleaseKeepsStockNonNegative(products: ProductTable, items: seq<OrderItem>)
    requires NoNegativeStock(products)
    requires forall k :: 0 <= k < |items| ==> items[k].quantity >= 0
    ensures NoNegativeStock(Release(products, items))
  {
    ReleaseShape(products, items);
    forall id | id in products
      ensures Ordered(items, id) >= 0
    {
      OrderedNonNegative(items, id);
    }
  }

  lemma {:induction false} OrderedNonNegative(items: seq<OrderItem>, id: nat)
    requires forall k :: 0 <= k < |items| ==> items[k].quantity >= 0
    ensures Ordered(items, id) >= 0
    decreases |items|
  {
    if items != [] {
      OrderedNonNegative(items[..|items| - 1], id);
    }
  }

  /** Releasing touches only stock, so the entity constraints keep holding. */
  lemma ReleaseKeepsConstraints(products: ProductTable, items: seq<OrderItem>)
    requires AllMeetConstraints(products)
    ensures AllMeetConstraints(Release(products, items))
  {
    ReleaseShape(products, items);
  }
}
