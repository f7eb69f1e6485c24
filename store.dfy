/** The three tables (users, products, orders) and the write operations of
    UserService, ProductService and OrderService over them. Every service
    class is transactional, so an operation that throws leaves the tables as
    they were: the methods below either succeed or change nothing. */
module Store {
  import opened Common
  import opened Orders
  import Products
  import Users
  import Inventory

  class Store {
    var users: map<nat, Users.User>
    var products: map<nat, Products.Product>
    var orders: map<nat, Order>
    /** The next identity value of each table. */
    var nextUserId: nat
    var nextProductId: nat
    var nextOrderId: nat

    /** The table invariants: ids below the identity counters, unique
        usernames and emails, products that meet their entity constraints,
        and stored orders that carry a unique number and a total equal to the
        sum of their subtotals. */
    ghost predicate Valid()
      reads this, orders.Values
    {
      && (forall id :: id in users ==> id < nextUserId)
      && (forall id :: id in products ==> id < nextProductId)
      && (forall id :: id in orders ==> id < nextOrderId)
      && Users.Unique(users)
      && Inventory.AllMeetConstraints(products)
      && (forall id :: id in orders ==> orders[id].Consistent())
      && (forall i, j :: i in orders && j in orders && i != j ==> orders[i].orderNumber != orders[j].orderNumber)
    }

    /** The order-number column already holds `orderNumber`. */
    predicate NumberTaken(orderNumber: string)
      reads this, orders.Values
    {
      exists id :: id in orders && orders[id].orderNumber == Some(orderNumber)
    }

    constructor Empty()
      ensures Valid()
      ensures users == map[] && products == map[] && orders == map[]
    {
      users, products, orders := map[], map[], map[];
      nextUserId, nextProductId, nextOrderId := 1, 1, 1;
    }

    // -------------------------------------------------------------------------
    // UserService

    /** createUser: a taken username is reported before a taken email; a
        new user gets the next id and a status of ACTIVE when none is given. */
    method CreateUser(d: Users.UserDto, now: int) returns (r: Result<nat>)
      requires Valid()
      modifies this
      ensures Valid()
      ensures products == old(products) && orders == old(orders)
      ensures nextProductId == old(nextProductId) && nextOrderId == old(nextOrderId)
      ensures Users.CreateCheck(old(users), d).Err? ==>
                && r == Err(Users.CreateCheck(old(users), d).error)
                && users == old(users) && nextUserId == old(nextUserId)
      ensures Users.CreateCheck(old(users), d).Ok? ==>
                && r == Ok(old(nextUserId)) && old(nextUserId) !in old(users)
                && users == old(users)[old(nextUserId) := Users.ToEntity(d, now)]
                && nextUserId == old(nextUserId) + 1
    {
      if Users.UsernameTaken(users, d.username) {
        return Err(Duplicate(Username));
      }
      if Users.EmailTaken(users, d.email) {
        return Err(Duplicate(Email));
      }
      var id := nextUserId;
      Users.InsertKeepsUnique(users, id, d, now);
      users := users[id := Users.ToEntity(d, now)];
      nextUserId := nextUserId + 1;
      r := Ok(id);
    }

    /** updateUser: an unknown id is NotFound; a changed username or email
        that another user holds is Duplicate; otherwise the four fields are
        overwritten and nothing else changes. */
    method UpdateUser(id: nat, d: Users.UserDto) returns (r: Result<Users.User>)
      requires Valid()
      modifies this
      ensures Valid()
      ensures products == old(products) && orders == old(orders)
      ensures nextUserId == old(nextUserId) && nextProductId == old(nextProductId) && nextOrderId == old(nextOrderId)
      ensures id !in old(users) ==> r == Err(NotFound) && users == old(users)
      ensures id in old(users) && Users.UpdateCheck(old(users), id, d).Err? ==>
                r == Err(Users.UpdateCheck(old(users), id, d).error) && users == old(users)
      ensures id in old(users) && Users.UpdateCheck(old(users), id, d).Ok? ==>
                && users == old(users)[id := Users.Overwritten(old(users)[id], d)]
                && r == Ok(users[id])
    {
      if id !in users {
        return Err(NotFound);
      }
      var existing := users[id];
      if existing.username != d.username && Users.UsernameTaken(users, d.username) {
        return Err(Duplicate(Username));
      }
      if existing.email != d.email && Users.EmailTaken(users, d.email) {
        return Err(Duplicate(Email));
      }
      Users.OverwriteKeepsUnique(users, id, d);
      users := users[id := Users.Overwritten(existing, d)];
      r := Ok(users[id]);
    }

    /** deleteUser: an unknown id is NotFound; otherwise exactly that user is removed. */
    method DeleteUser(id: nat) returns (r: Result<()>)
      requires Valid()
      modifies this
      ensures Valid()
      ensures products == old(products) && orders == old(orders)
      ensures nextUserId == old(nextUserId) && nextProductId == old(nextProductId) && nextOrderId == old(nextOrderId)
      ensures id !in old(users) ==> r == Err(NotFound) && users == old(users)
      ensures id in old(users) ==> r == Ok(()) && users == old(users) - {id}
    {
      if id !in users {
        return Err(NotFound);
      }
      users := users - {id};
      r := Ok(());
    }

    // -------------------------------------------------------------------------
    // ProductService

    /** createProduct: no uniqueness check; the request becomes a row under the
        next id unless it violates the entity constraints. */
    method CreateProduct(d: Products.ProductDto, now: int) returns (r: Result<nat>)
      requires Valid()
      modifies this
      ensures Valid()
      ensures users == old(users) && orders == old(orders)
      ensures nextUserId == old(nextUserId) && nextOrderId == old(nextOrderId)
      ensures Products.ToEntity(d, now).Err? ==>
                && r == Err(ConstraintViolation)
                && products == old(products) && nextProductId == old(nextProductId)
      ensures Products.ToEntity(d, now).Ok? ==>
                && r == Ok(old(nextProductId)) && old(nextProductId) !in old(products)
                && products == old(products)[old(nextProductId) := Products.ToEntity(d, now).value]
                && nextProductId == old(nextProductId) + 1
    {
      var entity := Products.ToEntity(d, now);
      if entity.Err? {
        return Err(entity.error);
      }
      var id := nextProductId;
      products := products[id := entity.value];
      nextProductId := nextProductId + 1;
      r := Ok(id);
    }

    /** updateProduct: an unknown id is NotFound; otherwise the five fields are
        overwritten (the stock to any value at all) unless the result violates
        the entity constraints. */
    method UpdateProduct(id: nat, d: Products.ProductDto) returns (r: Result<Products.Product>)
      requires Valid()
      modifies this
      ensures Valid()
      ensures users == old(users) && orders == old(orders)
      ensures nextUserId == old(nextUserId) && nextProductId == old(nextProductId) && nextOrderId == old(nextOrderId)
      ensures id !in old(products) ==> r == Err(NotFound) && products == old(products)
      ensures id in old(products) && Products.Overwritten(old(products)[id], d).Err? ==>
                r == Err(ConstraintViolation) && products == old(products)
      ensures id in old(products) && Products.Overwritten(old(products)[id], d).Ok? ==>
                && products == old(products)[id := Products.Overwritten(old(products)[id], d).value]
                && r == Ok(products[id])
    {
      if id !in products {
        return Err(NotFound);
      }
      var updated := Products.Overwritten(products[id], d);
      if updated.Err? {
        return Err(updated.error);
      }
      products := products[id := updated.value];
      r := Ok(updated.value);
    }

    /** deleteProduct: an unknown id is NotFound; otherwise exactly that product is removed. */
    method DeleteProduct(id: nat) returns (r: Result<()>)
      requires Valid()
      modifies this
      ensures Valid()
      ensures users == old(users) && orders == old(orders)
      ensures nextUserId == old(nextUserId) && nextProductId == old(nextProductId) && nextOrderId == old(nextOrderId)
      ensures id !in old(products) ==> r == Err(NotFound) && products == old(products)
      ensures id in old(products) ==> r == Ok(()) && products == old(products) - {id}
    {
      if id !in products {
        return Err(NotFound);
      }
      products := products - {id};
      r := Ok(());
    }

    // -------------------------------------------------------------------------
    // OrderService

    /** getOrderById: the stored order as shown to clients; its total is the
        sum of the subtotals it shows. */
    function GetOrderById(id: nat): (r: Result<OrderView>)
      requires Valid()
      reads this, orders.Values
      ensures r.Ok? <==> id in orders
      ensures r.Ok? ==> r.value == orders[id].View(id) && SumViewSubtotals(r.value.items) == r.value.totalAmount
      ensures r.Err? ==> r.error == NotFound
    {
      if id in orders then Ok(orders[id].View(id)) else Err(NotFound)
    }

    /** getOrderByOrderNumber: scans the order table for the number; as order
        numbers are unique, a match is the one order that has it. */
    method GetOrderByOrderNumber(orderNumber: string) returns (r: Result<OrderView>)
      requires Valid()
      ensures r.Ok? <==> NumberTaken(orderNumber)
      ensures forall id :: id in orders && orders[id].orderNumber == Some(orderNumber) ==> r == Ok(orders[id].View(id))
      ensures r.Err? ==> r.error == NotFound
    {
      var pending := orders.Keys;
      while pending != {}
        invariant pending <= orders.Keys
        invariant forall id :: id in orders && id !in pending ==> orders[id].orderNumber != Some(orderNumber)
        decreases pending
      {
        var id :| id in pending;
        if orders[id].orderNumber == Some(orderNumber) {
          return Ok(orders[id].View(id));
        }
        pending := pending - {id};
      }
      return Err(NotFound);
    }

    /** createOrder: the user must exist (checked before any product is read);
        the requests are then reserved in order; on success the order holds
        one line per request with the price snapshot, a total equal to the sum
        of the subtotals, the given status (PENDING when none) and a number
        made from the clock. A failure, including a clash of order numbers on
        insert, rolls every stock back. */
    method CreateOrder(userId: nat, requests: seq<ItemRequest>, status: Option<OrderStatus>, now: nat)
      returns (r: Result<nat>)
      requires Valid()
      modifies this
      ensures Valid()
      ensures users == old(users) && nextUserId == old(nextUserId) && nextProductId == old(nextProductId)
      ensures userId !in old(users) ==> r == Err(NotFound)
      ensures userId in old(users) && Inventory.Reserve(old(products), requests).Err? ==>
                r == Err(Inventory.Reserve(old(products), requests).error)
      ensures userId in old(users) && Inventory.Reserve(old(products), requests).Ok? ==>
                (r.Ok? <==> !old(NumberTaken(OrderNumberFor(now))))
      ensures userId in old(users) && Inventory.Reserve(old(products), requests).Ok? && old(NumberTaken(OrderNumberFor(now))) ==>
                r == Err(Internal)
      ensures r.Err? ==> products == old(products) && orders == old(orders) && nextOrderId == old(nextOrderId)
      ensures r.Ok? ==> userId in old(users) && Inventory.Reserve(old(products), requests).Ok?
      ensures r.Ok? ==>
                var res := Inventory.Reserve(old(products), requests).value;
                && r.value == old(nextOrderId) && r.value !in old(orders) && nextOrderId == old(nextOrderId) + 1
                && r.value in orders && orders == old(orders)[r.value := orders[r.value]] && fresh(orders[r.value])
                && products == res.products
                && orders[r.value].userId == userId
                && orders[r.value].items == res.lines
                && orders[r.value].totalAmount == SumSubtotals(res.lines)
                && orders[r.value].status == status.GetOr(Pending)
                && orders[r.value].orderNumber == Some(OrderNumberFor(now))
    {
      if userId !in users {
        return Err(NotFound);
      }
      var reserved := ReserveItems(products, requests);
      if reserved.Err? {
        return Err(reserved.error);
      }
      var (reservation, total) := reserved.value;
      var order := NewOrder(userId, status, reservation.lines, total, now);
      if NumberTaken(order.orderNumber.value) {
        return Err(Internal);
      }
      Inventory.ReserveKeepsConstraints(products, requests);
      var id := AddOrder(order, reservation.products);
      r := Ok(id);
    }

    /** The commit of createOrder: the reduced stock is written back and the
        order is saved under the next id. */
    method AddOrder(order: Order, reduced: Inventory.ProductTable) returns (id: nat)
      requires Valid()
      requires order.Consistent() && !NumberTaken(order.orderNumber.value)
      requires reduced.Keys == products.Keys && Inventory.AllMeetConstraints(reduced)
      modifies this
      ensures Valid()
      ensures id == old(nextOrderId) && id !in old(orders) && nextOrderId == old(nextOrderId) + 1
      ensures orders == old(orders)[id := order] && products == reduced
      ensures users == old(users) && nextUserId == old(nextUserId) && nextProductId == old(nextProductId)
    {
      id := nextOrderId;
      products := reduced;
      orders := orders[id := order];
      nextOrderId := nextOrderId + 1;
    }

    /** updateOrderStatus: an unknown id is NotFound; otherwise the status is
        set to the given value from any status whatsoever, and nothing else
        changes. */
    method UpdateOrderStatus(id: nat, status: OrderStatus) returns (r: Result<OrderView>)
      requires Valid()
      modifies if id in orders then {orders[id]} else {}
      ensures Valid()
      ensures id !in orders ==> r == Err(NotFound)
      ensures id in orders ==>
                && orders[id].status == status
                && orders[id].items == old(orders[id].items)
                && orders[id].totalAmount == old(orders[id].totalAmount)
                && orders[id].orderNumber == old(orders[id].orderNumber)
                && orders[id].userId == old(orders[id].userId)
                && r == Ok(orders[id].View(id))
    {
      if id !in orders {
        return Err(NotFound);
      }
      var order := orders[id];
      order.status := status;
      r := Ok(order.View(id));
    }

    /** cancelOrder: an unknown id is NotFound; a DELIVERED order is refused
        with nothing changed; otherwise every item's quantity goes back to its
        product and the order becomes CANCELLED. An order that is already
        CANCELLED is not refused. */
    method CancelOrder(id: nat) returns (r: Result<()>)
      requires Valid()
      modifies this, if id in orders then {orders[id]} else {}
      ensures Valid()
      ensures users == old(users) && orders == old(orders)
      ensures nextUserId == old(nextUserId) && nextProductId == old(nextProductId) && nextOrderId == old(nextOrderId)
      ensures id !in orders ==> r == Err(NotFound) && products == old(products)
      ensures id in orders && old(orders[id].status) == Delivered ==>
                r == Err(IllegalState) && products == old(products) && orders[id].status == Delivered
      ensures id in orders && old(orders[id].status) != Delivered ==>
                && r == Ok(())
                && products == Inventory.Release(old(products), old(orders[id].items))
                && orders[id].status == Cancelled
      ensures id in orders ==>
                && orders[id].items == old(orders[id].items)
                && orders[id].totalAmount == old(orders[id].totalAmount)
                && orders[id].orderNumber == old(orders[id].orderNumber)
                && orders[id].userId == old(orders[id].userId)
    {
      if id !in orders {
        return Err(NotFound);
      }
      var order := orders[id];
      if order.status == Delivered {
        return Err(IllegalState);
      }
      products := RestoreItems(products, order.items);
      Inventory.ReleaseKeepsConstraints(old(products), order.items);
      order.status := Cancelled;
      r := Ok(());
    }
  }

  /** The order built by createOrder: the builder's default status unless one
      is given, the reserved lines and their total, and a number generated at
      the clock reading `now`. */
  method NewOrder(userId: nat, status: Option<OrderStatus>, lines: seq<OrderItem>, total: Cents, now: nat)
    returns (order: Order)
    requires total == SumSubtotals(lines)
    ensures fresh(order) && order.Consistent()
    ensures order.userId == userId && order.status == status.GetOr(Pending)
    ensures order.items == lines && order.totalAmount == total
    ensures order.orderNumber == Some(OrderNumberFor(now))
  {
    order := new Order.Build(userId, Some(status.GetOr(DefaultStatus)));
    order.items := lines;
    order.totalAmount := total;
    order.GenerateOrderNumber(now);
  }

  /** createOrder's loop over the requested items, run on the transaction's
      copy of the product table: each product is looked up and its stock
      checked, a line with the current price is appended, the subtotal is
      added to the running total and the stock is reduced. The first failing
      item stops the loop; the copy is then discarded by the caller. */
  method ReserveItems(products: Inventory.ProductTable, requests: seq<ItemRequest>)
    returns (r: Result<(Inventory.Reservation, Cents)>)
    ensures r.Err? ==> Inventory.Reserve(products, requests) == Err(r.error)
    ensures r.Ok? ==> && Inventory.Reserve(products, requests) == Ok(r.value.0)
                      && r.value.1 == SumSubtotals(r.value.0.lines)
  {
    var working: Inventory.ProductTable := products;
    var lines: seq<OrderItem> := [];
    var total: Cents := 0;
    var i := 0;
    while i < |requests|
      invariant 0 <= i <= |requests|
      invariant Inventory.Reserve(products, requests[..i]) == Ok(Inventory.Reservation(working, lines))
      invariant total == SumSubtotals(lines)
    {
      var request := requests[i];
      assert requests[..i + 1][..i] == requests[..i];
      if request.productId !in working {
        Inventory.ReserveErrPersists(products, requests, i + 1);
        return Err(NotFound);
      }
      var product := working[request.productId];
      if product.stockQuantity < request.quantity {
        Inventory.ReserveErrPersists(products, requests, i + 1);
        return Err(InsufficientStock);
      }
      var line := OrderItem(request.productId, request.quantity, product.price);
      var reduced := working[request.productId := product.(stockQuantity := product.stockQuantity - request.quantity)];
      assert Inventory.Take(working, request) == Ok((reduced, line));
      total := total + Subtotal(line);
      working := reduced;
      lines := lines + [line];
      i := i + 1;
    }
    assert requests[..i] == requests;
    r := Ok((Inventory.Reservation(working, lines), total));
  }

  /** cancelOrder's loop over the order's items, run on the transaction's
      copy of the product table: each item's quantity is added back to the
      stock of its product; an item whose product no longer exists is
      skipped. */
  method RestoreItems(products: Inventory.ProductTable, items: seq<OrderItem>) returns (restored: Inventory.ProductTable)
    ensures restored == Inventory.Release(products, items)
    ensures restored.Keys == products.Keys
  {
    restored := products;
    var i := 0;
    while i < |items|
      invariant 0 <= i <= |items|
      invariant restored == Inventory.Release(products, items[..i])
      invariant restored.Keys == products.Keys
    {
      var item := items[i];
      assert items[..i + 1][..i] == items[..i];
      if item.productId in restored {
        var product := restored[item.productId];
        restored := restored[item.productId := product.(stockQuantity := product.stockQuantity + item.quantity)];
      }
      i := i + 1;
    }
    assert items[..i] == items;
  }

  /** Placing an order and cancelling it straight away leaves every product
      as it was. */
  method PlaceThenCancel(s: Store, userId: nat, requests: seq<ItemRequest>, now: nat) returns (r: Result<nat>)
    requires s.Valid()
    modifies s
    ensures s.Valid()
    ensures r.Ok? ==> s.products == old(s.products) && r.value in s.orders && s.orders[r.value].status == Cancelled
    ensures r.Err? ==> s.products == old(s.products)
  {
    r := s.CreateOrder(userId, requests, None, now);
    if r.Ok? {
      var cancelled := s.CancelOrder(r.value);
      Inventory.CreateThenCancelRestores(old(s.products), requests);
    }
  }
}
