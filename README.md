# Order management REST API — a verified model of its service core

The system is a Spring Boot REST service that keeps three tables: users,
products and orders. Placing an order checks that the user exists, walks the
requested items in order, takes each item's quantity from the product's stock
(refusing the order when the stock is short), copies the product's current
price into a line item, and stores the order with a total equal to the sum of
its line subtotals and a number of the form `ORD-<milliseconds>`. Cancelling
an order gives the quantities back unless the order was delivered. Users
have unique usernames and emails. Products carry entity constraints: a
non-blank name, a bounded description and a positive price.

The model is written in Dafny in six modules:

- `Common`: money as integer cents, the error kinds the service raises
  (not found, duplicate, insufficient stock, illegal state, constraint
  violation, internal), `Option`, `Result`, and lookup by id.
- `Products`: the product entity with its defaults and constraints, the
  conversions used by create and update, and the two filtering queries.
- `Users`: the user record, the conversions, the uniqueness guards of create
  and update, and the lookup by username.
- `Orders`: the order status enum, line items, the order-number format and
  its parser, the client view of an order, and the mutable `Order` entity
  with its builder defaults and its number generator.
- `Inventory`: what createOrder's item loop and cancelOrder's item loop do
  to the product table, as functions. Lemmas about them cover stock
  accounting, non-negative stock, the first failing item, and restoring
  stock on cancel.
- `Store`: a class holding the three tables. Its methods model the write
  operations of UserService, ProductService and OrderService. The two item
  loops are methods proved against the `Inventory` functions.

All three service classes are annotated `@Transactional`, so an exception
rolls back every write of the call. The model follows the code: every
`Store` method either succeeds or leaves all tables unchanged. For
createOrder this means an item rejected late in the list also undoes the
stock already taken for earlier items.

## Model

| member | source | states |
|---|---|---|
| Common.Lookup | src/main/java/com/dinidu/restapi/services/UserService.java:32-33 | `findById(..).orElseThrow(..)`, as used by getUserById, getProductById and getOrderById: it succeeds exactly when the id is in the table, with that row; otherwise the error is NotFound |
| Products.MeetsConstraints | src/main/java/com/dinidu/restapi/models/Product.java:33-44 | a row meeting the entity constraints has a name of 1 to 100 characters and a price of at least one cent |
| Products.Built | src/main/java/com/dinidu/restapi/models/Product.java:46-53 | a product built without stock or status gets stock 0 and status AVAILABLE, and keeps the given name, description and price |
| Products.Validated | src/main/java/com/dinidu/restapi/models/Product.java:33-49 | a row is accepted exactly when price and stock are present and the row meets the entity constraints (non-blank name of at most 100 characters, description of at most 500, price > 0); otherwise ConstraintViolation |
| Products.ToEntity | src/main/java/com/dinidu/restapi/services/ProductService.java:108-116 | the stored row copies the request's fields, price and stock; a missing status becomes AVAILABLE; the request is accepted exactly when price and stock are present and the row meets the constraints, otherwise ConstraintViolation |
| Products.Overwritten | src/main/java/com/dinidu/restapi/services/ProductService.java:54-58 | updateProduct overwrites exactly name, description, price, stock and status, a null status included; the creation time is kept; it is accepted exactly when price and stock are present and the row meets the constraints, whatever the stock value, otherwise ConstraintViolation |
| Products.LowStock | src/main/java/com/dinidu/restapi/services/ProductService.java:87-93 | a product is listed exactly when its stock is strictly below the threshold, and it is listed unchanged |
| Products.InPriceRange | src/main/java/com/dinidu/restapi/repository/ProductRepository.java:21 | a product is listed exactly when min ≤ price ≤ max (inclusive at both ends), and it is listed unchanged |
| Users.UsernameTaken | src/main/java/com/dinidu/restapi/repository/UserRepository.java:17 | `existsByUsername` holds exactly when some stored user has that username |
| Users.EmailTaken | src/main/java/com/dinidu/restapi/repository/UserRepository.java:18 | `existsByEmail` holds exactly when some stored user has that email |
| Users.ToEntity | src/main/java/com/dinidu/restapi/services/UserService.java:116-123 | the new user copies username, email and full name; a missing status becomes ACTIVE |
| Users.Overwritten | src/main/java/com/dinidu/restapi/services/UserService.java:79-82 | updateUser overwrites exactly username, email, full name and status, a null status included; the creation time is kept |
| Users.CreateCheck | src/main/java/com/dinidu/restapi/services/UserService.java:48-54 | createUser may go ahead exactly when neither the username nor the email is taken; a taken username gives Duplicate(Username) even if the email is also taken; otherwise a taken email gives Duplicate(Email) |
| Users.UpdateCheck | src/main/java/com/dinidu/restapi/services/UserService.java:69-77 | a username or email is checked only when it changes, so keeping one's own passes; the update may go ahead exactly when every changed value is free; the username error is reported first |
| Users.InsertKeepsUnique | src/main/java/com/dinidu/restapi/services/UserService.java:48-57 | inserting a user that passed createUser's guard keeps usernames and emails unique |
| Users.OverwriteKeepsUnique | src/main/java/com/dinidu/restapi/services/UserService.java:69-84 | overwriting a user that passed updateUser's guard keeps usernames and emails unique |
| Users.FindByUsername | src/main/java/com/dinidu/restapi/services/UserService.java:38-43 | succeeds exactly when some user has the username, returning such a user; otherwise NotFound; with unique usernames the result is that one user |
| Orders.Decimal | src/main/java/com/dinidu/restapi/models/Order.java:60 | the decimal text of a millisecond count is a non-empty string of digits with no leading zero |
| Orders.DecimalRoundTrip | src/main/java/com/dinidu/restapi/models/Order.java:60 | reading back the decimal text of n gives n |
| Orders.OrderNumberFor | src/main/java/com/dinidu/restapi/models/Order.java:60 | an order number is `ORD-` followed by at least one digit and nothing else |
| Orders.ParseOrderNumber | src/main/java/com/dinidu/restapi/models/Order.java:60 | a string the parser rejects is not the number of any clock reading |
| Orders.OrderNumberRoundTrip | src/main/java/com/dinidu/restapi/models/Order.java:60 | stripping `ORD-` from a generated number and parsing the rest gives back the timestamp |
| Orders.OrderNumberInjective | src/main/java/com/dinidu/restapi/models/Order.java:59-60 | two generated numbers are equal exactly when their timestamps are equal |
| Orders.AssignNumber | src/main/java/com/dinidu/restapi/models/Order.java:57-62 | afterwards a number is always present; an existing number is kept; a new one parses back to the current clock reading |
| Orders.AssignNumberIdempotent | src/main/java/com/dinidu/restapi/models/Order.java:58-61 | generating the number again, at any later time, changes nothing |
| Orders.ItemViews | src/main/java/com/dinidu/restapi/services/OrderService.java:151-154 | the client view has one item per line item, in the same order, each with its product, quantity, unit price and subtotal |
| Orders.ItemViewsKeepTotal | src/main/java/com/dinidu/restapi/services/OrderService.java:169-178 | the subtotals shown to the client add up to the sum of the line subtotals |
| Orders.Order.Build | src/main/java/com/dinidu/restapi/models/Order.java:38-48 | a freshly built order has the given user, the given status or PENDING, no items, total 0 and no number |
| Orders.Order.GenerateOrderNumber | src/main/java/com/dinidu/restapi/models/Order.java:57-62 | the pre-persist hook sets the number as `AssignNumber` describes and changes no other field |
| Orders.Order.View | src/main/java/com/dinidu/restapi/services/OrderService.java:151-167 | the client view copies id, number, user, items, total and status; for a consistent order its shown subtotals add up to its total |
| Inventory.Take | src/main/java/com/dinidu/restapi/services/OrderService.java:72-96 | one item succeeds exactly when its product exists with stock ≥ the quantity; otherwise NotFound for a missing product and InsufficientStock for short stock; on success only that product's stock falls, by the quantity, and the line carries the product's current price |
| Inventory.Reserve | src/main/java/com/dinidu/restapi/services/OrderService.java:71-97 | the item loop fails only with NotFound or InsufficientStock, and on success yields one line per request |
| Inventory.Restore | src/main/java/com/dinidu/restapi/services/OrderService.java:129-131 | giving one item back raises only its product's stock, by the item's quantity, and skips a product that is no longer in the table; the ids are kept |
| Inventory.Release | src/main/java/com/dinidu/restapi/services/OrderService.java:128-132 | the restoring loop over an order's items keeps the table's ids |
| Inventory.ReserveShape | src/main/java/com/dinidu/restapi/services/OrderService.java:71-97 | after a successful reservation each product's stock has fallen by exactly the total quantity requested for it and nothing else changed; there is one line per request, in request order, with the price the product had before the call; an empty request list changes nothing |
| Inventory.ReserveOkIff | src/main/java/com/dinidu/restapi/services/OrderService.java:72-77 | the reservation succeeds exactly when every request's product exists and still holds at least the requested quantity after earlier requests for it; a quantity equal to the stock passes |
| Inventory.ReserveErrAtFirstMisfit | src/main/java/com/dinidu/restapi/services/OrderService.java:71-78 | a failed reservation reports the error of the first request that does not fit: NotFound for a missing product, InsufficientStock otherwise |
| Inventory.ReserveErrPersists | src/main/java/com/dinidu/restapi/services/OrderService.java:71-78 | once a prefix of the requests fails, the whole list fails with the same error |
| Inventory.ReserveKeepsStockNonNegative | src/main/java/com/dinidu/restapi/services/OrderService.java:76-93 | every product taken from is left with stock ≥ 0; a table with no negative stock keeps none |
| Inventory.ReserveKeepsConstraints | src/main/java/com/dinidu/restapi/services/OrderService.java:93-94 | a reservation keeps the table's ids and keeps every product meeting the entity constraints |
| Inventory.ReserveTotalIsQuote | src/main/java/com/dinidu/restapi/services/OrderService.java:85-90 | the sum of the line subtotals equals the quantities times the prices in the table before the call |
| Inventory.ReleaseShape | src/main/java/com/dinidu/restapi/services/OrderService.java:128-132 | releasing keeps the table's ids and raises each product's stock by exactly the quantity of it in the items |
| Inventory.OrderedMatchesRequested | src/main/java/com/dinidu/restapi/services/OrderService.java:81-86 | line items built one per request carry, per product, the same total quantity as the requests |
| Inventory.CreateThenCancelRestores | src/main/java/com/dinidu/restapi/services/OrderService.java:128-132 | releasing the lines of a successful reservation from the reduced table gives back the original table exactly |
| Inventory.CancelTwiceReleasesTwice | src/main/java/com/dinidu/restapi/services/OrderService.java:123-132 | releasing the same items twice raises each stock by twice the ordered quantity, because nothing guards an order that is already cancelled |
| Inventory.ReleaseKeepsStockNonNegative | src/main/java/com/dinidu/restapi/services/OrderService.java:128-132 | releasing items with non-negative quantities keeps all stock non-negative |
| Inventory.ReleaseKeepsConstraints | src/main/java/com/dinidu/restapi/services/OrderService.java:128-131 | releasing keeps every product meeting the entity constraints |
| Store.Store.CreateUser | src/main/java/com/dinidu/restapi/services/UserService.java:45-60 | a guard failure returns the guard's Duplicate error and changes nothing; otherwise the user is stored under a new id and the tables stay valid |
| Store.Store.UpdateUser | src/main/java/com/dinidu/restapi/services/UserService.java:62-87 | unknown id gives NotFound; a guard failure returns its error and changes nothing; otherwise exactly that user is overwritten and uniqueness is kept |
| Store.Store.DeleteUser | src/main/java/com/dinidu/restapi/services/UserService.java:89-96 | unknown id gives NotFound with nothing changed; otherwise exactly that id is removed |
| Store.Store.CreateProduct | src/main/java/com/dinidu/restapi/services/ProductService.java:39-46 | with no uniqueness check, the converted row is stored under a new id unless it violates the constraints, in which case nothing changes |
| Store.Store.UpdateProduct | src/main/java/com/dinidu/restapi/services/ProductService.java:48-63 | unknown id gives NotFound; otherwise exactly that row is overwritten, unless the result violates the constraints, in which case nothing changes |
| Store.Store.DeleteProduct | src/main/java/com/dinidu/restapi/services/ProductService.java:65-72 | unknown id gives NotFound with nothing changed; otherwise exactly that id is removed |
| Store.Store.GetOrderById | src/main/java/com/dinidu/restapi/services/OrderService.java:41-46 | succeeds exactly for a stored id, with that order's view, whose shown subtotals add up to its total; otherwise NotFound |
| Store.Store.GetOrderByOrderNumber | src/main/java/com/dinidu/restapi/services/OrderService.java:49-54 | succeeds exactly when some order has the number; as numbers are unique, the result is that order's view; otherwise NotFound |
| Store.Store.CreateOrder | src/main/java/com/dinidu/restapi/services/OrderService.java:56-103 | an unknown user gives NotFound before any product is read; a failing item gives that item's error; a clashing order number gives Internal; every failure leaves all tables unchanged. On success the stock is as `Inventory.Reserve` computes, the order holds the reserved lines and their total, with the given status or PENDING and a number made from the clock, under a new id |
| Store.Store.AddOrder | src/main/java/com/dinidu/restapi/services/OrderService.java:99-100 | saving a consistent order with an unused number under the next id, together with the reduced stock, keeps the tables valid |
| Store.Store.UpdateOrderStatus | src/main/java/com/dinidu/restapi/services/OrderService.java:105-115 | unknown id gives NotFound; otherwise the status is set to the given value from any state, and no other field or table changes |
| Store.Store.CancelOrder | src/main/java/com/dinidu/restapi/services/OrderService.java:117-137 | unknown id gives NotFound; a DELIVERED order gives IllegalState with nothing changed; otherwise the stock is as `Inventory.Release` computes over the order's items and the order becomes CANCELLED, with its other fields kept |
| Store.NewOrder | src/main/java/com/dinidu/restapi/services/OrderService.java:64-67 | the built order has the user, the given status or PENDING, the lines, their total and a number made from the clock, so it is consistent |
| Store.ReserveItems | src/main/java/com/dinidu/restapi/services/OrderService.java:70-97 | the item loop returns exactly what `Inventory.Reserve` computes, with a running total equal to the sum of the line subtotals |
| Store.RestoreItems | src/main/java/com/dinidu/restapi/services/OrderService.java:128-132 | the restoring loop returns exactly what `Inventory.Release` computes, over the same ids |
| Store.PlaceThenCancel | src/main/java/com/dinidu/restapi/services/OrderService.java:93-130 | placing an order and then cancelling it leaves every product's stock as it was, and the order ends CANCELLED |

## Left out

- Controllers, HTTP status mapping, response envelopes, pagination and sorting: these are plumbing. The model keeps only the error kinds.
- getAllUsers, getAllProducts, getAllOrders, getOrdersByUserId and getOrdersByStatus: these are paged listings. The order of their results depends on the database and the pageable.
- searchUsers and searchProducts: `LIKE %name%` depends on database collation and case rules, which are not visible.
- Repositories are modelled as maps keyed by id, with identity counters for new ids. The database itself is not modelled.
- Concurrency: the read-check-write race between concurrent createOrder calls, and isolation levels. The model is single-threaded and keeps only per-call atomicity.
- The clock: `System.currentTimeMillis()` and the auditing timestamps are parameters (`now`). `updatedAt` is not modelled.
- Orders.OrderNumberFor: the clock parameter is a natural number. A negative clock reading, which would print a minus sign, is not modelled.
- Store.Store.CreateOrder: whether two orders receive the same number depends on the clock. The model therefore shows only that a clash fails the call (the unique column) and that the table stays clash-free. It cannot show that clashes do not happen.
- BigDecimal: money is integer cents. Sub-cent amounts and the precision 10 bound of the columns are not modelled.
- Inventory.Take: stock and quantities are unbounded integers. Java's 32-bit `Integer` overflow on a very large stock or quantity is not modelled.
- Products.MeetsConstraints: string lengths count characters, not UTF-16 code units.
- A null name, email, username or item list is not modelled. Those fields are plain strings and sequences.
- User.java, OrderItem.java and the product and order-item DTOs are not part of this model:
  - `UserStatus` has ACTIVE plus other named values.
  - A line subtotal is taken to be quantity × unit price.
  - The display fields of the views (the user's full name, the product name) and the line-item ids are not modelled.
- The DTO validation annotations (`@Valid`, `@Email` and the like) are not modelled. Only the constraints on the Product entity are enforced.
- Store.Store.DeleteProduct: in the database, deleting a product also deletes its order items (the `cascade = CascadeType.ALL` on the product's item list), while the orders keep their stored totals, so a stored total may then differ from the sum of its remaining items. The model does not cascade: an order keeps all its items, which is why `Valid()` (every total equals the sum of its subtotals) and the total stated by Store.Store.GetOrderById hold. cancelOrder skips an item whose product is no longer in the table.
- Store.Store.DeleteUser: whether deleting a user who has orders cascades, or fails on the orders' non-null user reference and rolls back, depends on User.java, which is not part of this model. The outcome is unknown, and the model lets the deletion succeed.
- Users.UsernameTaken, Users.EmailTaken, Users.FindByUsername and Store.Store.GetOrderByOrderNumber: the lookups `existsByUsername`, `existsByEmail`, `findByUsername` and `findByOrderNumber` are database equality queries, and the column collation is not visible. The model compares strings exactly, so under a case-insensitive collation the database would report a duplicate or a match where the model does not.
- Negative item quantities are not rejected by the code, and the model does not reject them either. Such an item raises stock when the order is placed.
