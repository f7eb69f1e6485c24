/** The order entity (models/Order.java): its status enum, its line items, the
    order-number format, and the mutable Order object with its builder
    defaults and its pre-persist number generator. */
module Orders {
  import opened Common

  datatype OrderStatus = Pending | Confirmed | Shipped | Delivered | Cancelled

  const DefaultStatus: OrderStatus := Pending
  const OrderNumberPrefix: string := "ORD-"

  /** One requested line of a new order (OrderItemDTO as sent by a client). */
  datatype ItemRequest = ItemRequest(productId: nat, quantity: int)

  /** A line item: the product, the quantity and the unit price copied from
      the product when the order was placed. */
  datatype OrderItem = OrderItem(productId: nat, quantity: int, unitPrice: Cents)

  /** `OrderItem.calculateSubtotal`, taken to be quantity times unit price. */
  function Subtotal(item: OrderItem): Cents {
    item.quantity * item.unitPrice
  }

  /** The sum of the subtotals of a list of line items. */
  function SumSubtotals(items: seq<OrderItem>): Cents {
    if items == [] then 0 else SumSubtotals(items[..|items| - 1]) + Subtotal(items[|items| - 1])
  }

  /** The quantity of one product over a list of line items. */
  function Ordered(items: seq<OrderItem>, productId: nat): int {
    if items == [] then 0
    else Ordered(items[..|items| - 1], productId)
         + (if items[|items| - 1].productId == productId then items[|items| - 1].quantity else 0)
  }

  // ---------------------------------------------------------------------------
  // Order numbers: "ORD-" followed by the decimal digits of a millisecond clock.

  predicate IsDigit(c: char) {
    '0' <= c <= '9'
  }

  predicate AllDigits(s: string) {
    forall i :: 0 <= i < |s| ==> IsDigit(s[i])
  }

  function DigitChar(d: nat): (c: char)
    requires d < 10
    ensures IsDigit(c)
  {
    (48 + d) as char
  }

  /** `Long.toString` of a non-negative number: its decimal digits, most
      significant first, without leading zeros. */
  function Decimal(n: nat): (s: string)
    ensures |s| >= 1 && AllDigits(s)
    ensures |s| > 1 ==> s[0] != '0'
    decreases n
  {
    if n < 10 then [DigitChar(n)] else Decimal(n / 10) + [DigitChar(n % 10)]
  }

  /** The value of a string of decimal digits. */
  function DecimalValue(s: string): nat
    requires AllDigits(s)
  {
    if s == [] then 0 else DecimalValue(s[..|s| - 1]) * 10 + (s[|s| - 1] as int - 48)
  }

  lemma {:induction false} DecimalRoundTrip(n: nat)
    ensures DecimalValue(Decimal(n)) == n
    decreases n
  {
    if n >= 10 {
      DecimalRoundTrip(n / 10);
      var s := Decimal(n / 10) + [DigitChar(n % 10)];
      assert s[..|s| - 1] == Decimal(n / 10);
    }
  }

  /** `"ORD-" + System.currentTimeMillis()`, with the clock reading passed in. */
  function OrderNumberFor(millis: nat): (s: string)
    ensures |s| > |OrderNumberPrefix| && s[..|OrderNumberPrefix|] == OrderNumberPrefix
    ensures AllDigits(s[|OrderNumberPrefix|..])
  {
    var s := OrderNumberPrefix + Decimal(millis);
    assert s[|OrderNumberPrefix|..] == Decimal(millis);
    s
  }

  /** Recovers the clock reading from an order number, if it has the format. */
  function ParseOrderNumber(s: string): (r: Option<nat>)
    ensures r.None? ==> forall m :: s != OrderNumberFor(m)
  {
    var n := |OrderNumberPrefix|;
    if |s| > n && s[..n] == OrderNumberPrefix && AllDigits(s[n..]) then Some(DecimalValue(s[n..])) else None
  }

  /** Stripping the prefix of a generated number and parsing the rest gives
      back the timestamp it was generated from. */
  lemma OrderNumberRoundTrip(millis: nat)
    ensures ParseOrderNumber(OrderNumberFor(millis)) == Some(millis)
  {
    var s := OrderNumberFor(millis);
    assert s[|OrderNumberPrefix|..] == Decimal(millis);
    DecimalRoundTrip(millis);
  }

  /** Different clock readings give different order numbers; two orders can
      clash only when generated in the same millisecond. */
  lemma OrderNumberInjective(a: nat, b: nat)
    ensures OrderNumberFor(a) == OrderNumberFor(b) <==> a == b
  {
    OrderNumberRoundTrip(a);
    OrderNumberRoundTrip(b);
  }

  /** `generateOrderNumber` as a function of the current number: a number is
      assigned only when there is none, and an existing one is kept. */
  function AssignNumber(current: Option<string>, now: nat): (r: Option<string>)
    ensures r.Some?
    ensures current.Some? ==> r == current
    ensures current.None? ==> ParseOrderNumber(r.value) == Some(now)
  {
    OrderNumberRoundTrip(now);
    if current.None? then Some(OrderNumberFor(now)) else current
  }

  /** Generating the number a second time, at any later clock reading,
      changes nothing. */
  lemma AssignNumberIdempotent(current: Option<string>, t1: nat, t2: nat)
    ensures AssignNumber(AssignNumber(current, t1), t2) == AssignNumber(current, t1)
  {
  }

  /** The order as returned to clients (OrderDTO without the display fields). */
  datatype OrderView = OrderView(
    id: nat,
    orderNumber: Option<string>,
    userId: nat,
    items: seq<ItemView>,
    totalAmount: Cents,
    status: OrderStatus)

  /** A line item as returned to clients (OrderItemDTO). */
  datatype ItemView = ItemView(productId: nat, quantity: int, unitPrice: Cents, subtotal: Cents)

  /** `convertOrderItemToDTO` */
  function ItemViewOf(item: OrderItem): ItemView {
    ItemView(item.productId, item.quantity, item.unitPrice, Subtotal(item))
  }

  /** `convertToDTO` maps the items one by one, keeping their order. */
  function ItemViews(items: seq<OrderItem>): (r: seq<ItemView>)
    ensures |r| == |items|
    ensures forall k :: 0 <= k < |items| ==>
              && r[k].productId == items[k].productId
              && r[k].quantity == items[k].quantity
              && r[k].unitPrice == items[k].unitPrice
              && r[k].subtotal == Subtotal(items[k])
  {
    seq(|items|, k requires 0 <= k < |items| => ItemViewOf(items[k]))
  }

  /** The sum of the subtotals shown to clients. */
  function SumViewSubtotals(views: seq<ItemView>): Cents {
    if views == [] then 0 else SumViewSubtotals(views[..|views| - 1]) + views[|views| - 1].subtotal
  }

  /** Converting items to their views keeps their total. */
  lemma {:induction false} ItemViewsKeepTotal(items: seq<OrderItem>)
    ensures SumViewSubtotals(ItemViews(items)) == SumSubtotals(items)
    decreases |items|
  {
    if items != [] {
      var init := items[..|items| - 1];
      ItemViewsKeepTotal(init);
      assert ItemViews(items)[..|items| - 1] == ItemViews(init);
    }
  }

  /** An order entity as held in memory during a service call. */
  class Order {
    var orderNumber: Option<string>
    var userId: nat
    var items: seq<OrderItem>
    var totalAmount: Cents
    var status: OrderStatus

    /** `Order.builder().user(user)[.status(s)].build()`: with no status given
        the order is PENDING; it has no items, total 0 and no number yet. */
    constructor Build(userId: nat, initialStatus: Option<OrderStatus>)
      ensures this.userId == userId
      ensures status == initialStatus.GetOr(Pending)
      ensures items == [] && totalAmount == 0 && orderNumber == None
    {
      this.userId := userId;
      this.status := initialStatus.GetOr(DefaultStatus);
      this.items := [];
      this.totalAmount := 0;
      this.orderNumber := None;
    }

    /** `@PrePersist generateOrderNumber`, with the clock reading passed in. */
    method GenerateOrderNumber(now: nat)
      modifies this`orderNumber
      ensures orderNumber == AssignNumber(old(orderNumber), now)
    {
      if orderNumber == None {
        orderNumber := Some(OrderNumberFor(now));
      }
    }

    /** A stored order carries its number and a total equal to the sum of the
        subtotals of its items. */
    ghost predicate Consistent()
      reads this
    {
      orderNumber.Some? && totalAmount == SumSubtotals(items)
    }

    /** `convertToDTO` for the order stored under `id`. */
    function View(id: nat): (v: OrderView)
      reads this
      ensures v.id == id && v.orderNumber == orderNumber && v.userId == userId
      ensures v.items == ItemViews(items) && v.totalAmount == totalAmount && v.status == status
      ensures Consistent() ==> SumViewSubtotals(v.items) == v.totalAmount
    {
      ItemViewsKeepTotal(items);
      OrderView(id, orderNumber, userId, ItemViews(items), totalAmount, status)
    }
  }
}
