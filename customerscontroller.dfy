/**
 * The three read-only actions of `CustomersController`, each a function of a
 * database snapshot and the request's parameters. An action result is
 * `BadRequest`, `NotFound` or `Ok` with the response body. The clock reading
 * `DateTime.UtcNow` of the recent-customers action is the parameter `now`.
 */
module CustomersController {
  import opened Linq
  import opened Models
  import opened ShopDbContext

  datatype ActionResult<T> = BadRequest(message: string) | NotFound(message: string) | Ok(value: T)

  datatype CustomerDto = CustomerDto(id: int, fullName: string)
  datatype RecentCustomerDto = RecentCustomerDto(id: int, fullName: string, lastPurchase: Timestamp)
  datatype CategoryDemandDto = CategoryDemandDto(category: string, totalQuantity: int)

  function CustomerDtoId(d: CustomerDto): int { d.id }
  function RecentCustomerId(e: RecentCustomerDto): int { e.id }
  function DemandCategory(d: CategoryDemandDto): string { d.category }
  function DemandTotal(d: CategoryDemandDto): int { d.totalQuantity }

  /** Decimal digits of `n`, for the not-found message. */
  function NatToString(n: nat): string {
    if n < 10 then ["0123456789"[n]] else NatToString(n / 10) + ["0123456789"[n % 10]]
  }

  // ---------------------------------------------------------------------------
  // GET customers/birthdays?date=...

  /** The row filter of the query: the birth date's day and month are the query date's. */
  predicate SameDayAndMonth(birthDate: DateTime, date: DateTime) {
    birthDate.day == date.day && birthDate.month == date.month
  }

  function ToCustomerDto(c: Customer): CustomerDto {
    CustomerDto(c.id, c.fullName)
  }

  function GetBirthdayCustomers(db: Db, date: DateTime): (r: ActionResult<seq<CustomerDto>>)
    ensures date == DefaultDateTime ==> r == BadRequest("Date cannot be empty.")
    ensures date != DefaultDateTime ==> r.Ok?
    ensures r.Ok? ==> |r.value| <= |db.customers|
    ensures r.Ok? ==> forall c :: c in db.customers && SameDayAndMonth(c.birthDate, date) ==> ToCustomerDto(c) in r.value
    ensures r.Ok? ==> forall d :: d in r.value ==>
      exists c :: c in db.customers && SameDayAndMonth(c.birthDate, date) && d == ToCustomerDto(c)
  {
    if date == DefaultDateTime then BadRequest("Date cannot be empty.")
    else Ok(Select(Where(db.customers, (c: Customer) => SameDayAndMonth(c.birthDate, date)), ToCustomerDto))
  }

  /** In a well-formed snapshot the answer lists each customer born on the query's day and month
      exactly once, and no one else. */
  lemma BirthdayCustomersExactly(db: Db, date: DateTime)
    requires WellFormed(db) && date != DefaultDateTime
    ensures UniqueBy(GetBirthdayCustomers(db, date).value, CustomerDtoId)
    ensures forall c :: c in db.customers ==>
      (ToCustomerDto(c) in GetBirthdayCustomers(db, date).value <==> SameDayAndMonth(c.birthDate, date))
  {
    var p := (c: Customer) => SameDayAndMonth(c.birthDate, date);
    var w := Where(db.customers, p);
    WhereUnique(db.customers, p, CustomerKey);
    var r := GetBirthdayCustomers(db, date).value;
    assert r == Select(w, ToCustomerDto);
    forall i, j | 0 <= i < j < |r| ensures r[i].id != r[j].id {
      assert r[i].id == CustomerKey(w[i]) && r[j].id == CustomerKey(w[j]);
    }
    forall c | c in db.customers && ToCustomerDto(c) in r ensures SameDayAndMonth(c.birthDate, date) {
      var c' :| c' in db.customers && SameDayAndMonth(c'.birthDate, date) && ToCustomerDto(c) == ToCustomerDto(c');
      FindByUniqueKey(db.customers, CustomerKey, c, c');
    }
  }

  /** Filters that agree on every element keep the same elements. */
  lemma {:induction false} WhereAgrees<T>(s: seq<T>, p: T -> bool, q: T -> bool)
    requires forall x :: x in s ==> p(x) == q(x)
    ensures Where(s, p) == Where(s, q)
  {
    if s != [] {
      var init, x := s[..|s| - 1], s[|s| - 1];
      assert s == init + [x];
      WhereAgrees(init, p, q);
    }
  }

  /** The year and the time of day of the query date play no part: two dates on the same day
      and month give the same answer. */
  lemma BirthdayIgnoresYear(db: Db, date1: DateTime, date2: DateTime)
    requires date1 != DefaultDateTime && date2 != DefaultDateTime
    requires date1.day == date2.day && date1.month == date2.month
    ensures GetBirthdayCustomers(db, date1) == GetBirthdayCustomers(db, date2)
  {
    WhereAgrees(db.customers,
      (c: Customer) => SameDayAndMonth(c.birthDate, date1),
      (c: Customer) => SameDayAndMonth(c.birthDate, date2));
  }

  /** A customer born on 29 February 1996 is found by a query for 29 February 2024; one born
      on 15 March 1990 by a query for 15 March 2024 but not by one for 16 March 2024. */
  lemma BirthdayExamples()
    ensures
      var leap := Customer(1, "Leap", DateTime(1996, 2, 29, 0), DateTime(2020, 1, 1, 0));
      GetBirthdayCustomers(Db([leap], [], [], []), DateTime(2024, 2, 29, 0)) == Ok([CustomerDto(1, "Leap")])
    ensures
      var march := Customer(2, "March", DateTime(1990, 3, 15, 0), DateTime(2020, 1, 1, 0));
      && GetBirthdayCustomers(Db([march], [], [], []), DateTime(2024, 3, 15, 0)) == Ok([CustomerDto(2, "March")])
      && GetBirthdayCustomers(Db([march], [], [], []), DateTime(2024, 3, 16, 0)) == Ok([])
  {
    var leap := Customer(1, "Leap", DateTime(1996, 2, 29, 0), DateTime(2020, 1, 1, 0));
    var march := Customer(2, "March", DateTime(1990, 3, 15, 0), DateTime(2020, 1, 1, 0));
    var r1 := GetBirthdayCustomers(Db([leap], [], [], []), DateTime(2024, 2, 29, 0)).value;
    assert ToCustomerDto(leap) in r1;
    assert |r1| == 1 && r1 == [r1[0]];
    assert r1[0] == ToCustomerDto(leap);
    var r2 := GetBirthdayCustomers(Db([march], [], [], []), DateTime(2024, 3, 15, 0)).value;
    assert ToCustomerDto(march) in r2;
    assert |r2| == 1 && r2 == [r2[0]];
    assert r2[0] == ToCustomerDto(march);
  }

  // ---------------------------------------------------------------------------
  // GET customers/recent?days=...

  /** `now.AddDays(-days)`, in ticks. */
  function RecentThreshold(now: Timestamp, days: int): Timestamp {
    now - days * TicksPerDay
  }

  /** An order joined with the customer its navigation property reaches. */
  datatype CustomerOrder = CustomerOrder(customer: Customer, order: Order)

  function JoinCustomer(db: Db, o: Order): Option<CustomerOrder> {
    match OrderCustomer(db, o)
    case Some(c) => Some(CustomerOrder(c, o))
    case None => None
  }

  function Buyer(p: CustomerOrder): Customer { p.customer }
  function PurchaseDate(p: CustomerOrder): Timestamp { p.order.orderDate }

  /** The orders placed at or after `threshold`, joined with their customers. */
  function RecentPurchases(db: Db, threshold: Timestamp): seq<CustomerOrder> {
    Collect(Where(db.orders, (o: Order) => o.orderDate >= threshold), (o: Order) => JoinCustomer(db, o))
  }

  function ToRecentCustomerDto(g: Grouping<Customer, CustomerOrder>): RecentCustomerDto
    requires g.elements != []
  {
    RecentCustomerDto(g.key.id, g.key.fullName, Max(g.elements, PurchaseDate))
  }

  function GetRecentCustomers(db: Db, now: Timestamp, days: int): (r: ActionResult<seq<RecentCustomerDto>>)
    ensures days <= 0 ==> r == BadRequest("Number of days must be greater than 0.")
    ensures days > 0 ==> r.Ok?
  {
    if days <= 0 then BadRequest("Number of days must be greater than 0.")
    else
      var groups := GroupBy(RecentPurchases(db, RecentThreshold(now, days)), Buyer);
      Ok(Select(groups, ToRecentCustomerDto))
  }

  /** The customer `c` owns an order placed at or after `threshold` (reached through `Order.Customer`). */
  predicate HasOrderSince(db: Db, c: Customer, threshold: Timestamp) {
    exists o :: o in db.orders && OrderCustomer(db, o) == Some(c) && o.orderDate >= threshold
  }

  /** `t` is the latest date among the orders of `c` placed at or after `threshold`. */
  predicate IsLastPurchase(db: Db, c: Customer, threshold: Timestamp, t: Timestamp) {
    && (exists o :: o in db.orders && OrderCustomer(db, o) == Some(c) && o.orderDate >= threshold && o.orderDate == t)
    && (forall o :: o in db.orders && OrderCustomer(db, o) == Some(c) && o.orderDate >= threshold ==> o.orderDate <= t)
  }

  /** `p` joins an order placed at or after `threshold` with the customer reached from it. */
  predicate IsRecentPurchase(db: Db, threshold: Timestamp, p: CustomerOrder) {
    p.order in db.orders && p.order.orderDate >= threshold && OrderCustomer(db, p.order) == Some(p.customer)
  }

  lemma RecentPurchasesExactly(db: Db, threshold: Timestamp)
    ensures forall p :: p in RecentPurchases(db, threshold) ==> IsRecentPurchase(db, threshold, p)
    ensures forall o :: o in db.orders && o.orderDate >= threshold && OrderCustomer(db, o).Some? ==>
      CustomerOrder(OrderCustomer(db, o).value, o) in RecentPurchases(db, threshold)
  {
    var q := (o: Order) => o.orderDate >= threshold;
    var j := (o: Order) => JoinCustomer(db, o);
    assert RecentPurchases(db, threshold) == Collect(Where(db.orders, q), j);
    forall o | o in db.orders && o.orderDate >= threshold && OrderCustomer(db, o).Some?
      ensures CustomerOrder(OrderCustomer(db, o).value, o) in RecentPurchases(db, threshold)
    {
      assert o in Where(db.orders, q);
      assert j(o) == Some(CustomerOrder(OrderCustomer(db, o).value, o));
    }
  }

  /** The groups of the query, one per customer reached from a recent order. */
  function RecentGroups(db: Db, now: Timestamp, days: int): (gs: seq<Grouping<Customer, CustomerOrder>>)
    ensures forall i :: 0 <= i < |gs| ==> gs[i].elements != []
    ensures days > 0 ==> GetRecentCustomers(db, now, days) == Ok(Select(gs, ToRecentCustomerDto))
  {
    GroupBy(RecentPurchases(db, RecentThreshold(now, days)), Buyer)
  }

  /** Each group's key is the customer the lookup by its own id returns, and the group holds
      exactly that customer's recent purchases. */
  lemma RecentGroupFacts(db: Db, now: Timestamp, days: int, i: int)
    requires 0 <= i < |RecentGroups(db, now, days)|
    ensures var g := RecentGroups(db, now, days)[i];
      && CustomerById(db, g.key.id) == Some(g.key)
      && (forall p :: p in g.elements ==> IsRecentPurchase(db, RecentThreshold(now, days), p) && p.customer == g.key)
      && (forall p :: IsRecentPurchase(db, RecentThreshold(now, days), p) && p.customer == g.key ==> p in g.elements)
  {
    var threshold := RecentThreshold(now, days);
    RecentPurchasesExactly(db, threshold);
    var purchases := RecentPurchases(db, threshold);
    var g := RecentGroups(db, now, days)[i];
    assert g.elements == WithKey(purchases, Buyer, g.key);
    var p := g.elements[0];
    assert IsRecentPurchase(db, threshold, p);
    forall p | IsRecentPurchase(db, threshold, p) && p.customer == g.key ensures p in g.elements {
      assert CustomerOrder(OrderCustomer(db, p.order).value, p.order) == p;
    }
  }

  /** No customer id occurs twice in the answer. */
  lemma RecentCustomersUnique(db: Db, now: Timestamp, days: int)
    requires days > 0
    ensures UniqueBy(GetRecentCustomers(db, now, days).value, RecentCustomerId)
  {
    var gs := RecentGroups(db, now, days);
    var r := GetRecentCustomers(db, now, days).value;
    forall a, b | 0 <= a < b < |r| ensures r[a].id != r[b].id {
      RecentGroupFacts(db, now, days, a);
      RecentGroupFacts(db, now, days, b);
      assert gs[a].key != gs[b].key;
    }
  }

  /** Every customer reached from a recent order is in the answer. */
  lemma RecentCustomersComplete(db: Db, now: Timestamp, days: int)
    requires days > 0
    ensures forall o :: o in db.orders && o.orderDate >= RecentThreshold(now, days) && OrderCustomer(db, o).Some? ==>
      exists e :: e in GetRecentCustomers(db, now, days).value && e.id == o.customerId
  {
    var threshold := RecentThreshold(now, days);
    RecentPurchasesExactly(db, threshold);
    var gs := RecentGroups(db, now, days);
    var r := GetRecentCustomers(db, now, days).value;
    forall o | o in db.orders && o.orderDate >= threshold && OrderCustomer(db, o).Some?
      ensures exists e :: e in r && e.id == o.customerId
    {
      var c := OrderCustomer(db, o).value;
      assert CustomerOrder(c, o) in RecentPurchases(db, threshold);
      assert HasKey(gs, c);
      var i :| 0 <= i < |gs| && gs[i].key == c;
      assert r[i] in r && r[i].id == o.customerId;
    }
  }

  /** The entry made from a group of a customer's recent purchases carries that customer's id
      and name and the date of its latest recent order. */
  lemma RecentEntrySound(db: Db, threshold: Timestamp, g: Grouping<Customer, CustomerOrder>)
    requires g.elements != []
    requires CustomerById(db, g.key.id) == Some(g.key)
    requires forall p :: p in g.elements ==> IsRecentPurchase(db, threshold, p) && p.customer == g.key
    requires forall p :: IsRecentPurchase(db, threshold, p) && p.customer == g.key ==> p in g.elements
    ensures var e := ToRecentCustomerDto(g);
      && g.key in db.customers && g.key.id == e.id && g.key.fullName == e.fullName
      && HasOrderSince(db, g.key, threshold)
      && IsLastPurchase(db, g.key, threshold, e.lastPurchase)
  {
    var c := g.key;
    var m := Max(g.elements, PurchaseDate);
    var latest :| latest in g.elements && PurchaseDate(latest) == m;
    var o := latest.order;
    assert o in db.orders && OrderCustomer(db, o) == Some(c) && o.orderDate >= threshold && o.orderDate == m;
    forall o | o in db.orders && OrderCustomer(db, o) == Some(c) && o.orderDate >= threshold
      ensures o.orderDate <= m
    {
      assert IsRecentPurchase(db, threshold, CustomerOrder(c, o));
    }
  }

  /** Every entry of the answer is a customer with a recent order, with that customer's name and
      the date of its latest recent order. */
  lemma RecentCustomersSound(db: Db, now: Timestamp, days: int)
    requires days > 0
    ensures forall e :: e in GetRecentCustomers(db, now, days).value ==>
      exists c :: && c in db.customers && c.id == e.id && c.fullName == e.fullName
                  && HasOrderSince(db, c, RecentThreshold(now, days))
                  && IsLastPurchase(db, c, RecentThreshold(now, days), e.lastPurchase)
  {
    var gs := RecentGroups(db, now, days);
    var r := GetRecentCustomers(db, now, days).value;
    forall e | e in r
      ensures exists c :: && c in db.customers && c.id == e.id && c.fullName == e.fullName
                          && HasOrderSince(db, c, RecentThreshold(now, days))
                          && IsLastPurchase(db, c, RecentThreshold(now, days), e.lastPurchase)
    {
      var i :| 0 <= i < |r| && r[i] == e;
      RecentGroupFacts(db, now, days, i);
      RecentEntrySound(db, RecentThreshold(now, days), gs[i]);
      assert e == ToRecentCustomerDto(gs[i]);
    }
  }

  /** What `RecentCustomersUnique`, `RecentCustomersComplete` and `RecentCustomersSound` say of
      an answer `r`, gathered so that it can be reasoned about without unfolding the query. */
  predicate RecentAnswer(db: Db, threshold: Timestamp, r: seq<RecentCustomerDto>) {
    && UniqueBy(r, RecentCustomerId)
    && (forall o :: o in db.orders && o.orderDate >= threshold && OrderCustomer(db, o).Some? ==>
          exists e :: e in r && e.id == o.customerId)
    && (forall e :: e in r ==>
          exists c :: && c in db.customers && c.id == e.id && c.fullName == e.fullName
                      && HasOrderSince(db, c, threshold) && IsLastPurchase(db, c, threshold, e.lastPurchase))
  }

  lemma RecentCustomersAnswer(db: Db, now: Timestamp, days: int)
    requires days > 0
    ensures RecentAnswer(db, RecentThreshold(now, days), GetRecentCustomers(db, now, days).value)
  {
    RecentCustomersUnique(db, now, days);
    RecentCustomersComplete(db, now, days);
    RecentCustomersSound(db, now, days);
  }

  lemma {:induction false} AnswerListed(db: Db, threshold: Timestamp, r: seq<RecentCustomerDto>, c: Customer)
    requires UniqueBy(db.customers, CustomerKey) && RecentAnswer(db, threshold, r) && c in db.customers
    ensures (exists e :: e in r && e.id == c.id) <==>
            (exists o :: o in db.orders && o.customerId == c.id && o.orderDate >= threshold)
  {
    if o :| o in db.orders && o.customerId == c.id && o.orderDate >= threshold {
      OrderCustomerIsOwner(db, o, c);
      assert exists e :: e in r && e.id == o.customerId;
    }
    if e :| e in r && e.id == c.id {
      AnswerHasOrder(db, threshold, r, e);
    }
  }

  /** Every listed id carries a recent order. */
  lemma AnswerHasOrder(db: Db, threshold: Timestamp, r: seq<RecentCustomerDto>, e: RecentCustomerDto)
    requires RecentAnswer(db, threshold, r) && e in r
    ensures exists o :: o in db.orders && o.customerId == e.id && o.orderDate >= threshold
  {
    var c :| c in db.customers && c.id == e.id && HasOrderSince(db, c, threshold);
    OrderSinceByKey(db, c, threshold);
  }

  /** An order reached from `c` carries its id. */
  lemma OrderSinceByKey(db: Db, c: Customer, threshold: Timestamp)
    requires HasOrderSince(db, c, threshold)
    ensures exists o :: o in db.orders && o.customerId == c.id && o.orderDate >= threshold
  {
    var o :| o in db.orders && OrderCustomer(db, o) == Some(c) && o.orderDate >= threshold;
  }

  /** With unique customer ids, the orders reached from `c` are those carrying its id. */
  lemma LastPurchaseByKey(db: Db, c: Customer, threshold: Timestamp, t: Timestamp)
    requires UniqueBy(db.customers, CustomerKey) && c in db.customers && IsLastPurchase(db, c, threshold, t)
    ensures t >= threshold
    ensures exists o :: o in db.orders && o.customerId == c.id && o.orderDate == t
    ensures forall o :: o in db.orders && o.customerId == c.id && o.orderDate >= threshold ==> o.orderDate <= t
  {
    var o :| o in db.orders && OrderCustomer(db, o) == Some(c) && o.orderDate >= threshold && o.orderDate == t;
    OrderCustomerIsOwner(db, o, c);
    forall o' | o' in db.orders && o'.customerId == c.id && o'.orderDate >= threshold
      ensures o'.orderDate <= t
    {
      OrderCustomerIsOwner(db, o', c);
    }
  }

  lemma {:induction false} AnswerLastPurchase(db: Db, threshold: Timestamp, r: seq<RecentCustomerDto>, e: RecentCustomerDto)
    requires UniqueBy(db.customers, CustomerKey) && RecentAnswer(db, threshold, r) && e in r
    ensures e.lastPurchase >= threshold
    ensures exists o :: o in db.orders && o.customerId == e.id && o.orderDate == e.lastPurchase
    ensures forall o :: o in db.orders && o.customerId == e.id && o.orderDate >= threshold ==> o.orderDate <= e.lastPurchase
  {
    var c :| c in db.customers && c.id == e.id && c.fullName == e.fullName &&
      HasOrderSince(db, c, threshold) && IsLastPurchase(db, c, threshold, e.lastPurchase);
    LastPurchaseByKey(db, c, threshold, e.lastPurchase);
  }

  /** On a well-formed snapshot a customer is listed exactly when it has an order placed at or
      after `now - days`. */
  lemma RecentCustomerListed(db: Db, now: Timestamp, days: int, c: Customer)
    requires WellFormed(db) && days > 0 && c in db.customers
    ensures (exists e :: e in GetRecentCustomers(db, now, days).value && e.id == c.id) <==>
            (exists o :: o in db.orders && o.customerId == c.id && o.orderDate >= RecentThreshold(now, days))
  {
    RecentCustomersAnswer(db, now, days);
    AnswerListed(db, RecentThreshold(now, days), GetRecentCustomers(db, now, days).value, c);
  }

  /** On a well-formed snapshot an entry's `LastPurchase` is the latest date among the orders
      with its customer's id placed at or after `now - days`. */
  lemma RecentLastPurchase(db: Db, now: Timestamp, days: int, e: RecentCustomerDto)
    requires WellFormed(db) && days > 0 && e in GetRecentCustomers(db, now, days).value
    ensures e.lastPurchase >= RecentThreshold(now, days)
    ensures exists o :: o in db.orders && o.customerId == e.id && o.orderDate == e.lastPurchase
    ensures forall o :: o in db.orders && o.customerId == e.id && o.orderDate >= RecentThreshold(now, days) ==>
      o.orderDate <= e.lastPurchase
  {
    RecentCustomersAnswer(db, now, days);
    AnswerLastPurchase(db, RecentThreshold(now, days), GetRecentCustomers(db, now, days).value, e);
  }

  // ---------------------------------------------------------------------------
  // GET customers/{customerId}/categories

  /** `oi.Order.CustomerId == customerId`: the order reached from the item belongs to the customer. */
  predicate PlacedBy(db: Db, oi: OrderItem, customerId: int) {
    match ItemOrder(db, oi)
    case Some(o) => o.customerId == customerId
    case None => false
  }

  /** An order item joined with the product its navigation property reaches. */
  datatype ItemLine = ItemLine(item: OrderItem, product: Product)

  function JoinProduct(db: Db, oi: OrderItem): Option<ItemLine> {
    match ItemProduct(db, oi)
    case Some(p) => Some(ItemLine(oi, p))
    case None => None
  }

  function LineCategory(l: ItemLine): string { l.product.category }
  function LineQuantity(l: ItemLine): int { l.item.quantity }

  /** The items among `items` placed by the customer, joined with their products, in order:
      `Where(oi => oi.Order.CustomerId == customerId)` followed by the inner join with
      `oi.Product` (`CustomerLinesIsQuery` proves it is that chain). */
  function CustomerLines(db: Db, items: seq<OrderItem>, customerId: int): seq<ItemLine> {
    if items == [] then []
    else CustomerLines(db, items[..|items| - 1], customerId) + NewLine(db, items[|items| - 1], customerId)
  }

  /** The line one item contributes: none unless it is the customer's and its product resolves. */
  function NewLine(db: Db, oi: OrderItem, customerId: int): (extra: seq<ItemLine>)
    ensures |extra| <= 1
    ensures extra != [] <==> PlacedBy(db, oi, customerId) && ItemProduct(db, oi).Some?
    ensures extra != [] ==> extra[0] == ItemLine(oi, ItemProduct(db, oi).value)
  {
    if PlacedBy(db, oi, customerId) && JoinProduct(db, oi).Some? then [JoinProduct(db, oi).value] else []
  }

  function ToCategoryDemandDto(g: Grouping<string, ItemLine>): CategoryDemandDto {
    CategoryDemandDto(g.key, Sum(g.elements, LineQuantity))
  }

  /** The groups of the query, one per category among the customer's items. */
  function DemandGroups(db: Db, customerId: int): seq<Grouping<string, ItemLine>> {
    GroupBy(CustomerLines(db, db.orderItems, customerId), LineCategory)
  }

  function GetDemandedCategories(db: Db, customerId: int): (r: ActionResult<seq<CategoryDemandDto>>)
    ensures customerId <= 0 ==> r == BadRequest("Customer ID must be greater than 0.")
    ensures customerId > 0 && !HasCustomer(db, customerId) ==>
      r == NotFound("Customer with Id " + NatToString(customerId) + " not found.")
    ensures r.Ok? <==> customerId > 0 && HasCustomer(db, customerId)
  {
    if customerId <= 0 then BadRequest("Customer ID must be greater than 0.")
    else if !HasCustomer(db, customerId) then NotFound("Customer with Id " + NatToString(customerId) + " not found.")
    else Ok(Select(DemandGroups(db, customerId), ToCategoryDemandDto))
  }

  /** The item was placed by the customer and reaches a product of category `category`. */
  predicate Purchased(db: Db, oi: OrderItem, customerId: int, category: string) {
    PlacedBy(db, oi, customerId) && match ItemProduct(db, oi)
      case Some(p) => p.category == category
      case None => false
  }

  /** Reference definition: the quantity of the customer's items of `category` among `items`. */
  function QuantityOf(db: Db, items: seq<OrderItem>, customerId: int, category: string): int {
    if items == [] then 0
    else
      var oi := items[|items| - 1];
      QuantityOf(db, items[..|items| - 1], customerId, category) +
        (if Purchased(db, oi, customerId, category) then oi.quantity else 0)
  }

  /** Reference definition: the quantity of all the customer's items (with a product) among `items`. */
  function TotalQuantityOf(db: Db, items: seq<OrderItem>, customerId: int): int {
    if items == [] then 0
    else
      var oi := items[|items| - 1];
      TotalQuantityOf(db, items[..|items| - 1], customerId) +
        (if PlacedBy(db, oi, customerId) && ItemProduct(db, oi).Some? then oi.quantity else 0)
  }

  /** The lines of the customer are the purchased items joined with their product. */
  lemma {:induction false} CustomerLinesExactly(db: Db, items: seq<OrderItem>, customerId: int)
    ensures forall l :: l in CustomerLines(db, items, customerId) ==>
      l.item in items && Purchased(db, l.item, customerId, l.product.category) && ItemProduct(db, l.item) == Some(l.product)
    ensures forall oi, c :: oi in items && Purchased(db, oi, customerId, c) ==>
      ItemLine(oi, ItemProduct(db, oi).value) in CustomerLines(db, items, customerId)
  {
    if items != [] {
      var init, oi := items[..|items| - 1], items[|items| - 1];
      assert items == init + [oi];
      CustomerLinesExactly(db, init, customerId);
      LinesSnoc(db, init, oi, customerId);
    }
  }

  /** The lines of one category add up to the reference quantity of that category. */
  lemma {:induction false} CategoryQuantity(db: Db, items: seq<OrderItem>, customerId: int, category: string)
    ensures Sum(WithKey(CustomerLines(db, items, customerId), LineCategory, category), LineQuantity)
      == QuantityOf(db, items, customerId, category)
  {
    if items != [] {
      var init, oi := items[..|items| - 1], items[|items| - 1];
      assert items == init + [oi];
      CategoryQuantity(db, init, customerId, category);
      CategoryStep(db, init, oi, customerId, category);
    }
  }

  /** The line an item adds is of category `category` exactly when the item is purchased in it,
      and it carries the item. */
  lemma NewLinePurchased(db: Db, oi: OrderItem, customerId: int, category: string)
    ensures var extra := NewLine(db, oi, customerId);
      && (extra != [] ==> extra[0].item == oi)
      && ((extra != [] && LineCategory(extra[0]) == category) == Purchased(db, oi, customerId, category))
  {
  }

  /** One more item adds its quantity to its category's lines exactly when it is purchased in
      that category. */
  lemma CategoryStep(db: Db, items: seq<OrderItem>, oi: OrderItem, customerId: int, category: string)
    ensures Sum(WithKey(CustomerLines(db, items + [oi], customerId), LineCategory, category), LineQuantity) ==
      Sum(WithKey(CustomerLines(db, items, customerId), LineCategory, category), LineQuantity) +
        (if Purchased(db, oi, customerId, category) then oi.quantity else 0)
  {
    LinesSnoc(db, items, oi, customerId);
    var extra := NewLine(db, oi, customerId);
    WithKeySumAppend(CustomerLines(db, items, customerId), extra, LineCategory, category, LineQuantity);
    NewLinePurchased(db, oi, customerId, category);
  }

  /** All the lines add up to the reference total. */
  lemma {:induction false} LinesQuantity(db: Db, items: seq<OrderItem>, customerId: int)
    ensures Sum(CustomerLines(db, items, customerId), LineQuantity) == TotalQuantityOf(db, items, customerId)
  {
    if items != [] {
      var init, oi := items[..|items| - 1], items[|items| - 1];
      assert items == init + [oi];
      LinesQuantity(db, init, customerId);
      LinesSnoc(db, init, oi, customerId);
      var extra := NewLine(db, oi, customerId);
      SumAppend(CustomerLines(db, init, customerId), extra, LineQuantity);
    }
  }

  /** One more item adds its line exactly when it is the customer's and reaches a product. */
  lemma LinesSnoc(db: Db, items: seq<OrderItem>, oi: OrderItem, customerId: int)
    ensures CustomerLines(db, items + [oi], customerId) == CustomerLines(db, items, customerId) + NewLine(db, oi, customerId)
  {
    assert (items + [oi])[..|items|] == items;
  }

  /** The lines are the query's filter on the item's order followed by the join with its product. */
  lemma {:induction false} CustomerLinesIsQuery(db: Db, items: seq<OrderItem>, customerId: int)
    ensures CustomerLines(db, items, customerId) ==
      Collect(Where(items, (oi: OrderItem) => PlacedBy(db, oi, customerId)), (oi: OrderItem) => JoinProduct(db, oi))
  {
    var q := (oi: OrderItem) => PlacedBy(db, oi, customerId);
    var j := (oi: OrderItem) => JoinProduct(db, oi);
    if items != [] {
      var init, oi := items[..|items| - 1], items[|items| - 1];
      assert items == init + [oi];
      CustomerLinesIsQuery(db, init, customerId);
      LinesSnoc(db, init, oi, customerId);
      WhereSnoc(init, oi, q);
      if q(oi) {
        assert Where(items, q) == Where(init, q) + [oi];
        CollectSnoc(Where(init, q), oi, j);
      } else {
        assert Where(items, q) == Where(init, q);
      }
    }
  }

  /** Each group holds the customer's lines of its category, and there is at least one. */
  lemma DemandGroupFacts(db: Db, customerId: int, i: int)
    requires 0 <= i < |DemandGroups(db, customerId)|
    ensures var g := DemandGroups(db, customerId)[i];
      && g.elements == WithKey(CustomerLines(db, db.orderItems, customerId), LineCategory, g.key)
      && g.elements != []
      && (forall l :: l in g.elements ==> LineCategory(l) == g.key && l in CustomerLines(db, db.orderItems, customerId))
  {
  }

  /** No category occurs twice in the answer. */
  lemma DemandCategoriesUnique(db: Db, customerId: int)
    requires customerId > 0 && HasCustomer(db, customerId)
    ensures UniqueBy(GetDemandedCategories(db, customerId).value, DemandCategory)
  {
    var gs := DemandGroups(db, customerId);
    var r := GetDemandedCategories(db, customerId).value;
    assert r == Select(DemandGroups(db, customerId), ToCategoryDemandDto);
    forall a, b | 0 <= a < b < |r| ensures r[a].category != r[b].category {
      assert gs[a].key != gs[b].key;
    }
  }

  /** The answer lists category `c` exactly when one of the customer's items reaches a product
      of that category. */
  lemma DemandListsCategory(db: Db, customerId: int, c: string)
    requires customerId > 0 && HasCustomer(db, customerId)
    ensures (exists d :: d in GetDemandedCategories(db, customerId).value && d.category == c) <==>
      (exists oi :: oi in db.orderItems && Purchased(db, oi, customerId, c))
  {
    var r := GetDemandedCategories(db, customerId).value;
    assert r == Select(DemandGroups(db, customerId), ToCategoryDemandDto);
    if oi :| oi in db.orderItems && Purchased(db, oi, customerId, c) {
      CategoryListed(db, customerId, oi, c);
    }
    if d :| d in r && d.category == c {
      ListedCategoryBought(db, customerId, d);
    }
  }

  lemma ListedCategoryBought(db: Db, customerId: int, d: CategoryDemandDto)
    requires customerId > 0 && HasCustomer(db, customerId)
    requires d in GetDemandedCategories(db, customerId).value
    ensures exists oi :: oi in db.orderItems && Purchased(db, oi, customerId, d.category)
  {
    var gs := DemandGroups(db, customerId);
    var r := GetDemandedCategories(db, customerId).value;
    assert r == Select(DemandGroups(db, customerId), ToCategoryDemandDto);
    var i :| 0 <= i < |r| && r[i] == d;
    DemandGroupFacts(db, customerId, i);
    var l := gs[i].elements[0];
    LineIsPurchase(db, customerId, l);
  }

  lemma LineIsPurchase(db: Db, customerId: int, l: ItemLine)
    requires l in CustomerLines(db, db.orderItems, customerId)
    ensures l.item in db.orderItems && Purchased(db, l.item, customerId, LineCategory(l))
  {
    CustomerLinesExactly(db, db.orderItems, customerId);
  }

  lemma CategoryListed(db: Db, customerId: int, oi: OrderItem, c: string)
    requires customerId > 0 && HasCustomer(db, customerId)
    requires oi in db.orderItems && Purchased(db, oi, customerId, c)
    ensures exists d :: d in GetDemandedCategories(db, customerId).value && d.category == c
  {
    var gs := DemandGroups(db, customerId);
    var r := GetDemandedCategories(db, customerId).value;
    assert r == Select(DemandGroups(db, customerId), ToCategoryDemandDto);
    CustomerLinesExactly(db, db.orderItems, customerId);
    var l := ItemLine(oi, ItemProduct(db, oi).value);
    assert l in CustomerLines(db, db.orderItems, customerId) && LineCategory(l) == c;
    assert HasKey(gs, c);
    var i :| 0 <= i < |gs| && gs[i].key == c;
    assert r[i] in r && r[i].category == c;
  }

  /** Each entry's total is the quantity of the customer's items of its category. */
  lemma DemandTotals(db: Db, customerId: int)
    requires customerId > 0 && HasCustomer(db, customerId)
    ensures forall d :: d in GetDemandedCategories(db, customerId).value ==>
      d.totalQuantity == QuantityOf(db, db.orderItems, customerId, d.category)
  {
    var gs := DemandGroups(db, customerId);
    var r := GetDemandedCategories(db, customerId).value;
    assert r == Select(DemandGroups(db, customerId), ToCategoryDemandDto);
    forall d | d in r ensures d.totalQuantity == QuantityOf(db, db.orderItems, customerId, d.category) {
      var i :| 0 <= i < |r| && r[i] == d;
      DemandGroupFacts(db, customerId, i);
      CategoryQuantity(db, db.orderItems, customerId, gs[i].key);
    }
  }

  /** The entries made from groups add up to all the groups' elements. */
  lemma {:induction false} DemandSumGroups(gs: seq<Grouping<string, ItemLine>>)
    ensures Sum(Select(gs, ToCategoryDemandDto), DemandTotal) == SumGroups(gs, LineQuantity)
  {
    if gs != [] {
      var init, g := gs[..|gs| - 1], gs[|gs| - 1];
      assert gs == init + [g];
      DemandSumGroups(init);
      SumGroupsSnoc(init, g, LineQuantity);
      assert Select(gs, ToCategoryDemandDto) == Select(init, ToCategoryDemandDto) + [ToCategoryDemandDto(g)];
      SumSnoc(Select(init, ToCategoryDemandDto), ToCategoryDemandDto(g), DemandTotal);
    }
  }

  /** The totals of the answer add up to the quantity of all the customer's items. */
  lemma DemandConservation(db: Db, customerId: int)
    requires customerId > 0 && HasCustomer(db, customerId)
    ensures Sum(GetDemandedCategories(db, customerId).value, DemandTotal) == TotalQuantityOf(db, db.orderItems, customerId)
  {
    var lines := CustomerLines(db, db.orderItems, customerId);
    DemandSumGroups(DemandGroups(db, customerId));
    GroupBySum(lines, LineCategory, LineQuantity);
    LinesQuantity(db, db.orderItems, customerId);
  }

  /** With positive quantities every listed total is positive. */
  lemma DemandPositive(db: Db, customerId: int)
    requires customerId > 0 && HasCustomer(db, customerId)
    requires forall oi :: oi in db.orderItems ==> oi.quantity > 0
    ensures forall d :: d in GetDemandedCategories(db, customerId).value ==> d.totalQuantity > 0
  {
    var gs := DemandGroups(db, customerId);
    var r := GetDemandedCategories(db, customerId).value;
    assert r == Select(DemandGroups(db, customerId), ToCategoryDemandDto);
    CustomerLinesExactly(db, db.orderItems, customerId);
    forall d | d in r ensures d.totalQuantity > 0 {
      var i :| 0 <= i < |r| && r[i] == d;
      DemandGroupFacts(db, customerId, i);
      assert d.totalQuantity == Sum(gs[i].elements, LineQuantity);
    }
  }

  /** An existing customer none of whose items reaches a product gets an empty list, not NotFound. */
  lemma DemandEmpty(db: Db, customerId: int)
    requires customerId > 0 && HasCustomer(db, customerId)
    requires forall oi :: oi in db.orderItems ==> !PlacedBy(db, oi, customerId) || ItemProduct(db, oi).None?
    ensures GetDemandedCategories(db, customerId) == Ok([])
  {
    var q := (oi: OrderItem) => PlacedBy(db, oi, customerId);
    var j := (oi: OrderItem) => JoinProduct(db, oi);
    CustomerLinesIsQuery(db, db.orderItems, customerId);
    CollectNone(Where(db.orderItems, q), j);
    assert DemandGroups(db, customerId) == [];
  }

  /** The product `productId` exists and has category `category`. */
  predicate InCategory(db: Db, productId: int, category: string) {
    exists p :: p in db.products && p.id == productId && p.category == category
  }

  /** With unique order and product keys, an item is purchased by the customer in a category
      exactly when its order key names one of the customer's orders and its product key a product
      of that category. */
  lemma PurchasedByKey(db: Db, oi: OrderItem, customerId: int, category: string)
    requires UniqueBy(db.orders, OrderKey) && UniqueBy(db.products, ProductKey)
    ensures Purchased(db, oi, customerId, category) <==>
      InOrderOf(db, oi, customerId) && InCategory(db, oi.productId, category)
  {
    if InOrderOf(db, oi, customerId) {
      var o :| o in db.orders && o.customerId == customerId && o.id == oi.orderId;
      FindByUniqueKey(db.orders, OrderKey, ItemOrder(db, oi).value, o);
    }
    if InCategory(db, oi.productId, category) {
      var p :| p in db.products && p.id == oi.productId && p.category == category;
      FindByUniqueKey(db.products, ProductKey, ItemProduct(db, oi).value, p);
    }
  }

  /** On a well-formed snapshot: a category is listed exactly when one of the items of the
      customer's orders references a product of that category. */
  lemma DemandedCategoryByKey(db: Db, customerId: int, category: string)
    requires WellFormed(db) && customerId > 0 && HasCustomer(db, customerId)
    ensures (exists d :: d in GetDemandedCategories(db, customerId).value && d.category == category) <==>
      (exists oi :: oi in db.orderItems && InOrderOf(db, oi, customerId) && InCategory(db, oi.productId, category))
  {
    DemandListsCategory(db, customerId, category);
    forall oi | oi in db.orderItems
      ensures Purchased(db, oi, customerId, category) <==>
        InOrderOf(db, oi, customerId) && InCategory(db, oi.productId, category)
    {
      PurchasedByKey(db, oi, customerId, category);
    }
  }

  // ---------------------------------------------------------------------------
  // The queries after a cascading delete

  /** Once a customer is deleted, the category query for its id is NotFound. */
  lemma DemandAfterDelete(db: Db, id: int)
    requires id > 0 && DeleteCustomer(db, id).Deleted?
    ensures GetDemandedCategories(DeleteCustomer(db, id).db, id).NotFound?
  {
  }

  /** Once a customer is deleted, no recent-customer entry carries its id. */
  lemma RecentAfterDelete(db: Db, now: Timestamp, days: int, id: int)
    requires days > 0 && DeleteCustomer(db, id).Deleted?
    ensures forall e :: e in GetRecentCustomers(DeleteCustomer(db, id).db, now, days).value ==> e.id != id
  {
    var d := DeleteCustomer(db, id).db;
    RecentCustomersSound(d, now, days);
  }

  /** Once a customer is deleted, no birthday entry carries its id. */
  lemma BirthdayAfterDelete(db: Db, date: DateTime, id: int)
    requires date != DefaultDateTime && DeleteCustomer(db, id).Deleted?
    ensures forall d :: d in GetBirthdayCustomers(DeleteCustomer(db, id).db, date).value ==> d.id != id
  {
  }

  /** Customer 1 bought 3 books in one order, 2 books and 1 toy in another. */
  function ExampleDb(): Db {
    Db([Customer(1, "C", DateTime(1990, 1, 1, 0), DateTime(2020, 1, 1, 0))],
       [Product(1, "A", "Books", "a", 100), Product(2, "B", "Books", "b", 100), Product(3, "D", "Toys", "d", 100)],
       [Order(10, "n1", 0, 300, 1), Order(11, "n2", 0, 300, 1)],
       [OrderItem(100, 10, 1, 3), OrderItem(101, 11, 2, 2), OrderItem(102, 11, 3, 1)])
  }

  /** The navigations of the example's items. */
  lemma ExampleNavigation()
    ensures var db := ExampleDb();
      && ItemOrder(db, db.orderItems[0]) == Some(db.orders[0])
      && ItemOrder(db, db.orderItems[1]) == Some(db.orders[1])
      && ItemOrder(db, db.orderItems[2]) == Some(db.orders[1])
      && ItemProduct(db, db.orderItems[0]) == Some(db.products[0])
      && ItemProduct(db, db.orderItems[1]) == Some(db.products[1])
      && ItemProduct(db, db.orderItems[2]) == Some(db.products[2])
  {
    var db := ExampleDb();
    assert db.orders[1..] == [db.orders[1]];
    assert db.products[1..] == [db.products[1], db.products[2]];
    assert db.products[1..][1..] == [db.products[2]];
  }

  /** One more item of the customer that reaches a product adds its line at the end. */
  lemma LineSnoc(db: Db, items: seq<OrderItem>, customerId: int, l: ItemLine)
    requires PlacedBy(db, l.item, customerId) && JoinProduct(db, l.item) == Some(l)
    ensures CustomerLines(db, items + [l.item], customerId) == CustomerLines(db, items, customerId) + [l]
  {
    LinesSnoc(db, items, l.item, customerId);
  }

  lemma OneLine(db: Db, customerId: int, l1: ItemLine)
    requires PlacedBy(db, l1.item, customerId) && JoinProduct(db, l1.item) == Some(l1)
    ensures CustomerLines(db, [l1.item], customerId) == [l1]
  {
    assert CustomerLines(db, [], customerId) == [];
    LineSnoc(db, [], customerId, l1);
    assert [] + [l1.item] == [l1.item];
  }

  lemma TwoLines(db: Db, customerId: int, l1: ItemLine, l2: ItemLine)
    requires PlacedBy(db, l1.item, customerId) && JoinProduct(db, l1.item) == Some(l1)
    requires PlacedBy(db, l2.item, customerId) && JoinProduct(db, l2.item) == Some(l2)
    ensures CustomerLines(db, [l1.item, l2.item], customerId) == [l1, l2]
  {
    OneLine(db, customerId, l1);
    LineSnoc(db, [l1.item], customerId, l2);
    assert [l1.item] + [l2.item] == [l1.item, l2.item];
  }

  /** Three items of the customer, each reaching a product, give three lines in item order. */
  lemma ThreeLines(db: Db, customerId: int, l1: ItemLine, l2: ItemLine, l3: ItemLine)
    requires PlacedBy(db, l1.item, customerId) && JoinProduct(db, l1.item) == Some(l1)
    requires PlacedBy(db, l2.item, customerId) && JoinProduct(db, l2.item) == Some(l2)
    requires PlacedBy(db, l3.item, customerId) && JoinProduct(db, l3.item) == Some(l3)
    ensures CustomerLines(db, [l1.item, l2.item, l3.item], customerId) == [l1, l2, l3]
  {
    TwoLines(db, customerId, l1, l2);
    LineSnoc(db, [l1.item, l2.item], customerId, l3);
    assert [l1.item, l2.item] + [l3.item] == [l1.item, l2.item, l3.item];
  }

  lemma ExampleGroups<T>(l1: T, l2: T, l3: T, key: T -> string)
    requires key(l1) == key(l2) != key(l3)
    ensures GroupBy([l1, l2, l3], key) == [Grouping(key(l1), [l1, l2]), Grouping(key(l3), [l3])]
  {
    assert [l1, l2, l3][..2] == [l1, l2] && [l1, l2][..1] == [l1] && [l1][..0] == [];
    var g1 := GroupBy([l1], key);
    assert g1 == [Grouping(key(l1), [l1])];
    assert g1[1..] == [] && [l1] + [l2] == [l1, l2];
    var g2 := GroupBy([l1, l2], key);
    assert g2 == [Grouping(key(l1), [l1, l2])];
    assert g2[1..] == [];
    assert GroupBy([l1, l2, l3], key) == Insert(g2, l3, key);
    assert Insert([], l3, key) == [Grouping(key(l3), [l3])];
  }

  /** The entries made from a group of two lines and a group of one. */
  lemma PairEntries(l1: ItemLine, l2: ItemLine, l3: ItemLine)
    ensures Select([Grouping(LineCategory(l1), [l1, l2]), Grouping(LineCategory(l3), [l3])], ToCategoryDemandDto) == [
      CategoryDemandDto(LineCategory(l1), l1.item.quantity + l2.item.quantity),
      CategoryDemandDto(LineCategory(l3), l3.item.quantity)]
  {
    var g1, g3 := Grouping(LineCategory(l1), [l1, l2]), Grouping(LineCategory(l3), [l3]);
    SumPair(l1, l2, LineQuantity);
    SumPair(l3, l3, LineQuantity);
    SelectPair(g1, g3, ToCategoryDemandDto);
    assert ToCategoryDemandDto(g1) == CategoryDemandDto(LineCategory(l1), l1.item.quantity + l2.item.quantity);
    assert ToCategoryDemandDto(g3) == CategoryDemandDto(LineCategory(l3), l3.item.quantity);
  }

  /** Three lines, the first two of one category and the third of another, give two entries. */
  lemma TwoCategories(l1: ItemLine, l2: ItemLine, l3: ItemLine)
    requires LineCategory(l1) == LineCategory(l2) != LineCategory(l3)
    ensures Select(GroupBy([l1, l2, l3], LineCategory), ToCategoryDemandDto) == [
      CategoryDemandDto(LineCategory(l1), l1.item.quantity + l2.item.quantity),
      CategoryDemandDto(LineCategory(l3), l3.item.quantity)]
  {
    ExampleGroups(l1, l2, l3, LineCategory);
    PairEntries(l1, l2, l3);
  }

  /** Books 5, Toys 1. */
  lemma DemandExample()
    ensures GetDemandedCategories(ExampleDb(), 1) == Ok([CategoryDemandDto("Books", 5), CategoryDemandDto("Toys", 1)])
  {
    var db := ExampleDb();
    assert db.customers[0].id == 1;
    ExampleNavigation();
    var l1 := ItemLine(db.orderItems[0], db.products[0]);
    var l2 := ItemLine(db.orderItems[1], db.products[1]);
    var l3 := ItemLine(db.orderItems[2], db.products[2]);
    ThreeLines(db, 1, l1, l2, l3);
    assert db.orderItems == [l1.item, l2.item, l3.item];
    TwoCategories(l1, l2, l3);
  }
}
