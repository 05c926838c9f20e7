/**
 * The shop's records (Customer, Product, Order, OrderItem) as values with
 * foreign-key fields, and a database snapshot holding one sequence per table.
 * The navigation properties of the entity classes (`Order.Customer`,
 * `OrderItem.Order`, `OrderItem.Product`) are lookups by key; the
 * navigation lists (`Customer.Orders`, ...) are left to queries.
 */
module Models {
  import opened Linq

  /** .NET `DateTime` ticks (100 ns) in one day. */
  const TicksPerDay: int := 864_000_000_000

  /** An instant as a count of .NET ticks; `OrderDate` and the clock reading are instants. */
  type Timestamp = int

  /** A `DateTime` seen through its calendar components; `timeOfDay` is in ticks after midnight. */
  datatype DateTime = DateTime(year: int, month: int, day: int, timeOfDay: int)

  /** `default(DateTime)`: 0001-01-01 00:00:00. */
  const DefaultDateTime: DateTime := DateTime(1, 1, 1, 0)

  /** `price` and `totalCost` are `decimal` amounts held in hundredths. */
  datatype Customer = Customer(id: int, fullName: string, birthDate: DateTime, registrationDate: DateTime)
  datatype Product = Product(id: int, name: string, category: string, article: string, price: int)
  datatype Order = Order(id: int, orderNumber: string, orderDate: Timestamp, totalCost: int, customerId: int)
  datatype OrderItem = OrderItem(id: int, orderId: int, productId: int, quantity: int)

  /** A snapshot of the four tables. */
  datatype Db = Db(customers: seq<Customer>, products: seq<Product>, orders: seq<Order>, orderItems: seq<OrderItem>)

  // Keys and indexed columns, as functions a uniqueness constraint is stated over.
  function CustomerKey(c: Customer): int { c.id }
  function ProductKey(p: Product): int { p.id }
  function ProductArticle(p: Product): string { p.article }
  function OrderKey(o: Order): int { o.id }
  function OrderNumber(o: Order): string { o.orderNumber }
  function OrderItemKey(oi: OrderItem): int { oi.id }

  /** `Customers.Any(c => c.Id == id)`. */
  predicate HasCustomer(db: Db, id: int) {
    exists c :: c in db.customers && c.id == id
  }

  predicate HasOrder(db: Db, id: int) {
    exists o :: o in db.orders && o.id == id
  }

  predicate HasProduct(db: Db, id: int) {
    exists p :: p in db.products && p.id == id
  }

  /** The customer row with key `id`, if any. */
  function CustomerById(db: Db, id: int): (r: Option<Customer>)
    ensures r.Some? <==> HasCustomer(db, id)
    ensures r.Some? ==> r.value in db.customers && r.value.id == id
  {
    Find(db.customers, (c: Customer) => c.id == id)
  }

  function OrderById(db: Db, id: int): (r: Option<Order>)
    ensures r.Some? <==> HasOrder(db, id)
    ensures r.Some? ==> r.value in db.orders && r.value.id == id
  {
    Find(db.orders, (o: Order) => o.id == id)
  }

  function ProductById(db: Db, id: int): (r: Option<Product>)
    ensures r.Some? <==> HasProduct(db, id)
    ensures r.Some? ==> r.value in db.products && r.value.id == id
  {
    Find(db.products, (p: Product) => p.id == id)
  }

  /** Navigation `Order.Customer`. */
  function OrderCustomer(db: Db, o: Order): Option<Customer> {
    CustomerById(db, o.customerId)
  }

  /** Navigation `OrderItem.Order`. */
  function ItemOrder(db: Db, oi: OrderItem): Option<Order> {
    OrderById(db, oi.orderId)
  }

  /** Navigation `OrderItem.Product`. */
  function ItemProduct(db: Db, oi: OrderItem): Option<Product> {
    ProductById(db, oi.productId)
  }
}
