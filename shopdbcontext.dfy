/**
 * The schema configured in `ShopDbContext.OnModelCreating` as a predicate on
 * a snapshot: keys, required columns, length limits, unique indexes and the
 * foreign keys; and the delete behaviours attached to the foreign keys
 * (cascade from Customer to Order and from Order to OrderItem, restrict
 * from Product to OrderItem) as functions from a snapshot to a snapshot or
 * a refusal.
 */
module ShopDbContext {
  import opened Linq
  import opened Models

  const FullNameMaxLength := 100
  const ProductNameMaxLength := 100
  const CategoryMaxLength := 50
  const ArticleMaxLength := 50
  const OrderNumberMaxLength := 50

  /** `numeric(10,2)`: ten digits, two of them after the point, so under 10^10 hundredths. */
  const Numeric10_2Limit := 10_000_000_000

  predicate FitsNumeric10_2(hundredths: int) {
    -Numeric10_2Limit < hundredths < Numeric10_2Limit
  }

  // Column constraints. A required string column is NOT NULL, which a Dafny
  // string always is; the empty string is allowed.
  predicate CustomerColumnsValid(c: Customer) {
    |c.fullName| <= FullNameMaxLength
  }

  predicate ProductColumnsValid(p: Product) {
    && |p.name| <= ProductNameMaxLength
    && |p.category| <= CategoryMaxLength
    && |p.article| <= ArticleMaxLength
    && FitsNumeric10_2(p.price)
  }

  predicate OrderColumnsValid(o: Order) {
    && |o.orderNumber| <= OrderNumberMaxLength
    && FitsNumeric10_2(o.totalCost)
  }

  predicate ColumnsValid(db: Db) {
    && (forall c :: c in db.customers ==> CustomerColumnsValid(c))
    && (forall p :: p in db.products ==> ProductColumnsValid(p))
    && (forall o :: o in db.orders ==> OrderColumnsValid(o))
  }

  /** `HasKey` on every table and the unique indexes on `Article` and `OrderNumber`. */
  predicate KeysUnique(db: Db) {
    && UniqueBy(db.customers, CustomerKey)
    && UniqueBy(db.products, ProductKey)
    && UniqueBy(db.orders, OrderKey)
    && UniqueBy(db.orderItems, OrderItemKey)
    && UniqueBy(db.products, ProductArticle)
    && UniqueBy(db.orders, OrderNumber)
  }

  /** The required foreign keys `Order.CustomerId`, `OrderItem.OrderId` and `OrderItem.ProductId`. */
  predicate ForeignKeysResolve(db: Db) {
    && (forall o :: o in db.orders ==> HasCustomer(db, o.customerId))
    && (forall oi :: oi in db.orderItems ==> HasOrder(db, oi.orderId) && HasProduct(db, oi.productId))
  }

  predicate WellFormed(db: Db) {
    ColumnsValid(db) && KeysUnique(db) && ForeignKeysResolve(db)
  }

  /** In a well-formed snapshot an article names at most one product. */
  lemma ArticleIdentifiesProduct(db: Db, p: Product, q: Product)
    requires WellFormed(db) && p in db.products && q in db.products
    ensures p.article == q.article ==> p == q
  {
    if p.article == q.article {
      FindByUniqueKey(db.products, ProductArticle, p, q);
    }
  }

  /** In a well-formed snapshot an order number names at most one order. */
  lemma OrderNumberIdentifiesOrder(db: Db, o: Order, u: Order)
    requires WellFormed(db) && o in db.orders && u in db.orders
    ensures o.orderNumber == u.orderNumber ==> o == u
  {
    if o.orderNumber == u.orderNumber {
      FindByUniqueKey(db.orders, OrderNumber, o, u);
    }
  }

  /** In a well-formed snapshot the navigation from an order reaches the customer its key names. */
  lemma OrderCustomerIsOwner(db: Db, o: Order, c: Customer)
    requires UniqueBy(db.customers, CustomerKey) && c in db.customers
    ensures CustomerById(db, c.id) == Some(c)
    ensures OrderCustomer(db, o) == Some(c) <==> o.customerId == c.id
  {
    var r := CustomerById(db, c.id);
    FindByUniqueKey(db.customers, CustomerKey, r.value, c);
  }

  /** In a well-formed snapshot the navigations from an order item reach the order and product its keys name. */
  lemma ItemNavigation(db: Db, oi: OrderItem, o: Order, p: Product)
    requires WellFormed(db) && o in db.orders && p in db.products
    ensures oi in db.orderItems ==> ItemOrder(db, oi).Some? && ItemProduct(db, oi).Some?
    ensures ItemOrder(db, oi) == Some(o) <==> oi.orderId == o.id
    ensures ItemProduct(db, oi) == Some(p) <==> oi.productId == p.id
  {
    var ro := OrderById(db, o.id);
    FindByUniqueKey(db.orders, OrderKey, ro.value, o);
    var rp := ProductById(db, p.id);
    FindByUniqueKey(db.products, ProductKey, rp.value, p);
  }

  datatype DeleteError = NoSuchEntity | ReferencedByOrderItems
  datatype DeleteResult = Deleted(db: Db) | Refused(error: DeleteError)

  /** The item belongs to an order of the customer `customerId`. */
  predicate InOrderOf(db: Db, oi: OrderItem, customerId: int) {
    exists o :: o in db.orders && o.customerId == customerId && o.id == oi.orderId
  }

  /** Deleting a customer cascades to its orders and, through them, to their items. */
  function DeleteCustomer(db: Db, id: int): (r: DeleteResult)
    ensures r.Refused? <==> !HasCustomer(db, id)
    ensures r.Refused? ==> r.error == NoSuchEntity
    ensures r.Deleted? ==>
      && (forall c :: c in r.db.customers <==> c in db.customers && c.id != id)
      && r.db.products == db.products
      && (forall o :: o in r.db.orders <==> o in db.orders && o.customerId != id)
      && (forall oi :: oi in r.db.orderItems <==> oi in db.orderItems && !InOrderOf(db, oi, id))
  {
    if !HasCustomer(db, id) then Refused(NoSuchEntity)
    else
      var gone := set o | o in db.orders && o.customerId == id :: o.id;
      Deleted(Db(
        Where(db.customers, (c: Customer) => c.id != id),
        db.products,
        Where(db.orders, (o: Order) => o.customerId != id),
        Where(db.orderItems, (oi: OrderItem) => oi.orderId !in gone)))
  }

  /** Deleting an order cascades to its items. */
  function DeleteOrder(db: Db, id: int): (r: DeleteResult)
    ensures r.Refused? <==> !HasOrder(db, id)
    ensures r.Refused? ==> r.error == NoSuchEntity
    ensures r.Deleted? ==>
      && r.db.customers == db.customers
      && r.db.products == db.products
      && (forall o :: o in r.db.orders <==> o in db.orders && o.id != id)
      && (forall oi :: oi in r.db.orderItems <==> oi in db.orderItems && oi.orderId != id)
  {
    if !HasOrder(db, id) then Refused(NoSuchEntity)
    else
      Deleted(Db(
        db.customers,
        db.products,
        Where(db.orders, (o: Order) => o.id != id),
        Where(db.orderItems, (oi: OrderItem) => oi.orderId != id)))
  }

  /** Deleting a product is refused while an order item references it. */
  function DeleteProduct(db: Db, id: int): (r: DeleteResult)
    ensures r == Refused(NoSuchEntity) <==> !HasProduct(db, id)
    ensures r == Refused(ReferencedByOrderItems) <==>
      HasProduct(db, id) && exists oi :: oi in db.orderItems && oi.productId == id
    ensures r.Deleted? ==>
      && r.db.customers == db.customers
      && r.db.orders == db.orders
      && r.db.orderItems == db.orderItems
      && (forall p :: p in r.db.products <==> p in db.products && p.id != id)
  {
    if !HasProduct(db, id) then Refused(NoSuchEntity)
    else if exists oi :: oi in db.orderItems && oi.productId == id then Refused(ReferencedByOrderItems)
    else Deleted(Db(db.customers, Where(db.products, (p: Product) => p.id != id), db.orders, db.orderItems))
  }

  lemma DeleteCustomerPreservesWellFormed(db: Db, id: int)
    requires WellFormed(db)
    ensures DeleteCustomer(db, id).Deleted? ==> WellFormed(DeleteCustomer(db, id).db)
  {
    if HasCustomer(db, id) {
      var gone := set o | o in db.orders && o.customerId == id :: o.id;
      WhereUnique(db.customers, (c: Customer) => c.id != id, CustomerKey);
      WhereUnique(db.orders, (o: Order) => o.customerId != id, OrderKey);
      WhereUnique(db.orders, (o: Order) => o.customerId != id, OrderNumber);
      WhereUnique(db.orderItems, (oi: OrderItem) => oi.orderId !in gone, OrderItemKey);
      var d := DeleteCustomer(db, id).db;
      forall o | o in d.orders ensures HasCustomer(d, o.customerId) {
        var c :| c in db.customers && c.id == o.customerId;
        assert c in d.customers;
      }
      forall oi | oi in d.orderItems ensures HasOrder(d, oi.orderId) {
        var o :| o in db.orders && o.id == oi.orderId;
        assert o.customerId != id;
        assert o in d.orders;
      }
    }
  }

  lemma DeleteOrderPreservesWellFormed(db: Db, id: int)
    requires WellFormed(db)
    ensures DeleteOrder(db, id).Deleted? ==> WellFormed(DeleteOrder(db, id).db)
  {
    if HasOrder(db, id) {
      WhereUnique(db.orders, (o: Order) => o.id != id, OrderKey);
      WhereUnique(db.orders, (o: Order) => o.id != id, OrderNumber);
      WhereUnique(db.orderItems, (oi: OrderItem) => oi.orderId != id, OrderItemKey);
      var d := DeleteOrder(db, id).db;
      forall oi | oi in d.orderItems ensures HasOrder(d, oi.orderId) {
        var o :| o in db.orders && o.id == oi.orderId;
        assert o in d.orders;
      }
    }
  }

  lemma DeleteProductPreservesWellFormed(db: Db, id: int)
    requires WellFormed(db)
    ensures DeleteProduct(db, id).Deleted? ==> WellFormed(DeleteProduct(db, id).db)
  {
    if DeleteProduct(db, id).Deleted? {
      WhereUnique(db.products, (p: Product) => p.id != id, ProductKey);
      WhereUnique(db.products, (p: Product) => p.id != id, ProductArticle);
      var d := DeleteProduct(db, id).db;
      forall oi | oi in d.orderItems ensures HasProduct(d, oi.productId) {
        var p :| p in db.products && p.id == oi.productId;
        assert p in d.products;
      }
    }
  }
}
