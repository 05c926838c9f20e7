# ShopWebApi customer analytics, modelled in Dafny

This project models two parts of the ShopWebApi service:

- **The three read-only actions of `CustomersController`:**
  - birthday customers for a date;
  - customers with a purchase in the last N days;
  - the product categories a customer bought, with the quantity bought of each.
- **The schema of `ShopDbContext.OnModelCreating`:**
  - keys, required columns, length limits, unique indexes and foreign keys;
  - the delete behaviour attached to each foreign key.

The database is a snapshot `Db`, holding one sequence of records per table. Each foreign key is a plain field. A navigation property (`Order.Customer`, `OrderItem.Order`, `OrderItem.Product`) is a lookup of the first row with that key. A query keeps a row only when its navigation resolves, like an inner join.

Each action is a function from a snapshot and the request parameters to `BadRequest(message)`, `NotFound(message)` or `Ok(value)`.

The modules follow the program:

- `Linq` holds the sequence operators the query chains use: `Where`, `Select`, `GroupBy`, `Max` and `Sum`. It also holds `Collect`, which is an inner join with a lookup, and `Find`.
  - `GroupBy` builds one group per distinct key, in order of first occurrence.
  - The lemmas about these operators are stated for any element type.
- `Models` holds the entity records, the snapshot and the navigation lookups.
- `ShopDbContext` holds:
  - `WellFormed(db)`, the schema as a predicate;
  - the cascade and restrict delete rules, as functions from a snapshot to a snapshot or a refusal;
  - lemmas that the delete rules preserve `WellFormed`.
- `CustomersController` holds the three actions. Each is checked against a definition that does not use the query pipeline:
  - **birthday:** which customers match;
  - **recent:** `HasOrderSince` and `IsLastPurchase`;
  - **categories:** `Purchased`, `QuantityOf` and `TotalQuantityOf`.

Dates and times are modelled as follows:

- A `DateTime` that is used through its calendar fields is `DateTime(year, month, day, timeOfDay)`. This covers `BirthDate`, `RegistrationDate` and the birthday query's date. `default(DateTime)` is `DateTime(1, 1, 1, 0)`.
- `OrderDate` and the clock reading `now` are .NET tick counts (integers). `now.AddDays(-days)` is `now - days * 864_000_000_000`.
- `decimal` amounts (`Price`, `TotalCost`) are integers counting hundredths.

## Model

| member | source | states |
|---|---|---|
| Models.HasCustomer | ShopWebApi/Controllers/CustomersController.cs:94 | `Customers.Any(c => c.Id == id)`: some customer row carries the id |
| Models.OrderCustomer | ShopWebApi/Models/Order.cs:9-10 | the navigation `Order.Customer` is the customer row whose key is the order's `CustomerId`, or none |
| Models.ItemOrder | ShopWebApi/Models/OrderItem.cs:6-9 | the navigation `OrderItem.Order` is the order row whose key is the item's `OrderId`, or none |
| Models.ItemProduct | ShopWebApi/Models/OrderItem.cs:7-10 | the navigation `OrderItem.Product` is the product row whose key is the item's `ProductId`, or none |
| ShopDbContext.WellFormed | ShopWebApi/Data/ShopDbContext.cs:15-91 | the schema of `OnModelCreating` as one invariant: the five length limits (`FullName` and `Name` 100, `Category`, `Article` and `OrderNumber` 50), `Price` and `TotalCost` within `numeric(10,2)`, unique keys on the four tables, unique `Article` and `OrderNumber`, and the three required foreign keys resolving (`Order.CustomerId`, `OrderItem.OrderId`, `OrderItem.ProductId`); non-empty strings are not required (see "Left out") |
| Linq.Where | ShopWebApi/Controllers/CustomersController.cs:64-65 | the filter keeps exactly the elements satisfying the predicate and no more elements than the input |
| Linq.Select | ShopWebApi/Controllers/CustomersController.cs:37-41 | the projection has the input's length and maps each position through the selector |
| Linq.Collect | ShopWebApi/Models/OrderItem.cs:9-10 | the inner join behind a navigation keeps exactly the images of the elements that resolve, and no more elements than the input |
| Linq.Sum | ShopWebApi/Controllers/CustomersController.cs:106 | over positive values the sum is positive exactly when the sequence is non-empty |
| Models.CustomerById | ShopWebApi/Data/ShopDbContext.cs:65-67 | the lookup behind `Order.Customer` finds a row exactly when one has the key, and what it finds has that key |
| Models.OrderById | ShopWebApi/Data/ShopDbContext.cs:82-84 | the lookup behind `OrderItem.Order` finds a row exactly when one has the key, and what it finds has that key |
| Models.ProductById | ShopWebApi/Data/ShopDbContext.cs:87-89 | the lookup behind `OrderItem.Product` finds a row exactly when one has the key, and what it finds has that key |
| ShopDbContext.ArticleIdentifiesProduct | ShopWebApi/Data/ShopDbContext.cs:44-45 | in a well-formed snapshot two products with the same article are the same product |
| ShopDbContext.OrderNumberIdentifiesOrder | ShopWebApi/Data/ShopDbContext.cs:62-63 | in a well-formed snapshot two orders with the same order number are the same order |
| ShopDbContext.OrderCustomerIsOwner | ShopWebApi/Data/ShopDbContext.cs:65-67 | with unique customer keys, an order's navigation reaches customer `c` exactly when its `CustomerId` is `c`'s id |
| ShopDbContext.ItemNavigation | ShopWebApi/Data/ShopDbContext.cs:82-90 | in a well-formed snapshot an item's order and product navigations resolve, and reach a given order or product exactly when the foreign key names it |
| ShopDbContext.DeleteCustomer | ShopWebApi/Data/ShopDbContext.cs:65-85 | an unknown id is refused; otherwise the customer, exactly its orders and exactly those orders' items are removed, and products are untouched |
| ShopDbContext.DeleteOrder | ShopWebApi/Data/ShopDbContext.cs:82-85 | an unknown id is refused; otherwise the order and exactly its items are removed, and customers and products are untouched |
| ShopDbContext.DeleteProduct | ShopWebApi/Data/ShopDbContext.cs:87-90 | an unknown id is refused; a product referenced by an item is refused; otherwise only that product is removed |
| ShopDbContext.DeleteCustomerPreservesWellFormed | ShopWebApi/Data/ShopDbContext.cs:65-68 | the customer cascade leaves a well-formed snapshot well-formed |
| ShopDbContext.DeleteOrderPreservesWellFormed | ShopWebApi/Data/ShopDbContext.cs:82-85 | the order cascade leaves a well-formed snapshot well-formed |
| ShopDbContext.DeleteProductPreservesWellFormed | ShopWebApi/Data/ShopDbContext.cs:87-90 | the restricted product delete leaves a well-formed snapshot well-formed |
| Linq.GroupBy | ShopWebApi/Controllers/CustomersController.cs:66 | the groups have distinct keys; there is a group for a key exactly when an element has it; each group holds exactly the elements with its key, in order, and is non-empty |
| Linq.Max | ShopWebApi/Controllers/CustomersController.cs:71 | the maximum is the value of some element and no element's value exceeds it |
| Linq.GroupBySum | ShopWebApi/Controllers/CustomersController.cs:102-106 | grouping partitions the elements: the group sums add up to the sum over all elements |
| CustomersController.GetBirthdayCustomers | ShopWebApi/Controllers/CustomersController.cs:22-45 | the default date gives `BadRequest("Date cannot be empty.")` whatever the snapshot; any other date gives `Ok` listing every customer whose birth day and month are the query's, each as `(Id, FullName)`, and nothing else |
| CustomersController.SameDayAndMonth | ShopWebApi/Controllers/CustomersController.cs:34-36 | the row filter: the birth date's day and month equal the query date's `Day` and `Month` |
| CustomersController.ToCustomerDto | ShopWebApi/Controllers/CustomersController.cs:37-41 | the projection `new CustomerDto { Id, FullName }`: a customer's id and full name |
| CustomersController.BirthdayCustomersExactly | ShopWebApi/Controllers/CustomersController.cs:29-42 | on a well-formed snapshot a customer's entry is listed exactly when its birth day and month match, and no id is listed twice |
| CustomersController.BirthdayIgnoresYear | ShopWebApi/Controllers/CustomersController.cs:34-36 | two query dates with the same day and month give the same answer: year and time of day play no part |
| CustomersController.BirthdayExamples | ShopWebApi/Controllers/CustomersController.cs:34-36 | a 29 February 1996 birth matches a 29 February 2024 query; a 15 March birth matches 15 March and not 16 March |
| CustomersController.GetRecentCustomers | ShopWebApi/Controllers/CustomersController.cs:55-76 | `days <= 0` gives `BadRequest("Number of days must be greater than 0.")`; a positive `days` gives `Ok` |
| CustomersController.RecentThreshold | ShopWebApi/Controllers/CustomersController.cs:62 | `now.AddDays(-days)` in ticks: `days` whole days of ticks before `now` |
| CustomersController.RecentPurchases | ShopWebApi/Controllers/CustomersController.cs:64-66 | the orders placed at or after the threshold, each joined with the customer `o.Customer` reaches (stated by `RecentPurchasesExactly`) |
| CustomersController.JoinCustomer | ShopWebApi/Controllers/CustomersController.cs:66 | the inner join behind `o.Customer`: an order paired with the customer its `CustomerId` reaches, or nothing when none does |
| CustomersController.Buyer | ShopWebApi/Controllers/CustomersController.cs:66 | the grouping key `o => o.Customer` of a joined order |
| CustomersController.PurchaseDate | ShopWebApi/Controllers/CustomersController.cs:71 | the selector `o => o.OrderDate` of a joined order |
| CustomersController.ToRecentCustomerDto | ShopWebApi/Controllers/CustomersController.cs:67-72 | the projection to `RecentCustomerDto`: the group key's id and full name, and the largest `OrderDate` in the group as `LastPurchase` (stated by `RecentEntrySound`) |
| CustomersController.RecentPurchasesExactly | ShopWebApi/Controllers/CustomersController.cs:64-65 | the joined rows are exactly the orders at or after the threshold whose customer resolves, each paired with that customer |
| CustomersController.RecentGroups | ShopWebApi/Controllers/CustomersController.cs:64-73 | the answer is one entry per group of recent orders by customer, and no group is empty |
| CustomersController.RecentGroupFacts | ShopWebApi/Controllers/CustomersController.cs:65-66 | each group's key is the customer its id looks up, and the group holds exactly that customer's recent orders |
| CustomersController.RecentCustomersUnique | ShopWebApi/Controllers/CustomersController.cs:66-73 | no customer id is listed twice |
| CustomersController.RecentCustomersComplete | ShopWebApi/Controllers/CustomersController.cs:64-66 | every customer reached from an order at or after `now - days` is listed |
| CustomersController.RecentEntrySound | ShopWebApi/Controllers/CustomersController.cs:67-72 | the entry made from a customer's group carries its id and name and the latest date among its recent orders |
| CustomersController.RecentCustomersSound | ShopWebApi/Controllers/CustomersController.cs:67-72 | every entry is a customer with a recent order, listed with its name and the latest date among its recent orders |
| CustomersController.RecentCustomersAnswer | ShopWebApi/Controllers/CustomersController.cs:64-73 | the answer is unique, complete and sound at once |
| CustomersController.AnswerHasOrder | ShopWebApi/Controllers/CustomersController.cs:64-69 | an id that a sound answer lists has an order at or after the threshold |
| CustomersController.OrderSinceByKey | ShopWebApi/Controllers/CustomersController.cs:65-66 | an order reached from customer `c` through its navigation carries `c`'s id |
| CustomersController.AnswerListed | ShopWebApi/Controllers/CustomersController.cs:64-69 | with unique customer keys, a sound and complete answer lists a customer exactly when an order with its id is at or after the threshold |
| CustomersController.LastPurchaseByKey | ShopWebApi/Controllers/CustomersController.cs:65-71 | with unique customer keys, the latest purchase through the navigation is the latest among the orders carrying the customer's id |
| CustomersController.AnswerLastPurchase | ShopWebApi/Controllers/CustomersController.cs:71 | with unique customer keys, an entry's last purchase is at or after the threshold, is some order's date, and no recent order of that id is later |
| CustomersController.RecentCustomerListed | ShopWebApi/Controllers/CustomersController.cs:62-69 | on a well-formed snapshot a customer is listed exactly when it owns an order dated at or after `now - days` |
| CustomersController.RecentLastPurchase | ShopWebApi/Controllers/CustomersController.cs:62-71 | on a well-formed snapshot `LastPurchase` is at least `now - days`, is the date of one of the customer's orders, and is the latest such date |
| CustomersController.GetDemandedCategories | ShopWebApi/Controllers/CustomersController.cs:87-111 | `customerId <= 0` gives `BadRequest("Customer ID must be greater than 0.")` before existence is checked; an unknown id gives `NotFound("Customer with Id <id> not found.")`; the answer is `Ok` exactly for an existing positive id |
| CustomersController.NatToString | ShopWebApi/Controllers/CustomersController.cs:97 | the decimal digits of the id interpolated into the not-found message |
| CustomersController.PlacedBy | ShopWebApi/Controllers/CustomersController.cs:101 | the filter `oi.Order.CustomerId == customerId`, through the `OrderItem.Order` navigation |
| CustomersController.JoinProduct | ShopWebApi/Controllers/CustomersController.cs:102 | the inner join behind `oi.Product`: an item paired with the product its `ProductId` reaches, or nothing when none does |
| CustomersController.LineCategory | ShopWebApi/Controllers/CustomersController.cs:102 | the grouping key `oi => oi.Product.Category` of a joined item |
| CustomersController.LineQuantity | ShopWebApi/Controllers/CustomersController.cs:106 | the selector `oi => oi.Quantity` of a joined item |
| CustomersController.ToCategoryDemandDto | ShopWebApi/Controllers/CustomersController.cs:103-107 | the projection to `CategoryDemandDto`: the group key as `Category` and the sum of its quantities as `TotalQuantity` (stated by `DemandTotals`) |
| CustomersController.DemandGroups | ShopWebApi/Controllers/CustomersController.cs:100-102 | the `Where` and `GroupBy` chain: the customer's joined items grouped by product category (stated by `DemandGroupFacts`) |
| CustomersController.CustomerLines | ShopWebApi/Controllers/CustomersController.cs:100-102 | the customer's order items joined with their products, in item order (stated by `CustomerLinesIsQuery` and `CustomerLinesExactly`) |
| CustomersController.CustomerLinesIsQuery | ShopWebApi/Controllers/CustomersController.cs:100-102 | the customer's rows are exactly `Where(oi => oi.Order.CustomerId == customerId)` followed by the inner join with `oi.Product`, in item order |
| CustomersController.CustomerLinesExactly | ShopWebApi/Controllers/CustomersController.cs:100-102 | the joined rows are exactly the items of the customer's orders whose product resolves, each paired with that product |
| CustomersController.NewLinePurchased | ShopWebApi/Controllers/CustomersController.cs:100-102 | the row an item contributes is of a category exactly when that item is a purchase of that category by the customer |
| CustomersController.CategoryStep | ShopWebApi/Controllers/CustomersController.cs:101-106 | one more item raises the sum of a category's rows by its quantity exactly when it is a purchase of that category |
| CustomersController.LinesSnoc | ShopWebApi/Controllers/CustomersController.cs:100-102 | one more item adds its row at the end exactly when it is the customer's and its product resolves |
| CustomersController.DemandGroupFacts | ShopWebApi/Controllers/CustomersController.cs:102 | each group holds exactly the customer's rows of its category, and at least one |
| CustomersController.DemandCategoriesUnique | ShopWebApi/Controllers/CustomersController.cs:102-105 | no category is listed twice |
| CustomersController.DemandListsCategory | ShopWebApi/Controllers/CustomersController.cs:100-105 | a category is listed exactly when one of the customer's items reaches a product of that category |
| CustomersController.CategoryListed | ShopWebApi/Controllers/CustomersController.cs:100-105 | the category of a purchased item is listed |
| CustomersController.ListedCategoryBought | ShopWebApi/Controllers/CustomersController.cs:100-105 | a listed category is the category of a purchased item |
| CustomersController.CategoryQuantity | ShopWebApi/Controllers/CustomersController.cs:101-106 | the rows of one category sum to the reference quantity of that category |
| CustomersController.LinesQuantity | ShopWebApi/Controllers/CustomersController.cs:101-106 | all the rows sum to the reference total of the customer's items |
| CustomersController.DemandTotals | ShopWebApi/Controllers/CustomersController.cs:100-107 | each entry's total is the sum of the quantities of exactly the customer's items of that category |
| CustomersController.DemandSumGroups | ShopWebApi/Controllers/CustomersController.cs:103-107 | the entries made from groups sum to the quantities of all grouped rows |
| CustomersController.DemandConservation | ShopWebApi/Controllers/CustomersController.cs:100-107 | the totals of all entries add up to the quantity of all the customer's items |
| CustomersController.DemandPositive | ShopWebApi/Controllers/CustomersController.cs:106 | when every item's quantity is positive, every listed total is positive |
| CustomersController.DemandEmpty | ShopWebApi/Controllers/CustomersController.cs:94-110 | an existing customer with no items gives `Ok` with an empty list, not `NotFound` |
| CustomersController.PurchasedByKey | ShopWebApi/Controllers/CustomersController.cs:101-102 | with unique order and product keys, an item is the customer's in a category exactly when its foreign keys name an order of the customer and a product of that category |
| CustomersController.DemandedCategoryByKey | ShopWebApi/Controllers/CustomersController.cs:100-105 | on a well-formed snapshot a category is listed exactly when an item of one of the customer's orders names a product of that category |
| CustomersController.DemandExample | ShopWebApi/Controllers/CustomersController.cs:100-108 | 3 books in one order and 2 books and 1 toy in another give `Books 5, Toys 1` |
| CustomersController.TwoCategories | ShopWebApi/Controllers/CustomersController.cs:102-107 | three rows, two of one category and one of another, give two entries carrying the summed quantities |
| CustomersController.DemandAfterDelete | ShopWebApi/Controllers/CustomersController.cs:94-98 | after a customer is deleted, the category query for its id is `NotFound` |
| CustomersController.RecentAfterDelete | ShopWebApi/Controllers/CustomersController.cs:64-72 | after a customer is deleted, no recent-customer entry carries its id |
| CustomersController.BirthdayAfterDelete | ShopWebApi/Controllers/CustomersController.cs:29-42 | after a customer is deleted, no birthday entry carries its id |

## Left out

- SQL and EF Core translation are not modelled. This covers `FromSqlRaw` with `EXTRACT`, LINQ-to-SQL and the database engine. The model states what the queries mean over a snapshot.
- The time zone `EXTRACT` uses is left out. The birthday filter compares the day and month fields of the stored date as given.
- `DateTime.UtcNow` is a clock read. It is the parameter `now`.
- `AddDays` overflow is left out. So is the `DateTime` range (year 1 to 9999): ticks and days are unbounded integers.
- HTTP routing, model binding (`[Range]`), status codes and `Program.cs` are plumbing. An action result is a datatype. Under `[ApiController]`, the `[Range(1, int.MaxValue)]` on `days` (ShopWebApi/Controllers/CustomersController.cs:55) makes the framework answer an explicit `days <= 0` with its own validation 400 before the action body runs; so the message `GetRecentCustomers` states for `days <= 0` is the actual response only when `days` is absent from the query and binds to 0. The model keeps the action body's check and not the framework's validation response.
- The order of the results is not modelled. The model fixes one order: input order, with groups in first-occurrence order. The lemmas state each result as a set with no duplicate keys, not as a sequence.
- Integer overflow is left out. `int` overflow of `Sum` and of ids is not modelled, because the model's integers are unbounded.
- `decimal` arithmetic is left out. `Price` and `TotalCost` are integer hundredths, and the only constraint on them is the `numeric(10,2)` range.
- The navigation lists (`Customer.Orders`, `Order.OrderItems`, `Product.OrderItems`) and the `RecentCustomerDto` default value are left out. They are only record shapes.
- `GroupBy(o => o.Customer)` groups by the customer value. In EF this is one entity object per key. On a well-formed snapshot, where customer ids are unique, this is the same grouping as by id.
- ShopDbContext.WellFormed: the `IsRequired` columns are not modelled as non-empty. On a string column `IsRequired` means NOT NULL. A Dafny string is never null, and EF does not reject the empty string, so `WellFormed` allows an empty `FullName`, `Name`, `Category`, `Article` or `OrderNumber`.
- CustomersController.DemandPositive: takes positive quantities as a premise. `OnModelCreating` places no range constraint on `Quantity`; its `IsRequired` (ShopWebApi/Data/ShopDbContext.cs:79-80) has no effect on an `int` column. So `WellFormed` does not require positive quantities.
- `ShopDbContext.DeleteCustomer` and the other deletes model the delete rules, not the EF change tracker. An entity that is not in the snapshot is refused with `NoSuchEntity`.
