# Product query service — Dafny model

This project models the product query service of a small ASP.NET demonstration
application (`Services/ProductService.cs`). The service holds a fixed list of five
products, built once by its constructor and never changed. It answers four read-only
LINQ queries over that list:

- the available products sorted by price, materialised with `ToList()` (eager);
- the same pipeline returned unevaluated through `AsEnumerable()` (deferred);
- the count of the available products and the sum of their prices;
- the names of the available products, deferred and in list order.

The project has three modules.

- `Linq` (`linq.dfy`) holds the LINQ-to-objects operators the queries use, on finite
  sequences: `Where` (filter), `OrderBy` (a stable insertion sort on an integer key),
  `Select` (projection) and `Sum`, with their laws.
- `Catalog` (`catalog.dfy`) holds the `Product` record and the constructor's
  five-product list `Fixture`.
- `ProductService` (`product_service.dfy`) holds the four queries. The eager ones are
  functions of the product list. Each deferred one returns a pipeline value (`Query`,
  `NameQuery`) that examines no product. The pipeline runs against the product list
  only when it is enumerated (`Enumerate`, `EnumerateNames`).

Stability of `OrderBy` is stated as follows. For every key `k`, the subsequence of
elements with key `k` (`WithKey`) is the same in the output as in the input. Together
with sortedness this property determines the result (`StableSortUnique`). So the eager
list is the only sequence that is sorted by price and keeps equal-priced products in
list order.

`GetProductNamesWithAsEnumerable` does not sort (Services/ProductService.cs:83-86).
Over the catalog it yields Laptop, Mouse, Monitor, Desk (`FixtureNames`), while both
product lists read Mouse, Desk, Monitor, Laptop.

## Model

| member | source | states |
|---|---|---|
| `Catalog.FixtureFacts` | Services/ProductService.cs:15-22 | the list holds five well-formed products with distinct ids 1 to 5 in order; Keyboard (id 3) is the only unavailable one |
| `Linq.Where` | Services/ProductService.cs:37 | the filter keeps no more elements than its input, and every kept element satisfies the predicate |
| `Linq.WhereCount` | Services/ProductService.cs:37 | each element occurs in the result as often as in the input if it satisfies the predicate, and otherwise not at all |
| `Linq.WhereMember` | Services/ProductService.cs:37 | an element is in the result exactly when it is in the input and satisfies the predicate |
| `Linq.WhereConcat` | Services/ProductService.cs:37 | filtering distributes over concatenation, so the input order is kept |
| `Linq.WithKeyWhere` | Services/ProductService.cs:37-38 | the key-`k` elements of a filtered sequence are the input's elements that satisfy the predicate and have key `k`, in input order |
| `Linq.Insert` | Services/ProductService.cs:38 | inserting into a sorted sequence gives a sorted sequence with one more element, whose multiset gains exactly that element |
| `Linq.InsertWithKey` | Services/ProductService.cs:38 | the inserted element goes in front of every element with the same key, and the other key classes are unchanged |
| `Linq.OrderBy` | Services/ProductService.cs:38 | the sort's output is sorted by key, has the input's length and is a permutation of the input |
| `Linq.OrderByWithKey` | Services/ProductService.cs:38 | the sort is stable: for every key, the elements with that key keep their relative input order |
| `Linq.StableSortUnique` | Services/ProductService.cs:38 | two sorted sequences that agree on every key's subsequence are equal |
| `Linq.OrderByIsTheStableSort` | Services/ProductService.cs:38 | any sorted sequence that keeps every key's subsequence of the input equals `OrderBy` of the input |
| `Linq.Select` | Services/ProductService.cs:86 | the projection has the input's length, and its i-th element is the selector applied to the i-th input element |
| `Linq.SelectConcat` | Services/ProductService.cs:86 | projection distributes over concatenation |
| `Linq.SelectOrderBy` | Services/ProductService.cs:38 | sorting changes only the order of projected values, not their multiset |
| `Linq.Sum` | Services/ProductService.cs:73 | a sum of non-negative terms is non-negative |
| `Linq.SumConcat` | Services/ProductService.cs:73 | the sum over a concatenation is the sum of the two sums |
| `Linq.SumWhere` | Services/ProductService.cs:69-73 | summing over the filtered list equals summing over the whole list with excluded elements counted as 0 |
| `Linq.CountWhere` | Services/ProductService.cs:69-73 | the filtered list's length is the number of input elements that satisfy the predicate |
| `Linq.SumOrderBy` | Services/ProductService.cs:38 | sorting does not change a sum |
| `ProductService.Available` | Services/ProductService.cs:37 | every product kept by `Where(p => p.IsAvailable)` is available |
| `ProductService.GetAvailableProductsWithToList` | Services/ProductService.cs:36-39 | the eager list holds only available products, is ordered by non-decreasing price, and is a permutation of the available products |
| `ProductService.AvailableListMembers` | Services/ProductService.cs:36-39 | a product is in the eager list exactly when it is an available product of the catalog |
| `ProductService.AvailableListStable` | Services/ProductService.cs:37-38 | the eager list's products of price `k` are the catalog's available products of price `k`, in catalog order |
| `ProductService.AvailableListIsTheStableSort` | Services/ProductService.cs:36-39 | any ordering of the available products that is sorted by price and keeps catalog order among equal prices is the eager list |
| `ProductService.Enumerate` | Services/ProductService.cs:55-58 | enumerating a pipeline over the catalog never yields more products than the catalog holds |
| `ProductService.GetAvailableProductsWithAsEnumerable` | Services/ProductService.cs:55-58 | over every catalog, enumerating the deferred pipeline yields exactly the eager list, in the same order |
| `ProductService.EnumerateNames` | Services/ProductService.cs:83-86 | running a names pipeline yields one name per product of its source pipeline, the i-th being the i-th product's name |
| `ProductService.Names` | Services/ProductService.cs:83-86 | the reference names: one per available product, the i-th being the name of the catalog's i-th available product |
| `ProductService.GetProductNamesWithAsEnumerable` | Services/ProductService.cs:83-86 | over every catalog, enumerating the deferred names pipeline yields the names of the available products in catalog order, unsorted |
| `ProductService.NamesConcat` | Services/ProductService.cs:83-86 | the names of a concatenated catalog are the concatenation of the two name lists, so catalog order is kept |
| `ProductService.NamesSingle` | Services/ProductService.cs:84-86 | a single product contributes its name exactly when it is available |
| `ProductService.NamesMatchAvailableList` | Services/ProductService.cs:83-86 | the names query yields the same multiset of names as the eager list |
| `ProductService.GetProductStatsWithToList` | Services/ProductService.cs:69-73 | `count` is the number of available products (at most the catalog size); `total` is the sum over the catalog with each unavailable product counted as 0 |
| `ProductService.StatsMatchAvailableList` | Services/ProductService.cs:69-73 | `count` is the eager list's length, and `total` is the sum of the eager list's prices |
| `ProductService.StatsTotalNonNegative` | Services/ProductService.cs:69-73 | over a catalog of well-formed products (no negative price), the stats total is not negative |
| `ProductService.NamesMatchStats` | Services/ProductService.cs:83-86 | the names query yields as many names as the stats count |
| `ProductService.FixtureAvailable` | Services/ProductService.cs:17-21 | the catalog's available products, in order, are Laptop, Mouse, Monitor and Desk |
| `ProductService.FixtureAvailableList` | Services/ProductService.cs:36-58 | over the catalog, the eager and the deferred list are both Mouse (25), Desk (200), Monitor (300), Laptop (1200) |
| `ProductService.FixtureAvailableListNames` | Services/ProductService.cs:36-58 | over the catalog, the names of both the eager and the deferred list are Mouse, Desk, Monitor, Laptop |
| `ProductService.FixtureStats` | Services/ProductService.cs:69-73 | over the catalog, the stats are count 4 and total 1725 |
| `ProductService.FixtureNames` | Services/ProductService.cs:83-86 | over the catalog, the names are Laptop, Mouse, Monitor, Desk, which differs from the eager list's order |
| `ProductService.EmptyCatalog` | Services/ProductService.cs:36-86 | over an empty catalog, both lists and the names are empty and the stats are (0, 0) |

## Left out

- `Controllers/HomeController.cs` is not part of this model. It is MVC plumbing: logging through `ILogger`, view rendering, a response-cache attribute and trace ids.
- When the deferred queries run, and that each enumeration runs the pipeline again, are not observable on values. The model shows only that a deferred pipeline examines no product when it is built, and that every enumeration yields the eager result.
- Prices are modelled as unbounded integers, not C# `decimal`. Every catalog price is an integer literal, and adding them is exact. The `OverflowException` that `Enumerable.Sum` raises beyond the `decimal` range is not modelled.
- Ids and `Count` are modelled as unbounded integers, not 32-bit `int`. Five products cannot overflow either.
- The `Product` class itself (`Models/Product.cs`) is not part of this model. Its five fields are taken from the object initialisers of the catalog.
- The `List<Product>` that `ToList()` returns is a fresh mutable list that callers may change. The model returns a value, so later changes by a caller are not modelled. The C# `Product` is a class, so that list holds the same objects as the catalog. If `Product` has setters, a caller who changes a product's field through the returned list also changes the catalog and every later query. The model's `Product` is a value datatype, so this aliasing is not modelled.
- Calling a query twice gives equal results because the model's functions are deterministic. No separate lemma states this.
