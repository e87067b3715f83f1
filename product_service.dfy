/**
 * The product query service: four read-only queries over the catalog list.
 * The list is a value here, so no query can change it. The two deferred
 * queries return a description of their pipeline (`Query`, `NameQuery`); it is
 * run against the catalog only when enumerated (`Enumerate`, `EnumerateNames`),
 * and each enumeration runs the whole pipeline again.
 */
module ProductService {
  import opened Catalog
  import opened Linq

  // The selectors the queries pass to the operators.
  function IsAvailable(p: Product): bool { p.isAvailable }
  function Price(p: Product): int { p.price }
  function Name(p: Product): string { p.name }
  function AvailableOne(p: Product): int { if p.isAvailable then 1 else 0 }
  function AvailablePrice(p: Product): int { if p.isAvailable then p.price else 0 }

  /** The available products, in list order. */
  function Available(products: seq<Product>): (r: seq<Product>)
    ensures forall i :: 0 <= i < |r| ==> r[i].isAvailable
  {
    Where(products, IsAvailable)
  }

  // ---------------------------------------------------------------------------
  // Eager list: filter, stable sort by price, materialise.

  /**
   * The available products ordered by non-decreasing price: a permutation of
   * the available products of the catalog.
   */
  function GetAvailableProductsWithToList(products: seq<Product>): (r: seq<Product>)
    ensures forall i :: 0 <= i < |r| ==> r[i].isAvailable
    ensures forall i, j :: 0 <= i < j < |r| ==> r[i].price <= r[j].price
    ensures multiset(r) == multiset(Available(products))
    ensures |r| <= |products|
  {
    var available := Available(products);
    var sorted := OrderBy(available, Price);
    PermutationStaysAvailable(sorted, available);
    sorted
  }

  // Every element of a permutation of the available products is available.
  lemma PermutationStaysAvailable(sorted: seq<Product>, available: seq<Product>)
    requires multiset(sorted) == multiset(available)
    requires forall i :: 0 <= i < |available| ==> available[i].isAvailable
    ensures forall i :: 0 <= i < |sorted| ==> sorted[i].isAvailable
  {
    forall i | 0 <= i < |sorted| ensures sorted[i].isAvailable {
      assert sorted[i] in multiset(available);
    }
  }

  /** A product is in the eager list exactly when it is an available product of the catalog. */
  lemma AvailableListMembers(products: seq<Product>, p: Product)
    ensures p in GetAvailableProductsWithToList(products) <==> p in products && p.isAvailable
  {
    var r := GetAvailableProductsWithToList(products);
    assert p in r <==> p in multiset(r);
    WhereMember(products, IsAvailable, p);
  }

  /**
   * Stability: the available products of any one price appear in the eager
   * list in the same relative order as in the catalog.
   */
  lemma AvailableListStable(products: seq<Product>, k: int)
    ensures WithKey(GetAvailableProductsWithToList(products), Price, k)
         == Where(products, (p: Product) => p.isAvailable && p.price == k)
  {
    OrderByWithKey(Available(products), Price, k);
    WithKeyWhere(products, IsAvailable, Price, k, (p: Product) => p.isAvailable && p.price == k);
  }

  /**
   * The eager list is the only sequence that is sorted by price and keeps,
   * for each price, the catalog order of the available products of that price.
   */
  lemma AvailableListIsTheStableSort(products: seq<Product>, r: seq<Product>)
    requires Sorted(r, Price)
    requires SameKeyClasses(r, Available(products), Price)
    ensures r == GetAvailableProductsWithToList(products)
  {
    OrderByIsTheStableSort(Available(products), r, Price);
  }

  // ---------------------------------------------------------------------------
  // Deferred pipelines.

  /** An unevaluated pipeline of product operators over the catalog list. */
  datatype Query =
    | Products
    | WhereAvailable(source: Query)
    | OrderByPrice(source: Query)
    | AsEnumerable(source: Query)

  /** Runs the pipeline against the catalog as it is when enumerated. */
  function Enumerate(q: Query, products: seq<Product>): (r: seq<Product>)
    ensures |r| <= |products|
  {
    match q
    case Products => products
    case WhereAvailable(source) => Where(Enumerate(source, products), IsAvailable)
    case OrderByPrice(source) => OrderBy(Enumerate(source, products), Price)
    case AsEnumerable(source) => Enumerate(source, products)
  }

  /**
   * The deferred list: building it looks at no product, and enumerating it
   * over any catalog yields exactly the eager list, element by element.
   */
  function GetAvailableProductsWithAsEnumerable(): (q: Query)
    ensures forall products :: Enumerate(q, products) == GetAvailableProductsWithToList(products)
  {
    var q := AsEnumerable(OrderByPrice(WhereAvailable(Products)));
    assert forall products :: Enumerate(q, products) == GetAvailableProductsWithToList(products) by {
      forall products ensures Enumerate(q, products) == GetAvailableProductsWithToList(products) {
        assert Enumerate(WhereAvailable(Products), products) == Available(products);
        assert Enumerate(q, products) == Enumerate(OrderByPrice(WhereAvailable(Products)), products);
      }
    }
    q
  }

  /** An unevaluated projection of a product pipeline to names. */
  datatype NameQuery = SelectName(source: Query)

  /** Runs the names pipeline: one name per product its source pipeline yields, in that order. */
  function EnumerateNames(q: NameQuery, products: seq<Product>): (r: seq<string>)
    ensures |r| == |Enumerate(q.source, products)|
    ensures forall i :: 0 <= i < |r| ==> r[i] == Enumerate(q.source, products)[i].name
  {
    Select(Enumerate(q.source, products), Name)
  }

  /** The names of the available products, in catalog order. */
  function Names(products: seq<Product>): (r: seq<string>)
    ensures |r| == |Available(products)|
    ensures forall i :: 0 <= i < |r| ==> r[i] == Available(products)[i].name
  {
    Select(Available(products), Name)
  }

  /** The deferred names: enumerated over any catalog, the names of its available products in catalog order (no sorting). */
  function GetProductNamesWithAsEnumerable(): (q: NameQuery)
    ensures forall products :: EnumerateNames(q, products) == Names(products)
  {
    var q := SelectName(AsEnumerable(WhereAvailable(Products)));
    assert forall products :: EnumerateNames(q, products) == Names(products) by {
      forall products ensures EnumerateNames(q, products) == Names(products) {
        assert Enumerate(WhereAvailable(Products), products) == Available(products);
        assert Enumerate(q.source, products) == Available(products);
      }
    }
    q
  }

  /** Catalog order is kept: the names of a concatenation are the concatenated names. */
  lemma NamesConcat(a: seq<Product>, b: seq<Product>)
    ensures Names(a + b) == Names(a) + Names(b)
  {
    WhereConcat(a, b, IsAvailable);
    SelectConcat(Available(a), Available(b), Name);
  }

  /** A single product contributes its name exactly when it is available. */
  lemma NamesSingle(p: Product)
    ensures Names([p]) == if p.isAvailable then [p.name] else []
  {
    assert [p][1..] == [];
  }

  /** The names are those of the eager list, counted with multiplicity, though not in its order. */
  lemma NamesMatchAvailableList(products: seq<Product>)
    ensures multiset(Names(products)) == multiset(Select(GetAvailableProductsWithToList(products), Name))
  {
    SelectOrderBy(Available(products), Price, Name);
  }

  // ---------------------------------------------------------------------------
  // Stats: filter and materialise once, then count and sum.

  /** The number of available products and the total of their prices. */
  datatype Stats = Stats(count: int, total: int)

  /**
   * `count` is the number of available products of the catalog and `total`
   * the sum of their prices, as if every unavailable product were priced 0.
   */
  function GetProductStatsWithToList(products: seq<Product>): (r: Stats)
    ensures 0 <= r.count <= |products|
    ensures r.count == Sum(products, AvailableOne)
    ensures r.total == Sum(products, AvailablePrice)
  {
    var available := Available(products);
    CountWhere(products, IsAvailable, AvailableOne);
    SumWhere(products, IsAvailable, Price, AvailablePrice);
    Stats(|available|, Sum(available, Price))
  }

  /** The stats agree with the eager list: its length and the sum of its prices. */
  lemma StatsMatchAvailableList(products: seq<Product>)
    ensures GetProductStatsWithToList(products).count == |GetAvailableProductsWithToList(products)|
    ensures GetProductStatsWithToList(products).total == Sum(GetAvailableProductsWithToList(products), Price)
  {
    SumOrderBy(Available(products), Price, Price);
  }

  /** Over a catalog of well-formed products (prices not negative) the stats total is not negative. */
  lemma StatsTotalNonNegative(products: seq<Product>)
    requires forall i :: 0 <= i < |products| ==> WellFormed(products[i])
    ensures GetProductStatsWithToList(products).total >= 0
  {
    assert forall i :: 0 <= i < |products| ==> AvailablePrice(products[i]) >= 0;
  }

  /** The names query yields one name per product counted by the stats. */
  lemma NamesMatchStats(products: seq<Product>)
    ensures |Names(products)| == GetProductStatsWithToList(products).count
  {
  }

  // ---------------------------------------------------------------------------
  // The queries over the fixed catalog and over an empty one.

  /** Over the catalog both lists are Mouse (25), Desk (200), Monitor (300), Laptop (1200). */
  lemma FixtureAvailableList()
    ensures GetAvailableProductsWithToList(Fixture) == [Fixture[1], Fixture[4], Fixture[3], Fixture[0]]
    ensures Enumerate(GetAvailableProductsWithAsEnumerable(), Fixture) == [Fixture[1], Fixture[4], Fixture[3], Fixture[0]]
  {
    FixtureAvailable();
    FixtureSort();
  }

  /** By name, both lists over the catalog read Mouse, Desk, Monitor, Laptop. */
  lemma FixtureAvailableListNames()
    ensures Select(GetAvailableProductsWithToList(Fixture), Name) == ["Mouse", "Desk", "Monitor", "Laptop"]
    ensures Select(Enumerate(GetAvailableProductsWithAsEnumerable(), Fixture), Name) == ["Mouse", "Desk", "Monitor", "Laptop"]
  {
    FixtureAvailableList();
    FixtureSelectNames();
  }

  lemma FixtureSelectNames()
    ensures Select([Fixture[1], Fixture[4], Fixture[3], Fixture[0]], Name) == ["Mouse", "Desk", "Monitor", "Laptop"]
    ensures Select([Fixture[0], Fixture[1], Fixture[3], Fixture[4]], Name) == ["Laptop", "Mouse", "Monitor", "Desk"]
  {
  }

  // Sorting the catalog's available products Laptop, Mouse, Monitor, Desk,
  // one insertion step per lemma.
  lemma FixtureSort()
    ensures OrderBy([Fixture[0], Fixture[1], Fixture[3], Fixture[4]], Price) == [Fixture[1], Fixture[4], Fixture[3], Fixture[0]]
  {
    FixtureSortTail();
    FixtureInsertLaptop3();
    assert [Fixture[0], Fixture[1], Fixture[3], Fixture[4]][1..] == [Fixture[1], Fixture[3], Fixture[4]];
  }

  lemma FixtureSortTail()
    ensures OrderBy([Fixture[1], Fixture[3], Fixture[4]], Price) == [Fixture[1], Fixture[4], Fixture[3]]
  {
    FixtureSortMonitorDesk();
    assert [Fixture[1], Fixture[3], Fixture[4]][1..] == [Fixture[3], Fixture[4]];
  }

  lemma FixtureSortMonitorDesk()
    ensures OrderBy([Fixture[3], Fixture[4]], Price) == [Fixture[4], Fixture[3]]
  {
    assert [Fixture[3], Fixture[4]][1..] == [Fixture[4]];
    assert [Fixture[4]][1..] == [];
  }

  lemma FixtureInsertLaptop1()
    ensures Insert(Fixture[0], [Fixture[3]], Price) == [Fixture[3], Fixture[0]]
  {
    assert [Fixture[3]][1..] == [];
  }

  lemma FixtureInsertLaptop2()
    ensures Insert(Fixture[0], [Fixture[4], Fixture[3]], Price) == [Fixture[4], Fixture[3], Fixture[0]]
  {
    FixtureInsertLaptop1();
    assert [Fixture[4], Fixture[3]][1..] == [Fixture[3]];
  }

  lemma FixtureInsertLaptop3()
    ensures Insert(Fixture[0], [Fixture[1], Fixture[4], Fixture[3]], Price) == [Fixture[1], Fixture[4], Fixture[3], Fixture[0]]
  {
    FixtureInsertLaptop2();
    assert [Fixture[1], Fixture[4], Fixture[3]][1..] == [Fixture[4], Fixture[3]];
  }

  /** The available products of the catalog, in catalog order: all but Keyboard. */
  lemma FixtureAvailable()
    ensures Available(Fixture) == [Fixture[0], Fixture[1], Fixture[3], Fixture[4]]
  {
    assert Fixture[1..][1..][1..][1..][1..] == [];
  }

  /** Over the catalog the stats are four products totalling 1725. */
  lemma FixtureStats()
    ensures GetProductStatsWithToList(Fixture) == Stats(4, 1725)
  {
  }

  /** Over the catalog the names come in catalog order, which is not the eager list's order. */
  lemma FixtureNames()
    ensures Names(Fixture) == ["Laptop", "Mouse", "Monitor", "Desk"]
    ensures Names(Fixture) != Select(GetAvailableProductsWithToList(Fixture), Name)
  {
    FixtureAvailable();
    FixtureSelectNames();
    FixtureAvailableListNames();
    assert Names(Fixture)[0] == "Laptop" != "Mouse";
  }

  /** Over an empty catalog every query yields nothing and the stats are (0, 0). */
  lemma EmptyCatalog()
    ensures GetAvailableProductsWithToList([]) == []
    ensures Enumerate(GetAvailableProductsWithAsEnumerable(), []) == []
    ensures Names([]) == []
    ensures GetProductStatsWithToList([]) == Stats(0, 0)
  {
  }
}
