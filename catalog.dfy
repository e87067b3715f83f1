/**
 * The catalog store: the product record and the five-product list that the
 * `ProductService` constructor builds from literals and never changes.
 */
module Catalog {

  /** A product record; prices are whole numbers, as every literal price in the catalog is. */
  datatype Product = Product(id: int, name: string, price: int, category: string, isAvailable: bool)

  /** The catalog as the service constructor creates it, in list order. */
  const Fixture: seq<Product> := [
    Product(1, "Laptop", 1200, "Electronics", true),
    Product(2, "Mouse", 25, "Electronics", true),
    Product(3, "Keyboard", 75, "Electronics", false),
    Product(4, "Monitor", 300, "Electronics", true),
    Product(5, "Desk", 200, "Furniture", true)
  ]

  /** No two products of the list share an identifier. */
  predicate UniqueIds(products: seq<Product>)
  {
    forall i, j :: 0 <= i < j < |products| ==> products[i].id != products[j].id
  }

  /** A record with a positive identifier, a non-empty name and a non-negative price. */
  predicate WellFormed(p: Product)
  {
    p.id > 0 && p.name != [] && p.price >= 0
  }

  /**
   * The catalog holds five well-formed products with the distinct identifiers
   * 1 to 5 in list order, and Keyboard (id 3) is the only unavailable one.
   */
  lemma FixtureFacts()
    ensures |Fixture| == 5
    ensures forall i :: 0 <= i < |Fixture| ==> Fixture[i].id == i + 1 && WellFormed(Fixture[i])
    ensures UniqueIds(Fixture)
    ensures forall i :: 0 <= i < |Fixture| ==> (!Fixture[i].isAvailable <==> Fixture[i].id == 3)
    ensures Fixture[2].name == "Keyboard"
  {
  }
}
