/** The product record the seller's product-management page lists. */
module Catalog {

  /** A listing as the page holds it. Prices and stock are whole numbers here;
      the image, delivery option and seller id travel with the record but no
      logic of the page looks at them, so they are not part of the model. */
  datatype Product = Product(
    id: string,
    name: string,
    description: string,
    price: int,
    category: string,
    stock: int)

  /** No two listings share an id. */
  ghost predicate UniqueIds(products: seq<Product>) {
    forall i, j :: 0 <= i < j < |products| ==> products[i].id != products[j].id
  }

  /** No listing has the id `id`. */
  ghost predicate IdAbsent(products: seq<Product>, id: string) {
    forall p :: p in products ==> p.id != id
  }
}
