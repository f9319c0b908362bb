/** The page's own copy of the product list (`localProducts`) and the three
    updates it applies once the server has accepted an add, an update or a
    delete. */
module LocalList {
  import opened Seqs
  import opened Catalog

  /** A created product goes at the end of the list. */
  function AddProduct(products: seq<Product>, created: Product): (next: seq<Product>)
    ensures |next| == |products| + 1
    ensures next[..|products|] == products
    ensures next[|products|] == created
  {
    products + [created]
  }

  /** Every listing whose id is the updated product's id becomes the updated
      product; the others stay where they are. */
  function UpdateProduct(products: seq<Product>, updated: Product): (next: seq<Product>)
    ensures |next| == |products|
    ensures forall i :: 0 <= i < |products| ==>
      next[i] == if products[i].id == updated.id then updated else products[i]
    decreases |products|
  {
    if |products| == 0 then []
    else
      [if products[0].id == updated.id then updated else products[0]]
        + UpdateProduct(products[1..], updated)
  }

  /** The filter test of a delete: the product does not carry `id`. */
  function KeepsOtherIds(id: string): Product -> bool {
    (p: Product) => p.id != id
  }

  /** A delete keeps the listings that do not carry the deleted id. */
  function DeleteProduct(products: seq<Product>, id: string): (next: seq<Product>)
    ensures |next| <= |products|
  {
    Filter(KeepsOtherIds(id), products)
  }

  /** A delete removes exactly the listings with the id: none is left, and
      every other listing stays as often as it was there. */
  lemma DeleteRemovesExactly(products: seq<Product>, id: string)
    ensures IdAbsent(DeleteProduct(products, id), id)
    ensures forall p: Product :: p.id != id ==> multiset(DeleteProduct(products, id))[p] == multiset(products)[p]
    ensures forall p :: p in DeleteProduct(products, id) <==> p in products && p.id != id
  {
    FilterCounts(KeepsOtherIds(id), products);
  }

  /** A delete keeps the relative order of the listings it keeps. */
  lemma DeleteKeepsOrder(front: seq<Product>, back: seq<Product>, id: string)
    ensures DeleteProduct(front + back, id) == DeleteProduct(front, id) + DeleteProduct(back, id)
  {
    FilterConcat(KeepsOtherIds(id), front, back);
  }

  /** Deleting an id no listing carries changes nothing. */
  lemma DeleteAbsentId(products: seq<Product>, id: string)
    requires IdAbsent(products, id)
    ensures DeleteProduct(products, id) == products
  {
    FilterKeepsAll(KeepsOtherIds(id), products);
  }

  /** Deleting a product just added with a fresh id gives back the list as it
      was before the add. */
  lemma DeleteUndoesAdd(products: seq<Product>, created: Product)
    requires IdAbsent(products, created.id)
    ensures DeleteProduct(AddProduct(products, created), created.id) == products
  {
    DeleteKeepsOrder(products, [created], created.id);
    DeleteAbsentId(products, created.id);
  }

  /** An update keeps every listing's id at its position. */
  lemma UpdateKeepsIds(products: seq<Product>, updated: Product)
    ensures forall i :: 0 <= i < |products| ==> UpdateProduct(products, updated)[i].id == products[i].id
  {
  }

  /** Applying the same update twice is applying it once. */
  lemma UpdateIdempotent(products: seq<Product>, updated: Product)
    ensures UpdateProduct(UpdateProduct(products, updated), updated) == UpdateProduct(products, updated)
  {
  }

  /** Updating an id no listing carries changes nothing. */
  lemma UpdateAbsentId(products: seq<Product>, updated: Product)
    requires IdAbsent(products, updated.id)
    ensures UpdateProduct(products, updated) == products
  {
    assert forall i :: 0 <= i < |products| ==> products[i] in products;
  }

  /** The updated product is listed afterwards iff some listing carried its id. */
  lemma UpdateListsUpdated(products: seq<Product>, updated: Product)
    ensures updated in UpdateProduct(products, updated) <==> !IdAbsent(products, updated.id)
  {
    var next := UpdateProduct(products, updated);
    if updated in next {
      var i :| 0 <= i < |next| && next[i] == updated;
      assert products[i] in products;
    }
    if !IdAbsent(products, updated.id) {
      var p :| p in products && p.id == updated.id;
      var i :| 0 <= i < |products| && products[i] == p;
      assert next[i] == updated;
    }
  }

  /** An add with a fresh id keeps ids unique. */
  lemma AddKeepsIdsUnique(products: seq<Product>, created: Product)
    requires UniqueIds(products)
    requires IdAbsent(products, created.id)
    ensures UniqueIds(AddProduct(products, created))
  {
    var next := AddProduct(products, created);
    forall i, j | 0 <= i < j < |next| ensures next[i].id != next[j].id {
      if j == |products| {
        assert next[i] in products;
      }
    }
  }

  /** An update keeps ids unique. */
  lemma UpdateKeepsIdsUnique(products: seq<Product>, updated: Product)
    requires UniqueIds(products)
    ensures UniqueIds(UpdateProduct(products, updated))
  {
  }

  /** A delete keeps ids unique. */
  lemma DeleteKeepsIdsUnique(products: seq<Product>, id: string)
    requires UniqueIds(products)
    ensures UniqueIds(DeleteProduct(products, id))
  {
    FilterPairwise(DifferentIds(), KeepsOtherIds(id), products);
  }

  /** The pairwise relation behind `UniqueIds`. */
  function DifferentIds(): (Product, Product) -> bool {
    (a: Product, b: Product) => a.id != b.id
  }
}
