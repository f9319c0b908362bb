/** The page's search box: a product is listed when the lowercased query is
    part of its lowercased name or of its lowercased description. Lowercasing
    follows Unicode's case mappings, so it is a parameter `lower` of the model. */
module Search {
  import opened Seqs
  import opened Substring
  import opened Catalog

  /** The search test for one product. */
  predicate Matches(lower: string -> string, query: string, p: Product) {
    Includes(lower(p.name), lower(query)) || Includes(lower(p.description), lower(query))
  }

  /** `Matches` as the test handed to the filter. */
  function MatchesQuery(lower: string -> string, query: string): Product -> bool {
    p => Matches(lower, query, p)
  }

  /** The products the search box lets through, in list order. */
  function FilterProducts(lower: string -> string, query: string, products: seq<Product>)
    : (shown: seq<Product>)
    ensures |shown| <= |products|
  {
    Filter(MatchesQuery(lower, query), products)
  }

  /** Sound and complete: a product is shown iff it is listed and the lowercased
      query is a substring of its lowercased name or description; a shown
      product appears as many times as it is listed. */
  lemma FilterSoundComplete(lower: string -> string, query: string, products: seq<Product>)
    ensures forall p :: p in FilterProducts(lower, query, products) <==>
      p in products
      && (IsSubstring(lower(query), lower(p.name))
          || IsSubstring(lower(query), lower(p.description)))
    ensures forall p :: multiset(FilterProducts(lower, query, products))[p]
                     == if Matches(lower, query, p) then multiset(products)[p] else 0
  {
    FilterCounts(MatchesQuery(lower, query), products);
  }

  /** The search keeps relative order: searching a list split in two is
      searching each part. */
  lemma FilterKeepsOrder(lower: string -> string, query: string, front: seq<Product>, back: seq<Product>)
    ensures FilterProducts(lower, query, front + back)
         == FilterProducts(lower, query, front) + FilterProducts(lower, query, back)
  {
    FilterConcat(MatchesQuery(lower, query), front, back);
  }

  /** An empty search box lists everything, in order. */
  lemma EmptyQueryShowsAll(lower: string -> string, products: seq<Product>)
    requires lower("") == ""
    ensures FilterProducts(lower, "", products) == products
  {
    forall p | p in products ensures Matches(lower, "", p) {
      EmptyIncluded(lower(p.name));
    }
    FilterKeepsAll(MatchesQuery(lower, ""), products);
  }

  /** Searching the search result again changes nothing. */
  lemma FilterIdempotentSearch(lower: string -> string, query: string, products: seq<Product>)
    ensures FilterProducts(lower, query, FilterProducts(lower, query, products))
         == FilterProducts(lower, query, products)
  {
    FilterIdempotent(MatchesQuery(lower, query), products);
  }
}
