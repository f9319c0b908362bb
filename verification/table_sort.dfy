/** The product table's column sort: the comparator the page hands to
    `Array.prototype.sort`, and the header-click state machine that picks its
    field and direction. String comparison is `localeCompare`, a parameter of
    the model assumed to be a total preorder. */
module TableSort {
  import opened Wrappers
  import opened Seqs
  import opened StableSort
  import opened Catalog

  /** A key of the product record. Only the four table columns have a sort
      rule; every other key is `OtherKey`, whose `key` is never "name",
      "price", "stock" or "category". */
  datatype Field = Name | Price | Stock | Category | OtherKey(key: string)

  datatype Dir = Asc | Desc

  /** The page's `sortField` (`None` for `null`) and `sortDirection`. */
  datatype SortState = SortState(field: Option<Field>, dir: Dir)

  /** The state the page starts in: no sort field, ascending. */
  const Initial := SortState(None, Asc)

  /** A string comparison the sort can honour: swapping the arguments flips
      the sign, and "not after" is transitive. */
  ghost predicate ValidLocaleCompare(localeCompare: (string, string) -> int) {
    Consistent(localeCompare)
  }

  function Flip(dir: Dir): (flipped: Dir)
    ensures flipped != dir
  {
    if dir == Asc then Desc else Asc
  }

  /** A click on the header of column `f`. */
  function HandleSort(st: SortState, f: Field): (next: SortState)
    ensures next.field == Some(f)
    ensures st.field == Some(f) ==> next.dir != st.dir
    ensures st.field != Some(f) ==> next.dir == Asc
  {
    if st.field == Some(f) then st.(dir := Flip(st.dir)) else SortState(Some(f), Asc)
  }

  /** Two clicks on the current column restore the state; two clicks on
      another column leave it sorted by that column, descending. */
  lemma HandleSortTwice(st: SortState, f: Field)
    ensures st.field == Some(f) ==> HandleSort(HandleSort(st, f), f) == st
    ensures st.field != Some(f) ==> HandleSort(HandleSort(st, f), f) == SortState(Some(f), Desc)
  {
  }

  /** The numeric column a field names. */
  function NumberOf(f: Field, p: Product): int
    requires f == Price || f == Stock
  {
    if f == Price then p.price else p.stock
  }

  /** The text column a field names. */
  function TextOf(f: Field, p: Product): string
    requires f == Name || f == Category
  {
    if f == Name then p.name else p.category
  }

  /** The comparator: numeric difference for price and stock, `localeCompare`
      for name and category, the arguments swapped for a descending sort, and
      0 (keep the order) when there is no field or the field has no rule. */
  function Compare(st: SortState, localeCompare: (string, string) -> int, a: Product, b: Product): (r: int)
    ensures !HasRule(st) ==> r == 0
    ensures st.field == Some(Price) || st.field == Some(Stock) ==>
      var x, y := NumberOf(st.field.value, a), NumberOf(st.field.value, b);
      && (r == 0 <==> x == y)
      && (r < 0 <==> if st.dir == Asc then x < y else x > y)
    ensures st.field == Some(Name) || st.field == Some(Category) ==>
      var t := if st.dir == Asc then localeCompare(TextOf(st.field.value, a), TextOf(st.field.value, b))
               else localeCompare(TextOf(st.field.value, b), TextOf(st.field.value, a));
      && (r < 0 <==> t < 0)
      && (r == 0 <==> t == 0)
      && (r > 0 <==> t > 0)
  {
    match st.field
    case None => 0
    case Some(f) =>
      if f == Price || f == Stock then
        (if st.dir == Asc then NumberOf(f, a) - NumberOf(f, b) else NumberOf(f, b) - NumberOf(f, a))
      else if f == Name || f == Category then
        (if st.dir == Asc then localeCompare(TextOf(f, a), TextOf(f, b))
         else localeCompare(TextOf(f, b), TextOf(f, a)))
      else 0
  }

  /** A descending comparison is the ascending one with the rows swapped. */
  lemma DescendingSwapsRows(st: SortState, localeCompare: (string, string) -> int, a: Product, b: Product)
    ensures Compare(st.(dir := Desc), localeCompare, a, b) == Compare(st.(dir := Asc), localeCompare, b, a)
  {
  }

  function Comparator(st: SortState, localeCompare: (string, string) -> int): (Product, Product) -> int {
    (a, b) => Compare(st, localeCompare, a, b)
  }

  /** The table rows: a sorted copy of the search result. */
  function SortProducts(st: SortState, localeCompare: (string, string) -> int, shown: seq<Product>)
    : (rows: seq<Product>)
    ensures |rows| == |shown|
    ensures multiset(rows) == multiset(shown)
  {
    Sort(Comparator(st, localeCompare), shown)
  }

  /** The field has a sort rule. */
  predicate HasRule(st: SortState) {
    st.field.Some? && st.field.value in {Name, Price, Stock, Category}
  }

  /** The page's column headers: the four fields it passes to `HandleSort`. */
  predicate IsColumn(f: Field) {
    f == Name || f == Price || f == Stock || f == Category
  }

  /** After a click on any column header the table has a sort rule. */
  lemma HeaderClickSorts(st: SortState, f: Field)
    requires IsColumn(f)
    ensures HasRule(HandleSort(st, f))
  {
  }

  /** Without a field, or with a field that has no rule, the rows keep the
      search order. */
  lemma UnsortedKeepsOrder(st: SortState, localeCompare: (string, string) -> int, shown: seq<Product>)
    requires !HasRule(st)
    ensures SortProducts(st, localeCompare, shown) == shown
  {
    SortKeepsOrderWhenAllTied(Comparator(st, localeCompare), shown);
  }

  /** Whatever the sort state, the comparator is one the sort can honour. */
  lemma ComparatorConsistent(st: SortState, localeCompare: (string, string) -> int)
    requires ValidLocaleCompare(localeCompare)
    ensures Consistent(Comparator(st, localeCompare))
  {
  }

  /** Sorting by price or stock orders the rows by that number: non-decreasing
      ascending, non-increasing descending. */
  lemma NumericSortOrdered(st: SortState, localeCompare: (string, string) -> int, shown: seq<Product>)
    requires st.field == Some(Price) || st.field == Some(Stock)
    ensures var rows, f := SortProducts(st, localeCompare, shown), st.field.value;
      forall i, j :: 0 <= i < j < |rows| ==>
        if st.dir == Asc then NumberOf(f, rows[i]) <= NumberOf(f, rows[j])
        else NumberOf(f, rows[i]) >= NumberOf(f, rows[j])
  {
    var c := Comparator(st, localeCompare);
    assert Consistent(c);
    SortSorted(c, shown);
  }

  /** Sorting by name or category orders the rows under `localeCompare`,
      ascending or descending. */
  lemma TextSortOrdered(st: SortState, localeCompare: (string, string) -> int, shown: seq<Product>)
    requires ValidLocaleCompare(localeCompare)
    requires st.field == Some(Name) || st.field == Some(Category)
    ensures var rows, f := SortProducts(st, localeCompare, shown), st.field.value;
      forall i, j :: 0 <= i < j < |rows| ==>
        if st.dir == Asc then localeCompare(TextOf(f, rows[i]), TextOf(f, rows[j])) <= 0
        else localeCompare(TextOf(f, rows[j]), TextOf(f, rows[i])) <= 0
  {
    var c := Comparator(st, localeCompare);
    ComparatorConsistent(st, localeCompare);
    SortSorted(c, shown);
  }

  /** Rows the comparator ties with `k` keep their search order. */
  lemma SortKeepsTiesInOrder(st: SortState, localeCompare: (string, string) -> int, shown: seq<Product>, k: Product)
    requires ValidLocaleCompare(localeCompare)
    ensures var c := Comparator(st, localeCompare);
      Filter(TiedWith(c, k), SortProducts(st, localeCompare, shown)) == Filter(TiedWith(c, k), shown)
  {
    ComparatorConsistent(st, localeCompare);
    SortStable(Comparator(st, localeCompare), shown, k);
  }

  /** The rows whose number in column `f` equals `k`'s. */
  function SameNumber(f: Field, k: Product): Product -> bool
    requires f == Price || f == Stock
  {
    p => NumberOf(f, p) == NumberOf(f, k)
  }

  /** The rows whose text in column `f` `localeCompare` ties with `k`'s. */
  function SameText(localeCompare: (string, string) -> int, f: Field, k: Product): Product -> bool
    requires f == Name || f == Category
  {
    p => localeCompare(TextOf(f, k), TextOf(f, p)) == 0
  }

  /** Sorting by price or stock keeps rows with equal numbers in their
      search order. */
  lemma NumericSortKeepsEqualInOrder(st: SortState, localeCompare: (string, string) -> int,
                                     shown: seq<Product>, k: Product)
    requires st.field == Some(Price) || st.field == Some(Stock)
    ensures var f := st.field.value;
      Filter(SameNumber(f, k), SortProducts(st, localeCompare, shown)) == Filter(SameNumber(f, k), shown)
  {
    var c, f := Comparator(st, localeCompare), st.field.value;
    var rows := SortProducts(st, localeCompare, shown);
    assert Consistent(c);
    SortStable(c, shown, k);
    assert forall p :: TiedWith(c, k)(p) == SameNumber(f, k)(p);
    FilterSameTest(TiedWith(c, k), SameNumber(f, k), rows);
    FilterSameTest(TiedWith(c, k), SameNumber(f, k), shown);
  }

  /** Sorting by name or category keeps rows whose texts `localeCompare` ties
      in their search order. */
  lemma TextSortKeepsEqualInOrder(st: SortState, localeCompare: (string, string) -> int,
                                  shown: seq<Product>, k: Product)
    requires ValidLocaleCompare(localeCompare)
    requires st.field == Some(Name) || st.field == Some(Category)
    ensures var f := st.field.value;
      Filter(SameText(localeCompare, f, k), SortProducts(st, localeCompare, shown))
        == Filter(SameText(localeCompare, f, k), shown)
  {
    var c, f := Comparator(st, localeCompare), st.field.value;
    var rows := SortProducts(st, localeCompare, shown);
    SortKeepsTiesInOrder(st, localeCompare, shown, k);
    assert forall p :: TiedWith(c, k)(p) == SameText(localeCompare, f, k)(p);
    FilterSameTest(TiedWith(c, k), SameText(localeCompare, f, k), rows);
    FilterSameTest(TiedWith(c, k), SameText(localeCompare, f, k), shown);
  }
}
