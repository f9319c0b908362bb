/** The product-management page as a state machine over its list, search box,
    sort state and add dialog, driven by the seller's actions and by server
    responses, and the table rows it renders from that state. */
module ManagementPage {
  import opened Catalog
  import opened ListingLimit
  import opened Search
  import opened TableSort
  import opened LocalList

  /** The page state the list logic reads: `localProducts`, `searchQuery`, the
      sort state, whether the product dialog is open for a new product, and
      whether the load has finished (the negation of `loading`). */
  datatype Page = Page(products: seq<Product>, query: string, sort: SortState, adding: bool, loaded: bool)

  /** What happens on the page. `ListLoaded` is the list a load produced: the
      server's data, or the shared context's products when the fetch failed.
      The add, update and delete events stand for a server call that
      succeeded; a failed add, update or delete changes no state. */
  datatype Event =
    | ListLoaded(loaded: seq<Product>)
    | QueryTyped(query: string)
    | HeaderClicked(field: Field)
    | AddDialogOpened
    | DialogClosed
    | AddSucceeded(created: Product)
    | UpdateSucceeded(updated: Product)
    | DeleteSucceeded(id: string)

  /** The page as it mounts: no products yet, empty query, no sort field,
      dialog closed, still loading. The load arrives later as an event. */
  function Mounted(): (page: Page)
    ensures |page.products| == 0 && page.query == "" && !HasRule(page.sort) && !page.adding && !page.loaded
  {
    Page([], "", Initial, false, false)
  }

  /** The count fits the tier's limit, and an open add dialog was opened
      through the gate that still holds. */
  predicate WithinPlan(tier: Tier, page: Page) {
    && WithinLimit(ProductLimit(tier), |page.products|)
    && (page.adding ==> CanAddMoreProducts(tier, |page.products|))
  }

  /** The event arrives in an order that keeps the gate meaningful: a load
      leaves the page within plan, and an add answers a submission from the
      open add dialog. */
  predicate Orderly(tier: Tier, page: Page, e: Event) {
    match e
    case ListLoaded(loaded) => WithinPlan(tier, page.(products := loaded))
    case AddSucceeded(_) => page.adding
    case _ => true
  }

  /** One event. The "Add New Product" button only opens the dialog while the
      gate is open; a successful add appends and closes the dialog without
      looking at the limit again; a successful update closes the dialog too,
      since adding and editing share it. */
  function Step(tier: Tier, page: Page, e: Event): (next: Page)
    ensures WithinPlan(tier, page) && Orderly(tier, page, e) ==> WithinPlan(tier, next)
    ensures |next.products| > |page.products| ==> e.AddSucceeded? || e.ListLoaded?
    ensures e.AddSucceeded? ==> next.products == AddProduct(page.products, e.created) && !next.adding
    ensures e.UpdateSucceeded? ==> next.products == UpdateProduct(page.products, e.updated) && !next.adding
    ensures !page.adding && next.adding ==> e.AddDialogOpened? && CanAddMoreProducts(tier, |page.products|)
    ensures tier == OtherTier && !page.adding ==> !next.adding
    ensures !e.HeaderClicked? ==> next.sort == page.sort
    ensures !e.QueryTyped? ==> next.query == page.query
  {
    match e
    case ListLoaded(loaded) => page.(products := loaded, loaded := true)
    case QueryTyped(q) => page.(query := q)
    case HeaderClicked(f) => page.(sort := HandleSort(page.sort, f))
    case AddDialogOpened =>
      if CanAddMoreProducts(tier, |page.products|) then page.(adding := true) else page
    case DialogClosed => page.(adding := false)
    case AddSucceeded(p) => page.(products := AddProduct(page.products, p), adding := false)
    case UpdateSucceeded(p) => page.(products := UpdateProduct(page.products, p), adding := false)
    case DeleteSucceeded(id) => page.(products := DeleteProduct(page.products, id))
  }

  /** The page after a series of events. */
  function Run(tier: Tier, page: Page, events: seq<Event>): Page
    decreases |events|
  {
    if |events| == 0 then page
    else Step(tier, Run(tier, page, events[..|events| - 1]), events[|events| - 1])
  }

  /** Every event of the series is orderly in the state it arrives in. */
  ghost predicate OrderlyRun(tier: Tier, page: Page, events: seq<Event>)
    decreases |events|
  {
    |events| == 0
    || (&& OrderlyRun(tier, page, events[..|events| - 1])
        && Orderly(tier, Run(tier, page, events[..|events| - 1]), events[|events| - 1]))
  }

  /** A seller who starts within plan stays within it over any orderly series
      of events. */
  lemma {:induction false} RunKeepsWithinPlan(tier: Tier, page: Page, events: seq<Event>)
    requires WithinPlan(tier, page)
    requires OrderlyRun(tier, page, events)
    ensures WithinPlan(tier, Run(tier, page, events))
    decreases |events|
  {
    if |events| != 0 {
      RunKeepsWithinPlan(tier, page, events[..|events| - 1]);
    }
  }

  /** Number of add responses in `events`. */
  function AddCount(events: seq<Event>): (n: nat)
    ensures n <= |events|
  {
    if |events| == 0 then 0
    else (if events[|events| - 1].AddSucceeded? then 1 else 0) + AddCount(events[..|events| - 1])
  }

  /** Plays a series of events on the page, and reports whether every event
      was orderly. Over an orderly series a seller within plan stays within
      it; without loads the list grows by at most one listing per add; and a
      seller without a known plan never gets the add dialog open. */
  method Replay(tier: Tier, page: Page, events: seq<Event>) returns (final: Page, orderly: bool)
    ensures final == Run(tier, page, events)
    ensures orderly == OrderlyRun(tier, page, events)
    ensures WithinPlan(tier, page) && orderly ==> WithinPlan(tier, final)
    ensures (forall i :: 0 <= i < |events| ==> !events[i].ListLoaded?)
            ==> |final.products| <= |page.products| + AddCount(events)
    ensures tier == OtherTier && !page.adding ==> !final.adding
  {
    final, orderly := page, true;
    var k := 0;
    while k < |events|
      invariant 0 <= k <= |events|
      invariant final == Run(tier, page, events[..k])
      invariant orderly == OrderlyRun(tier, page, events[..k])
      invariant WithinPlan(tier, page) && orderly ==> WithinPlan(tier, final)
      invariant (forall i :: 0 <= i < k ==> !events[i].ListLoaded?)
                ==> |final.products| <= |page.products| + AddCount(events[..k])
      invariant tier == OtherTier && !page.adding ==> !final.adding
    {
      assert events[..k + 1][..k] == events[..k];
      orderly := orderly && Orderly(tier, final, events[k]);
      final := Step(tier, final, events[k]);
      k := k + 1;
    }
    assert events[..k] == events;
  }

  /** Ten listings with distinct ids "0" to "9", all else taken from `some`. */
  function TenListings(some: Product): (ten: seq<Product>)
    ensures |ten| == 10 && UniqueIds(ten)
    ensures forall p :: p in ten ==> |p.id| == 1
  {
    seq(10, i requires 0 <= i < 10 => some.(id := [(48 + i) as char]))
  }

  /** A basic seller opens the add dialog on the empty list the page mounts
      with; the load then brings ten listings with distinct ids, and the add
      of a product with a fresh id succeeds: the list holds eleven, over the
      plan's limit of ten. */
  lemma LoadDuringAddOvershoots(some: Product)
    ensures var ten, created := TenListings(some), some.(id := "new");
      var dialog := Step(Basic, Mounted(), AddDialogOpened);
      var loaded := Step(Basic, dialog, ListLoaded(ten));
      var added := Step(Basic, loaded, AddSucceeded(created));
      && UniqueIds(ten)
      && IdAbsent(ten, created.id)
      && WithinLimit(ProductLimit(Basic), |ten|)
      && dialog.adding
      && |added.products| == 11
      && !WithinLimit(ProductLimit(Basic), |added.products|)
  {
  }

  /** `Step` with the "Add New Product" button also disabled while the page
      is loading: the add dialog opens only once the load has landed and the
      gate is open. */
  function FixedStep(tier: Tier, page: Page, e: Event): (next: Page)
    ensures e.AddDialogOpened? && !page.loaded ==> next == page
    ensures !(e.AddDialogOpened? && !page.loaded) ==> next == Step(tier, page, e)
    ensures !page.adding && next.adding ==> page.loaded && CanAddMoreProducts(tier, |page.products|)
  {
    if e.AddDialogOpened? && !page.loaded then page else Step(tier, page, e)
  }

  /** The page after a series of events under `FixedStep`. */
  function FixedRun(tier: Tier, page: Page, events: seq<Event>): Page
    decreases |events|
  {
    if |events| == 0 then page
    else FixedStep(tier, FixedRun(tier, page, events[..|events| - 1]), events[|events| - 1])
  }

  /** What the corrected page needs of its events: the page loads once, with a
      list that fits the limit, and an add answers the open add dialog. */
  predicate FixedOrderly(tier: Tier, page: Page, e: Event) {
    match e
    case ListLoaded(loaded) => !page.loaded && WithinLimit(ProductLimit(tier), |loaded|)
    case AddSucceeded(_) => page.adding
    case _ => true
  }

  ghost predicate FixedOrderlyRun(tier: Tier, page: Page, events: seq<Event>)
    decreases |events|
  {
    |events| == 0
    || (&& FixedOrderlyRun(tier, page, events[..|events| - 1])
        && FixedOrderly(tier, FixedRun(tier, page, events[..|events| - 1]), events[|events| - 1]))
  }

  /** Within plan, and the add dialog is open only after the load. */
  predicate FixedInvariant(tier: Tier, page: Page) {
    WithinPlan(tier, page) && (page.adding ==> page.loaded)
  }

  lemma {:induction false} FixedRunKeepsInvariant(tier: Tier, page: Page, events: seq<Event>)
    requires FixedInvariant(tier, page)
    requires FixedOrderlyRun(tier, page, events)
    ensures FixedInvariant(tier, FixedRun(tier, page, events))
    decreases |events|
  {
    if |events| != 0 {
      FixedRunKeepsInvariant(tier, page, events[..|events| - 1]);
    }
  }

  /** With the button disabled while loading, a seller stays within plan over
      every series of events from mount whose single load fits the limit. */
  lemma FixedPageStaysWithinPlan(tier: Tier, events: seq<Event>)
    requires FixedOrderlyRun(tier, Mounted(), events)
    ensures WithinPlan(tier, FixedRun(tier, Mounted(), events))
  {
    FixedRunKeepsInvariant(tier, Mounted(), events);
  }

  /** On the overshooting trace the corrected page keeps the dialog closed, so
      the add is never submitted. */
  lemma FixedPageRefusesEarlyAdd(some: Product)
    ensures !FixedStep(Basic, Mounted(), AddDialogOpened).adding
    ensures FixedStep(Basic, Step(Basic, Mounted(), ListLoaded(TenListings(some))), AddDialogOpened).adding == false
  {
  }

  /** The table rows: the search result, sorted. */
  function Rows(lower: string -> string, localeCompare: (string, string) -> int, page: Page): (rows: seq<Product>)
    ensures |rows| <= |page.products|
  {
    SortProducts(page.sort, localeCompare, FilterProducts(lower, page.query, page.products))
  }

  /** The rows are exactly the listings that match the search, each as often
      as it is listed. */
  lemma RowsAreMatches(lower: string -> string, localeCompare: (string, string) -> int, page: Page)
    ensures forall p :: multiset(Rows(lower, localeCompare, page))[p]
                     == if Matches(lower, page.query, p) then multiset(page.products)[p] else 0
  {
    FilterSoundComplete(lower, page.query, page.products);
  }

  /** "No products found" is shown iff no listing matches the search. */
  lemma NoRowsIffNoMatch(lower: string -> string, localeCompare: (string, string) -> int, page: Page)
    ensures |Rows(lower, localeCompare, page)| == 0 <==> forall p :: p in page.products ==> !Matches(lower, page.query, p)
  {
    var rows := Rows(lower, localeCompare, page);
    RowsAreMatches(lower, localeCompare, page);
    if |rows| != 0 {
      assert multiset(rows)[rows[0]] > 0;
    }
    if p :| p in page.products && Matches(lower, page.query, p) {
      assert multiset(rows)[p] > 0;
    }
  }

  /** When the first load lands before the seller does anything else, the
      table lists every loaded product in load order. */
  lemma LoadedShowsEverything(tier: Tier, lower: string -> string, localeCompare: (string, string) -> int,
                              products: seq<Product>)
    requires lower("") == ""
    ensures Rows(lower, localeCompare, Step(tier, Mounted(), ListLoaded(products))) == products
  {
    EmptyQueryShowsAll(lower, products);
    UnsortedKeepsOrder(Initial, localeCompare, products);
  }
}
