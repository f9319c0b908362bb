/** How many listings a seller's subscription tier allows, and the gate on the
    page's "Add New Product" button. */
module ListingLimit {

  /** The seller's subscription tier; `OtherTier` is any value that is not one
      of the three plans (the page falls through to its default case). */
  datatype Tier = Basic | Standard | Premium | OtherTier

  /** A listing limit: a number of products, or the string "Unlimited". */
  datatype Limit = Finite(n: nat) | Unlimited

  /** The limit of each plan. */
  function ProductLimit(tier: Tier): (limit: Limit)
    ensures tier == Basic ==> limit == Finite(10)
    ensures tier == Standard ==> limit == Finite(50)
    ensures limit == Unlimited <==> tier == Premium
    ensures limit == Finite(0) <==> tier == OtherTier
  {
    match tier
    case Basic => Finite(10)
    case Standard => Finite(50)
    case Premium => Unlimited
    case OtherTier => Finite(0)
  }

  /** `count` listings fit in `limit`. */
  predicate WithinLimit(limit: Limit, count: nat) {
    limit.Unlimited? || count <= limit.n
  }

  /** The add button is enabled iff the limit is unlimited or the seller has
      fewer listings than the numeric limit. */
  function CanAddMoreProducts(tier: Tier, count: nat): (can: bool)
    ensures can <==> ProductLimit(tier) == Unlimited
                     || (ProductLimit(tier).Finite? && count < ProductLimit(tier).n)
    ensures tier == OtherTier ==> !can
    ensures tier == Premium ==> can
  {
    var limit := ProductLimit(tier);
    limit.Unlimited? || count < limit.n
  }

  /** One more listing added through the open gate still fits the limit. */
  lemma GateKeepsWithinLimit(tier: Tier, count: nat)
    requires CanAddMoreProducts(tier, count)
    ensures WithinLimit(ProductLimit(tier), count + 1)
  {
  }

  /** Position of a plan in the upgrade path. */
  function Rank(tier: Tier): nat {
    match tier
    case OtherTier => 0
    case Basic => 1
    case Standard => 2
    case Premium => 3
  }

  /** `a` allows no more listings than `b`. */
  predicate AtMost(a: Limit, b: Limit) {
    b.Unlimited? || (a.Finite? && a.n <= b.n)
  }

  /** Upgrading never lowers the limit. */
  lemma UpgradeNeverLowersLimit(a: Tier, b: Tier)
    requires Rank(a) <= Rank(b)
    ensures AtMost(ProductLimit(a), ProductLimit(b))
  {
  }

  /** Removing listings never closes the gate; an upgrade never closes it either. */
  lemma GateMonotone(a: Tier, b: Tier, count: nat, fewer: nat)
    requires Rank(a) <= Rank(b) && fewer <= count
    requires CanAddMoreProducts(a, count)
    ensures CanAddMoreProducts(b, fewer)
  {
    UpgradeNeverLowersLimit(a, b);
  }
}
