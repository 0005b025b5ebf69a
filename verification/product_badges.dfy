/** The product-card badges the theme prints before each product title in the shop loop:
    a wrapper `div.yelira-badges` holding, in this order, "Nouveau" for a product published
    less than 30 days ago, a "-N%" sale badge for a product on sale with a positive regular
    price, and "Derniers articles" for a stock-managed product with 1 to 5 items left.

    What WooCommerce and WordPress report about the product is a parameter: the publication
    time as a Unix timestamp (the `strtotime` of the post date), the current time (`time()`),
    the prices after the `(float)` cast, and the stock quantity, which may be null. */
module ProductBadges {
  import opened Wrappers

  /** WordPress's `DAY_IN_SECONDS`. */
  const DaySeconds: int := 86400
  const NewForDays: int := 30
  const LowStockLimit: int := 5

  datatype Product = Product(
    postedAt: int,
    onSale: bool,
    regularPrice: real,
    salePrice: real,
    managesStock: bool,
    stockQuantity: Option<int>)

  /** What the hook prints, element by element. A sale badge carries its discount in percent
      as an exact quotient; the printed number is PHP's `round` of it. */
  datatype Markup = BadgesOpen | NewBadge | SaleBadge(percent: real) | LowStockBadge | BadgesClose

  /** The position each element takes in the printed block. */
  function Rank(m: Markup): nat
  {
    match m
    case BadgesOpen => 0
    case NewBadge => 1
    case SaleBadge(_) => 2
    case LowStockBadge => 3
    case BadgesClose => 4
  }

  /** The age of the post in days, `(time() - strtotime($post_date)) / DAY_IN_SECONDS`. */
  function DaysAgo(now: int, postedAt: int): real
  {
    (now - postedAt) as real / DaySeconds as real
  }

  /** The stock test; a null quantity fails `> 0` under PHP's loose comparison. */
  predicate FewLeft(quantity: Option<int>)
  {
    match quantity
    case Some(n) => n <= LowStockLimit && n > 0
    case None => false
  }

  /** `yelira_custom_badges` for product `p` at time `now`. */
  function CustomBadges(p: Product, now: int): (out: seq<Markup>)
    // the wrapper is always printed, even around no badge at all
    ensures |out| >= 2 && out[0] == BadgesOpen && out[|out| - 1] == BadgesClose
    // every element at most once, in the order new, sale, low stock
    ensures forall i, j :: 0 <= i < j < |out| ==> Rank(out[i]) < Rank(out[j])
    ensures NewBadge in out <==> now - p.postedAt < NewForDays * DaySeconds
    ensures (exists i :: 0 <= i < |out| && out[i].SaleBadge?) <==> p.onSale && p.regularPrice > 0.0
    // a sale badge divides by a positive regular price only
    ensures forall i :: 0 <= i < |out| && out[i].SaleBadge? ==>
      p.regularPrice > 0.0 && out[i].percent == (p.regularPrice - p.salePrice) / p.regularPrice * 100.0
    ensures LowStockBadge in out <==>
      p.managesStock && p.stockQuantity.Some? && 0 < p.stockQuantity.value <= LowStockLimit
  {
    var isNew := DaysAgo(now, p.postedAt) < NewForDays as real;
    var sale := p.onSale && p.regularPrice > 0.0;
    var few := p.managesStock && FewLeft(p.stockQuantity);
    NewIsThirtyDays(now, p.postedAt);
    var head := [BadgesOpen] + (if isNew then [NewBadge] else []);
    var salePart := if sale then [SaleBadge((p.regularPrice - p.salePrice) / p.regularPrice * 100.0)] else [];
    var out := head + salePart + (if few then [LowStockBadge] else []) + [BadgesClose];
    assert sale ==> out[|head|].SaleBadge?;
    out
  }

  /** The age test in days is the same as a test on whole seconds: under 30 days means under
      30 times 86400 seconds. */
  lemma NewIsThirtyDays(now: int, postedAt: int)
    ensures DaysAgo(now, postedAt) < NewForDays as real <==> now - postedAt < NewForDays * DaySeconds
  {
  }

  /** A product with nothing to show still gets the empty wrapper. */
  lemma NoBadgeScenario(now: int)
    ensures CustomBadges(Product(now - 31 * DaySeconds, false, 20.0, 0.0, true, Some(12)), now)
      == [BadgesOpen, BadgesClose]
  {
  }

  /** A product published yesterday, on sale from 40 to 30, with 3 left shows all three badges,
      the sale one at 25 percent. */
  lemma AllBadgesScenario(now: int)
    ensures CustomBadges(Product(now - DaySeconds, true, 40.0, 30.0, true, Some(3)), now)
      == [BadgesOpen, NewBadge, SaleBadge(25.0), LowStockBadge, BadgesClose]
  {
  }
}
