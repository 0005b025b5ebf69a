# Yelira child theme — decision logic in Dafny

Yelira is a WordPress child theme of Blocksy for a WooCommerce shop. Most of it registers hooks,
prints CSS and wires jQuery events. This project models the small pieces of decision logic
underneath:

- the storefront script `assets/js/main.js`:
  - the quantity stepper: the click handler on `.qty-btn` and the pass that puts `-` and `+`
    buttons around every `input.qty`, including what happens when `quantityButtons()` runs
    again on every `ajaxComplete`;
  - the sticky header's scroll listener;
  - the back-to-top button's visibility;
  - the toast shown by `showNotification`;
- the theme's `functions.php`:
  - the product-card badges;
  - the add-to-cart label;
  - the promotion bar;
  - the lazy-loading attribute filter;
  - the dashboard welcome text.

Every part is a pure function over a small record. Anything the browser, WordPress or
WooCommerce supplies is a parameter of the model:
- the result of `parseInt` (an `Option<int>`, `None` for NaN);
- the scroll offset;
- the header height;
- `time()` and the post's timestamp;
- prices and stock;
- the product type;
- `is_admin()`;
- the filtered promo messages;
- `esc_html`.

Files:
- `wrappers.dfy`: `Option`.
- `quantity_stepper.dfy`: module `QuantityStepper`.
- `sticky_header.dfy`: module `StickyHeader`.
- `back_to_top.dfy`: module `BackToTop`.
- `notifications.dfy`: module `Notifications`.
- `product_badges.dfy`: module `ProductBadges`.
- `promo_bar.dfy`: module `PromoBar`.
- `theme_filters.dfy`: module `ThemeFilters`.

Points where the code's behaviour is easy to misread:
- `parseInt(x) || d` treats 0 like NaN, so `min="0"` acts as min 1, and `max="0"` acts as
  max 999.
- A written 0 reads back as 1 on the next run of the handler. That can only happen with a
  negative `min`, or by a plus click on a value of −1. The value still never leaves
  `[min, max]`, but the exact one-step-per-handler law (`ClickSteps`) needs a positive
  effective min.
- With a negative `min`, a minus click at 1 writes 0 on every run of the handler, so the
  value never goes below 0 and every click raises a `change` (`MinusSticksAtZero`).
- `showNotification` removes only the first existing toast. "At most one toast" therefore
  holds because it held before: `ReplayKeepsAtMostOne` proves it over every interleaving of
  calls and timer callbacks.
- `showNotification` ignores its `type` argument. Every toast gets the same class and the
  check-mark icon.

Other facts about the code the model keeps:
- The sticky header has a single threshold, the header's own height, read once at setup. It
  toggles the classes `is-sticky` and `is-hidden`.
- The scroll listeners run on every scroll event. Nothing coalesces them per animation frame.
- `window.scrollY` may be fractional, so scroll offsets are real numbers. `offsetHeight` is a
  whole number of pixels.

## Model

| member | source | states |
|---|---|---|
| QuantityStepper.Fallbacks | assets/js/main.js:136-138 | A value that is NaN or 0 reads as 1. A missing or 0 `min` is 1, and a missing or 0 `max` is 999. Any other parse is kept. No bound the handler uses is ever 0. |
| QuantityStepper.HandleClick | assets/js/main.js:133-149 | Minus raises `change` iff value > min, and then writes value − 1, which is ≥ min. Plus raises `change` iff value < max, and then writes value + 1, which is ≤ max. Otherwise the input is untouched and no `change` fires. The bounds are never rewritten. |
| QuantityStepper.Click | assets/js/main.js:133-149 | A click with k bound handlers raises at most k `change` events. It never alters `min`/`max`. Without a `change` the input is untouched. |
| QuantityStepper.ClickKeepsRange | assets/js/main.js:133-149 | A value in `[min, max]` stays there after a click, for any number of duplicated handlers. |
| QuantityStepper.ClickNeverPushesOut | assets/js/main.js:140-147 | A click never moves the value further outside `[min, max]`, for any number of handlers. |
| QuantityStepper.ClickDirection | assets/js/main.js:140-147 | Minus never raises the value. Plus never lowers it. A button with neither class changes nothing. |
| QuantityStepper.ClickSteps | assets/js/main.js:133-149 | With a positive min and an in-range value, k handlers move the value to max(min, v − k) or min(max, v + k). One `change` fires per step taken, so the value moves by at most k. |
| QuantityStepper.AtUpperBoundScenario | assets/js/main.js:140-147 | Take min 1, max 5, value 5 and one handler. Plus keeps 5 with no `change`. Minus writes 4 with exactly one `change`. |
| QuantityStepper.ZeroMinActsAsOne | assets/js/main.js:137-143 | With `min="0"`, a minus click at 1 writes nothing. |
| QuantityStepper.MinusSticksAtZero | assets/js/main.js:136-143 | With a negative min and a value read as 1, a minus click with k ≥ 1 handlers ends at 0 and raises k `change` events. The value never goes below 0. |
| QuantityStepper.SurroundFramesInputs | assets/js/main.js:155-156 | After the insertion, every `input.qty` has a minus button just before it and a plus button just after it. |
| QuantityStepper.Surround | assets/js/main.js:155-156 | The insertion adds two nodes per input. A container without an input comes back unchanged. |
| QuantityStepper.SurroundCounts | assets/js/main.js:155-156 | The insertion adds exactly one minus and one plus button per input. Every other node occurs as often as before, and removing the buttons gives back the original container. |
| QuantityStepper.Wrap | assets/js/main.js:152-157 | A container that already has a `.qty-btn` is left alone. Otherwise every old node is kept in order, and a container with an input ends up holding a button. |
| QuantityStepper.QuantityButtons | assets/js/main.js:132-158 | Each call binds one more click handler. Every container keeps its nodes. A container that had a button is untouched, and one with an input gets a button. |
| QuantityStepper.AfterReloads | assets/js/main.js:196-206 | After page load and n AJAX completions, n + 1 more click handlers are bound. |
| QuantityStepper.WrapPlacesButtons | assets/js/main.js:152-157 | A container that already has a `.qty-btn` is unchanged. In any other container, the old nodes stay in order. Every input is framed by minus/plus. Every button added hugs an input. The number of minus buttons, and of plus buttons, equals the number of inputs. |
| QuantityStepper.WrapIdempotent | assets/js/main.js:152-157 | The wrapping pass applied twice equals the pass applied once. |
| QuantityStepper.ReloadsAccumulateHandlers | assets/js/main.js:203-206 | After n AJAX completions that insert no new markup, the containers are wrapped exactly once, but n + 1 copies of the click handler are bound. |
| QuantityStepper.Load | assets/js/main.js:200-206 | An AJAX completion keeps the containers already on the page, in order, and adds the ones its response inserted after them. Handlers are untouched. |
| QuantityStepper.AfterLoads | assets/js/main.js:196-206 | After page load and one completion per inserted batch, one more handler is bound per completion. |
| QuantityStepper.LoadsWrapEachContainerOnce | assets/js/main.js:196-206 | Whatever the completions insert, every container on the page, old or inserted, is wrapped exactly once by the first pass that sees it, and later passes leave it alone. Only the handlers pile up. |
| QuantityStepper.DuplicateHandlersDoubleStep | assets/js/main.js:133-147 | Take page load and one AJAX completion. One plus click on 1, with min 1, turns it into 3 and fires two `change` events. |
| QuantityStepper.BindOnceSingleStep | assets/js/main.js:132-149 | With the handler bound once, any number of AJAX completions leaves one handler and wraps the containers once. A click on an in-range value fires at most one `change` and keeps the value in range. Without a `change` the input is untouched. With one, the value written is one step from the value read. With a positive min, the value read afterwards moves by at most one. |
| StickyHeader.OnScroll | assets/js/main.js:171-189 | At an offset up to the header's height, both classes are cleared. Past it `is-sticky` is set, and `is-hidden` is set iff the page scrolled down. The offset is always remembered. `is-hidden` implies `is-sticky`. |
| StickyHeader.Run | assets/js/main.js:168-189 | With no scroll event nothing changes. After a sequence of events, the remembered offset is the last one. |
| StickyHeader.RunKeepsConsistent | assets/js/main.js:168-189 | `is-hidden` ⇒ `is-sticky` holds after any sequence of scroll events. |
| StickyHeader.RunDependsOnLastTwo | assets/js/main.js:171-189 | After any sequence of scrolls, the classes depend only on the last two offsets. Sticky iff the last offset is past the header. Hidden iff, in addition, the last move was downward. |
| StickyHeader.ScrollScenario | assets/js/main.js:174-186 | With a 100 px header: 250 gives sticky and hidden. Back up to 150 gives sticky and shown. 50.5 clears both. |
| BackToTop.OnScroll | assets/js/main.js:52-58 | A scroll event shows the button iff the offset exceeds 300 pixels. The previous visibility plays no part. |
| BackToTop.RunIsLastOffset | assets/js/main.js:52-58 | After any non-empty sequence of scroll events the button is visible iff the last offset exceeds 300, whatever the history. |
| BackToTop.ClickHidesButton | assets/js/main.js:61-66 | Once the smooth scroll started by a click delivers its last event, at offset 0, the button is hidden. |
| Notifications.Show | assets/js/main.js:105-117 | The new toast is appended last, invisible, and with a fresh identity. If at most one toast was attached, only the new one remains. |
| Notifications.OnAddedToCart | assets/js/main.js:97-99 | An `added_to_cart` event appends a new, not yet visible toast with the message "Produit ajouté au panier !". If at most one toast was attached, only the new one remains. |
| Notifications.SetVisible | assets/js/main.js:120-124 | The timer callback toggles `is-visible` on its own toast only. Every other toast, and the order, is kept. |
| Notifications.Detach | assets/js/main.js:125 | The removal callback takes away its own toast only. Every other toast stays attached, and nothing is added. |
| Notifications.Apply | assets/js/main.js:97-125 | Only a showing creates a toast, and it is the last one attached. A timer callback creates no toast. A reveal or fade keeps every toast's identity in place. A removal keeps exactly the attached toasts of other identities and attaches none. Every attached toast still has an identity below the number of toasts created, so a new toast is never confused with an attached one. |
| Notifications.ShowReplacesToast | assets/js/main.js:106-117 | From a page with at most one toast, after a call exactly one toast is attached. It is the new one, carries the message, and its identity differs from every toast attached before. |
| Notifications.ReplayKeepsAtMostOne | assets/js/main.js:96-127 | Under any interleaving of calls, `added_to_cart` events and the 10 ms / 3 s / 300 ms timers, at most one toast is ever attached. |
| Notifications.StaleTimerIsHarmless | assets/js/main.js:119-126 | A timer for a toast that is no longer attached changes nothing. |
| Notifications.ShowIgnoresKind | assets/js/main.js:105-116 | The toast does not depend on the `type` argument. |
| Notifications.RapidAddsScenario | assets/js/main.js:96-126 | Two quick `added_to_cart` events, with the first toast revealed in between, leave only the second toast, not yet visible. |
| Notifications.LateTimersScenario | assets/js/main.js:119-126 | With only the second toast attached, its reveal shows it. The first toast's fade and removal timers then change nothing. |
| Notifications.RapidAddsLateTimersScenario | assets/js/main.js:96-126 | After the two quick adds, the second toast's reveal and the first toast's late timers, the one attached toast is the second, visible. |
| Notifications.ReplayAppend | assets/js/main.js:96-126 | Replaying two runs of events one after the other equals replaying them joined. |
| ProductBadges.CustomBadges | functions.php:143-173 | The wrapper is always printed. Each badge appears at most once, in the order new, sale, low stock. "Nouveau" appears iff the post is under 30·86400 s old. The sale badge appears iff the product is on sale with a regular price > 0, and it divides only by that positive price. "Derniers articles" appears iff stock is managed and 0 < quantity ≤ 5. |
| ProductBadges.NewIsThirtyDays | functions.php:150-152 | The test "under 30 days", done as a division by `DAY_IN_SECONDS`, equals a test on whole seconds. |
| ProductBadges.NoBadgeScenario | functions.php:146-172 | A product with no badge still gets the empty wrapper. |
| ProductBadges.AllBadgesScenario | functions.php:146-172 | A new product, on sale from 40 to 30, with 3 left, shows all three badges in order, the sale badge at 25 %. |
| PromoBar.Render | functions.php:249-275 | No messages means no bar. Otherwise the bar holds 2·n spans, and both halves are the escaped messages in their original order. |
| PromoBar.EachMessageTwice | functions.php:266-271 | Every text occurs in the bar exactly twice as often as among the escaped messages. |
| PromoBar.HalvesAgree | functions.php:264-273 | The second half of the bar repeats the first half, so the scrolling loop has no seam. |
| PromoBar.DefaultBar | functions.php:250-262 | The four default messages give eight spans. |
| ThemeFilters.AddToCartText | functions.php:215-223 | `simple` maps to "Ajouter au panier" and `variable` to "Voir les options". Every other type keeps the incoming text. |
| ThemeFilters.AddToCartTextStable | functions.php:215-223 | Filtering the label again changes nothing. The text is replaced only for the two named types. |
| ThemeFilters.LazyLoading | functions.php:440-443 | `loading` becomes `lazy`. Every other key and its value is kept, and no other key is added. |
| ThemeFilters.LazyLoadingIdempotent | functions.php:440-443 | The filter applied twice equals the filter applied once. |
| ThemeFilters.DashboardWelcome | functions.php:517-522 | The exact source text "Welcome to WordPress!" in the admin becomes "Bienvenue sur Yelira !". Any change of the text implies exactly that case. |
| ThemeFilters.DashboardWelcomeOnlyRewritesWelcome | functions.php:517-522 | Outside the admin, or for any other source text, the translation passes through. The rewrite depends on neither the translation nor the domain. |

## Left out

- `productHover`: it only swaps opacities. The promo bar's hover pause only changes the animation state.
- The smooth scrolling itself. `ClickHidesButton` only takes its last scroll event, at offset 0.
- Timer delays, jQuery event delegation and `ajaxComplete` dispatch. Only their effect is modelled: timer callbacks are events, and each `quantityButtons()` call binds one more handler.
- The early returns when `.site-header` or `.yelira-promo-bar` is absent. Nothing happens then.
- `parseInt` itself. Its result is an input. Integers beyond 2^53 are not modelled.
- The sibling lookup. The model assumes a clicked button has exactly one sibling `input.qty`. With none, jQuery's `val()` reads `undefined` and writes nowhere. With several, it reads the first and writes all.
- QuantityStepper.AfterReloads: each completion re-runs the pass over the same containers; the markup a response inserts is modelled by `AfterLoads` instead.
- `AfterLoads` models a response as inserting containers after those on the page. Containers a response removes or replaces are not modelled, since the pass treats each container on its own.
- Nested markup inside a `.quantity` container. Its descendants are one flat list in document order.
- QuantityStepper.Fallbacks: the cases `parseInt` returns as `-0` or for fractional text are folded into the `Option<int>` it is given.
- ProductBadges.CustomBadges: the sale percentage is the exact quotient. PHP's float arithmetic and `round` are not modelled.
- ProductBadges.CustomBadges: `get_the_date('Y-m-d')` truncates the date to midnight. `strtotime` turns that into a timestamp. The model takes that timestamp as given.
- ThemeFilters.LazyLoading: PHP arrays keep key order; a `map` does not, so where `loading` lands among the attributes is not modelled.
- PromoBar.Render: a `yelira_promo_messages` filter that returns something other than an array is not modelled.
- The rest of `functions.php`: enqueueing, theme support, image sizes, the critical and admin CSS, the product excerpt, the secondary image, the cart-count fragment, the JSON-LD schema and the shortcodes. These are WordPress configuration or output over opaque WordPress APIs.
- The toast's HTML and the innerHTML interpolation of its message.

## Findings

| source | as written | input that shows it | evidently intended | confidence | as-written member | corrected member |
|---|---|---|---|---|---|---|
| assets/js/main.js:203-206 | Every `ajaxComplete` calls `quantityButtons()`. That call binds one more delegated click handler (line 133). After n AJAX completions a click runs n + 1 handlers, and each one steps the re-read value. | Page load, one AJAX completion, then a plus click on a quantity of 1 with `min="1"` and no `max`. The value becomes 3 and two `change` events fire. | One step and at most one `change` per click, however many AJAX completions there were. | high; not executed | QuantityStepper.DuplicateHandlersDoubleStep | QuantityStepper.BindOnceSingleStep |
