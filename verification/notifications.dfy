/** The toast notifications of the storefront script. `showNotification` removes the first
    `.yelira-notification` on the page, appends a new one, and schedules three callbacks on
    the new element: add `is-visible` after 10 ms, remove it after 3 s, and detach the element
    300 ms later. The `added_to_cart` event of the shop shows a fixed success message.

    The page is the list of attached toasts in document order. Timer callbacks are events that
    name the element they were scheduled for; one that fires after its element was detached
    acts on an element that is no longer on the page, so it changes nothing here. */
module Notifications {

  /** The second argument of `showNotification`; the script accepts it and never reads it:
      every toast carries the same class and the same check-mark icon. */
  datatype Kind = Success | Error | Info

  datatype Toast = Toast(id: nat, message: string, visible: bool)

  /** The attached toasts, and how many toasts were ever created (the next one's identity). */
  datatype Page = Page(toasts: seq<Toast>, created: nat)

  const Blank: Page := Page([], 0)

  const AddedToCartMessage: string := "Produit ajouté au panier !"

  /** Every attached toast was created before, so a new toast is never one of them. */
  predicate Fresh(p: Page)
  {
    forall i :: 0 <= i < |p.toasts| ==> p.toasts[i].id < p.created
  }

  /** `showNotification(message, kind)`. */
  function Show(p: Page, message: string, kind: Kind): (r: Page)
    ensures r.created == p.created + 1
    ensures |r.toasts| >= 1 && r.toasts[|r.toasts| - 1] == Toast(p.created, message, false)
    ensures |p.toasts| <= 1 ==> r.toasts == [Toast(p.created, message, false)]
    ensures |r.toasts| == if p.toasts == [] then 1 else |p.toasts|
    ensures Fresh(p) ==> Fresh(r)
  {
    var rest := if p.toasts == [] then [] else p.toasts[1..];
    Page(rest + [Toast(p.created, message, false)], p.created + 1)
  }

  /** The `added_to_cart` listener: a new, not yet visible toast with the fixed message, which
      replaces the one toast there was. */
  function OnAddedToCart(p: Page): (r: Page)
    ensures r.created == p.created + 1
    ensures |r.toasts| >= 1 && r.toasts[|r.toasts| - 1] == Toast(p.created, AddedToCartMessage, false)
    ensures |p.toasts| <= 1 ==> r.toasts == [Toast(p.created, AddedToCartMessage, false)]
  {
    Show(p, AddedToCartMessage, Success)
  }

  /** The toasts with the `is-visible` class of toast `id` set to `on`. */
  function SetVisible(ts: seq<Toast>, id: nat, on: bool): (r: seq<Toast>)
    ensures |r| == |ts|
    ensures forall i :: 0 <= i < |ts| ==>
      r[i] == if ts[i].id == id then ts[i].(visible := on) else ts[i]
    decreases |ts|
  {
    if ts == [] then []
    else [if ts[0].id == id then ts[0].(visible := on) else ts[0]] + SetVisible(ts[1..], id, on)
  }

  /** The toasts with toast `id` detached. */
  function Detach(ts: seq<Toast>, id: nat): (r: seq<Toast>)
    ensures |r| <= |ts|
    ensures forall i :: 0 <= i < |r| ==> r[i].id != id && r[i] in ts
    ensures forall i :: 0 <= i < |ts| && ts[i].id != id ==> ts[i] in r
    decreases |ts|
  {
    if ts == [] then []
    else (if ts[0].id == id then [] else [ts[0]]) + Detach(ts[1..], id)
  }

  /** What can happen to the toasts: a `showNotification` call, an `added_to_cart` event, or
      one of the three timer callbacks scheduled for toast `id`. */
  datatype Event =
    | ShowCall(message: string, kind: Kind)
    | AddedToCart
    | Reveal(id: nat)
    | Fade(id: nat)
    | Expire(id: nat)

  /** One event. Only a showing creates a toast. A reveal or fade keeps every toast's identity
      in place; a removal takes away exactly the toasts of its identity and attaches none. */
  function Apply(p: Page, e: Event): (r: Page)
    ensures e.ShowCall? || e.AddedToCart? ==>
      r.created == p.created + 1 && |r.toasts| >= 1 && r.toasts[|r.toasts| - 1].id == p.created
    ensures !(e.ShowCall? || e.AddedToCart?) ==> r.created == p.created && |r.toasts| <= |p.toasts|
    ensures e.Reveal? || e.Fade? ==>
      |r.toasts| == |p.toasts| && forall i :: 0 <= i < |p.toasts| ==> r.toasts[i].id == p.toasts[i].id
    ensures e.Expire? ==>
      && (forall t :: t in r.toasts ==> t in p.toasts && t.id != e.id)
      && (forall t :: t in p.toasts && t.id != e.id ==> t in r.toasts)
    ensures Fresh(p) ==> Fresh(r)
  {
    match e
    case ShowCall(m, k) => Show(p, m, k)
    case AddedToCart => OnAddedToCart(p)
    case Reveal(id) => p.(toasts := SetVisible(p.toasts, id, true))
    case Fade(id) => p.(toasts := SetVisible(p.toasts, id, false))
    case Expire(id) => p.(toasts := Detach(p.toasts, id))
  }

  function Replay(p: Page, es: seq<Event>): Page
    decreases |es|
  {
    if es == [] then p else Replay(Apply(p, es[0]), es[1..])
  }

  /** One event never leaves more than one toast attached when there was at most one. */
  lemma ApplyKeepsAtMostOne(p: Page, e: Event)
    requires |p.toasts| <= 1
    ensures |Apply(p, e).toasts| <= 1
    ensures Fresh(p) ==> Fresh(Apply(p, e))
  {
  }

  /** However showings, `added_to_cart` events and timers interleave, starting from a page
      with at most one toast there is never more than one attached. */
  lemma {:induction false} ReplayKeepsAtMostOne(p: Page, es: seq<Event>)
    requires |p.toasts| <= 1 && Fresh(p)
    ensures |Replay(p, es).toasts| <= 1 && Fresh(Replay(p, es))
    decreases |es|
  {
    if es != [] {
      ApplyKeepsAtMostOne(p, es[0]);
      ReplayKeepsAtMostOne(Apply(p, es[0]), es[1..]);
    }
  }

  /** After `showNotification` the one attached toast is the new one, carrying its message and
      not yet visible; it differs from every toast attached before. */
  lemma ShowReplacesToast(p: Page, message: string, kind: Kind)
    requires |p.toasts| <= 1 && Fresh(p)
    ensures var r := Show(p, message, kind);
      && |r.toasts| == 1
      && r.toasts[0].message == message && !r.toasts[0].visible
      && forall i :: 0 <= i < |p.toasts| ==> r.toasts[0].id != p.toasts[i].id
  {
  }

  /** The kind argument changes nothing. */
  lemma ShowIgnoresKind(p: Page, message: string, k1: Kind, k2: Kind)
    ensures Show(p, message, k1) == Show(p, message, k2)
  {
  }

  /** A timer callback for a toast that is no longer attached changes nothing. */
  lemma {:induction false} StaleTimerIsHarmless(p: Page, id: nat, on: bool)
    requires forall i :: 0 <= i < |p.toasts| ==> p.toasts[i].id != id
    ensures SetVisible(p.toasts, id, on) == p.toasts
    ensures Detach(p.toasts, id) == p.toasts
  {
    DetachMissing(p.toasts, id);
  }

  lemma {:induction false} DetachMissing(ts: seq<Toast>, id: nat)
    requires forall i :: 0 <= i < |ts| ==> ts[i].id != id
    ensures Detach(ts, id) == ts
    decreases |ts|
  {
    if ts != [] {
      DetachMissing(ts[1..], id);
      assert ts == [ts[0]] + ts[1..];
    }
  }

  /** Two quick `added_to_cart` events: the first toast is gone before the second shows. */
  lemma RapidAddsScenario()
    ensures Replay(Blank, [AddedToCart, Reveal(0), AddedToCart]) == Page([Toast(1, AddedToCartMessage, false)], 2)
  {
  }

  /** Replaying two runs of events one after the other is replaying them joined. */
  lemma {:induction false} ReplayAppend(p: Page, a: seq<Event>, b: seq<Event>)
    ensures Replay(p, a + b) == Replay(Replay(p, a), b)
    decreases |a|
  {
    if a != [] {
      assert (a + b)[0] == a[0];
      assert (a + b)[1..] == a[1..] + b;
      ReplayAppend(Apply(p, a[0]), a[1..], b);
    } else {
      assert a + b == b;
    }
  }

  /** The second toast revealed, then the first toast's fade and removal timers: only the
      reveal has an effect. */
  lemma LateTimersScenario()
    ensures Replay(Page([Toast(1, AddedToCartMessage, false)], 2), [Reveal(1), Fade(0), Expire(0)])
      == Page([Toast(1, AddedToCartMessage, true)], 2)
  {
  }

  /** Continuing the rapid adds: revealing the second toast makes it the one visible toast,
      and the first toast's own timers firing afterwards change nothing. */
  lemma RapidAddsLateTimersScenario()
    ensures Replay(Blank, [AddedToCart, Reveal(0), AddedToCart] + [Reveal(1), Fade(0), Expire(0)]).toasts
      == [Toast(1, AddedToCartMessage, true)]
  {
    RapidAddsScenario();
    LateTimersScenario();
    ReplayAppend(Blank, [AddedToCart, Reveal(0), AddedToCart], [Reveal(1), Fade(0), Expire(0)]);
  }
}
