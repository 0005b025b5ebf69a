/** The scrolling promotion bar printed at `wp_body_open`: the messages, after the
    `yelira_promo_messages` filter, each escaped and printed as a span, and then all of them
    a second time so that the scrolling animation can loop without a gap. No messages, no
    bar. The filter's result and the escaping function (`esc_html`) are parameters. */
module PromoBar {
  import opened Wrappers

  /** The messages the filter receives. */
  const DefaultMessages: seq<string> := [
    "Livraison OFFERTE dès 49€ d'achat",
    "Paiement sécurisé 100%",
    "Retours gratuits sous 30 jours",
    "Service client disponible 7j/7"
  ]

  function EscapeAll(messages: seq<string>, escape: string -> string): (r: seq<string>)
    ensures |r| == |messages|
    ensures forall i :: 0 <= i < |messages| ==> r[i] == escape(messages[i])
  {
    seq(|messages|, i requires 0 <= i < |messages| => escape(messages[i]))
  }

  /** `yelira_promo_bar`: the texts of the spans inside the bar, or None when nothing is
      printed. */
  function Render(messages: seq<string>, escape: string -> string): (r: Option<seq<string>>)
    ensures r.None? <==> messages == []
    ensures r.Some? ==> |r.value| == 2 * |messages|
    // both halves of the bar are the escaped messages in their original order
    ensures r.Some? ==> forall i :: 0 <= i < |messages| ==>
      r.value[i] == escape(messages[i]) && r.value[|messages| + i] == escape(messages[i])
  {
    if messages == [] then None
    else
      var once := EscapeAll(messages, escape);
      Some(once + once)
  }

  /** Every text occurs in the bar exactly twice as often as among the escaped messages; with
      distinct texts, each message is shown exactly twice. */
  lemma EachMessageTwice(messages: seq<string>, escape: string -> string, text: string)
    requires messages != []
    ensures multiset(Render(messages, escape).value)[text] == 2 * multiset(EscapeAll(messages, escape))[text]
  {
  }

  /** The bar loops seamlessly: its second half repeats its first half. */
  lemma HalvesAgree(messages: seq<string>, escape: string -> string)
    requires messages != []
    ensures var spans := Render(messages, escape).value;
      spans[..|messages|] == spans[|messages|..] == EscapeAll(messages, escape)
  {
  }

  /** Without a filter, the four default messages give eight spans. */
  lemma DefaultBar(escape: string -> string)
    ensures Render(DefaultMessages, escape).Some?
    ensures |Render(DefaultMessages, escape).value| == 8
  {
  }
}
