/** Three WordPress filters of the theme, each a pure function of what the hook receives:
    the add-to-cart button text, the `loading` attribute of attachment images, and the
    dashboard welcome text. `is_admin()` and the product's type are parameters. */
module ThemeFilters {

  const SimpleLabel: string := "Ajouter au panier"
  const VariableLabel: string := "Voir les options"

  /** `yelira_add_to_cart_text` for a product whose type is `productType`. */
  function AddToCartText(text: string, productType: string): (r: string)
    ensures productType == "simple" ==> r == SimpleLabel
    ensures productType == "variable" ==> r == VariableLabel
    ensures productType != "simple" && productType != "variable" ==> r == text
  {
    if productType == "simple" then SimpleLabel
    else if productType == "variable" then VariableLabel
    else text
  }

  /** Running the filter again on its own output changes nothing, and the incoming text is
      only replaced for the two product types the theme names. */
  lemma AddToCartTextStable(text: string, productType: string)
    ensures AddToCartText(AddToCartText(text, productType), productType) == AddToCartText(text, productType)
    ensures AddToCartText(text, productType) != text ==> productType in {"simple", "variable"}
  {
  }

  /** `yelira_lazy_loading`: the attachment and size arguments are not read. */
  function LazyLoading(attr: map<string, string>): (r: map<string, string>)
    ensures r.Keys == attr.Keys + {"loading"}
    ensures r["loading"] == "lazy"
    ensures forall k :: k in attr && k != "loading" ==> r[k] == attr[k]
  {
    attr["loading" := "lazy"]
  }

  /** Applying the filter twice is applying it once. */
  lemma LazyLoadingIdempotent(attr: map<string, string>)
    ensures LazyLoading(LazyLoading(attr)) == LazyLoading(attr)
  {
  }

  const WelcomeSource: string := "Welcome to WordPress!"
  const WelcomeYelira: string := "Bienvenue sur Yelira !"

  /** `yelira_dashboard_welcome` as a `gettext` filter; the text domain is not read. */
  function DashboardWelcome(translated: string, text: string, domain: string, inAdmin: bool): (r: string)
    ensures text == WelcomeSource && inAdmin ==> r == WelcomeYelira
    ensures r != translated ==> text == WelcomeSource && inAdmin
  {
    if text == WelcomeSource && inAdmin then WelcomeYelira else translated
  }

  /** Outside the admin, or for any other source text, the translation passes through;
      the decision never depends on the translation or the domain. */
  lemma DashboardWelcomeOnlyRewritesWelcome(translated: string, text: string, domain: string, inAdmin: bool, other: string)
    ensures !inAdmin || text != WelcomeSource ==> DashboardWelcome(translated, text, domain, inAdmin) == translated
    ensures text == WelcomeSource && inAdmin ==>
      DashboardWelcome(translated, text, domain, inAdmin) == DashboardWelcome(other, text, other, inAdmin)
  {
  }
}
