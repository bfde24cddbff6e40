/** The two supplier adapters, `scrape_luxior` and `scrape_ami3f`. Each one
    fetches the supplier's search page for a reference, finds the first
    product container on it, and builds a `ProduitResponse` record from the
    name, price and stock found in that container, or an error record. The
    HTTP request and the HTML parser are abstracted into inputs: the outcome
    of the request, and for the page what the parser's `find` calls return. */
module Adapter {
  import opened Wrappers
  import opened Text
  import opened Price

  datatype Supplier = Luxior | Ami3f

  /** The `fournisseur` value each adapter writes into its records. */
  function SupplierName(s: Supplier): string {
    match s
    case Luxior => "luxior"
    case Ami3f => "ami3f"
  }

  /** An element rule for `soup.find(tag, class_=cls)`. */
  datatype Selector = Selector(tag: string, cls: string)

  /** What the parser finds inside a product container: the raw text of the
      first name, price and stock element, or None when there is none. */
  datatype Container = Container(nameText: Option<string>, priceText: Option<string>, stockText: Option<string>)

  /** A parsed search-results page: for each container rule that matches
      something on the page, the first container it matches. */
  datatype Page = Page(found: map<Selector, Container>)

  /** How the request ended: the client's timeout fired, some other exception
      was raised anywhere inside the adapter's `try` (its `str(e)` is `msg`),
      or a response arrived with a status code and a page. */
  datatype FetchOutcome = Timeout | Failure(msg: string) | Response(status: nat, page: Page)

  /** The `ProduitResponse` model: every field but the first two is optional. */
  datatype ProduitResponse = ProduitResponse(
    reference: string,
    fournisseur: string,
    prix: Option<Decimal>,
    designation: Option<string>,
    disponibilite: Option<string>,
    erreur: Option<string>)

  /** The container rules in the order the adapter tries them: Luxior looks
      for `div.product-item-info` only, AMI 3F for `div.product-card` and then
      for `article.product`. */
  function ContainerSelectors(s: Supplier): seq<Selector> {
    match s
    case Luxior => [Selector("div", "product-item-info")]
    case Ami3f => [Selector("div", "product-card"), Selector("article", "product")]
  }

  /** The position of the first rule that finds a container on the page, or
      the number of rules when none does. */
  function FirstFound(page: Page, rules: seq<Selector>): (i: nat)
    ensures i <= |rules|
    ensures forall j :: 0 <= j < i ==> rules[j] !in page.found
    ensures i < |rules| ==> rules[i] in page.found
  {
    if rules == [] || rules[0] in page.found then 0 else 1 + FirstFound(page, rules[1..])
  }

  /** The container the adapter works on: the one found by the first rule
      that finds one, or nothing when no rule finds one. */
  function FindContainer(page: Page, rules: seq<Selector>): (c: Option<Container>)
    ensures c.None? <==> forall j :: 0 <= j < |rules| ==> rules[j] !in page.found
    ensures c.Some? ==>
      exists i :: && 0 <= i < |rules| && rules[i] in page.found && c.value == page.found[rules[i]]
                  && (forall j :: 0 <= j < i ==> rules[j] !in page.found)
  {
    var i := FirstFound(page, rules);
    if i < |rules| then Some(page.found[rules[i]]) else None
  }

  /** A record carrying only an error message. */
  function ErrorRecord(s: Supplier, reference: string, message: string): ProduitResponse {
    ProduitResponse(reference, SupplierName(s), None, None, None, Some(message))
  }

  /** The supplier's name as the timeout message spells it. */
  function ServerName(s: Supplier): string {
    match s
    case Luxior => "Luxior"
    case Ami3f => "AMI 3F"
  }

  /** "Timeout - Le serveur Luxior ne répond pas", and the same for AMI 3F. */
  function TimeoutMessage(s: Supplier): string {
    "Timeout - Le serveur " + ServerName(s) + " ne répond pas"
  }

  /** `element.text.strip() if element else default`. */
  function TextOr(element: Option<string>, default: string): string {
    match element
    case Some(t) => Strip(t)
    case None => default
  }

  /** `element.text.strip() if element else None`. */
  function StrippedText(element: Option<string>): Option<string> {
    match element
    case Some(t) => Some(Strip(t))
    case None => None
  }

  /** The record built from a product container: the stripped name or "N/A",
      the parsed price or nothing, the stripped stock text or "À vérifier",
      and no error. `SuccessRecord` states what the price then is. */
  function Extract(s: Supplier, reference: string, c: Container): (r: ProduitResponse)
    ensures r.reference == reference && r.fournisseur == SupplierName(s)
    ensures r.erreur.None? && r.designation.Some? && r.disponibilite.Some?
    ensures c.priceText.None? ==> r.prix.None?
  {
    ProduitResponse(
      reference,
      SupplierName(s),
      ParsePrice(StrippedText(c.priceText)),
      Some(TextOr(c.nameText, "N/A")),
      Some(TextOr(c.stockText, "À vérifier")),
      None)
  }

  /** One adapter call. It always yields a record for the reference it was
      given, under its own supplier name; an error record carries nothing
      but its message; and there is no error exactly when the page arrived
      with status 200 and holds a product container, in which case the
      designation and the availability are always set: the record is the one
      `Extract` builds from the container the supplier's rules find. */
  function Scrape(s: Supplier, reference: string, outcome: FetchOutcome): (r: ProduitResponse)
    ensures r.reference == reference && r.fournisseur == SupplierName(s)
    ensures r.erreur.Some? ==> r.prix.None? && r.designation.None? && r.disponibilite.None?
    ensures r.erreur.None? ==> r.designation.Some? && r.disponibilite.Some?
    ensures r.erreur.None? <==>
      outcome.Response? && outcome.status == 200
      && FirstFound(outcome.page, ContainerSelectors(s)) < |ContainerSelectors(s)|
    ensures outcome.Response? && outcome.status == 200 && FindContainer(outcome.page, ContainerSelectors(s)).Some? ==>
      r == Extract(s, reference, FindContainer(outcome.page, ContainerSelectors(s)).value)
  {
    match outcome
    case Timeout => ErrorRecord(s, reference, TimeoutMessage(s))
    case Failure(msg) => ErrorRecord(s, reference, "Erreur: " + msg)
    case Response(status, page) =>
      if status != 200 then
        ErrorRecord(s, reference, "Erreur HTTP " + NatToString(status))
      else
        match FindContainer(page, ContainerSelectors(s))
        case None => ErrorRecord(s, reference, "Produit non trouvé")
        case Some(c) => Extract(s, reference, c)
  }

  // ---------------------------------------------------------------------------
  // Properties of the adapters
  // ---------------------------------------------------------------------------

  /** A status other than 200 gives the "Erreur HTTP <status>" record, whose
      message ends with the decimal digits of the status. */
  lemma HttpErrorRecord(s: Supplier, reference: string, status: nat, page: Page)
    requires status != 200
    ensures var r := Scrape(s, reference, Response(status, page));
      && r == ErrorRecord(s, reference, "Erreur HTTP " + NatToString(status))
      && var m := r.erreur.value;
      && |m| > 12 && m[..12] == "Erreur HTTP " && AllDigits(m[12..]) && DigitsValue(m[12..]) == status
  {
    var m := "Erreur HTTP " + NatToString(status);
    assert m[12..] == NatToString(status);
  }

  /** The worked example: a 404 page gives exactly "Erreur HTTP 404". */
  lemma HttpError404(s: Supplier, reference: string, page: Page)
    ensures Scrape(s, reference, Response(404, page)).erreur == Some("Erreur HTTP 404")
  {
    assert DigitChar(4) == '4' && DigitChar(0) == '0';
    assert NatToString(404) == NatToString(40) + ['4'];
    assert NatToString(40) == NatToString(4) + ['0'];
    assert "Erreur HTTP " + NatToString(404) == "Erreur HTTP 404";
  }

  /** A page without any of the supplier's containers gives the "Produit non
      trouvé" record. */
  lemma NotFoundRecord(s: Supplier, reference: string, page: Page)
    requires forall j :: 0 <= j < |ContainerSelectors(s)| ==> ContainerSelectors(s)[j] !in page.found
    ensures Scrape(s, reference, Response(200, page)) == ErrorRecord(s, reference, "Produit non trouvé")
  {
    assert FirstFound(page, ContainerSelectors(s)) == |ContainerSelectors(s)|;
  }

  /** AMI 3F falls back to `article.product` only when no `div.product-card`
      is on the page; a `div.product-card` wins whenever there is one. */
  lemma Ami3fFallback(reference: string, page: Page)
    ensures var primary, fallback := Selector("div", "product-card"), Selector("article", "product");
      && (primary in page.found ==>
           Scrape(Ami3f, reference, Response(200, page)) == Extract(Ami3f, reference, page.found[primary]))
      && (primary !in page.found && fallback in page.found ==>
           Scrape(Ami3f, reference, Response(200, page)) == Extract(Ami3f, reference, page.found[fallback]))
  {
    var rules := ContainerSelectors(Ami3f);
    assert rules[1..] == [Selector("article", "product")];
    if rules[0] !in page.found && rules[1] in page.found {
      assert FirstFound(page, rules) == 1 + FirstFound(page, rules[1..]) == 1;
    }
  }

  /** Luxior has no fallback: a page whose only product block is an
      `article.product` is a "Produit non trouvé" for Luxior, while AMI 3F
      extracts it. */
  lemma LuxiorHasNoFallback(reference: string, c: Container)
    ensures var page := Page(map[Selector("article", "product") := c]);
      && Scrape(Luxior, reference, Response(200, page)) == ErrorRecord(Luxior, reference, "Produit non trouvé")
      && Scrape(Ami3f, reference, Response(200, page)) == Extract(Ami3f, reference, c)
  {
    Ami3fFallback(reference, Page(map[Selector("article", "product") := c]));
  }

  /** On the success path: no error, the stripped name or "N/A", the
      stripped stock text or "À vérifier", and a price present exactly when
      there is a price element whose text has at least one digit and at most
      one comma or dot, and then equal to what its digits spell with that
      separator as decimal point. */
  lemma SuccessRecord(s: Supplier, reference: string, c: Container)
    ensures var r := Extract(s, reference, c);
      && r.erreur == None
      && r.designation == Some(if c.nameText.Some? then Strip(c.nameText.value) else "N/A")
      && r.disponibilite == Some(if c.stockText.Some? then Strip(c.stockText.value) else "À vérifier")
      && (r.prix.Some? <==>
           c.priceText.Some? && Digits(c.priceText.value) != [] && SepCount(c.priceText.value) <= 1)
      && (r.prix.Some? ==>
           r.prix.value == Decimal(DigitsNumber(c.priceText.value), FracDigits(c.priceText.value)))
  {
    if c.priceText.Some? {
      StripKeepsCounts(c.priceText.value);
    }
  }

  /** A missing price, a blank one, or one the parse rejects leaves `prix`
      absent without turning the record into an error. */
  lemma PriceAbsentIsNotAnError(s: Supplier, reference: string, c: Container)
    requires c.priceText.None? || Digits(c.priceText.value) == [] || SepCount(c.priceText.value) > 1
    ensures Extract(s, reference, c).prix == None
    ensures Extract(s, reference, c).erreur == None
  {
    SuccessRecord(s, reference, c);
  }

  /** A timeout gives the supplier's own "Timeout - ..." record. */
  lemma TimeoutRecord(s: Supplier, reference: string)
    ensures var r := Scrape(s, reference, Timeout);
      && r == ErrorRecord(s, reference, TimeoutMessage(s))
      && "Timeout" <= r.erreur.value
  {
    var m := TimeoutMessage(s);
    assert m == "Timeout" + (" - Le serveur " + ServerName(s) + " ne répond pas");
  }

  /** Any other exception gives "Erreur: " followed by its message. */
  lemma FailureRecord(s: Supplier, reference: string, msg: string)
    ensures Scrape(s, reference, Failure(msg)) == ErrorRecord(s, reference, "Erreur: " + msg)
  {
  }
}
