/** The `/api/recherche` handler, `recherche_produit`: it validates the
    request, picks the adapter named by the supplier field, and returns that
    adapter's record unchanged. */
module Dispatch {
  import opened Text
  import opened Adapter

  /** What the handler decides before any network traffic: refuse the request
      with an HTTP status and a detail message, or hand the reference, as it
      was given, to one adapter. */
  datatype Decision = Reject(status: nat, detail: string) | Delegate(supplier: Supplier, reference: string)

  /** What the caller of the endpoint receives: an HTTP error raised by the
      handler, or the adapter's record. */
  datatype Reply = HttpError(status: nat, detail: string) | Record(record: ProduitResponse)

  const MissingReference := "La référence est obligatoire"
  const UnknownSupplier := "Fournisseur non supporté. Utilisez 'luxior' ou 'ami3f'"

  /** `not reference or not reference.strip()`. */
  predicate IsMissing(reference: string) {
    reference == [] || Strip(reference) == []
  }

  /** The validation and dispatch of `recherche_produit`. A request is handed
      on exactly when its reference is not blank and its supplier, lower-cased,
      is "luxior" or "ami3f"; the adapter then gets the reference untouched and
      is the one whose name is the lower-cased supplier. Every refusal is a
      400. */
  function Decide(reference: string, fournisseur: string): (d: Decision)
    ensures d.Reject? ==> d.status == 400
    ensures d.Delegate? <==>
      !AllSpace(reference) && (Lower(fournisseur) == "luxior" || Lower(fournisseur) == "ami3f")
    ensures d.Delegate? ==> d.reference == reference && SupplierName(d.supplier) == Lower(fournisseur)
  {
    StripEmptyIffBlank(reference);
    if IsMissing(reference) then
      Reject(400, MissingReference)
    else
      var f := Lower(fournisseur);
      if f == "luxior" then Delegate(Luxior, reference)
      else if f == "ami3f" then Delegate(Ami3f, reference)
      else Reject(400, UnknownSupplier)
  }

  /** The whole endpoint, given the outcome the chosen adapter's request has.
      A request is refused with the decision's 400 and message exactly when
      the decision refuses it; otherwise the reply is the chosen adapter's
      own record for the unchanged reference, so everything that goes wrong
      in an adapter comes back as a record whose `erreur` is set. */
  function RechercheProduit(reference: string, fournisseur: string, outcome: FetchOutcome): (reply: Reply)
    ensures reply.Record? <==> Decide(reference, fournisseur).Delegate?
    ensures reply.HttpError? ==>
      && Decide(reference, fournisseur).Reject?
      && reply == HttpError(400, Decide(reference, fournisseur).detail)
    ensures reply.Record? ==>
      && Decide(reference, fournisseur).Delegate?
      && reply.record == Scrape(Decide(reference, fournisseur).supplier, reference, outcome)
    ensures reply.Record? ==>
      && reply.record.reference == reference
      && reply.record.fournisseur == Lower(fournisseur)
  {
    match Decide(reference, fournisseur)
    case Reject(status, detail) => HttpError(status, detail)
    case Delegate(supplier, ref) => Record(Scrape(supplier, ref, outcome))
  }

  // ---------------------------------------------------------------------------
  // Properties of the dispatcher
  // ---------------------------------------------------------------------------

  /** A blank reference is refused with the missing-reference message whatever
      the supplier says: the reference is checked first. */
  lemma BlankReferenceRejected(reference: string, fournisseur: string)
    requires AllSpace(reference)
    ensures Decide(reference, fournisseur) == Reject(400, MissingReference)
  {
    StripEmptyIffBlank(reference);
  }

  /** With a reference that is not blank, a supplier that is neither "luxior"
      nor "ami3f" in any letter case is refused with the unknown-supplier
      message. */
  lemma UnknownSupplierRejected(reference: string, fournisseur: string)
    requires !AllSpace(reference)
    requires !SameIgnoringCase(fournisseur, "luxior") && !SameIgnoringCase(fournisseur, "ami3f")
    ensures Decide(reference, fournisseur) == Reject(400, UnknownSupplier)
  {
    StripEmptyIffBlank(reference);
    LowerEqualsIff(fournisseur, "luxior");
    LowerEqualsIff(fournisseur, "ami3f");
  }

  /** The supplier is matched without regard to letter case. */
  lemma SupplierMatchIgnoresCase(reference: string, fournisseur: string)
    requires !AllSpace(reference)
    ensures SameIgnoringCase(fournisseur, "luxior") ==> Decide(reference, fournisseur) == Delegate(Luxior, reference)
    ensures SameIgnoringCase(fournisseur, "ami3f") ==> Decide(reference, fournisseur) == Delegate(Ami3f, reference)
  {
    StripEmptyIffBlank(reference);
    LowerEqualsIff(fournisseur, "luxior");
    LowerEqualsIff(fournisseur, "ami3f");
  }

  /** Lower-casing the supplier beforehand changes no decision. */
  lemma DecideOnLowerCase(reference: string, fournisseur: string)
    ensures Decide(reference, Lower(fournisseur)) == Decide(reference, fournisseur)
  {
    LowerIdempotent(fournisseur);
  }

  /** A worked example: the supplier's case is ignored and the surrounding
      spaces of the reference are kept in what the adapter receives. */
  lemma DecideExampleAccepted()
    ensures Decide(" REF-12 ", "LuXiOr") == Delegate(Luxior, " REF-12 ")
  {
    assert !IsSpace(" REF-12 "[1]);
    assert Lower("LuXiOr") == "luxior";
  }

  /** Worked examples of the two refusals. */
  lemma DecideExampleRejected()
    ensures Decide("   ", "luxior") == Reject(400, MissingReference)
    ensures Decide("REF-12", "amazon") == Reject(400, UnknownSupplier)
  {
    BlankReferenceRejected("   ", "luxior");
    assert !IsSpace("REF-12"[0]);
    assert LowerChar("amazon"[0]) != LowerChar("luxior"[0]);
    UnknownSupplierRejected("REF-12", "amazon");
  }
}
