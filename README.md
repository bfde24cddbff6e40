# Tarificateur Sectorem — a verified model of the lookup core

The service looks up a product reference on one of two supplier websites,
Luxior and AMI 3F, and answers with a `ProduitResponse` record: reference,
supplier, price, designation, availability and an error message. This
project models the three pieces of `main.py` that make decisions:

- **the price normaliser** (`price.dfy`, module `Price`): the clean-up
  `re.sub(r'[^\d,.]', '', text).replace(',', '.')` and Python's `float` on
  the result inside a `try`. The price is an exact decimal
  `Decimal(mantissa, scale)`, so 1234.56 is `Decimal(123456, 2)`. The proved
  rule: a price text gives a price exactly when it holds at least one digit
  and at most one comma or dot. The price is then the number its digits
  spell, with that separator as decimal point. So `"1 234,56 €"` gives
  1234.56, while `"1.234,56"` and `"Contact us"` give none.
- **the supplier adapters** `scrape_luxior` and `scrape_ami3f` (`adapter.dfy`,
  module `Adapter`, function `Scrape`). The network and the HTML parser are
  inputs. A `FetchOutcome` is a timeout, another exception with its message,
  or a response with a status and a `Page`. A `Page` maps each container rule
  (tag and class) that matches something to the `Container` it finds. A
  `Container` gives the raw texts of the name, price and stock elements, each
  optional. The adapter always returns a record. That record is either an
  error record with nothing but `erreur` set, or a success record with
  defaults `"N/A"` and `"À vérifier"` and a price that may be absent.
- **the request handler** `recherche_produit` (`dispatch.dfy`, module
  `Dispatch`). A blank reference is refused with 400 before the supplier is
  looked at. The supplier is lower-cased and must then be `"luxior"` or
  `"ami3f"`, or the request is refused with 400. Otherwise the reference goes
  to the adapter unchanged, unstripped.

`text.dfy` (module `Text`) holds ASCII models of `str.strip()`,
`str.lower()`, decimal digit strings and `str(n)`. `wrappers.dfy` holds the
`Option` type used for the record's nullable fields.

Three facts about the code that the model keeps as they are:
- the messages are in French ("Erreur HTTP 404", "Produit non trouvé",
  "La référence est obligatoire");
- the timeout message names the supplier ("Timeout - Le serveur AMI 3F ne
  répond pas");
- the reference is put into the search URL without escaping (main.py:66 and
  main.py:134; the URL itself is not modelled).

All functions are pure. Two lookups against the same page therefore give the
same record.

## Model

| member | source | states |
|---|---|---|
| Text.Strip | main.py:90 | `strip()` returns the slice of its input between the leading and trailing whitespace; everything cut off is whitespace, and the result neither starts nor ends with whitespace |
| Text.StripEmptyIffBlank | main.py:207 | the stripped reference is empty exactly when the reference is whitespace only |
| Text.StripIdempotent | main.py:90 | stripping twice is stripping once |
| Text.Lower | main.py:210 | `lower()` keeps the length, lower-cases each character in place and leaves no upper-case letter |
| Text.LowerIdempotent | main.py:210 | lower-casing a lower-cased supplier changes nothing |
| Text.LowerEqualsIff | main.py:210-215 | `s.lower()` equals a lower-case word exactly when `s` spells that word in any mix of cases |
| Text.NatToString | main.py:73 | the status in the HTTP error message is a digit string without leading zero that denotes the status |
| Price.Keep | main.py:99 | the regular-expression clean-up leaves only digits, commas and dots |
| Price.KeepCounts | main.py:99 | the clean-up keeps every digit, comma and dot exactly as often as it occurs and removes every other character |
| Price.KeepConcat | main.py:99 | the clean-up works character by character and keeps the order of what it keeps |
| Price.CommaToDot | main.py:99 | `.replace(',', '.')` keeps the length and turns each comma into a dot, leaving every other character where it was |
| Price.Clean | main.py:99 | the cleaned price holds only digits and dots (no comma is left), one per kept character |
| Price.CleanConcat | main.py:99 | cleaning a concatenation is concatenating the cleaned parts, so the cleaned text is the kept characters in their original order |
| Price.CleanIdempotent | main.py:99 | cleaning an already cleaned price changes nothing |
| Price.CleanPreservesCounts | main.py:99 | cleaning keeps the same digits in the same order, as many separators, and as many digits after the first separator |
| Price.ParseFloat | main.py:100-103 | `float` on a cleaned text: a text without a dot is accepted exactly when it is not empty, and is then a whole number; an accepted value never has more decimal places than the text has characters |
| Price.ParseFloatSpec | main.py:100-103 | `float` on a cleaned text succeeds exactly when it has at least one digit and at most one dot, and then equals its digits read as one number scaled by the digits after the dot |
| Price.ParsePrice | main.py:96-103 | `prix` is set exactly when the price text is present and has at least one digit and at most one comma or dot, and is then the decimal its digits spell with that separator as decimal point; otherwise it is absent, never an error |
| Price.ParsePriceFrench | main.py:96-103 | `"1 234,56 €"` gives 1234.56 |
| Price.ParsePriceThousandsDot | main.py:96-103 | `"1.234,56"` gives no price |
| Price.ParsePriceNoDigits | main.py:96-103 | `"Contact us"` and an empty text give no price |
| Price.RenderRoundTrip | main.py:96-103 | any price printed with a comma or a dot as decimal mark, with any text around it that has no digit, comma or dot, is read back as exactly that price |
| Price.StripKeepsCounts | main.py:94-99 | stripping the price text changes none of the digits and separators the price depends on |
| Adapter.FirstFound | main.py:149-153 | the container is the one found by the first rule, in order, that finds one; every rule before it found nothing |
| Adapter.FindContainer | main.py:149-153 | no container exactly when none of the rules finds one; otherwise the container is the one found by some rule that every earlier rule missed |
| Adapter.Scrape | main.py:59-201 | every call returns a record that echoes the reference and the adapter's own supplier name; an error record sets nothing but `erreur`; there is no error exactly when the response has status 200 and a container is found, and then the record is the one `Extract` builds from the container `FindContainer` picks |
| Adapter.Extract | main.py:88-115 | the success record: it echoes the reference and the supplier, has no error, always sets designation and availability, and has no price when there is no price element (`SuccessRecord` gives the exact fields) |
| Adapter.HttpErrorRecord | main.py:69-74 | a status other than 200 gives the record whose only payload is "Erreur HTTP " followed by the status's digits |
| Adapter.HttpError404 | main.py:139-144 | a 404 gives exactly "Erreur HTTP 404" |
| Adapter.NotFoundRecord | main.py:79-86 | a page with none of the supplier's containers gives the "Produit non trouvé" error record |
| Adapter.Ami3fFallback | main.py:149-160 | AMI 3F uses `div.product-card` when the page has one and only otherwise `article.product` |
| Adapter.LuxiorHasNoFallback | main.py:79-86 | Luxior tries only `div.product-item-info`: a page with only an `article.product` is not found for Luxior but is extracted for AMI 3F |
| Adapter.SuccessRecord | main.py:88-115 | with a container: no error; the stripped name or "N/A"; the stripped stock text or "À vérifier"; a price present exactly when a price element's text has a digit and at most one separator, equal to the decimal its digits spell |
| Adapter.PriceAbsentIsNotAnError | main.py:93-103 | a missing price element, or a price text the parse rejects, leaves `prix` absent and `erreur` unset |
| Adapter.TimeoutRecord | main.py:117-122 | a timeout gives the supplier's own "Timeout - ..." error record |
| Adapter.FailureRecord | main.py:123-128 | any other exception gives the error record "Erreur: " followed by its message |
| Dispatch.Decide | main.py:207-220 | a request goes to an adapter exactly when the reference is not blank and the lower-cased supplier is "luxior" or "ami3f"; the adapter gets the reference unchanged and is the one named by the lower-cased supplier; every refusal is a 400 |
| Dispatch.RechercheProduit | main.py:203-220 | the endpoint returns a record exactly when `Decide` hands the request on, and that record is the chosen adapter's own record for the unchanged reference; otherwise it raises the 400 with `Decide`'s message |
| Dispatch.BlankReferenceRejected | main.py:207-208 | a blank reference is refused with "La référence est obligatoire" whatever the supplier |
| Dispatch.UnknownSupplierRejected | main.py:216-220 | with a non-blank reference, a supplier that is neither name in any case is refused with the unsupported-supplier message |
| Dispatch.SupplierMatchIgnoresCase | main.py:210-215 | any case spelling of "luxior" or "ami3f" selects that adapter |
| Dispatch.DecideOnLowerCase | main.py:210 | lower-casing the supplier beforehand changes no decision |
| Dispatch.DecideExampleAccepted | main.py:207-213 | `(" REF-12 ", "LuXiOr")` goes to Luxior with the reference unstripped |
| Dispatch.DecideExampleRejected | main.py:207-220 | `("   ", "luxior")` and `("REF-12", "amazon")` are refused with their messages |

## Left out

- The FastAPI application, its CORS middleware, and the `/`, `/health`, `/api/test-luxior/{reference}` and `/api/test-ami3f/{reference}` routes: routing glue with no decision logic. The two test routes call the adapters without validation; that call is `Adapter.Scrape` itself.
- The environment configuration (`LUXIOR_ID`, `AMI3F_ID`, `ODOO_API_KEY`, `PORT`) and the `uvicorn` start-up: process state. The Luxior product URL built from `LUXIOR_ID` is never used.
- The `httpx` request: building the search URL, the 30-second timeout, following redirects, and `async`. The request's result is the `FetchOutcome` input.
- BeautifulSoup: parsing the page, and how `find` matches tags and classes, including the class patterns `product.*title|name`, `price` and `stock|availability`. What `find` returns is the `Page` and `Container` input.
- The content of `str(e)`: the message of a `Failure` is an input. An exception raised anywhere in the adapter's `try`, after the response as well, is a `Failure`.
- Binary floating point. `prix` is an exact decimal and is not normalised: `"12,50"` gives `Decimal(1250, 2)` and `"12,5"` gives `Decimal(125, 1)`, which are equal as floats.
- Price.ParseFloat: it takes only strings of digits and dots, the only strings the clean-up produces. Python's `float` also accepts signs, exponents, surrounding whitespace, underscores, `inf` and `nan`; none of these can reach it here.
- Unicode: `strip()`, `lower()` and `\d` are modelled on ASCII only, where `strip()` removes the ASCII whitespace. Python also strips non-ASCII spaces, lower-cases non-ASCII letters and treats non-ASCII digits as digits.
- FastAPI's own request validation (a missing or non-string field gives 422 before the handler runs), and how the record is serialised.
