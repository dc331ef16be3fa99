# Artfulito product detail page — Dafny model

This project models the decision logic of the product detail page of the
Artfulito store (`js/detail.js`). The page reads an `id` query parameter,
loads the catalog `products.json`, and finds the first record whose id, as
text, equals the query. It then shows either a not-found placeholder or a
detail view. The detail view has a three-image gallery whose main image
changes when a thumbnail is clicked.

The browser is abstracted away. The query parameter is an `Option<string>`.
The catalog load is a `Result<seq<Product>, LoadError>`. The page is an
immutable `Page` record, and the page functions are pure transitions over it.

Modules:

- `Wrappers`: `Option` and `Result`.
- `Text`: leftmost-occurrence search (`IndexOf`) and first-occurrence
  replacement (`ReplaceFirst`), which is what `String.prototype.replace` does
  with a string pattern.
- `Decimal`: the canonical decimal text of an integer, which is what
  `Number.prototype.toString()` gives for every safe integer (magnitude below
  2^53). `ParseDecimal` is its inverse and serves as its partner.
- `Catalog`: `Product`, JSON ids (numeric ids are bounded to the safe
  integers), the `find` scan (`FindFrom`) and the
  resolution decision (`Resolve`).
- `Gallery`: the image variants (`Variants`), the abstract detail view
  (`InitialView`) and thumbnail activation (`Activate`).
- `DetailPage`: the page state, `ShowNotFound`, `RenderDetail`,
  `LoadProduct` and `ChangeMainImage`, with the gallery invariant
  `Consistent`.
- `Scenarios`: concrete page loads and variant computations.

Details of the code that the model follows:

- `!productId` rejects an empty `id=` as well as a missing one.
- `p.id.toString()` throws on a record whose id is `null` or missing. That
  throw lands in the `catch` and shows not-found, even when a later record
  matches. A missing id after the match is never reached, because `find`
  stops at the first match. `Catalog.FindFrom` models this with its `Threw`
  outcome.
- On a miss, `currentProduct` is assigned `undefined`. This cannot be told
  apart from the initial `null`, so every not-found path gives the same
  page (`DetailPage.NotFoundPage`).

The model assumes what the host page's markup provides before the script
runs: the loading indicator is visible and the not-found placeholder is
hidden (`DetailPage.Fresh`). `DetailPage.LoadProduct`'s promise that the
placeholder shows exactly when no detail view is installed rests on that
starting state.

## Model

| member | source | states |
|---|---|---|
| Text.IndexOf | js/detail.js:71-72 | the position found is the leftmost occurrence of the pattern, and there is none exactly when the pattern occurs nowhere |
| Text.ReplaceFirst | js/detail.js:71-72 | replaces only the leftmost occurrence of the pattern, and returns the string unchanged when the pattern is absent |
| Text.ReplaceByExtension | js/detail.js:71-72 | replacing the pattern by pattern+suffix inserts the suffix right after the first occurrence, keeps everything else, and adds exactly the suffix's length |
| Decimal.NatDigits | js/detail.js:32 | the decimal text of a natural number is a non-empty digit string without leading zeros, and it is exactly "0" for zero |
| Decimal.DecimalString | js/detail.js:32 | `toString` of an integral id is canonical decimal text (no leading zeros, no "-0") that starts with a minus sign exactly when the number is negative |
| Decimal.ParseNatPositive | js/detail.js:32 | digits that do not start with zero denote a positive number |
| Decimal.DigitsParseNat | js/detail.js:32 | writing out the value of canonical digits gives back the same digits |
| Decimal.CanonicalRoundTrip | js/detail.js:32 | every canonical decimal text is the decimal text of its own value |
| Decimal.ParseNatDigits | js/detail.js:32 | reading the digits of n back gives n |
| Decimal.DecimalRoundTrip | js/detail.js:32 | parsing the decimal text of any integer gives back that integer |
| Decimal.DecimalInjective | js/detail.js:32 | two integers have the same decimal text exactly when they are equal |
| Catalog.IdText | js/detail.js:32 | `id.toString()` throws exactly for a null id; a numeric id gives its decimal text and a string id gives itself |
| Catalog.FindFrom | js/detail.js:32 | the `find` scan stops at the first record whose id text equals the query, or at the first record whose id throws; every earlier record was inspected and did not match; a miss means no record matched and none threw |
| Catalog.Resolve | js/detail.js:17-46 | a missing or empty id and a failed load give not-found; a detail outcome happens exactly when some record is the one `find` returns, and that record is the one shown |
| Catalog.ResolvesToUnique | js/detail.js:32 | at most one record is the one `find` returns |
| Catalog.FirstMatchWins | js/detail.js:32 | the leftmost matching record is shown, so a later duplicate id is never selected |
| Catalog.LeftmostMatch | js/detail.js:32 | when every id is present, every match has a leftmost match at or before it |
| Catalog.ResolveWithPresentIds | js/detail.js:32 | when every id is present, a non-empty id resolves exactly when some record's id text equals it, and it resolves to the leftmost such record |
| Catalog.NumericIdMatches | js/detail.js:32 | a record with a numeric id n is found by a query exactly when the query is canonical decimal text whose value is n |
| Catalog.NumericIdsDistinct | js/detail.js:32 | two numeric ids have the same text exactly when they are equal, so one query never matches two different numeric ids |
| Gallery.Variants | js/detail.js:64-74 | always three entries; the first is the base image; the other two add `&sat=-20` and `&brightness=10` right after the first `w=400&h=400`, or equal the base image when that pattern is absent |
| Gallery.VariantsDistinctIffPattern | js/detail.js:69-73 | the three variants are pairwise different exactly when the base image contains `w=400&h=400` |
| Gallery.Thumbnails | js/detail.js:87-91 | one thumbnail per image, showing that image, with only the first marked active |
| Gallery.InitialView | js/detail.js:78-104 | the main image is variant 0, and there are three thumbnails showing the variants in order with only thumbnail 0 active; the heading, price, category and description come from the product |
| Gallery.ClearActive | js/detail.js:150 | removing `active` from every thumbnail leaves none active and keeps their images and alt texts |
| Gallery.Activate | js/detail.js:150-151 | after clearing and marking thumbnail k, exactly thumbnail k is active and every image and alt text is kept |
| Gallery.OnlyActiveCount | js/detail.js:150-151 | when exactly thumbnail k is marked, exactly one thumbnail is active |
| Gallery.NoneActiveCount | js/detail.js:150 | when no thumbnail is marked, none is counted active |
| DetailPage.ShowNotFound | js/detail.js:49-52 | hides the loading indicator, shows the placeholder, and changes nothing else |
| DetailPage.RenderDetail | js/detail.js:77-138 | selects the product, installs its initial view and sets the title to name + " - Artfulito"; leaves the indicators and image index alone |
| DetailPage.LoadProduct | js/detail.js:17-46 | the loading indicator always ends hidden; the placeholder shows exactly when no detail view is installed; a product is selected exactly when a view is installed, which happens exactly when resolution succeeds; every failure gives one and the same page; a detail page selects exactly the product resolution picks and shows that product's initial view; it is consistent at image 0 and titled after the product |
| DetailPage.MissingIdIgnoresCatalog | js/detail.js:20-23 | with a missing or empty id the page is the not-found page, whatever the catalog load produced |
| DetailPage.FailuresCoincide | js/detail.js:20-45 | any two loads that do not resolve leave identical pages |
| DetailPage.ChangeMainImage | js/detail.js:141-154 | the main image becomes variant k of the selected product, exactly thumbnail k is active, the image index becomes k, and the product, title, indicators and the rest of the view are unchanged |
| DetailPage.ChangePreservesConsistent | js/detail.js:141-154 | selecting a thumbnail keeps the gallery consistent with exactly one active thumbnail |
| DetailPage.ConsistentOneActive | js/detail.js:87-91 | a consistent gallery has exactly one active thumbnail, the one at the image index |
| DetailPage.ChangeIdempotent | js/detail.js:141-154 | clicking the same thumbnail again changes nothing |
| DetailPage.ChangeLastWins | js/detail.js:141-154 | after two clicks the page is as if only the last click had happened |
| Scenarios.BonekaDetail | js/detail.js:17-46 | `?id=1` against a one-record catalog renders that record, titled "Boneka A - Artfulito" |
| Scenarios.BonekaGallery | js/detail.js:84-91 | that page's main image is the base image, and only thumbnail 0 is active |
| Scenarios.ImageSaturationVariant | js/detail.js:71 | the second variant of "a.jpg?w=400&h=400" is "a.jpg?w=400&h=400&sat=-20" |
| Scenarios.BonekaClick | js/detail.js:141-154 | clicking thumbnail 1 on that page shows "a.jpg?w=400&h=400&sat=-20" with exactly one thumbnail active |
| Scenarios.NotFoundScenarios | js/detail.js:17-52 | `?id=99`, no query, and a failed fetch each give the not-found page |
| Scenarios.NumericIdScenario | js/detail.js:32 | a numeric id 1 is found by "1" and not by "01" |
| Scenarios.MissingRecordIdScenario | js/detail.js:32 | a record without an id before the match gives not-found; one after the match is never reached |
| Scenarios.DuplicateIdScenario | js/detail.js:32 | of two records with the same id, the first is shown |
| Scenarios.VariantScenario | js/detail.js:69-73 | concrete variants for a URL with and without the size pattern |

## Left out

- Reading `id` with `URLSearchParams` (js/detail.js:11-14) is a browser library. The extracted value is an `Option<string>` input.
- `fetch`, `response.ok`, `response.json()` and `console.error` (js/detail.js:26-31, 43) are network I/O and logging. The load is a `Result` input, with one `LoadError` per failure kind. A `products.json` that parses but is not an array makes `products.find` throw, and the model counts that as a `ParseError`.
- `formatPrice` (js/detail.js:55-61) depends on the `id-ID` locale data of `Intl.NumberFormat`. The view keeps the raw price.
- The WhatsApp and mailto links (js/detail.js:122-127) depend on `encodeURIComponent`, a foreign function. The static marketing bullets (js/detail.js:107-116) are fixed text. Neither is in the view.
- The HTML markup, `innerHTML`, the DOM lookups and the `DOMContentLoaded` wiring are not modelled. The view is an abstract record.
- Catalog.IdText: covers safe integers (magnitude at most 2^53 - 1), strings, booleans and null. Larger integers, fractional and non-finite numbers, and object ids are not representable in `JsonId`. For those numbers JavaScript's `toString` may round digits or switch to exponent form (from 10^21).
- Text.ReplaceFirst: treats the replacement literally. JavaScript expands `$` patterns in a replacement string, but neither replacement used by the page contains `$`.
- DetailPage.ChangeMainImage: requires a selected product and 0 <= k < 3 with thumbnail k present. Out of those bounds the source throws or writes `undefined`, and no caller does that.
- Record fields other than `id` are assumed present. A missing `name` or `image` would be interpolated as `undefined`, or make `replace` throw.
