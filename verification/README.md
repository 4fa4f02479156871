# SilverSage storefront core, modelled in Dafny

SilverSage is a single-page storefront. It asks a hosted generative model for product
listings and purchase links and shows them as cards. The model here covers the
deterministic logic around those calls:

- **Affiliate link rewriting** (`AffiliateConfig`). `monetizeUrl` parses a URL.
  - A host containing "amazon" gets its `tag` parameter set to the Amazon partner id.
  - Otherwise, a host containing "walmart" gets `sourceid` set to the Walmart id.
  - Any other host, or a URL that does not parse, comes back untouched.
  - The URL is a record of components with its query as an ordered list of pairs.
  - `searchParams.set` follows section 6.2 of the WHATWG URL Standard: the first pair of
    that name is replaced, later ones are dropped, and with no such pair one is appended.
  - `isPreferredPartner` is a substring test on the whole URL string.
- **Response post-processing** (`GeminiService`).
  - `cleanJsonOutput` trims the text, strips a leading "```json" (else "```") fence and
    one trailing fence.
  - The holiday-context flag.
  - Product pictures derived from the product name alone.
  - The buying-option pipeline: keep grounding chunks with both a URI and a title,
    monetise the URL, derive the source from the hostname, stable-partition preferred
    partners first, keep 4. Every failure gives an empty list.
- **Search orchestration** (`App`).
  - Query resolution: 'All' means no filter, and an empty query falls back to a default.
  - The rule that re-runs a search when the region or category changes.
  - The find-price lookup string.
  - The component state as a class whose methods update it in the order the handlers do.
    Each awaited call splits a handler into a part before the await and a part after it.
- **Built-ins** (`JsString`, `JsArray`). These are the JavaScript string and array
  operations the core uses: `trim`, `startsWith`, `includes` (defined through the
  `indexOf` search), `replace` with a string pattern, ASCII `toLowerCase`, `slice(0, n)`
  and the stable `Array.prototype.sort` (ECMA-262, 2023 edition, section 23.1.3.30).
  `JsArray.Select` stands for the `if` test inside `forEach` and for the sort's two groups.

Some calls belong to the host platform: the model client, `new URL` parsing and
serialisation, `JSON.parse` and `encodeURIComponent`. They are parameters here.
Each parameter has an explicit failure outcome (`None`) where the call can throw.

## Model

| member | source | states |
|---|---|---|
| `JsString.Trim` | services/geminiService.ts:20 | the trimmed text is the slice of the input left after removing only leading and trailing JS whitespace, and it neither starts nor ends with whitespace |
| `JsString.TrimIdempotent` | services/geminiService.ts:20 | trimming a trimmed string changes nothing |
| `JsString.IndexOf` | services/affiliateConfig.ts:31 | `indexOf` returns an index where the pattern occurs with no earlier occurrence, or none when it occurs nowhere |
| `JsString.ContainsIffOccurs` | services/affiliateConfig.ts:31 | `includes` holds exactly when the pattern occurs at some index |
| `JsString.ContainsTransitive` | services/affiliateConfig.ts:61-63 | a string containing a hostname that contains "amazon" contains "amazon" |
| `JsString.ReplaceFirstSpec` | services/geminiService.ts:124 | `replace('www.', '')` leaves a string without "www." alone and otherwise removes only the first occurrence, wherever it is |
| `JsString.ReplaceFirstAtStart` | services/geminiService.ts:124 | a hostname starting with "www." loses exactly that prefix |
| `JsString.ToLower` | services/geminiService.ts:35 | lower-casing keeps the length, maps each letter 'A'..'Z' to its lower-case letter and keeps every other character |
| `JsString.ToLowerOccurs` | services/geminiService.ts:35 | an occurrence of a pattern at some index stays, lower-cased, at that index after lower-casing |
| `JsString.ContainsLowered` | services/geminiService.ts:35 | a query containing a word contains the lower-cased word once lower-cased |
| `JsString.ReplaceFirst` | services/geminiService.ts:124 | a string without the pattern is returned unchanged; otherwise exactly one pattern's length is replaced by the replacement's |
| `JsArray.SortByPreferenceIsStableSort` | services/geminiService.ts:131-134 | preferred-first partition is a permutation of the input, sorted by the comparator, with both groups in their original order |
| `JsArray.PartitionSorted` | services/geminiService.ts:131-134 | the preferred part followed by the other part is ordered by the comparator |
| `JsArray.StableSortUnique` | services/geminiService.ts:131-134 | every output a stable sort with this comparator may give equals the preferred-first partition |
| `JsArray.SortedPrefix` | services/geminiService.ts:131-135 | after sort and `slice(0, n)`: at most n elements, preferred first, all preferred when n or more are preferred, else all preferred then the earliest others |
| `JsArray.PartitionExample` | services/geminiService.ts:131-135 | [B, A, C, D] with A and D preferred becomes [A, D, B, C] |
| `JsArray.Take` | services/geminiService.ts:135 | `slice(0, n)` keeps the first min(n, length) elements |
| `Types.CategoryName` | types.ts:10-18 | every category's display value is non-empty, so a category filter is always truthy |
| `AffiliateConfig.SetParam` | services/affiliateConfig.ts:33 | after `set` the name has exactly the one new value and every pair of another name is kept in order |
| `AffiliateConfig.SetParamAtFirst` | services/affiliateConfig.ts:33 | with the name present, the new pair takes the place of its first occurrence and the pairs before it are unchanged |
| `AffiliateConfig.SetParamAppends` | services/affiliateConfig.ts:42 | with the name absent, the new pair is appended at the end |
| `AffiliateConfig.SetParamIdempotent` | services/affiliateConfig.ts:33 | setting the same name and value twice equals setting it once |
| `AffiliateConfig.AffiliateParam` | services/affiliateConfig.ts:30-44 | a rule applies exactly to hosts containing "amazon" or "walmart", and the parameter is `tag` exactly for Amazon hosts, so Amazon wins on a host with both |
| `AffiliateConfig.Rewrite` | services/affiliateConfig.ts:27-44 | a rewrite happens exactly for retailer hosts, changes only the query, and leaves the retailer's parameter with exactly the one identifier value |
| `AffiliateConfig.MonetizeUrl` | services/affiliateConfig.ts:25-55 | an unparseable URL comes back unchanged, and the result differs from the input only for a parsed URL whose host a retailer rule matches |
| `AffiliateConfig.IsPreferredPartner` | services/affiliateConfig.ts:61-63 | a URL is preferred exactly when "amazon" or "walmart" occurs at some index of the whole string |
| `AffiliateConfig.MonetizeUnparseable` | services/affiliateConfig.ts:51-54 | a URL that does not parse is returned unchanged |
| `AffiliateConfig.MonetizeOtherHost` | services/affiliateConfig.ts:50 | a host with neither "amazon" nor "walmart" gets the exact input string back |
| `AffiliateConfig.MonetizeAmazon` | services/affiliateConfig.ts:13-35 | an Amazon host comes back with `tag` = 'silversage-20' as its only tag, other pairs and components unchanged, `sourceid` untouched even on a host also containing "walmart" |
| `AffiliateConfig.MonetizeWalmart` | services/affiliateConfig.ts:16-44 | a Walmart host (without "amazon") comes back with `sourceid` = '1234567' as its only value, everything else unchanged |
| `AffiliateConfig.MonetizeIdempotent` | services/affiliateConfig.ts:25-55 | monetising a monetised URL returns it unchanged |
| `AffiliateConfig.OthersKeepsValues` | services/affiliateConfig.ts:33 | setting one parameter never changes the values of another |
| `AffiliateConfig.MonetizedIsPreferred` | services/affiliateConfig.ts:61-63 | a URL that a retailer rule rewrote is a preferred partner |
| `AffiliateConfig.PreferredWithoutRewrite` | services/affiliateConfig.ts:61-63 | a URL on another host that mentions "amazon" anywhere is not rewritten but still counts as preferred |
| `GeminiService.StripTrailingFence` | services/geminiService.ts:22 | one trailing "```" is removed when present, nothing else |
| `GeminiService.StripFences` | services/geminiService.ts:21-25 | the fence removal returns a contiguous slice of the trimmed text it is given |
| `GeminiService.CleanJsonOutput` | services/geminiService.ts:19-27 | the cleaned text is a contiguous slice of the trimmed input, never longer than the input |
| `GeminiService.CleanUnfenced` | services/geminiService.ts:20-26 | trimmed text opening with no fence is returned as trimmed |
| `GeminiService.CleanJsonFence` | services/geminiService.ts:21-22 | a body wrapped in "```json" and "```" comes back exactly |
| `GeminiService.CleanPlainFence` | services/geminiService.ts:23-24 | a body wrapped in bare fences comes back exactly unless it starts with "json", which the earlier "```json" test claims |
| `GeminiService.CleanLeadingOnly` | services/geminiService.ts:21-24 | an opening "```json" with no closing fence is removed on its own, leaving the body |
| `GeminiService.CleanOneTrailingFence` | services/geminiService.ts:22 | at most one trailing fence is removed |
| `GeminiService.CleanNotRetrimmed` | services/geminiService.ts:19-26 | what remains between the fences is not trimmed again |
| `GeminiService.IsHolidayContext` | services/geminiService.ts:35 | the gift-guide category sets the flag whatever the query, and so does any query containing "gift" |
| `GeminiService.HolidayAnyCase` | services/geminiService.ts:35 | a query containing "gift" or "black friday" in any letter case sets the flag, whatever the category |
| `GeminiService.HolidayIgnoresCase` | services/geminiService.ts:35 | the holiday flag does not depend on the letter case of the query |
| `GeminiService.OtherCategoryNotHoliday` | services/geminiService.ts:35 | no category name other than the gift guide's mentions "Holiday" |
| `GeminiService.HolidayCategoryOnly` | services/geminiService.ts:35 | among the catalogue's categories, only the gift guide's name contains "Holiday" |
| `GeminiService.WithImages` | services/geminiService.ts:85-88 | the mapping keeps length, order and every field but `imageUrl`, which is always overwritten from the encoded name; it throws exactly when encoding some name throws |
| `GeminiService.ImageDependsOnlyOnName` | services/geminiService.ts:87 | products with the same name get the same picture |
| `GeminiService.CuratedProducts` | services/geminiService.ts:83-94 | a failed call, missing or empty text, unparseable text or a name the encoder rejects gives []; otherwise one product per decoded entry, in order, each with its fields kept and its picture derived from its encoded name |
| `GeminiService.FencedEqualsBare` | services/geminiService.ts:84 | a JSON body gives the same products bare or wrapped in a "```json" fence |
| `GeminiService.OptionFor` | services/geminiService.ts:117-125 | building an option throws exactly when the raw URL does not parse; otherwise it carries the chunk's non-empty title, the monetised raw URL, and as source the parsed hostname with its first "www." removed, wherever it occurs |
| `GeminiService.Collected` | services/geminiService.ts:114-128 | the loop's options, when it does not throw, number at most the chunks and all have non-empty titles |
| `GeminiService.CollectedThrewStays` | services/geminiService.ts:115-127 | once a chunk has thrown, later chunks do not change the outcome |
| `GeminiService.CollectedSpec` | services/geminiService.ts:114-128 | the loop throws iff some chunk with URI and title has an unparseable URI; otherwise it yields one option per such chunk, in chunk order, each with monetised URL and derived source |
| `GeminiService.CollectOptions` | services/geminiService.ts:112-128 | the `forEach`/`push` loop computes exactly the collected options or the exception |
| `GeminiService.Ranked` | services/geminiService.ts:131-135 | the ranked list has min(4, n) of the n options, every preferred one before every other, each taken from the input |
| `GeminiService.BuyingOptionsFor` | services/geminiService.ts:97-141 | at most 4 options, preferred first, all with non-empty titles; [] when the call fails or yields no chunks |
| `GeminiService.GetBuyingOptions` | services/geminiService.ts:97-141 | at most 4 options, every preferred one before every other one; [] when the call fails or yields no chunks |
| `GeminiService.BadUriEmptiesResult` | services/geminiService.ts:124 | one usable chunk with an unparseable URI empties the whole result |
| `GeminiService.PreferredCrowdOut` | services/geminiService.ts:131-135 | with 4 or more preferred options only preferred ones are returned, the first 4 in chunk order |
| `GeminiService.PreferredThenOthers` | services/geminiService.ts:131-135 | with fewer than 4 preferred options all of them come first, then the earliest others |
| `App.CategoryFilter` | App.tsx:35 | no filter exactly for 'All', otherwise the active category |
| `App.FilterName` | App.tsx:35-39 | a filter passes a non-empty category name exactly when one is chosen, and that name mentions "Holiday" exactly for the gift guide |
| `App.ResolveQuery` | App.tsx:37 | the resolved query is never empty, and a typed query is sent verbatim |
| `App.EmptyQueryDefaults` | App.tsx:37 | an empty query becomes "best <category> products", or "best products for aging parents" with no filter |
| `App.SearchRequest` | App.tsx:35-39 | the request carries a non-empty query, the current region and the category filter |
| `App.ShouldRefresh` | App.tsx:65 | a typed query or an empty product list blocks the refresh |
| `App.RefreshQuery` | App.tsx:67 | the refresh query is non-empty exactly under the gift-guide category |
| `App.RefreshRequestResolved` | App.tsx:64-68 | a refresh sends the gift query with holiday flag under the gift guide, the default query unfiltered under 'All', else the category query |
| `App.LookupString` | App.tsx:54 | the lookup is the brand, one space, then the name |
| `App.AppState.constructor` | App.tsx:11-22 | the initial values of the state hooks |
| `App.AppState.SetSearchQuery` | App.tsx:179 | typing replaces the search query |
| `App.AppState.BeginSearch` | App.tsx:33-39 | loading is on before the call and the request is formed from the current filters |
| `App.AppState.CompleteSearch` | App.tsx:40-45 | results replace the products; loading ends false whether the call succeeded or threw |
| `App.AppState.HandleSearch` | App.tsx:32-46 | products become the service's result and loading ends false |
| `App.AppState.ChangeFilters` | App.tsx:64-71 | a changed region or category re-searches with the refresh query only when products are shown and no query is typed |
| `App.AppState.BeginFindPrice` | App.tsx:48-54 | the product is selected, the spinner is on and the old options are cleared before the lookup |
| `App.AppState.CompleteFindPrice` | App.tsx:55-60 | the options are shown; the spinner ends false whether the call succeeded or threw |
| `App.AppState.HandleFindPrice` | App.tsx:48-61 | the selected product stays, the spinner is off, and at most 4 ranked options are shown |

## Left out

- The model client, prompts, response schemas, model options and API-key lookup
  (services/geminiService.ts:7-16, 37-81, 99-109) are left out. They are network and
  environment access. The call's answer is an input: a failure, missing or present text,
  or missing or present grounding chunks.
- `getBusinessInsights` (services/geminiService.ts:143-181) is left out. It is a prompt and
  a parse with no further logic.
- `new URL` parsing and serialisation are the `UrlCodec` parameter. The URL record keeps
  scheme, hostname, port, path, query pairs and fragment.
  - It has no username or password.
  - It does not tell a missing query from an empty one.
  - Percent-encoding of the query is left to the serialiser.
- `JSON.parse` is the `decode` parameter, together with the assumption that the parsed value
  is an array of product-shaped objects. Its `None` stands for a parse error or a value that
  is not an array. Entries of another shape (a number, an object missing product fields, or
  one with extra fields that the spread keeps) are not modelled. The `.map` after it is
  `WithImages`.
- `encodeURIComponent` is the `encode` parameter. Its `None` stands for the URIError that
  it throws on lone surrogates.
- Strings are sequences of Unicode characters, not UTF-16 code units.
- `toLowerCase` lower-cases ASCII letters only; Unicode case mapping is not modelled.
- MonetizeIdempotent: assumes that a URL the parser produced, with any query pairs put in, is read back as the same record once serialised (`RoundTrips`). The platform's parser is not modelled, so this cannot be proved here.
- MonetizeAmazon: assumes `RoundTrips`, so that the rewritten URL can be read back as a URL record.
- MonetizeWalmart: assumes `RoundTrips`, for the same reason.
- MonetizedIsPreferred: assumes that a URL the parser produced, with any query pairs put in, spells out its hostname once serialised (`ShowsHost`), for the same reason.
- Overlapping `handleSearch` calls (App.tsx:32-46) are not modelled. The code has no guard,
  so whichever call resolves last writes the products. This model runs each handler's two
  halves in sequence.
- The initial-load effect (App.tsx:25-30) is left out. It runs `handleSearch` from the
  first render, with the 'All' category captured.
- JSX rendering, modals, menus, the logo click handler and `useEffect` scheduling are
  left out as UI. Only the rule inside the filter-change effect is modelled, in
  `ChangeFilters`.
- `console.error` logging is left out.
- The Target affiliate id (services/affiliateConfig.ts:19) is configured but no rule reads
  it, so no rule uses it here either.
