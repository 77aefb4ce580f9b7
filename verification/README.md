# Product-to-part sync planner

A model of the synchronisation routine in `indexs.js`. Each run copies the store's
products into the target system's part catalogue:

- It reads the product list.
- It walks every variant of every product, in listing order.
- It turns each variant's SKU into a part number:
  - `variant.sku || "SKU-" + id`;
  - then trimmed;
  - then upper-cased for comparison.
- It skips blank SKUs and SKUs already handled in the same run.
- It asks the target system whether a part with that number exists.
- It posts a new part only when the lookup found nothing.

A process-wide flag (`isSyncInProgress`) makes a call that overlaps a running sync return at once.

The lookup (`getPartBySku`) works as follows:

- It returns nothing when no list view is configured.
- It sends an "equals" query and returns the first item of the reply, if that item is truthy.
- Otherwise it sends a "contains" query and returns the first item whose identifier matches the SKU. The identifier is `PartNumber ?? SKU ?? Sku ?? sku ?? ""`, and the match is on trimmed, upper-cased text.
- Any error is turned into "not found".

Modules:

- `Wrappers`: `Option`.
- `Text`: JavaScript `trim`, with its full whitespace set; ASCII `toUpperCase`; the decimal rendering of an id.
- `Json`: the JavaScript values a reply can hold, with `?.`, `??`, truthiness and `String()`.
- `PartLookup`: the pure parts of `getPartBySku`.
  - The two HTTP replies are inputs (`Reply = Replied(body) | Failed`).
- `Catalog`: products, variants, the SKU a variant is synchronised under, and the part record.
- `SyncPlan`: what one run does, stated without loops. This is the specification of the imperative code.
  - `Candidates`: every variant reached, in order.
  - `Keys`: the set of upper-cased SKUs handled so far.
  - `Survivors`: first occurrences of each key.
  - `Trace` and `Run`: the lookups and creations the routine performs (`Lookup(sku)` for a `getPartBySku` call, `Add(part)` for an `addPartToXait` call).
  - `Created`: the parts the target accepted.
- `Sync`: the imperative code, proved against `SyncPlan`.
  - `TargetApi` holds the list-view setting and the replies per SKU.
  - Class `Orchestrator` has three fields:
    - `running`, which is `isSyncInProgress`;
    - `calls`, the log of the `getPartBySku` and `addPartToXait` calls (a `Lookup` entry stands for up to two list requests, and for none when no list view is configured);
    - `created`, the parts accepted.
  - `SyncProducts` is the nested loop.
  - `SyncVariants` is the loop over one product's variants.
  - `SyncVariant` is the loop body for one variant.

The selector takes the first of `Items`, `items`, `Data` or the body itself that is an array, not the first non-empty one. An empty `Items` array therefore hides a non-empty `items` array (`PartLookup.EmptyItemsArrayShadowsOthers`).

## Model

| member | source | states |
|---|---|---|
| `Text.Trim` | indexs.js:184 | result is no longer than the input; it is empty exactly when the input is all JavaScript whitespace; a non-empty result starts and ends with non-whitespace |
| `Text.TrimOfPadded` | indexs.js:184 | trimming removes any whitespace padding around a string with non-blank ends |
| `Text.TrimIdempotent` | indexs.js:184 | trimming twice equals trimming once |
| `Text.UpperIdempotent` | indexs.js:185 | upper-casing twice equals upper-casing once |
| `Text.UpperOfNoLower` | indexs.js:183-185 | a string with no lower-case letter is its own upper case |
| `Text.UpperChar` | indexs.js:185 | a lower-case ASCII letter becomes its upper-case letter; every other character is unchanged; the result is never a lower-case letter |
| `Text.Upper` | indexs.js:185 | upper-casing keeps the length |
| `Text.UpperAt` | indexs.js:185 | upper-casing maps each character on its own |
| `Text.Key` | indexs.js:120-121 | the comparison key (trim, then upper-case) is no longer than the string, and it is empty exactly for all-whitespace strings |
| `Text.UpperKeepsEnds` | indexs.js:120-121 | upper-casing a string with non-blank ends keeps its ends non-blank |
| `Text.KeyIgnoresCaseAndPadding` | indexs.js:120-121 | a string padded with whitespace has the same key as its upper-cased core |
| `Text.KeyOfTrimmed` | indexs.js:120-121 | trimming before taking the key changes nothing |
| `Text.Decimal` | indexs.js:183 | the rendering of an id is a non-empty digit string, with a leading zero only for 0 |
| `Text.DecimalRoundTrip` | indexs.js:183 | reading the rendering back gives the id |
| `Json.Get` | indexs.js:82-89 | `v?.key` is defined exactly when `v` is an object holding `key`, and then it is that property's value |
| `Json.Truthy` | indexs.js:93 | null is falsy; arrays and objects, even empty ones, are truthy |
| `Json.JsString` | indexs.js:120 | `String(v)` is empty only for a string or an array |
| `PartLookup.SelectItems` | indexs.js:82-90 | the items are the elements of the field `ItemFields[i]` for the least `i` whose field holds an array; when none of `Items`, `items`, `Data` holds an array, they are the body itself if it is an array, and none otherwise |
| `PartLookup.EmptyItemsArrayShadowsOthers` | indexs.js:82-90 | an empty `Items` array is chosen over a non-empty `items` array |
| `PartLookup.EqualsHit` | indexs.js:92-96 | the equals query yields `items[0]` when it exists and is truthy, and nothing exactly when the items are empty or the first is falsy |
| `PartLookup.Coalesce` | indexs.js:120 | `??` yields the first property that is not null or undefined, else `""`; never null |
| `PartLookup.Identifier` | indexs.js:120 | the identifier is never null; a non-object item has the identifier `""`; a non-null `PartNumber` is the identifier |
| `PartLookup.EmptyPartNumberIsUsed` | indexs.js:120 | an empty-string `PartNumber` is the identifier; it does not fall through to `SKU` |
| `PartLookup.NullPartNumberFallsThrough` | indexs.js:120 | a null `PartNumber` falls through to `SKU` |
| `PartLookup.LowerCaseSkuIsLastResort` | indexs.js:120 | `sku` is the identifier when the other three are absent |
| `PartLookup.Matches` | indexs.js:119-121 | a falsy item never matches a SKU with a non-empty key |
| `PartLookup.FindFirst` | indexs.js:119-122 | `find` returns the first item satisfying the predicate, and nothing exactly when no item does |
| `PartLookup.ContainsHit` | indexs.js:119-126 | a fallback result is truthy, and it is the first item that matches the SKU |
| `PartLookup.ContainsHitMisses` | indexs.js:119-129 | the fallback yields nothing exactly when no item matches, or when the first item that matches is falsy |
| `PartLookup.ContainsHitNonBlank` | indexs.js:119-129 | for a SKU with a non-empty key, the fallback finds a part exactly when some item matches |
| `PartLookup.MatchesByPartNumber` | indexs.js:119-122 | an item with a string `PartNumber` matches exactly when that string and the SKU have the same key |
| `PartLookup.FallbackIgnoresCase` | indexs.js:119-122 | an item whose `PartNumber` is a whitespace-padded string matches any whitespace-padded SKU whose core has the same upper case, whatever the letter case of either side |
| `PartLookup.GetPartBySku` | indexs.js:51-134 | no result without a view id or after a failed query; any result is truthy; a truthy first item of the equals reply is returned; a fallback result is the first item of the contains reply that matches the SKU; for a SKU with a non-empty key, the fallback finds a part exactly when some item matches |
| `Catalog.RawSku` | indexs.js:183 | the raw SKU (the variant's SKU, or `SKU-<id>` when that is missing or empty) is never empty, and a non-empty SKU is kept as it is |
| `Catalog.VariantSku` | indexs.js:183-184 | the SKU a variant is synchronised under is already trimmed |
| `Catalog.FallbackTrimsToItself` | indexs.js:183-184 | `SKU-<id>` has no surrounding whitespace |
| `Catalog.SkippedIffWhitespaceOnlySku` | indexs.js:183-190 | a variant is skipped exactly when its SKU is non-empty and all whitespace; a missing or empty SKU is never skipped |
| `Catalog.FalsySkuFallsBackToId` | indexs.js:183 | a missing or empty SKU becomes `SKU-<id>` |
| `Catalog.EmptySkuExample` | indexs.js:183 | `{id: 99, sku: ""}` is synchronised as "SKU-99" |
| `Catalog.PlainSkuExample` | indexs.js:183-184 | `{id: 10, sku: "BP-100"}` is synchronised as "BP-100" |
| `Catalog.FallbackKeysDistinct` | indexs.js:183-185 | two variants with different ids that both fall back never share a key |
| `Catalog.NewPart` | indexs.js:198-204 | the part carries the SKU as part number and the product's title; its description is the product body or `""`; it is active and saleable |
| `SyncPlan.Run` | indexs.js:174-215 | in the calls of a run, every creation directly follows a lookup of the same SKU that found nothing |
| `SyncPlan.AddsFollowLookups` | indexs.js:206-213 | in a call trace, every creation directly follows a lookup of the same SKU that found nothing |
| `SyncPlan.Reached` | indexs.js:181-182 | the products the loop gets through form a prefix of the list; all of them have variants; the run stops at the first product without variants |
| `SyncPlan.ReachedIsPrefix` | indexs.js:181-182 | a loop that stops after the last product, or at the first product without variants, has got through exactly `Reached` |
| `SyncPlan.KeysMeaning` | indexs.js:179-196 | a key is in `processedSkus` exactly when some earlier variant has a non-empty SKU with that upper case |
| `SyncPlan.FirstOccurrenceByKeys` | indexs.js:187-196 | the loop's two skip tests decide exactly that a variant is the first non-blank occurrence of its key |
| `SyncPlan.SurvivorsGrowByAppending` | indexs.js:181-196 | handling more variants only appends to the processed list; first occurrence wins |
| `SyncPlan.SurvivorsCoverKeys` | indexs.js:187-196 | the processed variants cover every non-blank key of the run, and none has an empty SKU |
| `SyncPlan.SurvivorsDistinct` | indexs.js:192-196 | no two processed variants share a key |
| `SyncPlan.SurvivorsAreFirstOccurrences` | indexs.js:187-196 | every processed variant is the first occurrence of its key |
| `SyncPlan.CreatedAppend` | indexs.js:137-149 | the accepted parts of two call sequences run one after the other are the accepted parts of each, in order |
| `SyncPlan.CreatedOfVisit` | indexs.js:206-213 | a processed variant yields one accepted part exactly when its lookup found nothing and the target accepted the post; a rejected post leaves nothing and the run goes on |
| `SyncPlan.TraceShape` | indexs.js:206-213 | every creation directly follows the lookup of the same SKU, and that lookup found nothing; a lookup is followed by a creation exactly when it found nothing; every part created is built from a processed variant |
| `SyncPlan.TraceLookups` | indexs.js:206 | the SKUs looked up are those of the processed variants, in order |
| `SyncPlan.LookupsDistinct` | indexs.js:192-206 | no key is looked up twice |
| `SyncPlan.LookupsTrimmedNonEmpty` | indexs.js:184-206 | every SKU looked up is trimmed and non-empty |
| `SyncPlan.LookupsCoverKeys` | indexs.js:181-206 | every non-blank key among the variants is looked up |
| `SyncPlan.RunLooksUpEachKeyOnce` | indexs.js:167-223 | a run whose login or product fetch fails makes no calls; otherwise every key of the reached variants is looked up exactly once, with a trimmed, non-empty SKU |
| `SyncPlan.CandidateSkusTrimmed` | indexs.js:181-184 | every SKU the loop considers is already trimmed |
| `SyncPlan.SingleVariantRun` | indexs.js:181-213 | a single product with one non-blank variant gives one lookup, then a creation exactly when nothing was found |
| `SyncPlan.BenchIsCreated` | indexs.js:181-213 | product "Bench" with variant "BP-100", absent from the target, is looked up and then created with an empty description |
| `Sync.PartExists` | indexs.js:206-208 | a part counts as existing exactly when the lookup returned one; with no list view configured, or after a failed equals query, it counts as absent, so the part is created |
| `Sync.Orchestrator.constructor` | indexs.js:24 | the flag starts cleared and the logs start empty |
| `Sync.Orchestrator.SyncProducts` | indexs.js:167-223 | an overlapping call changes nothing and leaves the flag set; otherwise the flag ends cleared, the calls made are exactly `Run`, and the parts added are the accepted creations of `Run` |
| `Sync.SyncVariants` | indexs.js:182-214 | the inner loop extends the processed keys and the call trace exactly as the next product's variants extend the specification |
| `Sync.SyncVariant` | indexs.js:183-213 | one variant adds its key when non-blank; it makes no calls when blank or a duplicate; otherwise it looks the SKU up and posts the part exactly when nothing was found; it keeps the part only when the target accepts it |

## Left out

- HTTP, login and the product fetch. `getXaitToken` and `shopify.get` become `loginOk` and `catalog`. `None` for `catalog` stands for a failed fetch or a `products` field that is not iterable. Either way the run's handler ends the run before any call.
- The target's replies. They are inputs fixed per SKU (`TargetApi`), so a lookup does not see parts created earlier in the same run. Whether the post succeeds is the input `accepts`.
- The query parameters, the request headers and the URL of the list query (indexs.js:58-79) have no effect on the run's decisions.
- Sync.Orchestrator.SyncProducts: its ghost parameter `found` names, for each SKU, whether the lookup finds a part, and its precondition ties it to `PartExists`. It adds the calls to `calls` once per product rather than one call at a time. The order is the same, but an observer in the middle of a product would see the product's calls only after they are all made.
- The skip branch of the `isSyncInProgress` guard is reachable only by an overlapping asynchronous call. The model states what that call does; it does not model interleaving.
- Logging, the Express endpoints, the cron schedule, dotenv, and `updatePartInXait` (never called by the sync) are not part of this model.
- `toUpperCase` is modelled on ASCII letters only. Non-ASCII letters, which JavaScript also maps, are left unchanged.
- `String()` of a non-integer number and of nested objects are not modelled. Numbers are integers here.
- The variant SKU is assumed to be a string or missing. The id is a non-negative integer.
- The `limit=250` page size of the product fetch is a request parameter. The model takes whatever list the fetch returns.
- An exception thrown by the lookup or by the post is swallowed by the callee (`null` and a logged error respectively). The model represents it by `Failed` and by `accepts` returning false.
