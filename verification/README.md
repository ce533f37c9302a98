# Catalog import and product API, modelled in Dafny

This project models the core of a small PHP service that mirrors the Open Food Facts
catalog into SQLite and serves it over a REST API with an API key:

- the value objects `ProductCode` and `ProductStatus` and the entities `Product` and
  `ImportHistory`;
- the deterministic part of `OpenFoodFactsClient`: URL building, index parsing,
  decoding with a record limit, and the retry loop with exponential backoff;
- the two SQLite repositories, as finite maps: products keyed by code, and the import
  ledger keyed by an AUTOINCREMENT id;
- the import run of `ImportCronJob`, as a pure fold over the file list and each file's
  records, threading both stores;
- the use cases, the DTOs and `ProductController`;
- the `Router` and its `:name` placeholder matching, `ApiKeyMiddleware`, and the route
  table and request flow of `public/index.php`.

Everything is an immutable datatype and a pure function. The outside world arrives as
inputs:

- the network is a function from URL to the outcomes of successive download attempts;
- `sleep` becomes the list of pauses the retry loop asks for;
- `json_decode` is a function from a body to a syntax error, a non-array, or a sequence
  of records;
- the clock is one reading per listed file;
- request headers, query string, URI and body are parameters.

The ledger is modelled twice, through `ImportCronJob.IdMode`:

- `AsWritten` follows the repository as written: `save` never gives the entity its id.
- `AssignsId` hands the id back, as the code evidently intends.

The lemmas show both runs; see "## Findings".

Modules follow the PHP files: `ProductCodes`, `ProductStatuses`, `Products`,
`ImportHistories`, `ProductRepository`, `ImportHistoryRepository`,
`OpenFoodFactsClient`, `ImportCronJob`, `PaginationDTOs`, `ProductDTOs`, `GetProduct`,
`UpdateProduct`, `DeleteProduct`, `ListProducts`, `ProductController`, `Router`,
`ApiKeyMiddleware`, `Endpoints` and `App`. Three further modules are shared:

- `Core`: options, results, exceptions, timestamps, JSON-like values;
- `Text`: PHP's `trim`, `explode`, decimal rendering, the `(int)` cast of a string
  (fraction, exponent, 64-bit saturation) and `is_numeric`;
- `Ordering`: SQL `ORDER BY … DESC` with `LIMIT`/`OFFSET`.

Where the code departs from its own comments and names, the model follows the code:

- Updating a product or a ledger entry that is not stored is a silent no-op. It does
  not report "not found".
- `ImportHistory` accepts `complete` and `fail` in any state, not only from running.
- The backoff comment promises pauses of 1, 2 and 4 seconds. With three attempts only
  the pauses of 1 and 2 seconds happen (`OpenFoodFactsClient.DefaultRetryBudget`).
- Trashed products are still shown by code and still listed and counted.

## Model

| member | source | states |
|---|---|---|
| ProductCodes.FromInt | src/Domain/ValueObject/ProductCode.php:11-22 | construction succeeds exactly for a positive value, which it keeps; otherwise InvalidArgument with the positivity message |
| ProductCodes.FromString | src/Domain/ValueObject/ProductCode.php:24-30 | a non-numeric string is refused with the numeric message; a numeric one succeeds exactly when its `(int)` cast (which reads fraction and exponent) is positive, and the code holds that cast |
| ProductCodes.ToString | src/Domain/ValueObject/ProductCode.php:37-40 | the rendering is non-empty decimal digits without a leading zero whose value is the code |
| ProductCodes.EqualsIsSameCode | src/Domain/ValueObject/ProductCode.php:42-45 | `equals` holds iff the codes are the same, so it is reflexive and symmetric |
| ProductCodes.FromStringOfToString | src/Domain/ValueObject/ProductCode.php:24-40 | every code within PHP's integer range reads back from its own rendering |
| ProductStatuses.Value | src/Domain/ValueObject/ProductStatus.php:31-54 | every status carries one of the three valid strings |
| ProductStatuses.FromString | src/Domain/ValueObject/ProductStatus.php:13-29 | succeeds iff the string is draft, trash or published, giving the status with that value; otherwise InvalidArgument listing the valid statuses |
| ProductStatuses.ExactlyOnePredicate | src/Domain/ValueObject/ProductStatus.php:56-69 | exactly one of isDraft, isTrash, isPublished holds of every status |
| ProductStatuses.EqualsIsSameStatus | src/Domain/ValueObject/ProductStatus.php:76-79 | equal values iff equal statuses |
| ProductStatuses.FromStringOfValue | src/Domain/ValueObject/ProductStatus.php:46-74 | `fromString` of a status's value, or of its string form, gives that status back |
| Products.Lookup | src/Domain/Entity/Product.php:93-112 | `$data[key] ?? null`: the payload value when the key is set and not null, else null |
| Products.Create | src/Domain/Entity/Product.php:85-114 | the new product has the given code, status draft, the current time, and every attribute from the payload or null |
| Products.Update | src/Domain/Entity/Product.php:126-182 | an attribute other than the two feed timestamps takes the payload value when its key is set; every other attribute, the code, status and import date stay |
| Products.Publish | src/Domain/Entity/Product.php:116-119 | only the status changes, to published |
| Products.MoveToTrash | src/Domain/Entity/Product.php:121-124 | only the status changes, to trash |
| Products.ToArray | src/Domain/Entity/Product.php:300-327 | 23 entries: code as int, status string, import date, then the 20 attributes in order with their keys |
| Products.ToArrayKeysDistinct | src/Domain/Entity/Product.php:300-327 | the 23 keys are pairwise distinct |
| Products.ToArrayInjective | src/Domain/Entity/Product.php:300-327 | the array determines the product |
| Products.UpdateIdempotent | src/Domain/Entity/Product.php:126-182 | updating twice with the same payload equals updating once |
| Products.UpdateOfCreated | src/Domain/Entity/Product.php:85-182 | updating a product created from a payload with that payload changes nothing |
| ImportHistories.Construct | src/Domain/Entity/ImportHistory.php:21-37 | every field as given, any status string accepted, a missing start time replaced by the current time |
| ImportHistories.Start | src/Domain/Entity/ImportHistory.php:39-42 | a running entry for the file, count 0, started now, no completion time, message or id |
| ImportHistories.Complete | src/Domain/Entity/ImportHistory.php:44-49 | status completed with the count and a completion time; id, filename, start and message kept |
| ImportHistories.Fail | src/Domain/Entity/ImportHistory.php:51-56 | status failed with the message and a completion time; id, filename, start and count kept |
| ImportHistories.ToArray | src/Domain/Entity/ImportHistory.php:108-119 | the seven keys in order; filename, count, start and status as stored; id, completion time and message as stored, null exactly where missing |
| ImportHistories.ToArrayInjective | src/Domain/Entity/ImportHistory.php:108-119 | the array determines the entry |
| ImportHistories.StatusPredicates | src/Domain/Entity/ImportHistory.php:93-106 | for a known status exactly one predicate holds; for any other string none does |
| ImportHistories.FailAfterComplete | src/Domain/Entity/ImportHistory.php:44-56 | transitions are unguarded: failing a completed entry gives failed with the completed count |
| ImportHistories.IdentityIsFixed | src/Domain/Entity/ImportHistory.php:44-56 | no sequence of complete/fail calls changes id, filename or start time |
| ImportHistories.LastTransitionDecides | src/Domain/Entity/ImportHistory.php:44-56 | after any non-empty sequence of calls the status and completion time are those of the last call |
| ImportHistoryRepository.Save | src/Infrastructure/Repository/SQLiteImportHistoryRepository.php:19-37 | an unknown status fails the status CHECK constraint, with PDO's message naming the constraint by its expression `status IN ('running','completed','failed')` (src/Infrastructure/Database/Migration/CreateTables.php:68); otherwise one row under the next AUTOINCREMENT id, nothing else changes |
| ImportHistoryRepository.SaveAssigningId | src/Infrastructure/Repository/SQLiteImportHistoryRepository.php:19-37 | the same insert, and the entity comes back carrying the new id |
| ImportHistoryRepository.Update | src/Infrastructure/Repository/SQLiteImportHistoryRepository.php:39-65 | no id: RuntimeException before any write; an id with no row: a no-op whatever the status, since the UPDATE touches no row; otherwise an unknown status fails the CHECK constraint and a known one rewrites exactly that row; success iff there is an id and a touched row has a known status |
| ImportHistoryRepository.Hydrate | src/Infrastructure/Repository/SQLiteImportHistoryRepository.php:95-106 | the entity carries the row's id and every stored column |
| ImportHistoryRepository.HydrateOfSaved | src/Infrastructure/Repository/SQLiteImportHistoryRepository.php:95-106 | hydrating the row of an entry gives the entry back under the row's id |
| ImportHistoryRepository.Chronology | src/Infrastructure/Repository/SQLiteImportHistoryRepository.php:69 | every stored id exactly once, in non-increasing start time |
| ImportHistoryRepository.HydrateAll | src/Infrastructure/Repository/SQLiteImportHistoryRepository.php:87-92 | one entity per id, in order, each the hydration of its row |
| ImportHistoryRepository.FindLast | src/Infrastructure/Repository/SQLiteImportHistoryRepository.php:67-78 | null iff the ledger is empty; otherwise a stored entry whose start is the latest |
| ImportHistoryRepository.HeadOfChronology | src/Infrastructure/Repository/SQLiteImportHistoryRepository.php:82-84 | the first `limit` ids of the chronology (all of them for a negative limit), distinct, stored and latest start first |
| ImportHistoryRepository.FindAll | src/Infrastructure/Repository/SQLiteImportHistoryRepository.php:80-93 | min(limit, rows) stored entries, one per id of the chronology's head and in its order, with distinct ids, latest start first |
| ImportHistoryRepository.FindAllKeepsNewest | src/Infrastructure/Repository/SQLiteImportHistoryRepository.php:80-93 | an entry that `findAll` leaves out started no later than any entry it returns |
| ImportHistoryRepository.HeadKeepsNewest | src/Infrastructure/Repository/SQLiteImportHistoryRepository.php:80-93 | an id outside the first `limit` of the newest-first order started no later than any id among them |
| ImportHistoryRepository.FindLastIsFirstOfAll | src/Infrastructure/Repository/SQLiteImportHistoryRepository.php:67-93 | `findLast` is the single entry of `findAll(1)`, or null when that is empty |
| ImportHistoryRepository.SavedEntryCannotBeUpdated | src/Infrastructure/Repository/SQLiteImportHistoryRepository.php:19-43 | as written, a started and saved entry still has no id, so updating it after complete or fail throws, and its row stays running |
| ImportHistoryRepository.AssignedEntryIsUpdated | src/Infrastructure/Repository/SQLiteImportHistoryRepository.php:39-65 | with the id handed back, the update after complete rewrites the saved row |
| ProductRepository.Save | src/Infrastructure/Repository/SQLiteProductRepository.php:21-40 | fails with the primary-key error iff the code is stored; otherwise adds exactly that product and keeps every other |
| ProductRepository.Update | src/Infrastructure/Repository/SQLiteProductRepository.php:42-74 | rewrites the whole row of the product's code, status and import date included; no such row, no change |
| ProductRepository.FindByCode | src/Infrastructure/Repository/SQLiteProductRepository.php:76-89 | null iff the code is not stored; otherwise the stored product, which has that code |
| ProductRepository.Exists | src/Infrastructure/Repository/SQLiteProductRepository.php:126-134 | `exists` holds iff `findByCode` finds a product |
| ProductRepository.FindAfterSave | src/Infrastructure/Repository/SQLiteProductRepository.php:76-89 | after saving a new product, `findByCode` returns it |
| ProductRepository.Delete | src/Infrastructure/Repository/SQLiteProductRepository.php:117-124 | the matching row moves to trash, every other row and column is untouched |
| ProductRepository.DeleteKeepsRow | src/Infrastructure/Repository/SQLiteProductRepository.php:109-124 | a deleted product still exists, in the trash, and the count is unchanged |
| ProductRepository.Count | src/Infrastructure/Repository/SQLiteProductRepository.php:109-115 | the number of stored rows, trashed ones included |
| ProductRepository.OffsetOfPage | src/Infrastructure/Repository/SQLiteProductRepository.php:93 | the first page starts at offset 0 and each next page `limit` rows later, so no page from 1 on has a negative offset |
| ProductRepository.DescendingCodes | src/Infrastructure/Repository/SQLiteProductRepository.php:95 | every stored code exactly once, strictly descending |
| ProductRepository.Rows | src/Infrastructure/Repository/SQLiteProductRepository.php:101-104 | the stored products under the given codes, in the same order |
| ProductRepository.FindAll | src/Infrastructure/Repository/SQLiteProductRepository.php:91-107 | exactly as many stored products as LIMIT/OFFSET leaves of the catalog, at most `limit`, strictly descending by code |
| ProductRepository.FindAllAt | src/Infrastructure/Repository/SQLiteProductRepository.php:91-107 | index i of the page is the product at position (page-1)*limit+i of the descending order whenever that position exists |
| ProductRepository.AheadIsAbove | src/Infrastructure/Repository/SQLiteProductRepository.php:95 | a product is listed ahead of another iff its code is higher |
| ProductRepository.PagePosition | src/Infrastructure/Repository/SQLiteProductRepository.php:91-107 | every index the window length allows holds a product, and that product has exactly offset+i stored products ahead of it |
| Ordering.Ranked | src/Infrastructure/Repository/SQLiteProductRepository.php:95 | every key exactly once, in the strict order of the score, highest first, ties by ascending key |
| Ordering.RankIsPosition | src/Infrastructure/Repository/SQLiteProductRepository.php:95 | the key at position i has exactly i keys ahead of it |
| Ordering.RankOfMember | src/Infrastructure/Repository/SQLiteProductRepository.php:95 | every key sits at the position given by the number of keys ahead of it |
| Ordering.Window | src/Infrastructure/Repository/SQLiteProductRepository.php:95-98 | LIMIT/OFFSET: the elements from the offset on (a negative offset reads as 0), at most `limit` of them (a negative limit means all) |
| Ordering.WindowOfDescending | src/Infrastructure/Repository/SQLiteProductRepository.php:95-98 | a window of a strictly descending sequence is strictly descending, at most `limit` long, and drawn from it |
| Ordering.WindowPosition | src/Infrastructure/Repository/SQLiteProductRepository.php:95-98 | the i-th key of a window of the ranking has exactly offset+i keys ahead of it |
| Ordering.Head | src/Infrastructure/Repository/SQLiteImportHistoryRepository.php:82-84 | the first `limit` elements, all of them for a negative limit |
| PaginationDTOs.CeilDiv | src/Application/DTO/PaginationDTO.php:17 | the least q with total <= q*limit, that is, (q-1)*limit < total <= q*limit |
| PaginationDTOs.New | src/Application/DTO/PaginationDTO.php:12-18 | page raised to at least 1, limit and total kept, page count the ceiling of total/limit or 0 for a limit that is not positive |
| PaginationDTOs.PageCountIsUnique | src/Application/DTO/PaginationDTO.php:17 | no other page count satisfies the ceiling bounds |
| PaginationDTOs.ToArray | src/Application/DTO/PaginationDTO.php:20-28 | the keys page, limit, total, total_pages, all integers |
| PaginationDTOs.ToArrayInjective | src/Application/DTO/PaginationDTO.php:20-28 | the array determines the pagination |
| ProductDTOs.FromEntity | src/Application/DTO/ProductDTO.php:33-61 | the code's value (positive), the status string (one of the three), the import date and every attribute copied |
| ProductDTOs.ToArray | src/Application/DTO/ProductDTO.php:63-90 | the same 23 entries, in the same order, as the product array |
| ProductDTOs.ArrayOfEntity | src/Application/DTO/ProductDTO.php:33-90 | the array of a product's DTO is the product's own array |
| ProductDTOs.FromEntityInjective | src/Application/DTO/ProductDTO.php:33-61 | the DTO determines the product |
| GetProduct.Execute | src/Application/UseCase/GetProduct.php:18-28 | a code that is not positive throws; otherwise none iff the code is not stored, else the DTO of the stored product |
| DeleteProduct.Execute | src/Application/UseCase/DeleteProduct.php:17-27 | a code that is not positive throws; an unknown code gives false and no change; a stored one moves to trash and gives true |
| DeleteProduct.DeletedIsStillFound | src/Application/UseCase/DeleteProduct.php:25-26 | after the delete the product is still found, in the trash, with its attributes |
| DeleteProduct.DeleteTwice | src/Application/UseCase/DeleteProduct.php:17-27 | a second delete of the same code again reports true and changes nothing more |
| UpdateProduct.Execute | src/Application/UseCase/UpdateProduct.php:18-31 | a code that is not positive throws; an unknown code gives no DTO and no change; otherwise the updated product is written back and its DTO returned |
| UpdateProduct.UpdateThenGet | src/Application/UseCase/UpdateProduct.php:18-31 | what the update returns is what a later read of that code returns |
| UpdateProduct.UpdateTwiceIsUpdateOnce | src/Application/UseCase/UpdateProduct.php:18-31 | sending the same body twice leaves catalog and answer as sending it once |
| ListProducts.Dtos | src/Application/UseCase/ListProducts.php:26-29 | one DTO per product, in the same order |
| ListProducts.Execute | src/Application/UseCase/ListProducts.php:21-37 | at most `limit` DTOs of stored products, descending by code, and the pagination over the stored count |
| ListProducts.OffsetWithinTotal | src/Application/UseCase/ListProducts.php:21-37 | a page's offset lies inside the catalog iff the page is among those the pagination counts |
| ListProducts.PageOfPosition | src/Application/UseCase/ListProducts.php:21-37 | position pos of the order is index pos%limit of page pos/limit+1 |
| ListProducts.PositionOfPage | src/Application/UseCase/ListProducts.php:21-37 | index i of page p is a position whose page and index are p and i, and no other |
| ListProducts.PageIsFilledIffCounted | src/Application/UseCase/ListProducts.php:21-37 | a page has products iff its number is at most the page count |
| ListProducts.EveryProductIsListed | src/Application/UseCase/ListProducts.php:21-37 | every stored product appears on the page and at the index its rank gives |
| ListProducts.ListedAt | src/Application/UseCase/ListProducts.php:21-37 | when position (page-1)*limit+i lies inside the catalog, index i of the page holds a product, and exactly that many products are ahead of it |
| ListProducts.ListedOnce | src/Application/UseCase/ListProducts.php:21-37 | the product at such an index appears on no page and at no index other than those of its rank |
| ListProducts.FoundOnItsPage | src/Application/UseCase/ListProducts.php:21-37 | the product with pos codes above its own sits at index slot of a page whenever offset+slot is pos |
| ProductController.PageParam | src/Presentation/Controller/ProductController.php:31 | the page is at least 1, defaults to 1, and is the `(int)` reading when that is at least 1 |
| ProductController.LimitParam | src/Presentation/Controller/ProductController.php:32 | the limit lies in 1..100, defaults to 20, and is the `(int)` reading clamped to that range |
| ProductController.QueryReadsBack | src/Presentation/Controller/ProductController.php:31-32 | a query naming an accepted page and limit in decimal reads them back exactly |
| ProductController.Items | src/Presentation/Controller/ProductController.php:37 | one array per DTO, in order |
| ProductController.Index | src/Presentation/Controller/ProductController.php:29-40 | status 200 with data holding at most `limit` items and the pagination for the page, limit and stored count |
| ProductController.IndexListsThePage | src/Presentation/Controller/ProductController.php:29-40 | the data is the stored page, as the products' own arrays, in order |
| ProductController.Show | src/Presentation/Controller/ProductController.php:42-55 | a code that is not positive throws out of the controller; unknown code gives 404 with the not-found body; otherwise 200 with the product's array |
| ProductController.Update | src/Presentation/Controller/ProductController.php:57-81 | a code that is not positive gives 400 with the exception message; unknown code gives 404; otherwise the updated product is stored and returned with the success message |
| ProductController.Delete | src/Presentation/Controller/ProductController.php:83-98 | a code that is not positive throws; unknown code gives 404; otherwise the product moves to trash and the trash message is returned |
| ProductController.UpdateThenShow | src/Presentation/Controller/ProductController.php:57-81 | for a stored code the update answers 200, and a later show answers the data it returned |
| ProductController.DeleteThenShow | src/Presentation/Controller/ProductController.php:83-98 | after a successful delete, show still answers 200, with status trash |
| ProductController.StatusesAreKnown | src/Presentation/Controller/ProductController.php:42-98 | show and delete answer only 200 or 404, update only 200, 400 or 404 |
| Router.AddRoute | src/Presentation/Router.php:29-36 | the new route goes after every route registered before it |
| Router.Path | src/Presentation/Router.php:41 | the URI up to its first `?` or `#`, with each control character replaced by `_`, so the path holds no `?`, `#` or control character |
| Router.PathEndsWithoutNewline | src/Presentation/Router.php:41-70 | no path the router matches ends in a newline, so `$` before a final newline never comes into play |
| Router.WordPrefix | src/Presentation/Router.php:67 | the longest run of `\w` characters at the front |
| Router.SegmentPrefix | src/Presentation/Router.php:67-68 | the longest prefix without `/`, which is all of the string or stops just before a `/` |
| Router.RenderCompile | src/Presentation/Router.php:67 | reading a pattern into literals and placeholders loses nothing |
| Router.CompileReadsLongestNames | src/Presentation/Router.php:67 | every placeholder name is a non-empty run of `\w` characters, and no `\w` character is left as a literal after a placeholder or a bare `:`, so each name is the longest run |
| Router.MatchSound | src/Presentation/Router.php:63-77 | a match captures one non-empty segment without `/` per placeholder, and the pattern filled with them is the path |
| Router.TryLengthsLongest | src/Presentation/Router.php:67-70 | a `([^/]+)` capture exists iff some length lets the rest of the path match, and it is the longest such length, followed by the rest's captures |
| Router.MatchComplete | src/Presentation/Router.php:63-77 | every path built from the pattern and segments matches |
| Router.MatchRoundTrip | src/Presentation/Router.php:63-77 | for a pattern whose placeholders end it or precede `/`, the captures are exactly the segments the path was built from |
| Router.SinglePlaceholder | src/Presentation/Router.php:67-70 | a lone placeholder matches exactly the segments, capturing the whole path |
| Router.FixedPattern | src/Presentation/Router.php:67-70 | a pattern without placeholders matches its own text and nothing else (among paths, which never end in a newline) |
| Router.TrailingPlaceholder | src/Presentation/Router.php:65-70 | `prefix:name` matches exactly the prefix followed by one segment, and captures it |
| Router.FirstTaker | src/Presentation/Router.php:43-53 | the first route from a position on with the request's method and a matching pattern |
| Router.Dispatch | src/Presentation/Router.php:38-61 | no route iff no route takes the path; otherwise the handler and captures of the first route that does |
| Router.DispatchTo | src/Presentation/Router.php:43-53 | a route that takes the request, with no earlier one that does, handles it |
| Router.Respond | src/Presentation/Router.php:84-111 | the handler's answer, or the generic 500 answer when it threw |
| Router.QueryIsIgnored | src/Presentation/Router.php:40-41 | a query string or fragment makes no difference to dispatch |
| Router.LaterRoutesDoNotShadow | src/Presentation/Router.php:43-53 | registering another route never changes a request that already reaches a route |
| Router.OtherMethodsAreSkipped | src/Presentation/Router.php:44-46 | a route of another method never decides whether a request reaches a route |
| ApiKeyMiddleware.FirstBearer | src/Presentation/Middleware/ApiKeyMiddleware.php:46 | the leftmost position of `Bearer` followed by white space, any letter case |
| ApiKeyMiddleware.BearerToken | src/Presentation/Middleware/ApiKeyMiddleware.php:46 | none iff there is no such position; otherwise the suffix of the header after the leftmost `Bearer` and the whole run of white space following it |
| ApiKeyMiddleware.BearerRoundTrip | src/Presentation/Middleware/ApiKeyMiddleware.php:46 | a token after `Bearer` and a space, in any letter case, is read back unchanged |
| ApiKeyMiddleware.ProvidedKey | src/Presentation/Middleware/ApiKeyMiddleware.php:36-52 | the X-API-KEY header when sent, else the bearer token of Authorization, else none |
| ApiKeyMiddleware.Handle | src/Presentation/Middleware/ApiKeyMiddleware.php:14-34 | passes to `next` iff the request is a GET of exactly `/` or carries the key; otherwise the 401 answer and `next` is not called |
| ApiKeyMiddleware.ApiKeyHeaderCarriesTheKey | src/Presentation/Middleware/ApiKeyMiddleware.php:38-41 | the key in X-API-KEY lets the request through, whatever Authorization says |
| ApiKeyMiddleware.BearerCarriesTheKey | src/Presentation/Middleware/ApiKeyMiddleware.php:43-48 | `Authorization: Bearer <key>` lets the request through |
| ApiKeyMiddleware.QueryStringIsNotExempt | src/Presentation/Middleware/ApiKeyMiddleware.php:16-19 | `/` with a query string needs the key like every other request |
| ApiKeyMiddleware.EmptyKeyAcceptsEmptyHeader | src/Presentation/Middleware/ApiKeyMiddleware.php:23 | with an empty configured key an empty X-API-KEY header passes |
| ApiKeyMiddleware.NoBearerNoAccess | src/Presentation/Middleware/ApiKeyMiddleware.php:43-51 | an Authorization header without a bearer token never authenticates |
| Endpoints.Table | public/index.php:58-76 | the route table holds five routes |
| Endpoints.TableEntries | public/index.php:58-76 | the routes in registration order: health, list, and show, update, delete on the product pattern |
| Endpoints.TextsFit | public/index.php:61-76 | the route texts hold no placeholder, query or fragment delimiter besides `:code` |
| Endpoints.TableListRoute | public/index.php:61-63 | the list path, with any query string, reaches the list handler with no arguments |
| Endpoints.ListPathTakes | public/index.php:58-63 | the list pattern takes its own path and the health pattern does not |
| Endpoints.ListRoute | public/index.php:61-63 | `/products`, with any query string, reaches the list handler |
| Endpoints.ProductRouteTakes | public/index.php:65-76 | on a product path the route of the method is the first that takes it, capturing the segment |
| Endpoints.TableProductRoute | public/index.php:65-76 | a product path reaches the handler of its method with the segment, control characters replaced by `_`, as only argument |
| Endpoints.ProductPathTakes | public/index.php:61-76 | a product path is neither of the two fixed paths, and the product pattern captures exactly its segment |
| Endpoints.ProductRoute | public/index.php:65-76 | `/products/<segment>` reaches show, update or delete by method, with the segment as `parse_url` leaves it |
| Endpoints.TableNoRouteForBarePrefix | public/index.php:65-76 | the product prefix without a code reaches no route |
| Endpoints.NoRouteForEmptyCode | public/index.php:65-76 | `/products/` reaches no route |
| App.CodeArg | public/index.php:65-76 | the `(int)` cast of the captured segment: within PHP's integer range, and 0 when no segment is passed or it starts no number |
| App.CodeOfSegment | public/index.php:65-67 | the decimal rendering of a code is a route segment whose cast is the code |
| App.RunHandler | public/index.php:59-76 | the health handler answers the health response; every handler but update and delete leaves the catalog, and so does any handler that throws |
| App.RunRouter | src/Presentation/Router.php:79-111 | only a PUT or a DELETE request can change the catalog |
| App.WritersAreWrites | public/index.php:58-76 | the update and delete handlers are reached only by PUT and DELETE |
| App.Serve | public/index.php:82-102 | without the key and outside the health check, the 401 answer and an untouched catalog; otherwise the router's answer |
| App.KeyIsRequired | public/index.php:96-102 | without the key nothing but the health check is answered and the catalog is untouched |
| App.ServesProductRoute | public/index.php:65-76 | with the key, a product URL runs the handler of its method on its segment as `parse_url` leaves it |
| App.ShowByUrl | public/index.php:65-67 | with the key, GET of a product URL answers the product's array, or 404, and changes nothing |
| App.ShowBySegment | public/index.php:65-67 | the same for any segment that, as `parse_url` leaves it, casts to the code |
| App.HandlersRejectBadCode | public/index.php:65-76 | on a code that is not positive, show and delete throw and update answers 400, catalog untouched |
| App.BadCodeAnswers | public/index.php:65-76 | end to end, such a code gives 500 for GET and DELETE and 400 for PUT |
| App.UnknownPathIsNotFound | src/Presentation/Router.php:55-60 | a path no route matches gets the router's 404 |
| OpenFoodFactsClient.New | src/Infrastructure/ExternalService/OpenFoodFactsClient.php:12-16 | the base URL loses exactly its trailing slashes; the timeout is kept |
| OpenFoodFactsClient.FileUrl | src/Infrastructure/ExternalService/OpenFoodFactsClient.php:45 | the base URL, one `/`, then the file name, which can be read back from the URL |
| OpenFoodFactsClient.ListUrl | src/Infrastructure/ExternalService/OpenFoodFactsClient.php:25 | the index is fetched from the file URL of `index.txt` |
| OpenFoodFactsClient.FileUrlInjective | src/Infrastructure/ExternalService/OpenFoodFactsClient.php:45 | different file names give different URLs |
| OpenFoodFactsClient.FileUrlOfNew | src/Infrastructure/ExternalService/OpenFoodFactsClient.php:14-45 | with a constructed client the character before the joining `/` is never another `/` |
| OpenFoodFactsClient.Retry | src/Infrastructure/ExternalService/OpenFoodFactsClient.php:69-107 | from a given attempt on: stops at the first success with its content, or after the last allowed failure with the exhausted-retries exception; pause k is 2^k |
| OpenFoodFactsClient.FetchUrl | src/Infrastructure/ExternalService/OpenFoodFactsClient.php:69-107 | at most maxRetries attempts, every one before the last failed; the content of the first success, or after maxRetries failures an exception with the last message; pauses 1, 2, 4, … after every failure but the last |
| OpenFoodFactsClient.DefaultRetryBudget | src/Infrastructure/ExternalService/OpenFoodFactsClient.php:95-98 | with three attempts the pauses are at most 1 then 2 seconds |
| OpenFoodFactsClient.TrimAll | src/Infrastructure/ExternalService/OpenFoodFactsClient.php:33 | every line trimmed, in order |
| OpenFoodFactsClient.DropFalsy | src/Infrastructure/ExternalService/OpenFoodFactsClient.php:33 | keeps exactly the lines other than `""` and `"0"` |
| OpenFoodFactsClient.TrimmedLines | src/Infrastructure/ExternalService/OpenFoodFactsClient.php:32-33 | every line of the index, once trimmed, is trimmed and holds no newline |
| OpenFoodFactsClient.DropFalsyOfLine | src/Infrastructure/ExternalService/OpenFoodFactsClient.php:33 | a single line is dropped iff it is falsy |
| OpenFoodFactsClient.DropFalsyAppend | src/Infrastructure/ExternalService/OpenFoodFactsClient.php:33 | filtering distributes over concatenation, so the kept lines keep their order and multiplicity |
| OpenFoodFactsClient.KeepsNonFalsy | src/Infrastructure/ExternalService/OpenFoodFactsClient.php:33 | lines none of which is falsy pass the filter unchanged |
| OpenFoodFactsClient.ParseFileList | src/Infrastructure/ExternalService/OpenFoodFactsClient.php:28-33 | empty content gives no names; otherwise the non-falsy lines, in order, of the trimmed content, each trimmed; every name is non-falsy, trimmed and holds no newline |
| OpenFoodFactsClient.ParseJoinedNames | src/Infrastructure/ExternalService/OpenFoodFactsClient.php:28-33 | an index written one name per line parses back to exactly those names |
| OpenFoodFactsClient.FetchFileList | src/Infrastructure/ExternalService/OpenFoodFactsClient.php:23-34 | a download failure propagates; otherwise the parsed names of the index file |
| OpenFoodFactsClient.Slice | src/Infrastructure/ExternalService/OpenFoodFactsClient.php:63 | a prefix of min(limit, n) records; a negative limit drops that many from the end |
| OpenFoodFactsClient.FetchProducts | src/Infrastructure/ExternalService/OpenFoodFactsClient.php:43-64 | download failure propagates; empty content or a non-array gives none; a decode error throws; otherwise `array_slice(records, 0, limit)`: the first min(limit, n) records for a limit >= 0, and all but the last -limit (none when that is n or more) for a negative one |
| OpenFoodFactsClient.TestConnection | src/Infrastructure/ExternalService/OpenFoodFactsClient.php:112-121 | true iff the single attempt succeeds |
| ImportCronJob.ImportRecord | src/Infrastructure/Cron/ImportCronJob.php:86-112 | a record without a positive code is skipped and not counted; otherwise it is counted, a stored product is updated in place and a new code is created as a draft; no other product changes |
| ImportCronJob.RecordExtends | src/Infrastructure/Cron/ImportCronJob.php:86-112 | a record never changes a stored product's code, status or import date, and new products are drafts |
| ImportCronJob.RecordReimportIsNoOp | src/Infrastructure/Cron/ImportCronJob.php:94-106 | importing the same record again changes nothing |
| ImportCronJob.ImportRecords | src/Infrastructure/Cron/ImportCronJob.php:84-113 | the count is the number of records with a positive code; the catalog gains exactly their codes and keeps statuses |
| ImportCronJob.SaveEntry | src/Infrastructure/Cron/ImportCronJob.php:79-80 | the insert of the entry; as written the entity is unchanged, with ids handed back it carries the new id |
| ImportCronJob.Recover | src/Infrastructure/Cron/ImportCronJob.php:119-123 | marks the entry failed and writes it, then rethrows; when the write throws, that exception leaves instead; products are kept |
| ImportCronJob.ImportFile | src/Infrastructure/Cron/ImportCronJob.php:77-124 | a count comes back only for fetched records, it is their number with a positive code and at most the limit; the catalog holds the fetched records whether the ledger write succeeds or not |
| ImportCronJob.AsWrittenFileFails | src/Infrastructure/Cron/ImportCronJob.php:115-122 | as written every file throws the missing-id exception and leaves its entry running |
| ImportCronJob.CorrectedFileOutcome | src/Infrastructure/Cron/ImportCronJob.php:77-124 | with ids handed back a file returns its fetch's count or exception, and its entry ends completed or failed |
| ImportCronJob.EveryFileAccounted | src/Infrastructure/Cron/ImportCronJob.php:45-56 | the files that returned plus the error entries are all the files |
| ImportCronJob.Advance | src/Infrastructure/Cron/ImportCronJob.php:46-55 | one turn adds the count of a file that returned or one error entry for a file that threw |
| ImportCronJob.RunFiles | src/Infrastructure/Cron/ImportCronJob.php:45-56 | the loop visits every file: processed count, imported sum and error list agree with the outcome of each file |
| ImportCronJob.Run | src/Infrastructure/Cron/ImportCronJob.php:36-72 | success holds iff the index file downloads; a failed listing gives zeros and one error entry without file name, stores untouched; otherwise processed files plus errors equal the listed files |
| ImportCronJob.ExecuteAsWritten | src/Infrastructure/Cron/ImportCronJob.php:36-72 | as written, success iff the index downloads; otherwise zeros, one error entry, stores untouched |
| ImportCronJob.Execute | src/Infrastructure/Cron/ImportCronJob.php:36-72 | with ids handed back, the same: success iff the index downloads; otherwise zeros, one error entry, stores untouched |
| ImportCronJob.AsWrittenEveryFileFails | src/Infrastructure/Cron/ImportCronJob.php:45-63 | as written the run reports success with 0 files, 0 products and a missing-id error for every listed file |
| ImportCronJob.AsWrittenEntriesStayRunning | src/Infrastructure/Cron/ImportCronJob.php:77-124 | as written the ledger gains one running entry per listed file and keeps earlier rows |
| ImportCronJob.CorrectedRunFollowsFetches | src/Infrastructure/Cron/ImportCronJob.php:36-72 | with ids handed back, processed files, imported sum and errors are those the fetches decide |
| ImportCronJob.CorrectedEntriesAreClosed | src/Infrastructure/Cron/ImportCronJob.php:77-124 | with ids handed back, each listed file's entry ends completed with its count or failed with the client's message |
| ImportCronJob.RunKeepsStatuses | src/Infrastructure/Cron/ImportCronJob.php:86-106 | in either mode the catalog gains exactly the fetched codes, stored statuses never change, new products are drafts |
| ImportCronJob.LastImportTime | src/Infrastructure/Cron/ImportCronJob.php:129-138 | null iff `findLast` is null, otherwise its start time |
| Text.RTrim | src/Infrastructure/ExternalService/OpenFoodFactsClient.php:14 | removes exactly the trailing run of the character |
| Text.Split | src/Infrastructure/ExternalService/OpenFoodFactsClient.php:32 | pieces without the separator that join back to the string |
| Text.SplitJoin | src/Infrastructure/ExternalService/OpenFoodFactsClient.php:32 | splitting undoes joining pieces without separator |
| Text.Trim | src/Infrastructure/ExternalService/OpenFoodFactsClient.php:32-33 | a piece of the string cut out after a run of trim characters and before one, starting and ending with no trim character |
| Text.TrimOfTrimmed | src/Infrastructure/ExternalService/OpenFoodFactsClient.php:32 | trim leaves a trimmed string alone |
| Text.NatToString | src/Domain/ValueObject/ProductCode.php:37-40 | non-empty decimal digits, no leading zero, whose value is the number |
| Text.IntToString | src/Domain/ValueObject/ProductCode.php:37-40 | the decimal rendering, with `-` for a negative number |
| Text.LeadingDigits | src/Domain/ValueObject/ProductCode.php:29 | the longest run of digits at the front |
| Text.SplitSign | src/Domain/ValueObject/ProductCode.php:29 | a leading `+` or `-` is removed, and the sign is negative iff it was `-` |
| Text.ScanMantissa | src/Domain/ValueObject/ProductCode.php:29 | the string splits into integer digits, an optional `.` with fraction digits, and a rest that starts with neither a digit nor (without a `.`) a `.` |
| Text.ScanMantissaOf | src/Domain/ValueObject/ProductCode.php:29 | scanning a spelled-out literal gives back exactly its parts |
| Text.ScanExponent | src/Domain/ValueObject/ProductCode.php:29 | an exponent starts with `e` or `E` and its digits run to a non-digit |
| Text.ScanExponentOf | src/Domain/ValueObject/ProductCode.php:29 | scanning a spelled-out exponent gives back its signed value and what follows it |
| Text.Clamp | src/Domain/ValueObject/ProductCode.php:29 | a value within 64 bits is kept, one beyond is capped at the nearest bound, and a magnitude that overflows a double gives 0 |
| Text.IntCast | src/Domain/ValueObject/ProductCode.php:29 | the `(int)` cast always lies in PHP's 64-bit range, and is 0 for a string that starts no number after white space and sign |
| Text.IntCastOfSignedDigits | src/Domain/ValueObject/ProductCode.php:29 | a run of digits, signed or not, casts to its value when that fits in 64 bits |
| Text.IntCastOfExponent | src/Domain/ValueObject/ProductCode.php:29 | `<m>e<k>` casts to m·10^k when that fits in 64 bits |
| Text.IntCastTruncatesFraction | src/Domain/ValueObject/ProductCode.php:29 | `<n>.<digits>` casts to n: the fraction is truncated |
| Text.IntCastOfRendering | src/Domain/ValueObject/ProductCode.php:29 | the `(int)` cast reads back every integer from its rendering |
| Text.DigitsAreNumeric | src/Domain/ValueObject/ProductCode.php:26 | a non-empty run of digits is numeric |
| Text.NaturalRenderingIsNumeric | src/Domain/ValueObject/ProductCode.php:24-30 | the rendering of a natural number is numeric |
| Text.IsNumeric | src/Domain/ValueObject/ProductCode.php:26 | a numeric string starts a number after white space and sign, so its cast reads that number |
| Text.TrailingTextIsNotNumeric | src/Domain/ValueObject/ProductCode.php:26 | digits followed by text that neither continues the literal nor is white space are not numeric |
| Text.TrailingTextIsCast | src/Domain/ValueObject/ProductCode.php:29 | the cast reads such digits and ignores the text after them |
| Text.NumericPrefixIsNotNumeric | src/Domain/ValueObject/ProductCode.php:26-29 | `"12abc"` is not numeric, though it casts as `"12"` does |
| Text.LiteralIsNumeric | src/Domain/ValueObject/ProductCode.php:26 | a string that is exactly one literal, with an optional exponent, is numeric |
| Text.ExponentIsNumeric | src/Domain/ValueObject/ProductCode.php:26 | `<m>e<k>` is numeric |
| Core.ErrorBody | src/Presentation/Controller/ProductController.php:48-51 | an object with the keys error and message, the message as given |

## Left out

- Network access, stream contexts, `sleep` and the clock are inputs. Each file takes one
  clock reading, used for its ledger entry, its new products and its completion time.
- JSON decoding is an input. Records arrive with typed values; the loose `(int)` and
  `(float)` coercions of feed values (`code`, `serving_quantity`, `nutriscore_score`)
  are not modelled, and floats are opaque.
- Dates are whole seconds, ordered by value. `ImportedDate` parsing and formatting are
  not part of this model; a formatted date appears as `JTime`.
- SQL text, PDO and `Connection` are replaced by maps. The only database errors kept
  are the products primary key and the ledger's status CHECK. Each save or update
  commits on its own; transactions and overlapping cron runs are not modelled.
- `HealthController` is not part of this model: its answer is an input of `App.Serve`.
  `JsonResponseMiddleware`, `cron/import.php`, `bin/*.php` and `config/*.php` are
  header, echo and configuration plumbing.
- `error_log` of a skipped record is not modelled.
- The `debug` block of the 500 answer under `APP_DEBUG` is not modelled.
- The 401 body is the array before `json_encode`, not its text.
- `array_filter` keeps the original keys of the index lines; the model renumbers them.
  `execute` only iterates them, so nothing depends on the keys.
- Text.IntCast: applies a fraction and an exponent exactly and then truncates. PHP first
  rounds such a literal to the nearest double, so the two differ when the value needs
  more than 53 significant bits.
- The network answers by URL: two downloads of the same URL in one run see the same
  attempts. That happens only for a file the index lists twice, or a listed file named
  `index.txt`; the network cannot answer differently the second time.
- `parse_url` is modelled as cutting at the first `?` or `#` and replacing control
  characters by `_`. Its other cases are not modelled: scheme and host parts, and
  malformed URIs that make it return false.
- Router.Match: reads the pattern's `$` as the end of the path. PCRE's `$` without the
  `D` modifier also matches before one final newline; no path ends in one, since
  `parse_url` replaces it (Router.PathEndsWithoutNewline).
- Router.FixedPattern: a pattern without placeholders matches only its own text, where
  PCRE's `$` would also accept that text followed by one final newline. Paths never end
  in a newline (Router.PathEndsWithoutNewline), so dispatch is the same.
- Regular-expression metacharacters in a route's literal text are read literally. The
  route table of the entry point has none.
- The branch where `exists` is true but `findByCode` returns null cannot happen on the
  map model. `ImportCronJob.ImportRecord` still counts such a record, as the code does.
- OpenFoodFactsClient.FetchUrl: requires `maxRetries >= 1`. Every caller passes 3 or 1;
  with 0 the code would dereference a null last error.
- PaginationDTOs.CeilDiv: uses exact integer division, where PHP divides in floating
  point and rounds up. The two agree while the total stays below 2^53.
- ProductRepository.Offset: the `(page-1)*limit` product is an unbounded integer. PHP
  integer overflow is not modelled.
- App.RunHandler: a route without a placeholder value reads code 0 in the product
  handlers, where PHP would raise `ArgumentCountError`. The route table never calls a
  product handler without one.
- App.RunHandler: a JSON body that decodes to a scalar would make `update` raise
  `TypeError`. That case is not modelled: the body is always a payload.
- ApiKeyMiddleware.BearerToken: reads the token up to the end of the header. PCRE's `.`
  stops at a newline, and `$` also matches before a final newline; headers with
  newlines are not modelled.

## Findings

| source | as written | input that shows it | evidently intended | confidence | as-written member | corrected member |
|---|---|---|---|---|---|---|
| src/Infrastructure/Repository/SQLiteImportHistoryRepository.php:19-37 | `save` inserts the ledger row but never gives the entity its generated id. `update` then refuses the entity (lines 41-43). So in `importFile` the update after `complete` throws, the update after `fail` in the `catch` throws again, and the file lands in `errors`. Its products are already stored, and its ledger row stays `running`. | any run whose index lists at least one file | the entry carries its id, is closed as completed or failed, and the run's statistics follow the fetches | not executed | ImportCronJob.AsWrittenEveryFileFails | ImportCronJob.CorrectedRunFollowsFetches |
