# Gold price cache, product lookup and error responses — a Dafny model

This project models the server-side logic of a small product-catalog API:

- **The gram-gold price service** (`api/goldPriceService.js`). It keeps a
  single cached price with the time it was fetched. A cached price that is
  not `null` and is less than five minutes old is served without asking the
  market-data endpoint. Otherwise the service fetches the feed and takes the
  selling price (`SATIS`) of the first quote whose symbol (`SEMBOL`) is
  `"GLDGR"`. It stores that price with the time the call began and returns
  it. When the request or the body fails, it returns `null` and leaves the
  cache as it was. The success log message converts the price to text after
  it is stored. For a price whose conversion throws (an object with its own
  `toString` key, or an array holding one), the call returns `null` but the
  new price stays cached and is served for the next five minutes.
  The module-level cache is the class `GoldPriceCache` (fields `price` and
  `timestamp`). Its method `GetGoldPrice` is proved against the pure
  function `Serve`, which specifies one call. The lemmas about `Serve` state
  the cache's guarantees, one call at a time and over whole runs of calls
  (`EntryAfter`, `ServedAt`).
- **The product service** (`api/productService.js`). `GetProducts` tags each
  catalog record with its position as `id`, written as `{id: index,
  ...product}`, so a record's own `id` overrides the position.
  `GetProductById` reads the id text with `parseInt(id, 10)`: NaN gives
  `undefined` (None). Otherwise it returns the first tagged record whose `id`
  is strictly equal to the number. `parseInt` follows ECMAScript in
  `JsParseInt.ParseInt10`. It skips leading white space and line terminators,
  reads an optional sign, then reads the longest run of digits.
- **The error middleware** (`utils/errorHandler.js`). `HandleError` builds
  the HTTP status and the body `{status: 'error', statusCode, message}`. The
  status code falls back to 500 and the message to a default text when the
  error's own value is falsy.

Values the code reads from JSON or from objects are `JsValues.JsValue`. It
has `undefined`, `null`, booleans, numbers, strings, arrays and objects. So
`!== null`, `===`, property reads and `||` truthiness mean what they mean in
JavaScript. One consequence is proved in `AbsentSatisIsCached`. A GLDGR
quote with no `SATIS` stores `undefined`, and `undefined !== null`, so that
`undefined` is served from the cache for the next five minutes. A `SATIS` of
`null` is refetched on the next call.

The clock (`Date.now()`) is the parameter `now`. The outcome of the HTTP
request is the parameter `o: FetchOutcome`. Either `fetch` rejected, or a
response came back with its status and its body as `response.json()` parsed
it (None when that rejects). The catalog, as read from the file and parsed,
is the parameter `catalog`.

## Model

| member | source | states |
|---|---|---|
| `GoldPriceService.GoldPriceCache.constructor` | api/goldPriceService.js:6-9 | The cache starts as price `null` with timestamp 0. |
| `GoldPriceService.GoldPriceCache.GetGoldPrice` | api/goldPriceService.js:15-52 | The value returned, whether the endpoint was asked, and the cache afterwards are exactly those `Serve` gives for the old cache, the clock at entry and the request's outcome. The price is stored before the log conversion that may throw, as in the source. |
| `GoldPriceService.FindGold` | api/goldPriceService.js:32 | `data.find(item => item.SEMBOL === "GLDGR")`: an element found is one of `data`, is not nullish and is a GLDGR quote. `FindGoldOutcomes` characterises all three outcomes. |
| `GoldPriceService.FindGoldNotFound` | api/goldPriceService.js:32-36 | `find` finds nothing exactly when every element is neither nullish nor a GLDGR quote. |
| `GoldPriceService.FindGoldFound` | api/goldPriceService.js:32 | `find` finds something exactly when some GLDGR quote has only passed-over elements before it, and what it finds is such a first quote. |
| `GoldPriceService.FindGoldThrew` | api/goldPriceService.js:32 | The callback throws exactly when a nullish element has only passed-over elements before it. |
| `GoldPriceService.FindGoldOutcomes` | api/goldPriceService.js:32 | `find` returns the first element whose SEMBOL is "GLDGR", with no nullish element before it. It throws exactly when a nullish element comes first. It finds nothing exactly when every element is passed over. |
| `GoldPriceService.PriceFromBody` | api/goldPriceService.js:31-38 | A price read from a parsed body is the SATIS of some GLDGR quote of its `data` array. `BodyFailures` and `PriceIsFirstQuote` say which quote and when there is none. |
| `GoldPriceService.FetchPrice` | api/goldPriceService.js:25-38 | A price comes only from a response with a 2xx status and a JSON body, and is what that body yields. `RequestFailures` gives each failure. |
| `GoldPriceService.Serve` | api/goldPriceService.js:15-52 | One call fetches exactly when the cache is not fresh (null, or 300000 ms old or more). A call that does not fetch returns the cached price and keeps the cache. The cache changes only to the fetched price with the call's clock. A fetch that yields a price stores it. A non-null value returned by a fetching call is the fetched price, and only when the log message can convert it. A failed fetch returns null and keeps the cache. The lemmas below build on this. |
| `GoldPriceService.CacheHit` | api/goldPriceService.js:18-21 | A non-null price younger than 300000 ms is returned as is, with no request and no change to the cache, whatever the endpoint would answer. |
| `GoldPriceService.StaleEntryIsRefetched` | api/goldPriceService.js:4-18 | Freshness is strict: at an age of exactly the cache duration or more, the call makes a request. |
| `GoldPriceService.NullIsNeverServedFromCache` | api/goldPriceService.js:6-18 | A null cached price always leads to a request, whatever its timestamp. The first call from the initial cache always makes one. |
| `GoldPriceService.FailureKeepsCache` | api/goldPriceService.js:48-51 | When the request yields no price, the call returns null and the cache is unchanged, so an expired price is not served instead. |
| `GoldPriceService.RequestFailures` | api/goldPriceService.js:25-31 | A rejected fetch, a status outside 2xx (whatever the body) and a body that is not JSON each yield no price. An ok status with a JSON body yields what the body yields. |
| `GoldPriceService.BodyFailures` | api/goldPriceService.js:31-36 | A body without a `data` array yields no price. So does one with no GLDGR quote, and one with a nullish element before the first GLDGR quote. |
| `GoldPriceService.PriceIsFirstQuote` | api/goldPriceService.js:31-38 | When element `i` of `data` is the first GLDGR quote and no nullish element precedes it, the price is that element's SATIS. |
| `GoldPriceService.SuccessStoresPrice` | api/goldPriceService.js:38-51 | On success the cache becomes exactly the fetched price with the clock read at entry. The call returns that price, or null when the log message cannot convert it to text. |
| `GoldPriceService.UnloggablePriceIsCachedNotReturned` | api/goldPriceService.js:38-51 | A SATIS of `{"toString": 1}` is stored with the call's clock, but the log message's conversion throws and the call returns `null`. Any call in the next 300000 ms serves that stored object from the cache without a request. |
| `GoldPriceService.PriceReusedWithinWindow` | api/goldPriceService.js:18-43 | After a successful call at `t` that stored a non-null price, any call at `t' < t + 300000` returns that stored price without a request and keeps the cache. |
| `GoldPriceService.AbsentSatisIsCached` | api/goldPriceService.js:18-46 | A missing SATIS stores and returns `undefined`, which is then served from the cache within the window without a request. |
| `GoldPriceService.NullSatisIsRefetched` | api/goldPriceService.js:18-46 | A SATIS of `null` is stored and returned, and the next call makes a request however soon it comes. |
| `GoldPriceService.CachedPriceProvenance` | api/goldPriceService.js:40-43 | After any run of calls from the initial cache, a non-null cached price is the price some earlier call fetched, and the cache's timestamp is that call's clock. |
| `GoldPriceService.BoundedStaleness` | api/goldPriceService.js:15-52 | In any run of calls, each non-null price returned was fetched by that call or by an earlier one less than 300000 ms before it. |
| `ProductService.GetProducts` | api/productService.js:13-18 | The output has the catalog's length and order. Each record keeps every own property unchanged and gains `id`. The `id` is its position, unless the record had its own `id`, which then wins. |
| `ProductService.FindById` | api/productService.js:34 | `find` gives nothing exactly when no record's id is strictly equal to the one sought. Otherwise it gives a record whose id matches and is preceded by no other match. |
| `ProductService.GetProductById` | api/productService.js:26-35 | A record is returned only when `parseInt` gives a number, and it is a tagged record whose `id` is strictly equal to that number. `NaNIsNotFound`, `FoundAtIndex`, `OutOfRangeIsNotFound` and `FirstOfDuplicatesIsFound` say which record. |
| `ProductService.UntagRestoresProduct` | api/productService.js:13-16 | Removing `id` from a tagged record that had no `id` of its own gives the catalog record back. |
| `ProductService.PositionalIds` | api/productService.js:13-16 | In a catalog without own ids, the tagged record at position `i` carries the id `i`. |
| `ProductService.NaNIsNotFound` | api/productService.js:28-32 | An id that `parseInt` reads as NaN gives `undefined`. |
| `ProductService.FindAtPosition` | api/productService.js:34 | In a catalog without own ids, looking up a position in range finds the record at that position. |
| `ProductService.FoundAtIndex` | api/productService.js:26-35 | In a catalog without own ids, an id text that parses to `n` with `0 <= n < length` finds the record at index `n`. |
| `ProductService.OutOfRangeIsNotFound` | api/productService.js:34 | In a catalog without own ids, a negative or out-of-range parsed id gives `undefined`, never another record. |
| `ProductService.DecimalIdFindsProduct` | api/productService.js:26-35 | The decimal text of a position, as a route parameter would carry it, finds the record at that position. |
| `ProductService.FirstOfDuplicatesIsFound` | api/productService.js:34 | When several records share the sought id, the first in catalog order is returned. |
| `JsParseInt.ParseInt10` | api/productService.js:28 | `parseInt(id, 10)`: a number comes only from a string with something left after the white space, and a negative one only when that starts with `-`. `ParseDecimal`, `ParseSignedWithZeros`, `ParseSkipsSpace` and `ParseFailsIff` give its value and when it is NaN. |
| `JsParseInt.ParseDecimal` | api/productService.js:28 | `parseInt` reads back every integer from its decimal text. Leading white space and any tail that does not start with a digit make no difference. |
| `JsParseInt.ParseSignedWithZeros` | api/productService.js:28 | A route id made of white space, an optional `+` or `-`, any run of leading zeros, the digits of `n` and a tail that does not start with a digit reads as `n`, or `-n` after a minus sign. This covers ids such as `"+5"`, `"007"` and `"-03"`. |
| `JsParseInt.ParseSkipsSpace` | api/productService.js:28 | Leading white space and line terminators do not change what `parseInt` returns. |
| `JsParseInt.ParseFailsIff` | api/productService.js:28-32 | `parseInt` gives NaN exactly when no digit follows the white space and the optional sign. |
| `ErrorHandler.HandleError` | utils/errorHandler.js:3-17 | The status sent is `err.statusCode` when truthy, else 500. The message is `err.message` when truthy, else the default text. The body has exactly `status`, `statusCode` and `message`, with `status` always 'error' and `statusCode` always the status sent. Both sent values are truthy. |
| `ErrorHandler.StatusFallsBackTo500` | utils/errorHandler.js:9 | The status is 500 exactly when `err.statusCode` is falsy or is 500 itself. An absent status code or a code of 0 gives 500. |
| `ErrorHandler.MessageFallsBackToDefault` | utils/errorHandler.js:10 | The default message is sent exactly when `err.message` is falsy or is that text. An absent or empty message gives the default. |

## Left out

- The HTTP request (`fetch`, `response.ok`, `response.json()`) is the input `FetchOutcome`. `response.ok` is a status from 200 to 299, and the parse of the body is its `json` field.
- `Date.now()` is the input `now`, an integer number of milliseconds.
- What `logger.info` and `logger.error` write is not modelled, and the logger is taken not to throw. The conversion of the price to text in the template at api/goldPriceService.js:44 is modelled (`LogConversionThrows`), because it can throw after the cache is updated.
- Overlapping asynchronous calls of `getGoldPrice`, which can each fetch on the same miss, are not modelled. Each call is one atomic step.
- The catalog file read and `JSON.parse` are not modelled; the parsed catalog is the input. A catalog that is not an array, or has entries that are not objects, is not modelled.
- Numbers are reals: NaN, the infinities and rounding to a double are not modelled. A catalog `id` written as a literal beyond the largest double (about 1.8e308), such as `1e400`, parses to Infinity, and `parseInt` of a route id of that size gives Infinity too; the source then finds that record and the model finds none. Rounding matters only for ids beyond 2^53.
- JsParseInt.ParseInt10: returns the exact integer, where `parseInt` rounds it to a double and gives Infinity past the largest double, because numbers are reals here.
- `JsParseInt.ParseInt10` takes the route parameter as text. Converting a non-string argument to text first is not modelled.
- Property reads see only an object's own properties. Inherited properties are not modelled. The JSON objects read here inherit none of `data`, `SEMBOL`, `SATIS` or `id`. An `Error` made without a message inherits `message`, which is `""`, from `Error.prototype`; the model reads `undefined` instead, and since both are falsy `HandleError` sends the default message either way.
- The key order of the objects sent as JSON is not modelled; records are maps.
- `ErrorHandler.HandleError` takes the error as an object. A thrown `null` or `undefined`, on which reading `message` would itself throw, is not modelled. Neither is Express's own handling of an invalid status in `res.status`.
- `api/productValidator.js` is not part of this model; it wraps a validation library whose behaviour is not visible.
- `api/productController.js`, `api/products.js`, `api/app.js` and `server.js` are not part of this model; they are routing, middleware and process startup.
- The UI under `ui/` is not part of this model; it is rendering and browser I/O.
