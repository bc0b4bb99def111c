# FlightAdvisorBot recommendation core in Dafny

FlightAdvisorBot is a small web service. Its `/flights` and `/countries` endpoints ask the Skyscanner browse API for quotes or routes, then reduce the JSON answer to at most three cheap recommendations. These are filtered by a day-of-week preference called the *availability*: `"Anytime"`, `"Weekend"` or `"Weekdays"`.

This project models that reduction. Each part is proved against a specification:

- **`Availability`**: `isWeekend`, `checkAvailability` and `quoteInAvailability`.
  - These are pure predicates over a departure `Day`.
  - `Day` is either a day number 0–6 or `InvalidDate`. `InvalidDate` stands for `new Date(text).getDay()` returning NaN.
- **`Dict`**:
  - `CreateDictBy` is `createDictBy`, as a method with a loop.
  - It is proved equal to the function `DictBy`.
  - The lemma `DictByLastWins` proves that the index holds every key and maps it to the last record carrying that key.
- **`Sequences`**:
  - `_.filter` is modelled as `Select`, and `_.sortBy` as the stable insertion sort `SortBy`.
  - Lemmas prove that `SortBy` is a stable sort: a permutation, sorted, and order-preserving within each key.
  - Another lemma proves that filtering after the sort equals sorting after the filter.
- **`Recommend`**: `getFlights` and `getCountries` are modelled as methods that follow the source's loops.
  - Every TypeError the JavaScript can throw becomes a named `Error` inside a `Result`:
    - a missing place id;
    - a missing quote id;
    - a read past the end of the filtered routes.
  - The step-by-step outcome of each method is the ghost predicate `FlightsOutcome` or `CountriesOutcome`.
  - Its consequences are proved in `FlightsOutcomeMeaning` and `CountriesOutcomeMeaning`:
    - answer size;
    - price order;
    - names resolved through the last-wins index;
    - exactly when the call fails;
    - what an unrecognised availability gives.

`getCountries` reads indices 0, 1 and 2 of the filtered routes with no bounds check, so with fewer than three passing routes it throws. `getFlights` stops at the end of the list instead. The model keeps both behaviours as written:

- `GetCountries` returns `Failure(NoRouteAt(i))` when there are fewer than three routes.
- An unknown or absent availability makes `/flights` answer `[]`, but makes `/countries` fail.

## Model

| member | source | states |
|---|---|---|
| Availability.IsWeekend | main.js:133-136 | A date that does not parse is never a weekend day, since its `getDay()` is NaN. The weekend days are 0 (Sunday) and 6 (Saturday), which `CheckAvailability` states per mode. |
| Availability.CheckAvailability | main.js:128-136 | `"Anytime"` accepts every date. `"Weekend"` accepts exactly days 0 and 6. `"Weekdays"` accepts exactly days 1–5 and also accepts an unparsable date, because NaN is not a weekend day. Any other availability, including an absent one, accepts nothing. |
| Availability.QuoteInAvailability | main.js:122-126 | A quote is admissible only under a recognised mode. Under `"Weekend"` it is admissible exactly when both legs depart on a weekend day. Under `"Weekdays"` it is admissible exactly when neither leg does. Under `"Anytime"` it is always admissible. |
| Availability.WeekendWeekdaysPartition | main.js:128-136 | On a parsed date, exactly one of `"Weekend"` and `"Weekdays"` admits it. |
| Dict.DictByLastWins | main.js:138-147 | The index built by the `forEach` holds the key of every element, and each key maps to the last element carrying it. |
| Dict.CreateDictBy | main.js:138-147 | The loop's dictionary equals `DictBy`, the last-write-wins index of the whole array. |
| Sequences.Select | main.js:41-43 | The filtered array is no longer than its input. |
| Sequences.SelectMembers | main.js:41-43 | The filter keeps exactly the elements its callback accepts: every survivor is an input element the callback accepts, and every accepted input element survives. |
| Sequences.SortBy | main.js:40 | The sorted array has the input's length. |
| Sequences.SortByPermutes | main.js:40 | Sorting is a permutation of the input. |
| Sequences.SortBySorted | main.js:40 | The sorted array is non-decreasing by the key. |
| Sequences.SortByIsStableSort | main.js:40 | `_.sortBy` is a stable sort: a permutation, the same length, non-decreasing by the key, and the elements sharing any one key keep their input order. |
| Sequences.SelectSortBy | main.js:40-43 | Filtering after the stable sort gives the same array as sorting the filtered input. |
| Recommend.PlaceIndexLookup | main.js:49-50 | A name read from the places index is the name of the last place with that id. An id absent from the index belongs to no place. |
| Recommend.RankedQuotes | main.js:40-43 | The quotes `getFlights` walks (the stable sort by `MinPrice`, then the availability filter) are never more than the input quotes. `RankedQuotesAreSortedAdmissible` and `RankedQuotesWithinAvailability` state what they are. |
| Recommend.QuoteIndexLookup | main.js:66-72 | A quote read from the quotes index is the last quote in `Quotes` with that id. An id absent from the index belongs to no quote, so `quotes[id]` is `undefined`. |
| Recommend.RankedQuotesAreSortedAdmissible | main.js:40-43 | The quotes `getFlights` walks are the admissible input quotes in stable `MinPrice` order: as many as there are admissible quotes, and sorted. |
| Recommend.RankedQuotesWithinAvailability | main.js:41-43 | Every ranked quote is an input quote within availability. With an unrecognised availability, none is ranked. |
| Recommend.JoinFlight | main.js:46-59 | One loop step succeeds exactly when both outbound place ids resolve. It then builds the entry from the places' names, `MinPrice`, both departure dates and the fixed image URL. Otherwise it fails on the origin id first, then on the destination id. |
| Recommend.FlightsOutcomeMeaning | main.js:35-63 | `getFlights` succeeds exactly when the first min(3, ranked) quotes all resolve their places. It then answers min(3, number of admissible quotes) entries in non-decreasing price order, each naming the places of its outbound leg. A failure names a place id that no place has. An unrecognised availability answers `[]`. |
| Recommend.GetFlights | main.js:35-63 | The loop yields the joined first min(3, ranked) quotes, or the first join error. Its answer has min(3, admissible quotes) entries in price order. It fails only on an unknown place. An unrecognised availability answers `[]`. |
| Recommend.AdmitsRouteMeaning | main.js:72-77 | This is the callback, the function `AdmitsRoute`. It returns true only at a quote id that resolves to an admissible quote after every earlier id resolved to an inadmissible one. It returns false only when every id resolves and none is admissible, and a route with no quote ids is rejected. It throws only on an unresolved id reached after every earlier id resolved to an inadmissible quote, and then its error names that id. A route whose ids all resolve never throws. |
| Recommend.AdmitsRouteAt | main.js:72-77 | The converse direction. Once the walk has passed the first `i` ids, each resolved and inadmissible, the next id decides. An unresolved id throws `UnknownQuote` with that id. An admissible quote returns true. No id left returns false. |
| Recommend.PassingRouteAdmissible | main.js:71-77 | A route the callback accepts has a quote id that resolves to a quote within availability. |
| Recommend.RouteAdmissible | main.js:71-78 | The callback's early-return loop over the mapped quotes computes `AdmitsRoute` on the route's quote ids. |
| Recommend.FilterRoutesSucceeds | main.js:71-78 | The route filter `FilterRoutes` succeeds exactly when the callback succeeds on every route. |
| Recommend.FilterRoutesKeeps | main.js:71-78 | A successful route filter keeps exactly the routes whose callback returned true, in input order. |
| Recommend.FilterRoutesFirstError | main.js:71-78 | A failing route filter fails with the error of the first route whose callback throws; the callbacks of all earlier routes succeeded. |
| Recommend.FilterRoutesMeaning | main.js:71-78 | The route filter succeeds exactly when the callback succeeds on every route. It then keeps the passing routes in order. Otherwise it fails with the error of the first route whose callback throws. |
| Recommend.RankedRoutesAreSortedPassing | main.js:70-78 | `RankedRoutes` is the routes `getCountries` walks: the stable sort by `Price`, then the route filter. When that filter succeeds, the ranked routes are the passing input routes in stable `Price` order, and they are sorted. |
| Recommend.RankedRoutesWithinAvailability | main.js:70-78 | Every ranked route is an input route with a quote id that resolves to an admissible quote. With an unrecognised availability, no route is ranked. |
| Recommend.JoinCountry | main.js:81-88 | One loop step succeeds exactly when `routes[i]` exists and its destination resolves. It then builds the entry from the destination name, `Price` and the fixed image URL. Reading past the end fails with `NoRouteAt(i)`, and a missing destination fails with `UnknownPlace`. |
| Recommend.CountriesOutcomeMeaning | main.js:64-92 | `getCountries` succeeds exactly when the filter succeeds, at least three routes pass, and their three destinations resolve. It then answers exactly three entries in non-decreasing price order, each naming its route's destination. Fewer than three passing routes, including under an unrecognised availability, make it fail. |
| Recommend.GetCountries | main.js:64-92 | The method yields the filter's error, the three joined cheapest passing routes, or the first failing read. Fewer than three ranked routes fail. A success holds three entries in price order. An unrecognised availability fails. |

## Left out

- The Express application, its two route handlers and the promise plumbing (main.js:1-32) are left out. The model starts from the parsed JSON payload and the `availability` query value. An uncaught TypeError reaches the client through `.catch`; the model returns it as a `Failure`.
- The upstream HTTP requests `getRequestFlights` and `getRequestCountries` (main.js:94-120), `dotenv` and the port setting (main.js:7, 13) are I/O. They are not part of this model.
- Date parsing and the server's time zone are not modelled. Each leg carries its `Day` as an input, alongside the date text that is copied into the answer.
- Prices are modelled as integers. JavaScript numbers are floating point, and NaN or missing sort keys (which `_.sortBy` orders in its own way) are not modelled.
- The payload is typed. Missing or ill-typed fields are not modelled, such as an absent `Quotes` array or a leg without a `DepartureDate`; a route without `QuoteIds` is modelled by an empty list.
- Place and quote ids are integers. JavaScript's coercion of object keys to strings is not modelled.
- A TypeError's message text is replaced by the `Error` value naming its cause.
- An `availability` query parameter given several times arrives as an array in Express. That array is not modelled; such a value matches no mode, which the model's unrecognised `Some(...)` values cover.
- `_.map` in the route callback is modelled by a sequence comprehension.
  - The filter is modelled over `AdmitsRoute`, a recursive function.
  - `RouteAdmissible`, the loop as written, is proved to compute it.
- The arrays `getFlights` and `getCountries` push to are modelled as sequences extended by appending.
- The fixed image URL is kept as the source writes it. The source has no image lookup.
