# LEGO deals dashboard: deal search and client helpers in Dafny

This project models the pure logic of a small LEGO-deals application: an
Express API that serves stored deals, and a browser dashboard that lists
them and the matching resale listings ("sales").

- **Deal search** (`server/api.js`, the `/deals/search` handler once the
  stored deals are in memory). Each deal's `price` and `discount` text is
  cleaned into `priceValue` and `discountValue`. Deals above an optional
  price ceiling are dropped. The rest are stable-sorted on the key that
  `filterBy` selects, with null keys counted as 0. The first `limit` deals
  are returned, and `total` is set to the number returned.
- **Dashboard helpers** (`client/v2/portfolio.js`). These are the set-id
  list for the id picker, the page count and page options of the pager,
  the parsing of a sale's `D/M/Y T` published time, and the oldest-first
  order of sales.
- **The second id helper** (`client/v2/utils.js`). It keeps only non-blank
  string ids, then removes repeats.

Modules, one per source concern:

| file | module | models |
|---|---|---|
| `js_values.dfy` | `JsValues` | `null`/absent values; JavaScript values, truthiness, `>` on numbers with NaN, ToNumber, truncation toward zero |
| `js_strings.dfy` | `JsStrings` | `trim`, `replace` with a one-character pattern, `split`/`join`, `parseInt`, the text of a number |
| `stable_sort.dfy` | `StableSort` | `Array.prototype.sort` with a numeric comparator, as a stable insertion sort |
| `filtering.dfy` | `Filtering` | `Array.prototype.filter` |
| `dedupe.dfy` | `Dedupe` | `Array.from(new Set(xs))` |
| `deal_search.dfy` | `DealSearch` | the `/deals/search` pipeline |
| `portfolio.dfy` | `Portfolio` | the dashboard helpers, and how the pager combines with the server's `total` |
| `utils.dfy` | `Utils` | the utility-script `getIdsFromDeals`, and how it relates to the dashboard's version |

Parameters stand in for code the model does not define. The host's
number conversions are a pair of functions `string -> Number` (`Host`):
`parseFloat`, and the string-to-number conversion that subtraction
applies to a text operand. The `Date` parser is a function
`string -> Number` that gives NaN for an invalid date. `parseInt` is
defined in full: white space, sign, `0x` prefix, longest digit run, NaN
when there are no digits.

Two behaviours of the code are worth knowing:
- A published time without a time part gets no default time. The text
  handed to the date parser ends in `Tundefined`.
- The page count is `Math.ceil(total / size)`, so no deals means no pages.

## Model

| member | source | states |
|---|---|---|
| `JsValues.Truthy` | client/v2/portfolio.js:22 | ToBoolean (section 7.1.2 of ECMA-262), the test `filter(Boolean)` applies: `undefined`, `null`, `false`, 0, NaN and `''` are false, everything else true; `Portfolio.BlankIdKept` and `Utils.NonBlankIsTruthy` give it meaning |
| `JsValues.Greater` | server/api.js:70 | `>` on numbers, false when either side is NaN; `DealSearch.CeilingBound` gives the ceiling test its meaning |
| `JsValues.ToNumber` | server/api.js:80 | ToNumber (section 7.1.4 of ECMA-262) as subtraction applies it; `DealSearch.KeyNumber` states it case by case |
| `JsValues.Truncate` | server/api.js:83 | ToIntegerOrInfinity on a finite number: the integer nearest to zero within one of the input, on the same side of zero |
| `JsStrings.Trim` | server/api.js:54 | what `trim` leaves neither starts nor ends with white space |
| `JsStrings.TrimSpec` | server/api.js:54 | `trim` removes only white space, only at the two ends: the result is a slice of the input that neither starts nor ends with white space |
| `JsStrings.TrimEmptyIffBlank` | client/v2/utils.js:12 | `id.trim() !== ''` holds exactly when the id has a character that is not white space |
| `JsStrings.ReplaceFirst` | server/api.js:54 | `replace` with a one-character pattern changes nothing when the character is absent; otherwise the length changes by `|repl| - 1` |
| `JsStrings.ReplaceFirstAt` | server/api.js:54 | the first occurrence of the character, and only that one, is replaced by the replacement text, and the text on both sides of it is kept |
| `JsStrings.ReplaceFirstContents` | server/api.js:59 | replacing removes exactly one occurrence of the character and adds the replacement's characters |
| `JsStrings.ReplaceFirstKeepsPrefix` | server/api.js:54 | the text before the first occurrence, and the text after it, are kept |
| `JsStrings.ReplaceFirstAfter` | server/api.js:54 | when the text before a `c` holds no `c`, that `c` is the one replaced |
| `JsStrings.Split` | client/v2/portfolio.js:88-89 | `split` gives at least one piece, and no piece holds the separator |
| `JsStrings.SplitPiecesAvoid` | client/v2/portfolio.js:89 | a character absent from the input is absent from every piece of its split |
| `JsStrings.JoinSplit` | client/v2/portfolio.js:88-89 | `split` loses nothing: joining the pieces with the separator gives the input back |
| `JsStrings.SplitJoin` | client/v2/portfolio.js:88-89 | pieces without the separator come back unchanged from a join followed by a split |
| `JsStrings.ParseInt` | server/api.js:83 | `parseInt` gives NaN or an integer, never a fraction |
| `JsStrings.ParseIntDigits` | server/api.js:59 | `parseInt` of a run of decimal digits is the number they denote |
| `JsStrings.DecimalString` | client/v2/portfolio.js:34 | the text `${size}` and `${page}` put in the request URL: one or more decimal digits, with no leading zero; `DecimalStringValue` and `ParseIntDecimal` give its value |
| `JsStrings.DecimalStringValue` | client/v2/portfolio.js:34 | the digits of `${n}` denote `n` |
| `JsStrings.ParseIntDecimal` | server/api.js:83 | `parseInt` reads back any non-negative integer from its decimal text (as the client sends `limit=${size}`) |
| `JsStrings.ParseIntExample` | server/api.js:59 | `parseInt("30")` is 30 |
| `Filtering.Filter` | server/api.js:69-74 | `filter` keeps only elements that pass, keeps every element that passes, and never lengthens the list |
| `StableSort.Sort` | server/api.js:76-81 | the sort returns a permutation of its input in ascending key order, and the elements of each key value keep their input order (stability) |
| `StableSort.SortIsTheStableSort` | server/api.js:76-81 | any sorted rearrangement that keeps each key's input order equals `Sort`, so the model is what every stable sort returns |
| `Dedupe.Distinct` | client/v2/portfolio.js:22 | `Array.from(new Set(xs))` has no repeats and holds exactly the values of `xs` |
| `Dedupe.DistinctFirstOccurrenceOrder` | client/v2/portfolio.js:22 | values come in the order of their first occurrence in the input |
| `Dedupe.ArrayFromSet` | client/v2/utils.js:11-13 | walking the input with a seen-set and appending unseen values yields `Distinct`, duplicate-free and complete |
| `Dedupe.DistinctFilterCommute` | client/v2/utils.js:11-12 | filtering then removing repeats equals removing repeats then filtering |
| `DealSearch.CleanPriceText` | server/api.js:54 | the cleaned price text is no longer than the input and neither starts nor ends with white space; text with no `€` and no `,` is only trimmed; `CleanPriceTextEuro` gives the value of a euro price |
| `DealSearch.CleanDiscountText` | server/api.js:59 | the cleaned discount text is no longer than the input and neither starts nor ends with white space; text with no `%` and no `-` is only trimmed; `CleanDiscountTextPercent` gives the value of a percentage |
| `DealSearch.CleanAll` | server/api.js:51 | `deals.map(...)`: one cleaned deal per stored deal, at the same position |
| `DealSearch.CleanAllAppend` | server/api.js:51 | cleaning distributes over concatenation of the stored deals |
| `DealSearch.Clean` | server/api.js:51-67 | `priceValue` (`discountValue`) is null exactly when `price` (`discount`) is not a string: a string never gives null, even when it does not parse |
| `DealSearch.CleanPriceTextEuro` | server/api.js:54 | a price written `<units>,<cents>€` becomes the decimal text `<units>.<cents>` |
| `DealSearch.CleanPriceTextPlain` | server/api.js:54 | a price with no `€` and no `,` is only trimmed |
| `DealSearch.CleanDiscountTextPercent` | server/api.js:59 | a discount written `-<digits>%` becomes the digits |
| `DealSearch.CleanEuroPrice` | server/api.js:52-55 | a deal priced `<units>,<cents>€` gets the `parseFloat` of `<units>.<cents>` as its `priceValue` |
| `DealSearch.CleanPercentDiscount` | server/api.js:57-60 | a deal with discount `-<digits>%` gets the integer the digits denote as its `discountValue` |
| `DealSearch.HasCeiling` | server/api.js:70 | the ceiling applies exactly when the `price` parameter is present and truthy |
| `DealSearch.Keep` | server/api.js:69-74 | the filter callback: drop only when a ceiling applies, `priceValue` is not null, and it is greater than the parsed ceiling; `CeilingBound`, `NonStringPriceIsKept` and `NoCeilingKeepsAll` state its cases |
| `DealSearch.Matches` | server/api.js:69-74 | every kept deal is a cleaned stored deal that passes the ceiling, and every cleaned deal that passes is kept |
| `DealSearch.MatchesAppend` | server/api.js:69-74 | the filter keeps stored order: the matches of two runs of deals are the matches of the first followed by those of the second |
| `DealSearch.CeilingBound` | server/api.js:70 | with a numeric ceiling, a deal with a numeric price is kept exactly when its price is at most the ceiling |
| `DealSearch.NoCeilingKeepsAll` | server/api.js:69-74 | with no or an empty `price` parameter, every cleaned deal is kept in stored order |
| `DealSearch.NonStringPriceIsKept` | server/api.js:52-55 | a deal whose `price` is not a string gets a null `priceValue` and is never dropped |
| `DealSearch.SortSpecOf` | server/api.js:43-46 | the key is `discountValue` exactly for `best-discount`, `commentsCount` exactly for `most-commented`, and the order is ascending exactly when the key is `priceValue` |
| `DealSearch.KeyValue` | server/api.js:78-79 | `a[key] ?? 0`'s operand: the computed `priceValue`/`discountValue` (null when absent) or the stored `commentsCount`; `KeyNumber` states what it becomes |
| `DealSearch.KeyNumber` | server/api.js:77-80 | the comparator's operand `a[key] ?? 0` as subtraction converts it: null or absent is 0, a number is itself, text goes through the string-to-number conversion, a boolean is 1 or 0 |
| `DealSearch.TextCommentCountsAreSortable` | server/api.js:45 | comment counts stored as text that converts to numbers make `most-commented` sortable |
| `DealSearch.SortValue` | server/api.js:78-80 | the operand the comparator subtracts: `KeyNumber` of the deal, with a NaN key counted as 0; `Ordered`, and so `Ranked` and `SearchOrder`, state the order in terms of it |
| `DealSearch.Rank` | server/api.js:80 | the direction choice `sort[key] > 0 ? aVal - bVal : bVal - aVal`: the ascending key is the sort value itself, the descending one its negation; `Ranked` and `SearchOrder` show that sorting ascending on it gives the requested direction |
| `DealSearch.Ranked` | server/api.js:76-81 | the sorted matches are a permutation of the matches, ordered on the chosen key and direction with null keys counted as 0 |
| `DealSearch.RankedIsStable` | server/api.js:76 | deals with equal sort keys keep their order in the matches, which `MatchesAppend` ties to the order the database returned them in |
| `DealSearch.LimitNumber` | server/api.js:34 | with no `limit` parameter the limit is 12; otherwise it is `parseInt` of the text, so NaN or an integer |
| `DealSearch.SliceEnd` | server/api.js:83 | `slice(0, end)` truncates the end toward zero, ends at `min(end, n)` for a non-negative end, counts a negative end from the back, and treats NaN as 0 |
| `DealSearch.SliceEndFraction` | server/api.js:83 | a fractional end is truncated toward zero, not floored: `-1.5` on five deals keeps four |
| `DealSearch.OrderedPrefix` | server/api.js:83 | the first deals of an ordered list are ordered |
| `DealSearch.Search` | server/api.js:43-85 | for any stored data: `total` equals the number of results, which is the `slice` end on the matches; every result is a match; `limit` echoes `parseInt(limit)`; the results are the first `total` deals of `Ranked`, ordered on the chosen key |
| `DealSearch.ResultsAreCleanedRows` | server/api.js:62-66 | each result is a stored deal with its stored fields, plus the two cleaned fields computed from it (which replace any stored `priceValue` or `discountValue`) |
| `DealSearch.SearchCount` | server/api.js:83-85 | for a limit that parses to `k >= 0`, `total` is `min(k, number of matches)` |
| `DealSearch.SearchDefaultLimit` | server/api.js:34 | with no `limit`, at most twelve deals are returned |
| `DealSearch.TotalIsNotMatchCount` | server/api.js:85 | with more matches than the limit, `total` reports the limit, not the number of matches |
| `DealSearch.SearchOrder` | server/api.js:43-46 | `best-discount` orders by `discountValue` descending, `most-commented` by `commentsCount` descending, anything else (absent, empty, `hot-deals`, `price-desc`) by `priceValue` ascending |
| `DealSearch.SearchIgnoresPage` | server/api.js:34 | the `page` parameter does not change the response |
| `DealSearch.MostCommentedWithoutCounts` | server/api.js:45 | when no deal has a `commentsCount`, `most-commented` returns the matches in stored order |
| `DealSearch.CleanPriceExample` | server/api.js:54 | `"19,99€"` is cleaned to the text `"19.99"` before number parsing |
| `DealSearch.CleanDiscountExample` | server/api.js:57-60 | a `"-30%"` discount gives 30; a non-string discount gives null |
| `Portfolio.LegoIds` | client/v2/portfolio.js:22 | `deals.map(deal => deal.legoId)`: one id per deal, at the same position |
| `Portfolio.GetIdsFromDeals` | client/v2/portfolio.js:21-23 | the ids are distinct and truthy, each one is some deal's `legoId`, and every truthy `legoId` is listed |
| `Portfolio.GetIdsFirstOccurrenceOrder` | client/v2/portfolio.js:22 | ids come in order of first occurrence among the deals |
| `Portfolio.BlankIdKept` | client/v2/portfolio.js:22 | an id made of spaces only is kept, because it is truthy |
| `Portfolio.PageCount` | client/v2/portfolio.js:42 | `Math.ceil(total/size)`: the pages hold all deals, one page fewer would not, and zero deals give zero pages |
| `Portfolio.PageOptions` | client/v2/portfolio.js:126 | the pager offers exactly the pages 1 to `pageCount`, in increasing order |
| `Portfolio.PageCountWithinOnePage` | client/v2/portfolio.js:42 | at most `size` deals never need more than one page |
| `Portfolio.ClientSeesAtMostOnePage` | client/v2/portfolio.js:34-42 | since the client asks for `limit=size` and the server's `total` is cut at `limit`, the pager shows at most one page, and on any requested page after the first the selected index `currentPage - 1` has no option |
| `Portfolio.ParsePublishedTime` | client/v2/portfolio.js:85-94 | null exactly for a non-string or empty input or a rejected text; otherwise the parsed time, never an invalid date |
| `Portfolio.Piece` | client/v2/portfolio.js:88-90 | a destructured piece as a template literal prints it: the piece, or the text `undefined` when the split gave fewer pieces; `IsoTextDateOnly` shows its effect |
| `Portfolio.IsoText` | client/v2/portfolio.js:88-90 | the text handed to the date parser never holds a space: tokens after the second are dropped |
| `Portfolio.IsoTextOfFields` | client/v2/portfolio.js:88-90 | for `d/m/y t ...` the parser is handed `y-m-dTt`, and tokens after the second are ignored |
| `Portfolio.IsoTextDateOnly` | client/v2/portfolio.js:88-90 | with no time token the parser is handed `y-m-dTundefined`: there is no midnight default |
| `Portfolio.IsoTextExample` | client/v2/portfolio.js:88-90 | `"25/12/2024 10:30:00"` is handed to the parser as `2024-12-25T10:30:00` |
| `Portfolio.SaleTime` | client/v2/portfolio.js:153 | `new Date(a.published)` as a number: the published time, or 0 for a null one; `UndatedSalesFirst` shows its effect |
| `Portfolio.SortSales` | client/v2/portfolio.js:153 | sales are a permutation of the input, oldest first, with a null date counted as time 0 and equal times kept in input order |
| `Portfolio.UndatedSalesFirst` | client/v2/portfolio.js:153 | a sale without a date is listed before every sale dated after 1970 |
| `Utils.NonBlankString` | client/v2/utils.js:12 | `typeof id === 'string' && id.trim() !== ''`: a kept id is a string with a character that is not white space |
| `Utils.NonBlankStringIff` | client/v2/utils.js:12 | the string filter keeps exactly the strings that are not all white space |
| `Utils.GetIdsFromDeals` | client/v2/utils.js:10-14 | the ids are distinct non-blank strings, each one is some deal's `legoId`, and a deal's `legoId` is listed exactly when it is a non-blank string |
| `Utils.GetIdsFirstOccurrenceOrder` | client/v2/utils.js:11 | ids come in order of first occurrence among the non-blank string ids |
| `Utils.AgreesWithPortfolio` | client/v2/utils.js:10-14 | this version returns the dashboard version's list with every id that is not a non-blank string removed |
| `Utils.BlankIdDropped` | client/v2/utils.js:12 | an id made of spaces only is dropped here but kept by the dashboard version |
| `Utils.UntrimmedIdsStayApart` | client/v2/utils.js:12 | ids are not trimmed, so `" 42"` and `"42"` are listed as two ids |

## Left out

- HTTP and persistence are not modelled: Express routing, the 500 error path (`server/api.js:86-89`), and the MongoDB query. The query applies the `date` floor (`server/api.js:38-41`), so the model's input is the list of documents the query returned, in the order it returned them.
- The other routes are not modelled: `/deals/:id` with `isValidObjectId` (a wrapper over the MongoDB `ObjectId` library), and `/sales/search` with its regular-expression title match.
- `parseFloat`, the string-to-number conversion and the `Date` parser are parameters, because the model does not define decimal or date parsing. Only their results matter to the logic.
- Numbers are NaN or finite reals. Infinities and negative zero are not modelled.
- `DecimalString` gives the digits of an integer, which is the JavaScript text of a number only below 10^21. Above that JavaScript prints exponent notation, which is not modelled.
- The response's field map is not modelled as one map. `CleanDeal` keeps the stored deal and the two computed fields apart. In the response the computed fields replace a stored `priceValue` or `discountValue` of the same name.
- `DealSearch.Search`: the order of the results, and with it which matches are returned when there are more than `limit`, is the handler's only when every deal that reaches the sort has a key that converts to a finite number (`SortableMatches`). Numbers, numeric text and booleans are modelled through ToNumber. A key that is or converts to NaN (a price or discount that did not parse, a comment count that is not numeric text, an object) makes the comparator return NaN, and ECMA-262 then leaves the order to the implementation. The model sorts such keys as 0, which is one permitted order, so `SearchOrder` and `RankedIsStable` require `SortableMatches`. The count, the fact that every result is a match, and the ignored `page` hold for any data.
- `ToNumber` of an object is NaN. The model does not follow `valueOf` or `toString`.
- JSON serialisation is not modelled. In the real response, a NaN `priceValue`, `discountValue` or `limit` is sent as `null`.
- Query parameters are modelled as strings or absent. Express can also produce arrays or objects for repeated or nested parameters, and those are not modelled.
- `parseInt` is exact for any number of digits. JavaScript loses precision beyond 2^53.
- `Portfolio.PageCount`: the contract uses exact integer arithmetic for `Math.ceil(total / size)` and assumes `size >= 1`. The page size comes from the page-size selector or the default of 6.
- The client's network calls are not modelled: the `fetch` of `fetchDeals` and its error handling, and `fetchSales` (including its mapping of raw sales) and `fetchIndicators` with theirs (`client/v2/portfolio.js:31-83`). The request parameters of `fetchDeals` and its `pageCount` are modelled (`Portfolio.ClientSeesAtMostOnePage`, `Portfolio.PageCount`).
- DOM code is not modelled: rendering, the HTML text of options, the `selectedIndex` DOM behaviour, and event handlers. The model keeps only the page-option numbers and the sales comparator.
- The scrapers and data-import scripts under `server/` are not modelled. They produce the stored data and are I/O over HTML and JSON.
