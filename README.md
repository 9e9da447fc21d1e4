# BookFinder search component — a Dafny model

BookFinder is a client-side book search page: a single React component,
`components/Book.jsx`, queries the Open Library search endpoint by title,
filters the results by author and year on the client, paginates them at 100
per page, and keeps a list of favorite books. This project models the logic
inside that component and proves properties of it:

- the favorites list updaters `addFavorite`, `removeFavorite` and the query
  `isFavorited` (module `Favorites`), over the array methods `find`, `some` and
  `filter` (module `Sequences`);
- the mapping of a parsed response into book records, with its defaults for a
  missing author list, document list and match count (module `Books`);
- the result filter applied inside `fetchResults` (module `ResultFilter`), over
  the string operations it uses: `toLowerCase`, `includes`, `join`, `trim` and
  `String(n)` (module `JsStrings`);
- the page count and the Prev/Next clamps (module `Pagination`);
- the component's state and the effects and handlers that change it, as the
  class `BookComponent` (module `Search`): the query effect with its reset on a
  blank query, the debounce timer's callback, submit, the page effect with its
  last-query guard, the start and the end of `fetchResults`, the pagination
  buttons, the filter inputs and the favorites buttons.

The network, the timer and React's scheduling are not modelled: a fetch is a
`FetchRequest` the methods return, its result is a `FetchOutcome` given to
`Complete`, the debounce firing is a call to `DebounceElapsed`, and the page
effect is a call to `PageChanged` that the caller makes after changing `page`.

The page guard evidently intends that the first Next after a search fetches
the next page; the code as written does not (see Findings). The model has
both halves: the members named "as written" (`BeginFetchAsWritten`,
`DebounceElapsedAsWritten`, `SubmitAsWritten`, `NextAfterSearchAsWritten`)
follow the code, and the corrected members (`BeginFetch`, `DebounceElapsed`,
`Submit`, `NextAfterSearch`) record the query of every dispatched fetch as the
last one. Submitting fetches page 1 but leaves `page` as it was, in both.

## Model

| member | source | states |
|---|---|---|
| `Sequences.Filter` | components/Book.jsx:72-84 | the filtered array is no longer than the input and holds only input elements that satisfy the predicate |
| `Sequences.Exists` | components/Book.jsx:105-107 | `some` holds exactly when some index holds an element satisfying the predicate |
| `Sequences.Find` | components/Book.jsx:96 | `find` is absent exactly when no element satisfies the predicate, otherwise it returns the element at the first index that does |
| `Sequences.FilterIsSubsequence` | components/Book.jsx:72-84 | a filtered array keeps the relative order of the input (it is a subsequence) |
| `Sequences.FilterCounts` | components/Book.jsx:72-84 | an element satisfying the predicate is kept exactly as often as it occurs; any other element is dropped |
| `Sequences.FilterAllPass` | components/Book.jsx:72-84 | filtering by a predicate every element satisfies returns the input unchanged |
| `JsStrings.ToLower` | components/Book.jsx:77-78 | lower-casing keeps the length and lowers each character where it stands |
| `JsStrings.ToLowerIdempotent` | components/Book.jsx:77-78 | lower-casing twice equals lower-casing once |
| `JsStrings.Includes` | components/Book.jsx:78 | `includes` holds exactly when the search string occurs at some index |
| `JsStrings.Join` | components/Book.jsx:76 | joining no names gives the empty string; joining one name gives that name |
| `JsStrings.JoinLength` | components/Book.jsx:75-76 | joining one or more names gives their total length plus one separator between each two consecutive names |
| `JsStrings.JoinContainsPart` | components/Book.jsx:75-76 | every name occurs in the names joined with a separator |
| `JsStrings.TrimStart` | components/Book.jsx:29 | the result is the suffix left after removing the leading whitespace, and does not start with whitespace |
| `JsStrings.TrimEnd` | components/Book.jsx:29 | the result is the prefix left after removing the trailing whitespace, and does not end with whitespace |
| `JsStrings.Trim` | components/Book.jsx:29 | `trim()`: trailing and then leading JavaScript whitespace removed; its contract is stated by `TrimStart`, `TrimEnd` and `TrimEmptyIff` |
| `JsStrings.TrimEmptyIff` | components/Book.jsx:29 | the trimmed query is empty exactly when every character is whitespace |
| `JsStrings.NatToString` | components/Book.jsx:81 | the decimal form of a natural number is a non-empty string of digits |
| `JsStrings.NatToStringNoLeadingZero` | components/Book.jsx:81 | the decimal form of a positive number does not start with 0, so a zero-padded year filter matches no year |
| `JsStrings.IntToString` | components/Book.jsx:81 | `String()` of an integer year: an optional minus sign and the decimal digits; stated by `ParseIntToString`, `IntToStringInjective`, `IntToStringNotUndefined` and `NatToStringNoLeadingZero` |
| `JsStrings.ParseIntToString` | components/Book.jsx:81 | reading back the decimal form of an integer gives the integer |
| `JsStrings.IntToStringInjective` | components/Book.jsx:81 | two integers with the same string form are equal |
| `JsStrings.IntToStringNotUndefined` | components/Book.jsx:81 | no integer stringifies as "undefined" |
| `Books.ToRecord` | components/Book.jsx:64-70 | the map callback that turns one document into a record; stated by `ToRecordFields`, `ToRecordRoundTrip` and `ToRecordEqualIff` |
| `Books.MapDocs` | components/Book.jsx:64-70 | `docs.map(...)` over the document list; stated by `MapDocsAt` |
| `Books.ResponseDocs` | components/Book.jsx:64 | the records mapped from `data.docs`, none when the list is missing; stated by `ResponseDefaults` |
| `Books.ResponseCount` | components/Book.jsx:63 | the count `data.numFound`, or 0 when it is missing; stated by `ResponseDefaults` |
| `Books.ToRecordFields` | components/Book.jsx:64-70 | a record keeps the document's key, title, year and cover; a missing author list becomes empty and a present one is kept |
| `Books.ToRecordRoundTrip` | components/Book.jsx:64-70 | a record rebuilt from its document with authors present is the record itself |
| `Books.ToRecordEqualIff` | components/Book.jsx:64-70 | two documents give the same record exactly when they agree once a missing author list is read as empty |
| `Books.MapDocsAt` | components/Book.jsx:64-70 | mapping keeps the number of documents and maps each one where it stands |
| `Books.ResponseDefaults` | components/Book.jsx:63-64 | a missing document list gives no records; a missing count gives 0; a present count is kept |
| `Favorites.IsFavorited` | components/Book.jsx:105-107 | `isFavorited(key)`: whether some favorite carries the key; stated by `IsFavoritedIff` |
| `Favorites.AddFavorite` | components/Book.jsx:94-99 | the updater of `addFavorite`: the list unchanged when the key is present, otherwise the book in front; stated by `AddFavoriteExisting`, `AddFavoriteNew`, `AddFavoriteThenFavorited`, `AddFavoriteOtherKeys` and `AddFavoriteUnique` |
| `Favorites.RemoveFavorite` | components/Book.jsx:101-103 | the updater of `removeFavorite`: every entry with the key dropped, the rest kept in order; stated by `RemoveFavoriteKeeps`, `RemoveFavoriteNotFavorited`, `RemoveFavoriteAbsent`, `RemoveFavoriteOtherKeys` and `RemoveFavoriteUnique` |
| `Favorites.IsFavoritedIff` | components/Book.jsx:105-107 | a key is a favorite exactly when some entry carries it |
| `Favorites.AddFavoriteExisting` | components/Book.jsx:96 | adding a book whose key is present returns the list unchanged |
| `Favorites.AddFavoriteNew` | components/Book.jsx:97 | adding a new key makes the list one longer, with the book first and the old list behind it in order |
| `Favorites.AddFavoriteThenFavorited` | components/Book.jsx:94-98 | after adding, the book's key is a favorite, and adding the book again changes nothing |
| `Favorites.AddFavoriteOtherKeys` | components/Book.jsx:94-98 | adding leaves the membership of every other key as it was |
| `Favorites.AddFavoriteUnique` | components/Book.jsx:94-98 | adding keeps the keys unique |
| `Favorites.RemoveFavoriteKeeps` | components/Book.jsx:101-103 | removing keeps exactly the entries with another key, as often as before and in their original order |
| `Favorites.RemoveFavoriteNotFavorited` | components/Book.jsx:101-103 | after removing a key it is no favorite |
| `Favorites.RemoveFavoriteAbsent` | components/Book.jsx:101-103 | removing a key no entry has leaves the list unchanged |
| `Favorites.RemoveFavoriteOtherKeys` | components/Book.jsx:101-103 | removing leaves the membership of every other key as it was |
| `Favorites.FilterUnique` | components/Book.jsx:102 | any filter of a list with unique keys has unique keys |
| `Favorites.RemoveFavoriteUnique` | components/Book.jsx:101-103 | removing keeps the keys unique |
| `ResultFilter.YearString` | components/Book.jsx:81 | `String(doc.first_publish_year)`, "undefined" for a missing year; stated by `YearFilterExact` and `MissingYearQuirk` |
| `ResultFilter.PassesAuthor` | components/Book.jsx:73-80 | the author test of the filter callback; stated by `AuthorNameMatchPasses`, `NoAuthorsFailAuthorFilter` and `AuthorFilterSpansNames` |
| `ResultFilter.PassesYear` | components/Book.jsx:81-82 | the year test of the filter callback; stated by `YearFilterExact`, `YearFilterSelectsOneYear` and `MissingYearQuirk` |
| `ResultFilter.FilterResults` | components/Book.jsx:72-85 | `docs.filter(...)` with both tests; stated by `FilterResultsSpec`, `FilterResultsDrops`, `FilterResultsNoFilters` and `FilterResultsEveryYearMatches` |
| `ResultFilter.FilterResultsSpec` | components/Book.jsx:72-84 | the result is a subsequence of the mapped documents; every kept document passes the author test and the year test of each non-empty filter; every passing document is kept as often as it occurs and every other one is dropped |
| `ResultFilter.FilterResultsDrops` | components/Book.jsx:72-84 | a document failing either test is not in the result |
| `ResultFilter.FilterResultsNoFilters` | components/Book.jsx:72-84 | with both filters empty the result is the mapped documents |
| `ResultFilter.FilterResultsEveryYearMatches` | components/Book.jsx:81-82 | with no author filter and every year matching, the result is the mapped documents |
| `ResultFilter.AuthorNameMatchPasses` | components/Book.jsx:73-80 | a document passes the author filter when one author name contains it, ignoring ASCII case |
| `ResultFilter.NoAuthorsFailAuthorFilter` | components/Book.jsx:73-80 | a non-empty author filter drops a document without authors |
| `ResultFilter.AuthorFilterSpansNames` | components/Book.jsx:75-78 | the author filter "Austen Leo" matches the authors Jane Austen and Leo Tolstoy, across the joining space |
| `ResultFilter.YearFilterExact` | components/Book.jsx:81-82 | for a document with a year, a non-empty year filter passes exactly on that year's decimal form |
| `ResultFilter.YearFilterSelectsOneYear` | components/Book.jsx:81-82 | documents with years that pass the same non-empty year filter have the same year |
| `ResultFilter.MissingYearQuirk` | components/Book.jsx:81-82 | a document without a year passes a non-empty year filter exactly when it is "undefined"; no document with a year passes "undefined" |
| `ResultFilter.ScenarioAuthorFilter` | components/Book.jsx:72-84 | of an Austen and a Tolstoy result, the author filter "austen" keeps only the Austen one |
| `ResultFilter.ScenarioYearFilter` | components/Book.jsx:72-84 | of the same two results from 1813, the year filter "1813" keeps both |
| `ResultFilter.ScenarioBothFilters` | components/Book.jsx:72-84 | the author filter "austen" with the year filter "1900" keeps neither |
| `Pagination.TotalPages` | components/Book.jsx:115 | the page count is at least 1, is 1 up to 100 matches, and for a positive count is the least number of 100-document pages that holds all matches |
| `Pagination.PrevPage` | components/Book.jsx:236 | `Math.max(1, p - 1)`; stated by `PrevNextStayInRange`, `EnabledButtonsMoveOnePage` and `ClampsAtTheEnds` |
| `Pagination.NextPage` | components/Book.jsx:245 | `Math.min(totalPages, p + 1)`; stated by `PrevNextStayInRange`, `EnabledButtonsMoveOnePage` and `ClampsAtTheEnds` |
| `Pagination.PrevDisabled` | components/Book.jsx:235 | Prev is disabled on page 1; stated by `EnabledButtonsMoveOnePage` |
| `Pagination.NextDisabled` | components/Book.jsx:244 | Next is disabled from the last page on; stated by `EnabledButtonsMoveOnePage` |
| `Pagination.TotalPagesOf250` | components/Book.jsx:115 | 250 matches make three pages |
| `Pagination.TotalPagesExact` | components/Book.jsx:115 | a count between (t-1)*100 exclusive and t*100 inclusive gives t pages |
| `Pagination.PrevNextStayInRange` | components/Book.jsx:236-245 | from a page between 1 and the page count, Prev and Next stay in that range |
| `Pagination.EnabledButtonsMoveOnePage` | components/Book.jsx:234-248 | when its button is enabled, Prev goes back exactly one page and Next forward exactly one |
| `Pagination.ClampsAtTheEnds` | components/Book.jsx:236-245 | Prev from page 1 and Next from the last page leave the page where it is |
| `Search.IsBlank` | components/Book.jsx:29 | `!query.trim()`; stated by `IsBlankIff` |
| `Search.IsOk` | components/Book.jsx:61 | `res.ok`: a status from 200 to 299; used by the contract of `BookComponent.Complete` |
| `Search.HttpErrorMessage` | components/Book.jsx:61 | the message "HTTP <status>"; stated by `HttpErrorMessageStatus` |
| `Search.HttpErrorMessageStatus` | components/Book.jsx:61 | the error message starts with "HTTP " and the status reads back from the rest |
| `Search.IsBlankIff` | components/Book.jsx:29 | a query counts as empty exactly when it is all whitespace |
| `Search.BookComponent.constructor` | components/Book.jsx:6-21 | the initial state: empty query, results, filters and last query, not loading, no error, page 1, count 0, the stored favorites |
| `Search.BookComponent.QueryChanged` | components/Book.jsx:27-42 | a blank query resets results, count, page and error and schedules no fetch; any other query schedules one and leaves them alone |
| `Search.BookComponent.BeginFetch` | components/Book.jsx:44-55 | the corrected start of a fetch: loading on, error cleared, the current filters captured, and the query recorded as the last one, as the page effect does at line 49 but `fetchResults` does not |
| `Search.BookComponent.BeginFetchAsWritten` | components/Book.jsx:53-55 | the start of a fetch as written: loading on, error cleared, the current filters captured, the last query left alone |
| `Search.BookComponent.DebounceElapsed` | components/Book.jsx:36-39 | the corrected timer callback: the page goes back to 1 and page 1 of the current query is fetched through the corrected start |
| `Search.BookComponent.DebounceElapsedAsWritten` | components/Book.jsx:36-39 | the timer callback as written: the page goes back to 1 and page 1 of the current query is fetched, the last query left alone |
| `Search.BookComponent.Submit` | components/Book.jsx:142-145 | the corrected submit: page 1 of the current query is fetched through the corrected start, and the page does not change |
| `Search.BookComponent.SubmitAsWritten` | components/Book.jsx:142-145 | submit as written: page 1 of the current query is fetched, the page does not change and the last query is left alone |
| `Search.BookComponent.PageChanged` | components/Book.jsx:44-51 | after a page change: nothing for a blank query; a fetch of the current page when the query is the last one; otherwise the query is only remembered |
| `Search.BookComponent.Complete` | components/Book.jsx:60-91 | a success status sets the count and the filtered mapped documents (a subsequence of them); another status sets the error "HTTP <status>"; a rejection sets its message; on failure results and count stay; loading ends |
| `Search.BookComponent.PrevClicked` | components/Book.jsx:232-236 | a click on the shown, enabled Prev button (matches exist, not on page 1) sets the page to the clamped previous one, exactly one page back, within the page count |
| `Search.BookComponent.NextClicked` | components/Book.jsx:232-245 | a click on the shown, enabled Next button (matches exist, before the last page) sets the page to the clamped next one, exactly one page forward, within the page count |
| `Search.BookComponent.SetAuthorFilter` | components/Book.jsx:164 | the author filter takes the typed text and nothing else changes |
| `Search.BookComponent.SetYearFilter` | components/Book.jsx:169 | the year filter takes the typed text and nothing else changes |
| `Search.BookComponent.ClearFilters` | components/Book.jsx:173-176 | Clear empties both filters and leaves the results alone |
| `Search.BookComponent.AddFavorite` | components/Book.jsx:94-98 | Save applies the add updater; the book is a favorite afterwards and unique keys stay unique |
| `Search.BookComponent.RemoveFavorite` | components/Book.jsx:101-103 | Remove applies the remove updater; the key is no favorite afterwards and unique keys stay unique |
| `Search.ClearQuery` | components/Book.jsx:27-34 | from any state, a whitespace-only query is stored, results are emptied, the count zeroed, page 1 set, the error cleared and no fetch scheduled; favorites, filters, loading and the last query are outside the frame and stay |
| `Search.SearchReturning120` | components/Book.jsx:27-91 | from the initial state, a non-blank query, the debounce and a response of 120 matches leave page 1, count 120, empty filters, and the last query recorded only by the corrected fetch start |
| `Search.NextAfterSearch` | components/Book.jsx:44-51 | after a fresh search with 120 matches, Next shows page 2 and fetches page 2 of the query |
| `Search.NextAfterSearchAsWritten` | components/Book.jsx:44-51 | with the code as written, the same steps show page 2 and fetch nothing |

## Left out

- The `fetch` call, the URL built with `encodeURIComponent`, the HTTP exchange and `res.json()`: network I/O and library code. `Complete` takes the status and the already-parsed body, or the message of the rejection.
- `localStorage` and `JSON.parse`/`JSON.stringify` for the favorites: persistence through library codecs whose behaviour is not modelled, so the persist-and-reload round trip is not stated. The constructor takes the stored list as a parameter.
- The 500 ms timer, its cancellation on every edit and teardown: `QueryChanged` reports that a fetch is scheduled and `DebounceElapsed` is its callback. Because every edit cancels the timer, the callback always sees the current query.
- React's scheduling: which effects run after which render, batching, and the bail-out when `setPage(1)` does not change the page. The caller of the class calls `PageChanged` after a change of `page`.
- Concurrent fetches: nothing orders them, and `Complete` applies whatever outcome it is given, with no check that it belongs to the latest request, as the code does; `loading` is a single flag that the first completion turns off.
- The filters a fetch uses are those of the render in which `fetchResults` was captured; the model takes them at the start of the fetch, which is that render except for the debounce, where it is the render of the last edit.
- All rendering: the JSX, CSS, icons, the cover and link URLs (`coverUrl`), the "Unknown" and placeholder texts and the search/favorites view toggle.
- JsStrings.ToLower: lowers the ASCII letters only; JavaScript's `toLowerCase` applies the full Unicode case mapping.
- JsStrings.IntToString: gives the decimal form of an integer; `String()` of a non-integer, of a number of magnitude 10^21 or more (exponent notation) or of `null` is not modelled, and a year is an optional integer, so a `null` year (which stringifies as "null") is read as missing.
- Books.ToRecord: assumes every document has a key and a title; `title: d.title` passing `undefined` through is not modelled. The body is assumed well-shaped: a `docs` that is not an array, or an `author_name` that is not an array while the author filter is non-empty, throws after `setNumFound` at line 63 has already changed the count; the typed `RawResponse` cannot express such a body, so the `Complete` row's "on failure results and count stay" covers only HTTP errors and rejections.
- Books.ResponseCount: a count is an optional integer, so a `null`, `NaN` or non-numeric count is read as missing.

## Findings

| source | as written | input that shows it | evidently intended | confidence | as-written member | corrected member |
|---|---|---|---|---|---|---|
| components/Book.jsx:44-51 | `lastQueryRef.current` is assigned only inside the page effect, never when a query's fetch is dispatched, so the first page change after a new search only records the query | from the initial state, query "dune" (or any non-blank query), the debounce fires, 120 matches arrive, Next is clicked: the page shows 2 and no fetch of page 2 is issued | the guard compares the page change with the query of the last dispatched fetch, so Next fetches page 2 of "dune" | medium; not executed | `Search.NextAfterSearchAsWritten` | `Search.NextAfterSearch` |

The corrected model records the query in `BeginFetch`; the rest of the model
uses it. The submit path has the same gap: `SubmitAsWritten` fetches page 1
without recording the query, while `Submit` records it. With that change the page effect that follows the debounce's
`setPage(1)` from a later page refetches page 1 of the same query once more.
