/**
 * The component's search state and the handlers and effects that drive it:
 * the query effect (reset on a blank query, otherwise a debounced fetch),
 * the page effect and its last-query guard, submit, the start and the
 * completion of `fetchResults`, the Prev/Next buttons, the filter inputs
 * and the favorites actions.
 */
module Search {
  import opened Wrappers
  import opened Sequences
  import opened JsStrings
  import opened Books
  import opened ResultFilter
  import opened Pagination
  import Favorites

  /** A dispatched fetch: the query and page, and the filters its closure captured. */
  datatype FetchRequest = FetchRequest(query: string, page: int, authorFilter: string, yearFilter: string)

  /** How a fetch ended: an HTTP status with the parsed body, or a rejection carrying its message. */
  datatype FetchOutcome = Response(status: int, body: RawResponse) | Rejected(message: string)

  /** `res.ok`. */
  predicate IsOk(status: int) {
    200 <= status <= 299
  }

  /** The message of the error thrown for a non-success status. */
  function HttpErrorMessage(status: int): string {
    "HTTP " + IntToString(status)
  }

  /** The message starts with "HTTP " and the status can be read back from the rest. */
  lemma HttpErrorMessageStatus(status: int)
    ensures |HttpErrorMessage(status)| > 5 && HttpErrorMessage(status)[..5] == "HTTP "
    ensures ParseInt(HttpErrorMessage(status)[5..]) == status
  {
    var m := HttpErrorMessage(status);
    assert m[5..] == IntToString(status);
    ParseIntToString(status);
  }

  /** `!query.trim()`. */
  predicate IsBlank(q: string) {
    Trim(q) == ""
  }

  /** A query is blank exactly when it consists of whitespace only. */
  lemma IsBlankIff(q: string)
    ensures IsBlank(q) <==> forall i :: 0 <= i < |q| ==> IsJsWhitespace(q[i])
  {
    TrimEmptyIff(q);
  }

  /**
   * The state the component keeps in `useState` and `useRef`. React runs
   * `PageChanged` after every render in which `page` changed; here its
   * caller does.
   */
  class BookComponent {
    var query: string
    var results: seq<BookRecord>
    var loading: bool
    var error: Option<string>
    var page: int
    var numFound: int
    var authorFilter: string
    var yearFilter: string
    var favorites: seq<BookRecord>
    /** `lastQueryRef.current`. */
    var lastQuery: string

    ghost predicate Valid()
      reads this
    {
      page >= 1
    }

    /** The initial state; `stored` is the favorites list read back from storage. */
    constructor (stored: seq<BookRecord>)
      ensures Valid()
      ensures query == "" && results == [] && !loading && error == None
      ensures page == 1 && numFound == 0 && authorFilter == "" && yearFilter == ""
      ensures favorites == stored && lastQuery == ""
    {
      query, results, loading, error := "", [], false, None;
      page, numFound, authorFilter, yearFilter := 1, 0, "", "";
      favorites, lastQuery := stored, "";
    }

    /**
     * The query input changed and the query effect ran: a blank query resets
     * results, count, page and error and schedules nothing; any other query
     * schedules a debounced fetch and touches nothing else.
     */
    method QueryChanged(q: string) returns (scheduled: bool)
      requires Valid()
      modifies this`query, this`results, this`numFound, this`page, this`error
      ensures Valid() && query == q
      ensures scheduled <==> !IsBlank(q)
      ensures !scheduled ==> results == [] && numFound == 0 && page == 1 && error == None
      ensures scheduled ==> results == old(results) && numFound == old(numFound)
                            && page == old(page) && error == old(error)
    {
      query := q;
      if IsBlank(q) {
        results, numFound, page, error := [], 0, 1, None;
        scheduled := false;
      } else {
        scheduled := true;
      }
    }

    /**
     * The start of `fetchResults(q, p)`: loading on, error cleared. The
     * dispatched query is recorded as the last one, so that the page guard
     * compares against it.
     */
    method BeginFetch(q: string, p: int) returns (req: FetchRequest)
      modifies this`loading, this`error, this`lastQuery
      ensures loading && error == None && lastQuery == q
      ensures req == FetchRequest(q, p, authorFilter, yearFilter)
    {
      loading, error, lastQuery := true, None, q;
      req := FetchRequest(q, p, authorFilter, yearFilter);
    }

    /** The start of `fetchResults(q, p)` as written: the last query is left alone. */
    method BeginFetchAsWritten(q: string, p: int) returns (req: FetchRequest)
      modifies this`loading, this`error
      ensures loading && error == None
      ensures req == FetchRequest(q, p, authorFilter, yearFilter)
    {
      loading, error := true, None;
      req := FetchRequest(q, p, authorFilter, yearFilter);
    }

    /** The debounce timer fired: back to page 1 and fetch it for the current query. */
    method DebounceElapsed() returns (req: FetchRequest)
      requires Valid()
      modifies this`page, this`loading, this`error, this`lastQuery
      ensures Valid() && page == 1 && loading && error == None && lastQuery == query
      ensures req == FetchRequest(query, 1, authorFilter, yearFilter)
    {
      page := 1;
      req := BeginFetch(query, 1);
    }

    /** The debounce timer fired, with `fetchResults` as written. */
    method DebounceElapsedAsWritten() returns (req: FetchRequest)
      requires Valid()
      modifies this`page, this`loading, this`error
      ensures Valid() && page == 1 && loading && error == None
      ensures req == FetchRequest(query, 1, authorFilter, yearFilter)
    {
      page := 1;
      req := BeginFetchAsWritten(query, 1);
    }

    /** The search form was submitted, with `fetchResults` as written: fetch page 1 now, without changing `page`. */
    method SubmitAsWritten() returns (req: FetchRequest)
      modifies this`loading, this`error
      ensures loading && error == None
      ensures req == FetchRequest(query, 1, authorFilter, yearFilter)
    {
      req := BeginFetchAsWritten(query, 1);
    }

    /** The search form was submitted, with the corrected start of the fetch: fetch page 1 now, without changing `page`. */
    method Submit() returns (req: FetchRequest)
      modifies this`loading, this`error, this`lastQuery
      ensures loading && error == None && lastQuery == query
      ensures req == FetchRequest(query, 1, authorFilter, yearFilter)
    {
      req := BeginFetch(query, 1);
    }

    /**
     * The page effect: nothing for a blank query; a fetch of the current page
     * when the query is the last one; otherwise only remember the query.
     */
    method PageChanged() returns (req: Option<FetchRequest>)
      modifies this`loading, this`error, this`lastQuery
      ensures IsBlank(query) ==>
        req == None && loading == old(loading) && error == old(error) && lastQuery == old(lastQuery)
      ensures !IsBlank(query) && old(lastQuery) == query ==>
        req == Some(FetchRequest(query, page, authorFilter, yearFilter))
        && loading && error == None && lastQuery == query
      ensures !IsBlank(query) && old(lastQuery) != query ==>
        req == None && loading == old(loading) && error == old(error) && lastQuery == query
    {
      if IsBlank(query) {
        req := None;
      } else if lastQuery == query {
        var r := BeginFetch(query, page);
        req := Some(r);
      } else {
        lastQuery := query;
        req := None;
      }
    }

    /**
     * A fetch ended. On success the count and the filtered, mapped documents
     * replace the old ones; on failure the error message is set and results
     * and count stay. Loading ends either way. Any outcome is applied, even
     * that of a fetch the user has since superseded.
     */
    method Complete(req: FetchRequest, outcome: FetchOutcome)
      modifies this`numFound, this`results, this`error, this`loading
      ensures !loading
      ensures outcome.Response? && IsOk(outcome.status) ==>
        && numFound == ResponseCount(outcome.body)
        && results == FilterResults(ResponseDocs(outcome.body), req.authorFilter, req.yearFilter)
        && IsSubsequence(results, ResponseDocs(outcome.body))
        && error == old(error)
      ensures outcome.Response? && !IsOk(outcome.status) ==>
        error == Some(HttpErrorMessage(outcome.status))
        && numFound == old(numFound) && results == old(results)
      ensures outcome.Rejected? ==>
        error == Some(outcome.message) && numFound == old(numFound) && results == old(results)
    {
      match outcome {
        case Response(status, body) =>
          if IsOk(status) {
            numFound := ResponseCount(body);
            results := FilterResults(ResponseDocs(body), req.authorFilter, req.yearFilter);
            FilterResultsSpec(ResponseDocs(body), req.authorFilter, req.yearFilter, BookRecord("", "", [], None, None));
          } else {
            error := Some(HttpErrorMessage(status));
          }
        case Rejected(message) =>
          error := Some(message);
      }
      loading := false;
    }

    /**
     * The Prev button: one page back, never below 1. The button is only
     * shown when there are matches and can only be clicked off page 1.
     */
    method PrevClicked()
      requires Valid() && numFound > 0 && !PrevDisabled(page)
      modifies this`page
      ensures Valid() && page == PrevPage(old(page)) && page == old(page) - 1
      ensures old(page) <= TotalPages(numFound) ==> page <= TotalPages(numFound)
    {
      EnabledButtonsMoveOnePage(page, TotalPages(numFound));
      page := PrevPage(page);
    }

    /**
     * The Next button: one page forward, never past the last page. The
     * button is only shown when there are matches and can only be clicked
     * before the last page.
     */
    method NextClicked()
      requires Valid() && numFound > 0 && !NextDisabled(page, TotalPages(numFound))
      modifies this`page
      ensures Valid() && page == NextPage(old(page), TotalPages(numFound)) && page == old(page) + 1
      ensures page <= TotalPages(numFound)
    {
      EnabledButtonsMoveOnePage(page, TotalPages(numFound));
      page := NextPage(page, TotalPages(numFound));
    }

    /** Typing in the author filter; results are not re-filtered until the next fetch. */
    method SetAuthorFilter(f: string)
      modifies this`authorFilter
      ensures authorFilter == f
    {
      authorFilter := f;
    }

    /** Typing in the year filter; results are not re-filtered until the next fetch. */
    method SetYearFilter(f: string)
      modifies this`yearFilter
      ensures yearFilter == f
    {
      yearFilter := f;
    }

    /** The Clear button: both filters empty, results untouched. */
    method ClearFilters()
      modifies this`authorFilter, this`yearFilter
      ensures authorFilter == "" && yearFilter == ""
    {
      authorFilter, yearFilter := "", "";
    }

    /** Save: the favorites go through the add updater; the book is a favorite afterwards. */
    method AddFavorite(book: BookRecord)
      modifies this`favorites
      ensures favorites == Favorites.AddFavorite(old(favorites), book)
      ensures Favorites.IsFavorited(favorites, book.key)
      ensures old(Favorites.UniqueKeys(favorites)) ==> Favorites.UniqueKeys(favorites)
    {
      Favorites.AddFavoriteThenFavorited(favorites, book);
      if Favorites.UniqueKeys(favorites) {
        Favorites.AddFavoriteUnique(favorites, book);
      }
      favorites := Favorites.AddFavorite(favorites, book);
    }

    /** Remove: the favorites go through the remove updater; the key is no favorite afterwards. */
    method RemoveFavorite(key: string)
      modifies this`favorites
      ensures favorites == Favorites.RemoveFavorite(old(favorites), key)
      ensures !Favorites.IsFavorited(favorites, key)
      ensures old(Favorites.UniqueKeys(favorites)) ==> Favorites.UniqueKeys(favorites)
    {
      Favorites.RemoveFavoriteNotFavorited(favorites, key);
      if Favorites.UniqueKeys(favorites) {
        Favorites.RemoveFavoriteUnique(favorites, key);
      }
      favorites := Favorites.RemoveFavorite(favorites, key);
    }
  }

  /** Whatever the state, clearing the query empties the results and fetches nothing. */
  method ClearQuery(c: BookComponent, q: string) returns (scheduled: bool)
    requires c.Valid() && forall i :: 0 <= i < |q| ==> IsJsWhitespace(q[i])
    modifies c`query, c`results, c`numFound, c`page, c`error
    ensures c.Valid() && c.query == q
    ensures !scheduled && c.results == [] && c.numFound == 0 && c.page == 1 && c.error == None
  {
    IsBlankIff(q);
    scheduled := c.QueryChanged(q);
  }

  /**
   * From the initial state: type the query `q`, let the debounce fire (with
   * the corrected or the as-written start of the fetch) and receive 120
   * matches.
   */
  method SearchReturning120(q: string, asWritten: bool) returns (c: BookComponent)
    requires !IsBlank(q)
    ensures fresh(c) && c.Valid()
    ensures c.query == q && c.page == 1 && c.numFound == 120
    ensures c.authorFilter == "" && c.yearFilter == ""
    ensures c.lastQuery == if asWritten then "" else q
  {
    c := new BookComponent([]);
    var scheduled := c.QueryChanged(q);
    var req;
    if asWritten {
      req := c.DebounceElapsedAsWritten();
    } else {
      req := c.DebounceElapsed();
    }
    assert req == FetchRequest(q, 1, "", "");
    c.Complete(req, Response(200, RawResponse(Some(120), None)));
  }

  /**
   * After a fresh search for a query such as "dune" that found 120 matches
   * (two pages), click Next; returns the fetch the page effect issues and the
   * page shown.
   */
  method NextAfterSearch(q: string) returns (fetched: Option<FetchRequest>, shown: int)
    requires !IsBlank(q)
    ensures fetched == Some(FetchRequest(q, 2, "", "")) && shown == 2
  {
    var c := SearchReturning120(q, false);
    TotalPagesExact(120, 2);
    c.NextClicked();
    assert c.page == 2 && c.query == q && c.lastQuery == q;
    assert !IsBlank(c.query);
    fetched := c.PageChanged();
    shown := c.page;
  }

  /** The same steps with `fetchResults` as written: page 2 is shown but never fetched. */
  method NextAfterSearchAsWritten(q: string) returns (fetched: Option<FetchRequest>, shown: int)
    requires !IsBlank(q)
    ensures fetched == None && shown == 2
  {
    var c := SearchReturning120(q, true);
    TotalPagesExact(120, 2);
    c.NextClicked();
    assert c.page == 2 && c.query == q && c.lastQuery == "" != q;
    fetched := c.PageChanged();
    shown := c.page;
  }
}
