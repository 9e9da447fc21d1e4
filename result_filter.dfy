/**
 * The client-side filter that `fetchResults` applies to the mapped
 * documents: an author filter (case-insensitive substring of the author
 * names joined with a space) and a year filter (exact equality of the
 * year's string form), both passing everything when empty.
 */
module ResultFilter {
  import opened Wrappers
  import opened Sequences
  import opened JsStrings
  import opened Books

  /** `String(doc.first_publish_year)`: a missing year stringifies as `"undefined"`. */
  function YearString(year: Option<int>): string {
    match year
    case None => "undefined"
    case Some(n) => IntToString(n)
  }

  /** The author test: an empty filter passes; otherwise the lowered joined names include the lowered filter. */
  predicate PassesAuthor(doc: BookRecord, authorFilter: string) {
    authorFilter == "" || Includes(ToLower(Join(doc.authorNames, " ")), ToLower(authorFilter))
  }

  /** The year test: an empty filter passes; otherwise the year's string form equals the filter. */
  predicate PassesYear(doc: BookRecord, yearFilter: string) {
    yearFilter == "" || YearString(doc.firstPublishYear) == yearFilter
  }

  /** The body of the `docs.filter` callback: both tests, conjunctively. */
  predicate Keep(doc: BookRecord, authorFilter: string, yearFilter: string) {
    PassesAuthor(doc, authorFilter) && PassesYear(doc, yearFilter)
  }

  /** The mapped documents filtered with the filters captured by the fetch. */
  function FilterResults(docs: seq<BookRecord>, authorFilter: string, yearFilter: string): seq<BookRecord> {
    Filter(docs, (d: BookRecord) => Keep(d, authorFilter, yearFilter))
  }

  /**
   * The filtered result keeps the documents' order; every kept document
   * meets both conditions; every document meeting both is kept as often as
   * it occurs and every other one is dropped.
   */
  lemma FilterResultsSpec(docs: seq<BookRecord>, authorFilter: string, yearFilter: string, d: BookRecord)
    ensures IsSubsequence(FilterResults(docs, authorFilter, yearFilter), docs)
    ensures d in FilterResults(docs, authorFilter, yearFilter) ==>
      && d in docs
      && (authorFilter != "" ==> Includes(ToLower(Join(d.authorNames, " ")), ToLower(authorFilter)))
      && (yearFilter != "" ==> YearString(d.firstPublishYear) == yearFilter)
    ensures multiset(FilterResults(docs, authorFilter, yearFilter))[d] ==
      if Keep(d, authorFilter, yearFilter) then multiset(docs)[d] else 0
  {
    var p := (x: BookRecord) => Keep(x, authorFilter, yearFilter);
    FilterIsSubsequence(docs, p);
    FilterCounts(docs, p, d);
  }

  /** A document that fails either condition is not in the result. */
  lemma FilterResultsDrops(docs: seq<BookRecord>, authorFilter: string, yearFilter: string, d: BookRecord)
    requires !PassesAuthor(d, authorFilter) || !PassesYear(d, yearFilter)
    ensures d !in FilterResults(docs, authorFilter, yearFilter)
  {
    FilterCounts(docs, (x: BookRecord) => Keep(x, authorFilter, yearFilter), d);
  }

  /** With both filters empty the result is the mapped documents themselves. */
  lemma FilterResultsNoFilters(docs: seq<BookRecord>)
    ensures FilterResults(docs, "", "") == docs
  {
    FilterAllPass(docs, (x: BookRecord) => Keep(x, "", ""));
  }

  /** With no author filter and every document's year string equal to the filter, nothing is dropped. */
  lemma FilterResultsEveryYearMatches(docs: seq<BookRecord>, yearFilter: string)
    requires forall i :: 0 <= i < |docs| ==> YearString(docs[i].firstPublishYear) == yearFilter
    ensures FilterResults(docs, "", yearFilter) == docs
  {
    FilterAllPass(docs, (x: BookRecord) => Keep(x, "", yearFilter));
  }

  /** A document passes the author filter when one author's name contains it, ignoring ASCII case. */
  lemma AuthorNameMatchPasses(doc: BookRecord, authorFilter: string, k: int)
    requires 0 <= k < |doc.authorNames|
    requires Includes(ToLower(doc.authorNames[k]), ToLower(authorFilter))
    ensures PassesAuthor(doc, authorFilter)
  {
    var joined := Join(doc.authorNames, " ");
    JoinContainsPart(doc.authorNames, " ", k);
    var i :| OccursAt(joined, doc.authorNames[k], i);
    OccursAtLower(joined, doc.authorNames[k], i);
    var j :| OccursAt(ToLower(doc.authorNames[k]), ToLower(authorFilter), j);
    OccursAtTransitive(ToLower(joined), ToLower(doc.authorNames[k]), ToLower(authorFilter), i, j);
  }

  /** A non-empty author filter drops every document that has no authors. */
  lemma NoAuthorsFailAuthorFilter(doc: BookRecord, authorFilter: string)
    requires doc.authorNames == [] && authorFilter != ""
    ensures !PassesAuthor(doc, authorFilter)
  {
    assert |ToLower(authorFilter)| > 0;
  }

  /** For a document with a year, a non-empty year filter passes exactly on that year's decimal form. */
  lemma YearFilterExact(doc: BookRecord, yearFilter: string)
    requires doc.firstPublishYear.Some? && yearFilter != ""
    ensures PassesYear(doc, yearFilter) <==> yearFilter == IntToString(doc.firstPublishYear.value)
  {
  }

  /** All documents with a year that pass the same non-empty year filter share that year. */
  lemma YearFilterSelectsOneYear(d1: BookRecord, d2: BookRecord, yearFilter: string)
    requires d1.firstPublishYear.Some? && d2.firstPublishYear.Some? && yearFilter != ""
    requires PassesYear(d1, yearFilter) && PassesYear(d2, yearFilter)
    ensures d1.firstPublishYear == d2.firstPublishYear
  {
    IntToStringInjective(d1.firstPublishYear.value, d2.firstPublishYear.value);
  }

  /**
   * A document without a year passes a non-empty year filter only when the
   * filter is literally `"undefined"`, and a document with a year never does.
   */
  lemma MissingYearQuirk(doc: BookRecord)
    ensures doc.firstPublishYear.None? ==>
      forall f :: f != "" ==> (PassesYear(doc, f) <==> f == "undefined")
    ensures PassesYear(doc, "undefined") <==> doc.firstPublishYear.None?
  {
    if doc.firstPublishYear.Some? {
      IntToStringNotUndefined(doc.firstPublishYear.value);
    }
  }

  /** The author filter sees the names joined by a space, so it can match across two names. */
  lemma AuthorFilterSpansNames()
    ensures PassesAuthor(BookRecord("/works/OL1W", "T", ["Jane Austen", "Leo Tolstoy"], None, None), "Austen Leo")
  {
    var joined := Join(["Jane Austen", "Leo Tolstoy"], " ");
    assert joined == "Jane Austen" + " " + "Leo Tolstoy";
    assert OccursAt(joined, "Austen Leo", 5);
    OccursAtLower(joined, "Austen Leo", 5);
  }

  /** A filter whose lowered first letter no character of the names lowers to cannot match them. */
  lemma FirstLetterMissing(names: string, filter: string)
    requires filter != []
    requires forall c :: c in names ==> LowerChar(c) != LowerChar(filter[0])
    ensures !Includes(ToLower(names), ToLower(filter))
  {
    if Includes(ToLower(names), ToLower(filter)) {
      IncludesNeedsFirst(ToLower(names), ToLower(filter));
    }
  }

  /** The two results of the filter scenario: Jane Austen and Leo Tolstoy, both dated 1813. */
  function AustenDoc(): BookRecord {
    BookRecord("/works/OL66554W", "Pride and Prejudice", ["Jane Austen"], Some(1813), None)
  }

  function TolstoyDoc(): BookRecord {
    BookRecord("/works/OL267096W", "War and Peace", ["Leo Tolstoy"], Some(1813), None)
  }

  lemma AustenMatchesAusten()
    ensures PassesAuthor(AustenDoc(), "austen")
  {
    assert ToLower("austen") == "austen" == ToLower("Austen");
    assert OccursAt("Jane Austen", "Austen", 5);
    OccursAtLower("Jane Austen", "Austen", 5);
  }

  lemma TolstoyMissesAusten()
    ensures !PassesAuthor(TolstoyDoc(), "austen")
  {
    FirstLetterMissing("Leo Tolstoy", "austen");
  }

  /** Both are from 1813, written "1813". */
  lemma ScenarioYears()
    ensures YearString(AustenDoc().firstPublishYear) == "1813"
    ensures YearString(TolstoyDoc().firstPublishYear) == "1813"
  {
    assert IntToString(1813) == "1813";
  }

  /** The author filter "austen" keeps only the Austen result. */
  lemma ScenarioAuthorFilter()
    ensures FilterResults([AustenDoc(), TolstoyDoc()], "austen", "") == [AustenDoc()]
  {
    AustenMatchesAusten();
    TolstoyMissesAusten();
    var p := (d: BookRecord) => Keep(d, "austen", "");
    assert [AustenDoc(), TolstoyDoc()][1..] == [TolstoyDoc()];
    assert Filter([TolstoyDoc()], p) == [];
  }

  /** The year filter "1813" with no author filter keeps both. */
  lemma ScenarioYearFilter()
    ensures FilterResults([AustenDoc(), TolstoyDoc()], "", "1813") == [AustenDoc(), TolstoyDoc()]
  {
    ScenarioYears();
    FilterResultsEveryYearMatches([AustenDoc(), TolstoyDoc()], "1813");
  }

  /** The author filter "austen" with the year filter "1900" keeps neither. */
  lemma ScenarioBothFilters()
    ensures FilterResults([AustenDoc(), TolstoyDoc()], "austen", "1900") == []
  {
    ScenarioYears();
    var p := (d: BookRecord) => Keep(d, "austen", "1900");
    assert !p(AustenDoc()) && !p(TolstoyDoc());
    assert [AustenDoc(), TolstoyDoc()][1..] == [TolstoyDoc()];
    assert Filter([TolstoyDoc()], p) == [];
  }
}
