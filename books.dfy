/**
 * Book records and the mapping of a parsed search response into them
 * (the first half of `fetchResults`, after the body has been parsed).
 */
module Books {
  import opened Wrappers

  /** A normalized search result or favorite; `key` is its identity. */
  datatype BookRecord = BookRecord(
    key: string,
    title: string,
    authorNames: seq<string>,
    firstPublishYear: Option<int>,
    coverId: Option<int>)

  /** One document of the response as it arrives: author list, year and cover may be missing. */
  datatype RawDoc = RawDoc(
    key: string,
    title: string,
    authorName: Option<seq<string>>,
    firstPublishYear: Option<int>,
    coverI: Option<int>)

  /** The parsed response body: the total-match count and the documents, either possibly missing. */
  datatype RawResponse = RawResponse(numFound: Option<int>, docs: Option<seq<RawDoc>>)

  /** One document as a record: a missing author list becomes `[]`; year and cover stay optional. */
  function ToRecord(d: RawDoc): BookRecord {
    BookRecord(d.key, d.title, d.authorName.GetOr([]), d.firstPublishYear, d.coverI)
  }

  /** Every document mapped to a record, in order. */
  function MapDocs(docs: seq<RawDoc>): seq<BookRecord> {
    if docs == [] then [] else [ToRecord(docs[0])] + MapDocs(docs[1..])
  }

  /** The records of a response; a missing document list counts as empty. */
  function ResponseDocs(resp: RawResponse): seq<BookRecord> {
    MapDocs(resp.docs.GetOr([]))
  }

  /** The match count of a response; a missing count reads as 0. */
  function ResponseCount(resp: RawResponse): int {
    resp.numFound.GetOr(0)
  }

  /** The record keeps the document's key, title, year and cover, and its authors or none. */
  lemma ToRecordFields(d: RawDoc)
    ensures ToRecord(d).key == d.key && ToRecord(d).title == d.title
    ensures ToRecord(d).firstPublishYear == d.firstPublishYear && ToRecord(d).coverId == d.coverI
    ensures d.authorName.None? ==> ToRecord(d).authorNames == []
    ensures d.authorName.Some? ==> ToRecord(d).authorNames == d.authorName.value
  {
  }

  /** The document a record would come from when its author list is present. */
  function ToRaw(b: BookRecord): RawDoc {
    RawDoc(b.key, b.title, Some(b.authorNames), b.firstPublishYear, b.coverId)
  }

  /** Mapping loses nothing but the difference between a missing and an empty author list. */
  lemma ToRecordRoundTrip(b: BookRecord)
    ensures ToRecord(ToRaw(b)) == b
  {
  }

  /** Two documents map to the same record exactly when they agree once a missing author list reads as `[]`. */
  lemma ToRecordEqualIff(d: RawDoc, e: RawDoc)
    ensures ToRecord(d) == ToRecord(e) <==>
      d.key == e.key && d.title == e.title && d.firstPublishYear == e.firstPublishYear
      && d.coverI == e.coverI && d.authorName.GetOr([]) == e.authorName.GetOr([])
  {
  }

  /** Mapping keeps the number and the order of the documents. */
  lemma {:induction false} MapDocsAt(docs: seq<RawDoc>)
    ensures |MapDocs(docs)| == |docs|
    ensures forall i :: 0 <= i < |docs| ==> MapDocs(docs)[i] == ToRecord(docs[i])
  {
    if docs != [] {
      MapDocsAt(docs[1..]);
      var r := MapDocs(docs);
      assert forall i :: 1 <= i < |docs| ==> r[i] == MapDocs(docs[1..])[i - 1];
    }
  }

  /** A response without documents yields no records; one without a count yields 0. */
  lemma ResponseDefaults(resp: RawResponse)
    ensures resp.docs.None? ==> ResponseDocs(resp) == []
    ensures resp.numFound.None? ==> ResponseCount(resp) == 0
    ensures resp.numFound.Some? ==> ResponseCount(resp) == resp.numFound.value
  {
  }
}
