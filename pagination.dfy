/**
 * Pagination arithmetic: the number of pages for a match count at the
 * endpoint's fixed page size, and the clamped Prev and Next updates.
 */
module Pagination {

  /** The search endpoint returns 100 documents per page. */
  const PageSize: int := 100

  /** The quotient rounded up, as `Math.ceil` of the division (Dafny's `/` on `int` rounds down when `d > 0`). */
  function CeilDiv(n: int, d: int): int
    requires d > 0
  {
    if n % d == 0 then n / d else n / d + 1
  }

  /** The number of pages of matches, rounded up, and never less than one. */
  function TotalPages(numFound: int): (t: int)
    ensures t >= 1
    ensures numFound > 0 ==> (t - 1) * PageSize < numFound <= t * PageSize
    ensures numFound <= PageSize ==> t == 1
  {
    var c := CeilDiv(numFound, PageSize);
    if c > 1 then c else 1
  }

  /** Prev: the previous page, but not below 1. */
  function PrevPage(p: int): int {
    if p - 1 > 1 then p - 1 else 1
  }

  /** Next: the following page, but not past the page count. */
  function NextPage(p: int, totalPages: int): int {
    if totalPages < p + 1 then totalPages else p + 1
  }

  /** The Prev button is disabled on page 1. */
  predicate PrevDisabled(p: int) {
    p == 1
  }

  /** The Next button is disabled from the last page on. */
  predicate NextDisabled(p: int, totalPages: int) {
    p >= totalPages
  }

  /** 250 matches make three pages. */
  lemma TotalPagesOf250()
    ensures TotalPages(250) == 3
  {
  }

  /** Exactly one page more per further hundred matches. */
  lemma TotalPagesExact(numFound: int, t: int)
    requires t >= 1 && (t - 1) * PageSize < numFound <= t * PageSize
    ensures TotalPages(numFound) == t
  {
  }

  /** From a page in `[1, totalPages]`, Prev and Next stay in that range. */
  lemma PrevNextStayInRange(p: int, numFound: int)
    requires 1 <= p <= TotalPages(numFound)
    ensures 1 <= PrevPage(p) <= TotalPages(numFound)
    ensures 1 <= NextPage(p, TotalPages(numFound)) <= TotalPages(numFound)
  {
  }

  /** When its button is enabled, Prev goes back one page and Next forward one. */
  lemma EnabledButtonsMoveOnePage(p: int, totalPages: int)
    requires p >= 1
    ensures !PrevDisabled(p) ==> PrevPage(p) == p - 1
    ensures !NextDisabled(p, totalPages) ==> NextPage(p, totalPages) == p + 1
  {
  }

  /** From the first and the last page, the clamps keep the page where it is. */
  lemma ClampsAtTheEnds(totalPages: int)
    requires totalPages >= 1
    ensures PrevPage(1) == 1
    ensures NextPage(totalPages, totalPages) == totalPages
  {
  }
}
