/**
 The derived view of the catalog component: the case-insensitive title filter,
 the page slice with JavaScript `slice` clamping, and the page arithmetic behind
 the Search, Previous and Next controls.
 */
module BookView {
  import opened Seqs
  import opened BookReducer

  /** Fixed number of records per page. */
  const PageSize: nat := 5

  // ---------------------------------------------------------------------------
  // Title search

  /** ASCII lower-casing of one character. */
  function LowerChar(c: char): (d: char)
    ensures 'A' <= c <= 'Z' ==> 'a' <= d <= 'z' && d as int - c as int == 32
    ensures !('A' <= c <= 'Z') ==> d == c
  {
    if 'A' <= c <= 'Z' then ((c as int) + 32) as char else c
  }

  /** `String.prototype.toLowerCase`, restricted to ASCII letters. */
  function Lower(s: string): (r: string)
    ensures |r| == |s|
    ensures forall i :: 0 <= i < |s| ==> r[i] == LowerChar(s[i])
    ensures forall i :: 0 <= i < |r| ==> LowerChar(r[i]) == r[i]
  {
    seq(|s|, i requires 0 <= i < |s| => LowerChar(s[i]))
  }

  /** `needle` occurs in `hay` starting at index `i`. */
  predicate OccursAt(hay: string, needle: string, i: int)
  {
    0 <= i && i + |needle| <= |hay| && hay[i..i + |needle|] == needle
  }

  /** `String.prototype.includes`: some position of `hay` starts a copy of `needle`. */
  predicate Contains(hay: string, needle: string)
    ensures |needle| == 0 ==> Contains(hay, needle)
    ensures Contains(hay, needle) ==> |needle| <= |hay|
    decreases |hay|
  {
    (|needle| <= |hay| && hay[..|needle|] == needle) ||
    (|hay| > 0 && Contains(hay[1..], needle))
  }

  /** `Contains` agrees with the positional definition of a substring, both ways. */
  lemma ContainsIffOccurs(hay: string, needle: string)
    ensures Contains(hay, needle) <==> exists i :: OccursAt(hay, needle, i)
  {
    if Contains(hay, needle) {
      var i := OccurrenceOf(hay, needle);
    }
    if i :| OccursAt(hay, needle, i) {
      ContainsFromOccurs(hay, needle, i);
    }
  }

  /** A position where a contained needle occurs. */
  lemma {:induction false} OccurrenceOf(hay: string, needle: string) returns (i: int)
    requires Contains(hay, needle)
    ensures OccursAt(hay, needle, i)
    decreases |hay|
  {
    if |needle| <= |hay| && hay[..|needle|] == needle {
      i := 0;
    } else {
      var j := OccurrenceOf(hay[1..], needle);
      assert hay[1..][j..j + |needle|] == hay[j + 1..j + 1 + |needle|];
      i := j + 1;
    }
  }

  /** An occurrence at any position makes the needle contained. */
  lemma {:induction false} ContainsFromOccurs(hay: string, needle: string, i: int)
    requires OccursAt(hay, needle, i)
    ensures Contains(hay, needle)
    decreases i
  {
    if i > 0 {
      assert hay[1..][i - 1..i - 1 + |needle|] == hay[i..i + |needle|];
      ContainsFromOccurs(hay[1..], needle, i - 1);
    }
  }

  /** A record matches the search when its lower-cased title contains the
      lower-cased term. */
  predicate TitleMatches(b: Book, term: string)
  {
    Contains(Lower(b.title), Lower(term))
  }

  /** The filter predicate for a search term. */
  function MatchesTerm(term: string): Book -> bool
  {
    (b: Book) => TitleMatches(b, term)
  }

  /** The search result: the records whose title matches, in collection order. */
  function Filtered(books: seq<Book>, term: string): (r: seq<Book>)
    ensures Subseq(r, books)
    ensures forall i :: 0 <= i < |r| ==> TitleMatches(r[i], term)
    ensures forall i :: 0 <= i < |books| && TitleMatches(books[i], term) ==> books[i] in r
  {
    FilterIsSubseq(books, MatchesTerm(term));
    Filter(books, MatchesTerm(term))
  }

  /** The search result is an order-preserving subsequence of the collection holding
      exactly the matching records, each with its full multiplicity. */
  lemma FilteredIsMatchingSubseq(books: seq<Book>, term: string)
    ensures Subseq(Filtered(books, term), books)
    ensures forall x: Book :: x in Filtered(books, term) <==> x in books && TitleMatches(x, term)
    ensures forall x: Book :: multiset(Filtered(books, term))[x] == if TitleMatches(x, term) then multiset(books)[x] else 0
  {
    FilterIsSubseq(books, MatchesTerm(term));
    forall x: Book
      ensures multiset(Filtered(books, term))[x] == if TitleMatches(x, term) then multiset(books)[x] else 0
    {
      FilterMultiplicity(books, MatchesTerm(term), x);
    }
  }

  /** An empty search term keeps every record. */
  lemma EmptyTermKeepsAll(books: seq<Book>)
    ensures Filtered(books, "") == books
  {
    forall i | 0 <= i < |books|
      ensures TitleMatches(books[i], "")
    {
      assert Contains(Lower(books[i].title), Lower(""));
    }
    FilterAllPass(books, MatchesTerm(""));
  }

  /** Matching ignores the case of ASCII letters in the term. */
  lemma MatchIgnoresTermCase(b: Book, term: string)
    ensures TitleMatches(b, term) <==> TitleMatches(b, Lower(term))
  {
    var t := Lower(term);
    assert Lower(t) == t;
  }

  // ---------------------------------------------------------------------------
  // Page slice

  /** JavaScript's resolution of a `slice` bound against length `n`: negative bounds
      count back from the end, and the result is clamped into `[0, n]`. */
  function ClampIndex(k: int, n: nat): (r: nat)
    ensures r <= n
    ensures 0 <= k <= n ==> r == k
    ensures k > n ==> r == n
    ensures k < 0 ==> r == if n + k < 0 then 0 else n + k
  {
    if k < 0 then (if n + k < 0 then 0 else n + k)
    else if k < n then k else n
  }

  /** Resolving two bounds of the same sign keeps them in order and never widens the
      gap between them. */
  lemma ClampIndexMonotone(a: int, b: int, n: nat)
    ensures a <= b && (a < 0 <==> b < 0) ==>
      ClampIndex(a, n) <= ClampIndex(b, n) <= ClampIndex(a, n) + (b - a)
  {
  }

  /** `Array.prototype.slice(start, end)`. */
  function JsSlice<T>(s: seq<T>, start: int, end: int): (r: seq<T>)
    ensures start <= end && (start < 0 <==> end < 0) ==> |r| <= end - start
    ensures start < 0 <= end && ClampIndex(start, |s|) >= end ==> r == []
    ensures 0 <= start <= end ==>
      r == s[if start < |s| then start else |s| .. if end < |s| then end else |s|]
    ensures forall i :: 0 <= i < |r| ==> r[i] in s
  {
    var lo := ClampIndex(start, |s|);
    var hi := ClampIndex(end, |s|);
    ClampIndexMonotone(start, end, |s|);
    if hi <= lo then [] else s[lo..hi]
  }

  /** The records shown on `page` (pages count from 1). */
  function VisiblePage(books: seq<Book>, term: string, page: int): (r: seq<Book>)
    ensures |r| <= PageSize
    ensures forall i :: 0 <= i < |r| ==> r[i] in books && TitleMatches(r[i], term)
  {
    JsSlice(Filtered(books, term), (page - 1) * PageSize, page * PageSize)
  }

  /** For a page from 1 upwards the visible records are the page's window of the
      search result: at most five, and none once the window starts past the end. */
  lemma VisiblePageWindow(books: seq<Book>, term: string, page: int)
    requires page >= 1
    ensures var f := Filtered(books, term);
      var lo := (page - 1) * PageSize;
      var hi := if page * PageSize < |f| then page * PageSize else |f|;
      (lo < |f| ==> VisiblePage(books, term, page) == f[lo..hi]) &&
      (lo >= |f| ==> VisiblePage(books, term, page) == [])
    ensures |VisiblePage(books, term, page)| <= PageSize
  {
  }

  /** Whatever the page number, at most five records are shown. */
  lemma VisiblePageAtMostFive(books: seq<Book>, term: string, page: int)
    ensures |VisiblePage(books, term, page)| <= PageSize
  {
  }

  /** Page 0, reachable through Next on an empty collection, shows nothing: the
      slice runs from five before the end up to index 0. */
  lemma PageZeroIsEmpty(books: seq<Book>, term: string)
    ensures VisiblePage(books, term, 0) == []
  {
  }

  /** With twelve records and an empty term: page 1 shows records 1-5, page 3
      shows records 11-12, page 4 is empty, and Next is disabled on page 3. */
  lemma TwelveRecordScenario(books: seq<Book>)
    requires |books| == 12
    ensures VisiblePage(books, "", 1) == books[..5]
    ensures VisiblePage(books, "", 3) == books[10..]
    ensures VisiblePage(books, "", 4) == []
    ensures NextDisabled(3, |books|)
  {
    EmptyTermKeepsAll(books);
  }

  // ---------------------------------------------------------------------------
  // Page arithmetic

  /** `Math.ceil(n / 5)` for a collection length `n`. */
  function PageCount(n: nat): (c: nat)
    ensures c * PageSize >= n
    ensures c > 0 ==> (c - 1) * PageSize < n
  {
    (n + PageSize - 1) / PageSize
  }

  /** The Next handler: `min(p + 1, ceil(total / 5))`, where `total` is the length of
      the whole collection, not of the search result. */
  function NextPage(p: int, total: nat): (r: int)
    ensures r <= PageCount(total)
    ensures total == 0 && p >= -1 ==> r == 0
    ensures p < PageCount(total) ==> r == p + 1
    ensures p >= PageCount(total) ==> r == PageCount(total)
  {
    if p + 1 < PageCount(total) then p + 1 else PageCount(total)
  }

  /** The Previous handler: `max(p - 1, 1)`. */
  function PrevPage(p: int): (r: int)
    ensures r >= 1
    ensures p <= 1 ==> r == 1
    ensures p > 1 ==> r == p - 1
  {
    if p - 1 > 1 then p - 1 else 1
  }

  /** The Previous button is disabled on page 1. */
  predicate PrevDisabled(p: int)
    ensures PrevDisabled(p) <==> p >= 1 && (p - 1) * PageSize == 0
  {
    p == 1
  }

  /** The Next button is disabled on the page holding the last record of the whole
      collection, or on page 0 when the collection is empty. */
  predicate NextDisabled(p: int, total: nat)
    ensures NextDisabled(p, total) <==>
      (total == 0 && p == 0) || (total > 0 && (p - 1) * PageSize < total <= p * PageSize)
  {
    p == PageCount(total)
  }

  /** Next is disabled exactly when pressing it would not move, on every page. */
  lemma NextDisabledIffStuck(p: int, total: nat)
    ensures NextDisabled(p, total) <==> NextPage(p, total) == p
  {
  }

  /** Previous is disabled exactly when pressing it would not move, on every page. */
  lemma PrevDisabledIffStuck(p: int)
    ensures PrevDisabled(p) <==> PrevPage(p) == p
  {
  }

  /** Previous undoes Next below the last page. */
  lemma PrevUndoesNext(p: int, total: nat)
    requires 1 <= p < PageCount(total)
    ensures PrevPage(NextPage(p, total)) == p
  {
  }

  /** Next undoes Previous above the first page, within the page range. */
  lemma NextUndoesPrev(p: int, total: nat)
    requires 2 <= p <= PageCount(total)
    ensures NextPage(PrevPage(p), total) == p
  {
  }

  /** On an empty collection the page count is 0, so Next is enabled on page 1 and
      moves to page 0, from which Previous returns to page 1. */
  lemma NextOnEmptyCollection()
    ensures !NextDisabled(1, 0)
    ensures NextPage(1, 0) == 0
    ensures PrevPage(0) == 1
  {
  }

  /** Next and Previous never produce a negative page from a non-negative one. */
  lemma PagesStayNonNegative(p: int, total: nat)
    requires p >= 0
    ensures NextPage(p, total) >= 0
    ensures PrevPage(p) >= 1
  {
  }

  /** Because Next is bounded by the whole collection, a search whose results fit on
      page 1 still leaves Next enabled on a longer collection, and Next then shows an
      empty page. */
  lemma NextPastSearchResults(books: seq<Book>, term: string)
    requires |books| > PageSize
    requires |Filtered(books, term)| <= PageSize
    ensures !NextDisabled(1, |books|)
    ensures NextPage(1, |books|) == 2
    ensures VisiblePage(books, term, NextPage(1, |books|)) == []
  {
  }

  /** A concrete instance: six records titled "A" and the term "zz" match nothing,
      yet Next moves from page 1 to an empty page 2. */
  lemma NextPastSearchResultsExample()
    ensures var books := seq(6, i => Book(i, "A", "X", "2000"));
      !NextDisabled(1, |books|) && NextPage(1, |books|) == 2 &&
      Filtered(books, "zz") == [] && VisiblePage(books, "zz", 2) == []
  {
    var books := seq(6, i => Book(i, "A", "X", "2000"));
    forall i | 0 <= i < |books|
      ensures !TitleMatches(books[i], "zz")
    {
      assert |Lower("zz")| > |Lower(books[i].title)|;
    }
    FilterNonePass(books, MatchesTerm("zz"));
  }

  /** The last page of the search results, never below page 1: with no results the
      list still sits on page 1. */
  function LastPageIntended(books: seq<Book>, term: string): (r: int)
    ensures r >= 1
    ensures |Filtered(books, term)| > 0 ==> r == PageCount(|Filtered(books, term)|)
    ensures |Filtered(books, term)| == 0 ==> r == 1
  {
    var n := |Filtered(books, term)|;
    if n == 0 then 1 else PageCount(n)
  }

  /** Next disabled on the last page of the search results (page 1 when nothing
      matches). */
  predicate NextDisabledIntended(p: int, books: seq<Book>, term: string)
  {
    p == LastPageIntended(books, term)
  }

  /** Next bounded by the search results: `min(p + 1, last)`, with `last` at least 1. */
  function NextPageIntended(p: int, books: seq<Book>, term: string): (r: int)
    ensures r <= LastPageIntended(books, term)
    ensures p >= 0 ==> r >= 1
    ensures p < LastPageIntended(books, term) ==> r == p + 1
    ensures NextDisabledIntended(p, books, term) <==> r == p
  {
    var last := LastPageIntended(books, term);
    if p + 1 < last then p + 1 else last
  }

  /** With the corrected bound, every page from 1 to the last page shows records
      whenever something matches. */
  lemma IntendedPageRangeShowsResults(books: seq<Book>, term: string, p: int)
    requires |Filtered(books, term)| > 0
    requires 1 <= p <= LastPageIntended(books, term)
    ensures VisiblePage(books, term, p) != []
  {
    VisiblePageWindow(books, term, p);
  }

  /** With the bound taken from the search results, Next from a page that shows
      something lands on a page that shows something. */
  lemma IntendedNextStaysOnResults(books: seq<Book>, term: string, p: int)
    requires p >= 1
    requires VisiblePage(books, term, p) != []
    ensures 1 <= NextPageIntended(p, books, term) <= LastPageIntended(books, term)
    ensures VisiblePage(books, term, NextPageIntended(p, books, term)) != []
  {
    VisiblePageWindow(books, term, p);
    IntendedPageRangeShowsResults(books, term, NextPageIntended(p, books, term));
  }

  /** On the six records titled "A" with the term "zz", the corrected Next is
      disabled on page 1 and pressing it would keep page 1. */
  lemma IntendedNextOnNoResults()
    ensures var books := seq(6, i => Book(i, "A", "X", "2000"));
      NextDisabledIntended(1, books, "zz") && NextPageIntended(1, books, "zz") == 1
  {
    NextPastSearchResultsExample();
  }
}
