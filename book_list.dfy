/**
 * The book directory page: a search and genre filtered, newest-first listing of the books
 * table, five rows per page, each book with its rating aggregate, plus the genre list that
 * feeds the genre filter.
 */
module Directory {

  import opened Records
  import opened Query
  import opened Backend
  import opened Enrichment

  /** `ITEMS_PER_PAGE`. */
  const ItemsPerPage: nat := 5

  /** The genre filter's "no filter" value. */
  const AllGenres: string := "all"

  function Min(a: int, b: int): int { if a <= b then a else b }
  function Max(a: int, b: int): int { if a >= b then a else b }

  // ----- Paging -----

  /**
   * The `(from, to)` pair passed to `.range` for a 1-based page: five rows, starting after
   * the rows of the pages before it.
   */
  function PageBounds(page: int): (r: (nat, int))
    requires page >= 1
    ensures r.1 - r.0 + 1 == ItemsPerPage
    ensures r.0 % ItemsPerPage == 0 && r.0 / ItemsPerPage == page - 1
  {
    var from := (page - 1) * ItemsPerPage;
    (from, from + ItemsPerPage - 1)
  }

  /** Row `i` of the ordered result is on page `page` exactly when `page` is `i / 5 + 1`. */
  lemma RowOnPage(page: int, i: int)
    requires page >= 1
    ensures PageBounds(page).0 <= i <= PageBounds(page).1 <==> i >= 0 && i / ItemsPerPage + 1 == page
  {
  }

  /** The range of a page starts right after the range of the page before it ends. */
  lemma ConsecutivePagesAdjacent(page: int)
    requires page >= 1
    ensures PageBounds(page + 1).0 == PageBounds(page).1 + 1
  {
  }

  /** The page count: the row count divided by five, rounded up; a missing count counts as no rows. */
  function TotalPages(count: Option<nat>): (n: nat)
    ensures var rows := if count.Some? then count.value else 0;
      rows <= n * ItemsPerPage && (n > 0 ==> (n - 1) * ItemsPerPage < rows)
  {
    var rows := if count.Some? then count.value else 0;
    (rows + ItemsPerPage - 1) / ItemsPerPage
  }

  /** The rows of the ordered result that `.range` returns for a page. */
  function PageRows<T>(s: seq<T>, page: int): (r: seq<T>)
    requires page >= 1
    ensures |r| <= ItemsPerPage
    ensures |r| == if PageBounds(page).0 >= |s| then 0 else Min(ItemsPerPage, |s| - PageBounds(page).0)
    ensures |r| > 0 ==> PageBounds(page).0 + |r| <= |s|
    ensures forall k :: 0 <= k < |r| ==> r[k] == s[PageBounds(page).0 + k]
  {
    var bounds := PageBounds(page);
    Range(s, bounds.0, bounds.1)
  }

  /** Pages 1 to k, one after the other. */
  function PagesUpTo<T>(s: seq<T>, k: nat): seq<T>
  {
    if k == 0 then [] else PagesUpTo(s, k - 1) + PageRows(s, k)
  }

  /** Page k is the slice of rows from 5(k-1) to 5k, clipped at the end of the result. */
  lemma PageIsSlice<T>(s: seq<T>, k: nat)
    requires k >= 1
    ensures PageRows(s, k) == s[Min((k - 1) * ItemsPerPage, |s|)..Min((k - 1) * ItemsPerPage + ItemsPerPage, |s|)]
  {
    var from := (k - 1) * ItemsPerPage;
    assert PageBounds(k).0 == from;
    var page := PageRows(s, k);
    var slice := s[Min(from, |s|)..Min(from + ItemsPerPage, |s|)];
    assert |page| == |slice|;
    forall j | 0 <= j < |page| ensures page[j] == slice[j] {
    }
  }

  /** Pages 1 to k show exactly the first 5k rows, or all rows when there are fewer. */
  lemma {:induction false} PagesUpToPrefix<T>(s: seq<T>, k: nat)
    ensures PagesUpTo(s, k) == s[..Min(k * ItemsPerPage, |s|)]
  {
    if k > 0 {
      PagesUpToPrefix(s, k - 1);
      PageIsSlice(s, k);
      var lo := Min((k - 1) * ItemsPerPage, |s|);
      var hi := Min((k - 1) * ItemsPerPage + ItemsPerPage, |s|);
      assert k * ItemsPerPage == (k - 1) * ItemsPerPage + ItemsPerPage;
      assert s[..hi] == s[..lo] + s[lo..hi];
    }
  }

  /**
   * Stepping through pages 1 to totalPages shows every row of the result once, in order:
   * the pages neither overlap nor leave a gap.
   */
  lemma AllPagesShowEveryRow<T>(s: seq<T>)
    ensures PagesUpTo(s, TotalPages(Some(|s|))) == s
  {
    PagesUpToPrefix(s, TotalPages(Some(|s|)));
  }

  /** Page 1 shows the first five rows (newest first) and the last page the remaining 1 to 5. */
  lemma FirstAndLastPage<T>(s: seq<T>)
    ensures PageRows(s, 1) == s[..Min(ItemsPerPage, |s|)]
    ensures |s| > 0 ==> 1 <= |PageRows(s, TotalPages(Some(|s|)))| <= ItemsPerPage
  {
    PagesUpToPrefix(s, 1);
    assert PagesUpTo(s, 1) == PageRows(s, 1);
    var n := TotalPages(Some(|s|));
    if |s| > 0 {
      var bounds := PageBounds(n);
      assert bounds.0 < |s|;
    }
  }

  // ----- Filtering -----

  /**
   * The store's case-insensitive pattern test of a column value against the search term
   * (true when the term occurs in the value, up to case). It is a parameter of the model.
   */
  type Matcher = (string, string) -> bool

  /** The search: the term matches the title or the author. */
  predicate MatchesSearch(b: Book, term: string, matches: Matcher)
  {
    matches(b.title, term) || matches(b.author, term)
  }

  /**
   * The row filter of the directory query: the search applies only for a non-empty term and
   * the genre filter only for a genre other than "all".
   */
  function Matches(matches: Matcher, term: string, genre: string): Book -> bool
  {
    (b: Book) => (term == [] || MatchesSearch(b, term, matches)) && (genre == AllGenres || b.genre == genre)
  }

  /** An empty term with genre "all" lists the whole table. */
  lemma NoFilterListsAll(books: seq<Book>, matches: Matcher)
    ensures Filter(books, Matches(matches, [], AllGenres)) == books
  {
    FilterAll(books, Matches(matches, [], AllGenres));
  }

  /** A search term alone keeps exactly the books whose title or author matches it. */
  lemma SearchOnlyFilter(books: seq<Book>, matches: Matcher, term: string)
    requires term != []
    ensures var kept := Filter(books, Matches(matches, term, AllGenres));
      forall b :: multiset(kept)[b] == if MatchesSearch(b, term, matches) then multiset(books)[b] else 0
  {
    FilterCounts(books, Matches(matches, term, AllGenres));
  }

  /** A genre alone keeps exactly the books of that genre. */
  lemma GenreOnlyFilter(books: seq<Book>, matches: Matcher, genre: string)
    requires genre != AllGenres
    ensures var kept := Filter(books, Matches(matches, [], genre));
      forall b :: multiset(kept)[b] == if b.genre == genre then multiset(books)[b] else 0
  {
    FilterCounts(books, Matches(matches, [], genre));
  }

  /** With both set, a book is kept exactly when it passes the search and is of the genre. */
  lemma SearchAndGenreFilter(books: seq<Book>, matches: Matcher, term: string, genre: string)
    requires term != [] && genre != AllGenres
    ensures var kept := Filter(books, Matches(matches, term, genre));
      forall b :: multiset(kept)[b] ==
        if MatchesSearch(b, term, matches) && b.genre == genre then multiset(books)[b] else 0
  {
    FilterCounts(books, Matches(matches, term, genre));
  }

  /** The result of the directory query for one page, and the `count: 'exact'` of matching rows. */
  datatype PageResult = PageResult(rows: seq<Book>, count: nat)

  /** All matching books, newest first. */
  function Matching(books: seq<Book>, matches: Matcher, term: string, genre: string): (r: seq<Book>)
    ensures multiset(r) == multiset(Filter(books, Matches(matches, term, genre)))
    ensures SortedDesc(r, BookCreated)
  {
    SortDesc(Filter(books, Matches(matches, term, genre)), BookCreated)
  }

  /** The query `fetchBooks` issues for a page. */
  function QueryPage(books: seq<Book>, matches: Matcher, term: string, genre: string, page: int): (r: PageResult)
    requires page >= 1
    ensures r.count == Count(books, Matches(matches, term, genre))
    ensures r.rows == PageRows(Matching(books, matches, term, genre), page)
  {
    var matching := Matching(books, matches, term, genre);
    PageResult(PageRows(matching, page), |matching|)
  }

  /** Every listed book is a row of the table that passes the filters, and the page is newest first. */
  lemma PageRowsMatch(books: seq<Book>, matches: Matcher, term: string, genre: string, page: int)
    requires page >= 1
    ensures var rows := QueryPage(books, matches, term, genre, page).rows;
      |rows| <= ItemsPerPage &&
      (forall b :: b in rows ==> b in books && Matches(matches, term, genre)(b)) &&
      SortedDesc(rows, BookCreated)
  {
    PageOfSortedFilter(books, Matches(matches, term, genre), BookCreated, page);
  }

  lemma PageOfSortedFilter<T(!new)>(s: seq<T>, p: T -> bool, key: T -> int, page: int)
    requires page >= 1
    ensures var rows := PageRows(SortDesc(Filter(s, p), key), page);
      (forall x :: x in rows ==> x in s && p(x)) && SortedDesc(rows, key)
  {
    var matching := SortDesc(Filter(s, p), key);
    PageRowsAreRows(matching, page);
    PageOfSorted(matching, key, page);
    assert forall x :: x in matching ==> x in multiset(Filter(s, p));
  }

  lemma PageRowsAreRows<T>(s: seq<T>, page: int)
    requires page >= 1
    ensures forall x :: x in PageRows(s, page) ==> x in s
  {
    var rows := PageRows(s, page);
    forall x | x in rows ensures x in s {
      var k :| 0 <= k < |rows| && rows[k] == x;
      assert x == s[PageBounds(page).0 + k];
    }
  }

  lemma PageOfSorted<T>(s: seq<T>, key: T -> int, page: int)
    requires page >= 1
    requires SortedDesc(s, key)
    ensures SortedDesc(PageRows(s, page), key)
  {
    var rows := PageRows(s, page);
    var from := PageBounds(page).0;
    forall i, j | 0 <= i < j < |rows| ensures key(rows[i]) >= key(rows[j]) {
      assert rows[i] == s[from + i] && rows[j] == s[from + j];
    }
  }

  // ----- Genres -----

  /** Deduplication through an insertion-ordered set: each value once, in order of first occurrence. */
  function Dedup(values: seq<string>): (r: seq<string>)
    ensures forall x :: x in r <==> x in values
    ensures forall i, j :: 0 <= i < j < |r| ==> r[i] != r[j]
    ensures forall i, j :: 0 <= i < j < |r| ==> FirstSeenBefore(values, r[i], r[j])
  {
    if values == [] then []
    else
      var init := values[..|values| - 1];
      var seen := Dedup(init);
      var last := values[|values| - 1];
      assert values == init + [last];
      assert forall x, y :: FirstSeenBefore(init, x, y) ==> FirstSeenBefore(values, x, y) by {
        forall x, y | FirstSeenBefore(init, x, y) ensures FirstSeenBefore(values, x, y) {
          var k :| 0 <= k < |init| && init[k] == x && y !in init[..k];
          assert values[k] == x && values[..k] == init[..k];
        }
      }
      if last in seen then seen
      else
        assert forall x :: x in seen ==> FirstSeenBefore(values, x, last) by {
          forall x | x in seen ensures FirstSeenBefore(values, x, last) {
            var k :| 0 <= k < |init| && init[k] == x;
            assert values[k] == x && values[..k] == init[..k];
          }
        }
        seen + [last]
  }

  /** `x` occurs in `values` at a position before which `y` does not occur. */
  ghost predicate FirstSeenBefore(values: seq<string>, x: string, y: string)
  {
    exists k :: 0 <= k < |values| && values[k] == x && y !in values[..k]
  }

  function GenreColumn(books: seq<Book>): (gs: seq<string>)
    ensures |gs| == |books|
    ensures forall i :: 0 <= i < |books| ==> gs[i] == books[i].genre
  {
    if books == [] then [] else [books[0].genre] + GenreColumn(books[1..])
  }

  /** The genre filter's options: every genre in the books table, each once. */
  function Genres(books: seq<Book>): (gs: seq<string>)
    ensures forall g :: g in gs <==> exists b :: b in books && b.genre == g
    ensures forall i, j :: 0 <= i < j < |gs| ==> gs[i] != gs[j]
  {
    var column := GenreColumn(books);
    assert forall g :: g in column <==> exists b :: b in books && b.genre == g by {
      forall g ensures g in column <==> exists b :: b in books && b.genre == g {
        if g in column {
          var i :| 0 <= i < |column| && column[i] == g;
          assert books[i] in books;
        }
        if exists b :: b in books && b.genre == g {
          var b :| b in books && b.genre == g;
          var i :| 0 <= i < |books| && books[i] == b;
          assert column[i] == g;
        }
      }
    }
    Dedup(column)
  }

  // ----- Page navigation -----

  /** The previous page, clamped below at page 1. */
  function PrevPage(p: int): (r: int)
    ensures r >= 1
    ensures p > 1 ==> r == p - 1
    ensures p <= 1 ==> r == 1
  {
    Max(1, p - 1)
  }

  /** The next page, clamped above at the page count. */
  function NextPage(p: int, totalPages: int): (r: int)
    ensures r <= totalPages
    ensures p < totalPages ==> r == p + 1
    ensures p >= totalPages ==> r == totalPages
  {
    Min(totalPages, p + 1)
  }

  /** The directory page's component state. */
  class BookListPage {
    var books: seq<RatedBook>
    var loading: bool
    var currentPage: int
    var totalPages: nat
    var searchTerm: string
    var genreFilter: string
    var genres: seq<string>

    ghost predicate Valid()
      reads this
    {
      currentPage >= 1
    }

    /** The page controls are on screen: loaded, something listed, more than one page. */
    predicate PagerShown()
      reads this
    {
      !loading && |books| > 0 && totalPages > 1
    }

    constructor ()
      ensures Valid()
      ensures books == [] && loading && currentPage == 1 && totalPages == 1
      ensures searchTerm == [] && genreFilter == AllGenres && genres == []
    {
      books, loading, currentPage, totalPages := [], true, 1, 1;
      searchTerm, genreFilter, genres := [], AllGenres, [];
    }

    /** `fetchGenres`; `ok` is whether the query returned data. */
    method FetchGenres(store: Store, ok: bool)
      modifies this
      ensures genres == if ok then Genres(store.books) else old(genres)
      ensures books == old(books) && loading == old(loading) && currentPage == old(currentPage)
      ensures totalPages == old(totalPages) && searchTerm == old(searchTerm) && genreFilter == old(genreFilter)
    {
      if ok {
        genres := Genres(store.books);
      }
    }

    /**
     * `fetchBooks`: `ok` is whether the page query succeeded, `failed` the books whose own
     * review query failed. A failed page query keeps the listing; loading ends either way.
     */
    method FetchBooks(store: Store, matches: Matcher, ok: bool, failed: set<Id>)
      requires Valid()
      modifies this`books, this`loading, this`totalPages
      ensures Valid() && !loading
      ensures currentPage == old(currentPage) && searchTerm == old(searchTerm)
      ensures genreFilter == old(genreFilter) && genres == old(genres)
      ensures ok ==>
        var q := QueryPage(store.books, matches, searchTerm, genreFilter, currentPage);
        books == Enrich(q.rows, store.reviews, failed) && totalPages == TotalPages(Some(q.count))
      ensures !ok ==> books == old(books) && totalPages == old(totalPages)
    {
      loading := true;
      if ok {
        var q := QueryPage(store.books, matches, searchTerm, genreFilter, currentPage);
        books := Enrich(q.rows, store.reviews, failed);
        totalPages := TotalPages(Some(q.count));
      }
      loading := false;
    }

    /** The search box's `onChange`. */
    method ChangeSearch(term: string)
      modifies this
      ensures Valid() && searchTerm == term && currentPage == 1
      ensures books == old(books) && loading == old(loading) && totalPages == old(totalPages)
      ensures genreFilter == old(genreFilter) && genres == old(genres)
    {
      searchTerm := term;
      currentPage := 1;
    }

    /** The genre select's `onValueChange`. */
    method ChangeGenre(genre: string)
      modifies this
      ensures Valid() && genreFilter == genre && currentPage == 1
      ensures books == old(books) && loading == old(loading) && totalPages == old(totalPages)
      ensures searchTerm == old(searchTerm) && genres == old(genres)
    {
      genreFilter := genre;
      currentPage := 1;
    }

    /** The previous-page button; absent without `PagerShown()`, disabled on page 1. */
    method GoPrevious()
      requires Valid()
      modifies this`currentPage
      ensures Valid()
      ensures currentPage == if old(PagerShown()) && old(currentPage) != 1 then PrevPage(old(currentPage))
                             else old(currentPage)
    {
      if PagerShown() && currentPage != 1 {
        currentPage := PrevPage(currentPage);
      }
    }

    /** The next-page button; absent without `PagerShown()`, disabled on the last page. */
    method GoNext()
      requires Valid()
      modifies this`currentPage
      ensures Valid()
      ensures currentPage == if old(PagerShown()) && old(currentPage) != totalPages
                             then NextPage(old(currentPage), totalPages) else old(currentPage)
      ensures old(PagerShown()) && old(currentPage) != totalPages ==> currentPage <= totalPages
    {
      if PagerShown() && currentPage != totalPages {
        currentPage := NextPage(currentPage, totalPages);
      }
    }
  }
}
