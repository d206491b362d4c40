/**
 * Attaching the rating aggregate to each listed book (the book directory and the profile
 * page do the same thing): one review query per book, its ratings reduced to a mean and a count.
 */
module Enrichment {

  import opened Records
  import opened Query
  import opened Rating
  import opened Backend

  /** A listed book: the book row with its mean rating and review count beside it. */
  datatype RatedBook = RatedBook(book: Book, averageRating: real, reviewCount: nat)

  /**
   * The per-book rating query: the ratings of the book's reviews, or nothing when that
   * query failed (`failed` holds the ids of such books).
   */
  function FetchRatings(reviews: seq<Review>, b: Book, failed: set<Id>): (r: Option<seq<int>>)
    ensures r.None? <==> b.id in failed
    ensures r.Some? ==> |r.value| == Count(reviews, OfBook(b.id))
    ensures r.Some? ==> forall k :: 0 <= k < |r.value| ==>
      r.value[k] == ReviewsOfBook(reviews, b.id)[k].rating && ReviewsOfBook(reviews, b.id)[k].bookId == b.id
  {
    if b.id in failed then None else Some(Ratings(ReviewsOfBook(reviews, b.id)))
  }

  function Rate(b: Book, reviews: seq<Review>, failed: set<Id>): (r: RatedBook)
    ensures r.book == b
    ensures b.id in failed ==> r.averageRating == 0.0 && r.reviewCount == 0
    ensures b.id !in failed ==>
      Summary(r.averageRating, r.reviewCount) == Aggregate(Ratings(ReviewsOfBook(reviews, b.id)))
    ensures b.id !in failed ==> r.reviewCount == |ReviewsOfBook(reviews, b.id)|
    ensures r.reviewCount == 0 ==> r.averageRating == 0.0
  {
    var s := AggregateFetched(FetchRatings(reviews, b, failed));
    RatedBook(b, s.average, s.count)
  }

  /** Every listed book, in order, with its aggregate. */
  function Enrich(books: seq<Book>, reviews: seq<Review>, failed: set<Id>): (r: seq<RatedBook>)
    ensures |r| == |books|
    ensures forall i :: 0 <= i < |r| ==> r[i] == Rate(books[i], reviews, failed)
  {
    if books == [] then [] else [Rate(books[0], reviews, failed)] + Enrich(books[1..], reviews, failed)
  }

  /** The book rows of an enriched list. */
  function BooksOf(rated: seq<RatedBook>): (bs: seq<Book>)
    ensures |bs| == |rated|
    ensures forall i :: 0 <= i < |bs| ==> bs[i] == rated[i].book
  {
    if rated == [] then [] else [rated[0].book] + BooksOf(rated[1..])
  }

  /** Enrichment keeps every field of every book, the number of books and their order. */
  lemma EnrichKeepsBooks(books: seq<Book>, reviews: seq<Review>, failed: set<Id>)
    ensures BooksOf(Enrich(books, reviews, failed)) == books
  {
    var bs := BooksOf(Enrich(books, reviews, failed));
    assert forall i :: 0 <= i < |bs| ==> bs[i] == books[i];
  }

  /** On a table of 1-to-5-star reviews every attached mean lies between 0 and 5. */
  lemma EnrichedAveragesWithinStars(books: seq<Book>, reviews: seq<Review>, failed: set<Id>)
    requires forall i :: 0 <= i < |reviews| ==> ValidRating(reviews[i].rating)
    ensures forall r :: r in Enrich(books, reviews, failed) ==> 0.0 <= r.averageRating <= 5.0
  {
    var rated := Enrich(books, reviews, failed);
    forall r | r in rated ensures 0.0 <= r.averageRating <= 5.0 {
      var i :| 0 <= i < |rated| && rated[i] == r;
      var own := ReviewsOfBook(reviews, books[i].id);
      assert forall k :: 0 <= k < |own| ==> own[k] in reviews;
      AverageWithinStars(Ratings(own));
      assert r.averageRating == Aggregate(Ratings(own)).average || r.averageRating == 0.0;
    }
  }
}
