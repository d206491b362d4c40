/**
 * The profile page: the user's profile row, the books the user added (each with its rating
 * aggregate) and the reviews the user wrote (each with its book's title and author), both
 * newest first, and the two counts shown above them.
 */
module ProfileSummary {

  import opened Records
  import opened Query
  import opened Backend
  import opened Enrichment

  /** The title and author of the reviewed book, joined to a profile review row. */
  datatype BookRef = BookRef(title: string, author: string)

  /** A review with its joined book, which is missing when the book row is gone. */
  datatype ListedReview = ListedReview(review: Review, book: Option<BookRef>)

  /** The single-row lookup of the user's profile. */
  function FindProfile(profiles: seq<Profile>, userId: Id): (p: Option<Profile>)
    ensures p.Some? ==> p.value in profiles && p.value.userId == userId
    ensures p.None? ==> forall i :: 0 <= i < |profiles| ==> profiles[i].userId != userId
  {
    FindFirst(profiles, (q: Profile) => q.userId == userId)
  }

  /**
   * With one profile per user the lookup's row is the only row for that user, so the first
   * match is what a single-row query returns.
   */
  lemma FindProfileIsOnlyMatch(profiles: seq<Profile>, userId: Id)
    requires Pairwise(profiles, DistinctProfileUsers)
    ensures FindProfile(profiles, userId).Some? ==>
      forall i :: 0 <= i < |profiles| && profiles[i].userId == userId ==> profiles[i] == FindProfile(profiles, userId).value
  {
    var r := FindProfile(profiles, userId);
    if r.Some? {
      var k :| 0 <= k < |profiles| && profiles[k] == r.value;
    }
  }

  /** The books the user added, newest first. */
  function OwnBooks(books: seq<Book>, userId: Id): (r: seq<Book>)
    ensures forall b :: b in r <==> b in books && b.addedBy == userId
    ensures |r| == Count(books, AddedBy(userId))
    ensures multiset(r) == multiset(Filter(books, AddedBy(userId)))
    ensures SortedDesc(r, BookCreated)
  {
    var own := Filter(books, AddedBy(userId));
    var sorted := SortDesc(own, BookCreated);
    assert forall b :: b in sorted <==> b in multiset(own);
    sorted
  }

  /** The join of one review with its book's title and author. */
  function JoinBook(books: seq<Book>, r: Review): (j: ListedReview)
    ensures j.review == r
    ensures j.book.None? <==> forall i :: 0 <= i < |books| ==> books[i].id != r.bookId
    ensures j.book.Some? ==> exists b :: b in books && b.id == r.bookId && j.book.value == BookRef(b.title, b.author)
  {
    match FindBook(books, r.bookId)
    case None => ListedReview(r, None)
    case Some(b) => ListedReview(r, Some(BookRef(b.title, b.author)))
  }

  function JoinBooks(books: seq<Book>, reviews: seq<Review>): (rs: seq<ListedReview>)
    ensures |rs| == |reviews|
    ensures forall i :: 0 <= i < |rs| ==> rs[i] == JoinBook(books, reviews[i])
  {
    if reviews == [] then [] else [JoinBook(books, reviews[0])] + JoinBooks(books, reviews[1..])
  }

  /** The reviews the user wrote, newest first. */
  function UserReviewRows(reviews: seq<Review>, userId: Id): (r: seq<Review>)
    ensures forall x :: x in r <==> x in reviews && x.userId == userId
    ensures |r| == Count(reviews, ByUser(userId))
    ensures multiset(r) == multiset(Filter(reviews, ByUser(userId)))
    ensures SortedDesc(r, ReviewCreated)
  {
    var own := Filter(reviews, ByUser(userId));
    var sorted := SortDesc(own, ReviewCreated);
    assert forall x :: x in sorted <==> x in multiset(own);
    sorted
  }

  /** The user's reviews, newest first, each joined with its book's title and author. */
  function OwnReviews(reviews: seq<Review>, books: seq<Book>, userId: Id): (r: seq<ListedReview>)
    ensures |r| == Count(reviews, ByUser(userId))
    ensures forall i :: 0 <= i < |r| ==> r[i] == JoinBook(books, UserReviewRows(reviews, userId)[i])
  {
    JoinBooks(books, UserReviewRows(reviews, userId))
  }

  /** The "My Reviews" list holds every review the user wrote and no other, newest first. */
  lemma ProfileReviewsAreOwn(reviews: seq<Review>, books: seq<Book>, userId: Id)
    ensures var listed := OwnReviews(reviews, books, userId);
      (forall i :: 0 <= i < |listed| ==> listed[i].review in reviews && listed[i].review.userId == userId) &&
      (forall x :: x in reviews && x.userId == userId ==> exists i :: 0 <= i < |listed| && listed[i].review == x) &&
      (forall i, j :: 0 <= i < j < |listed| ==> listed[i].review.createdAt >= listed[j].review.createdAt)
  {
    var rows := UserReviewRows(reviews, userId);
    var listed := OwnReviews(reviews, books, userId);
    assert forall i :: 0 <= i < |listed| ==> listed[i].review == rows[i];
    forall x | x in reviews && x.userId == userId
      ensures exists i :: 0 <= i < |listed| && listed[i].review == x
    {
      var i :| 0 <= i < |rows| && rows[i] == x;
      assert listed[i].review == x;
    }
    forall i, j | 0 <= i < j < |listed| ensures listed[i].review.createdAt >= listed[j].review.createdAt {
      assert ReviewCreated(rows[i]) >= ReviewCreated(rows[j]);
    }
  }

  /** Every book on the profile is one the user added, with its own aggregate; none is left out. */
  lemma ProfileBooksAreOwn(books: seq<Book>, reviews: seq<Review>, failed: set<Id>, userId: Id)
    ensures var listed := Enrich(OwnBooks(books, userId), reviews, failed);
      (forall r :: r in listed ==> r.book in books && r.book.addedBy == userId) &&
      (forall b :: b in books && b.addedBy == userId ==> exists r :: r in listed && r.book == b)
  {
    var own := OwnBooks(books, userId);
    var listed := Enrich(own, reviews, failed);
    forall r | r in listed ensures r.book in books && r.book.addedBy == userId {
      var i :| 0 <= i < |listed| && listed[i] == r;
      assert r.book == own[i];
    }
    forall b | b in books && b.addedBy == userId ensures exists r :: r in listed && r.book == b {
      var i :| 0 <= i < |own| && own[i] == b;
      assert listed[i].book == b;
    }
  }

  /** The profile page's component state. */
  class ProfilePage {
    var profile: Option<Profile>
    var userBooks: seq<RatedBook>
    var userReviews: seq<ListedReview>
    var loading: bool

    constructor ()
      ensures profile == None && userBooks == [] && userReviews == [] && loading
    {
      profile, userBooks, userReviews, loading := None, [], [], true;
    }

    /** "Books Added". */
    function BooksAdded(): nat
      reads this
    {
      |userBooks|
    }

    /** "Reviews Written". */
    function ReviewsWritten(): nat
      reads this
    {
      |userReviews|
    }

    /**
     * The effect on `[user]` and `fetchProfileData`: nothing happens without a user. Each of
     * the three queries may fail (`profileOk`, `booksOk`, `reviewsOk`, and `failed` for the
     * per-book review queries); a failed query reads as no data, and loading ends in every case.
     */
    method Load(store: Store, user: Option<Id>, profileOk: bool, booksOk: bool, reviewsOk: bool, failed: set<Id>)
      requires Pairwise(store.profiles, DistinctProfileUsers)
      modifies this
      ensures user.None? ==>
        profile == old(profile) && userBooks == old(userBooks) &&
        userReviews == old(userReviews) && loading == old(loading)
      ensures user.Some? ==> !loading
      ensures user.Some? ==>
        profile == (if profileOk then FindProfile(store.profiles, user.value) else None)
      ensures user.Some? && profile.Some? ==> forall i :: 0 <= i < |store.profiles| ==>
        (store.profiles[i].userId == user.value <==> store.profiles[i] == profile.value)
      ensures user.Some? ==>
        userBooks == Enrich(if booksOk then OwnBooks(store.books, user.value) else [], store.reviews, failed)
      ensures user.Some? ==>
        userReviews == (if reviewsOk then OwnReviews(store.reviews, store.books, user.value) else [])
      ensures user.Some? ==>
        BooksAdded() == (if booksOk then Count(store.books, AddedBy(user.value)) else 0) &&
        ReviewsWritten() == (if reviewsOk then Count(store.reviews, ByUser(user.value)) else 0)
    {
      if user.None? {
        return;
      }
      var uid := user.value;
      profile := if profileOk then FindProfile(store.profiles, uid) else None;
      FindProfileIsOnlyMatch(store.profiles, uid);
      var booksData := if booksOk then OwnBooks(store.books, uid) else [];
      userBooks := Enrich(booksData, store.reviews, failed);
      userReviews := if reviewsOk then OwnReviews(store.reviews, store.books, uid) else [];
      loading := false;
    }
  }
}
