/**
 * The book page and its review session: the book, its reviews newest first, the current
 * user's own review (at most one per book), the review form, and the confirmation dialog
 * that deletes either that review or, for the book's owner, the book.
 */
module ReviewSession {

  import opened Records
  import opened Query
  import opened Rating
  import opened Backend

  /** What the confirmation dialog deletes. */
  datatype DeleteTarget = BookTarget | ReviewTarget

  /**
   * Why a review submit is refused before anything is sent: the browser blocks a form whose
   * required review text is empty before the handler runs; the handler itself refuses a
   * visitor who is not logged in and a missing star rating.
   */
  datatype SubmitError = EmptyText | NotLoggedIn | NoRating

  /** The write a review submit sends to the reviews table, if any. */
  datatype ReviewWrite =
    | Refused(reason: SubmitError)
    | UpdateOwn(id: Id, rating: int, text: string)
    | InsertNew(bookId: Id, userId: Id, rating: int, text: string)

  // ----- Reading -----

  /** The review list of the page: the book's reviews, newest first. */
  function ReviewList(table: seq<Review>, bookId: Id): (rows: seq<Review>)
    ensures multiset(rows) == multiset(ReviewsOfBook(table, bookId))
    ensures SortedDesc(rows, ReviewCreated)
  {
    SortDesc(ReviewsOfBook(table, bookId), ReviewCreated)
  }

  /** The listed reviews come from the table, so their ratings are star counts when the table's are. */
  lemma ListedRatingsValid(table: seq<Review>, bookId: Id)
    requires forall i :: 0 <= i < |table| ==> ValidRating(table[i].rating)
    ensures forall r :: r in ReviewList(table, bookId) ==> ValidRating(r.rating)
  {
    var rows := ReviewList(table, bookId);
    forall r | r in rows ensures ValidRating(r.rating) {
      assert r in multiset(ReviewsOfBook(table, bookId));
      assert r in table;
    }
  }

  /** The pickup of the user's review: the first review in the list written by the user. */
  function FindOwnReview(reviews: seq<Review>, userId: Id): (r: Option<Review>)
    ensures r.Some? ==> r.value in reviews && r.value.userId == userId
    ensures r.Some? ==>
      exists i :: 0 <= i < |reviews| && reviews[i] == r.value && (forall j :: 0 <= j < i ==> reviews[j].userId != userId)
    ensures r.None? ==> forall i :: 0 <= i < |reviews| ==> reviews[i].userId != userId
  {
    FindFirst(reviews, ByUser(userId))
  }

  /**
   * Picking up the user's review from the fetched list finds one exactly when the user has
   * reviewed this book, and what it finds is that review as stored.
   */
  lemma OwnReviewMatchesTable(table: seq<Review>, bookId: Id, userId: Id)
    ensures var found := FindOwnReview(ReviewList(table, bookId), userId);
      (found.None? <==> !HasReviewed(table, bookId, userId)) &&
      (found.Some? ==> found.value in table && found.value.bookId == bookId && found.value.userId == userId)
  {
    var rows := ReviewList(table, bookId);
    var own := ReviewsOfBook(table, bookId);
    var found := FindOwnReview(rows, userId);
    if found.Some? {
      assert found.value in multiset(own);
      assert found.value in own;
      var i :| 0 <= i < |table| && table[i] == found.value;
      assert HasReviewed(table, bookId, userId);
    }
    if HasReviewed(table, bookId, userId) {
      var i :| 0 <= i < |table| && table[i].bookId == bookId && table[i].userId == userId;
      assert table[i] in own;
      assert table[i] in multiset(rows);
      var k :| 0 <= k < |rows| && rows[k] == table[i];
      assert found.Some?;
    }
  }

  // ----- Rating and ownership -----

  /** The mean rating and review count of the book page: the aggregate of the listed reviews. */
  function PageAggregate(reviews: seq<Review>): (s: Summary)
    ensures s.count == |reviews|
    ensures s.count == 0 ==> s.average == 0.0
    ensures s.count > 0 ==> s.average * (s.count as real) == Sum(Ratings(reviews)) as real
  {
    Aggregate(Ratings(reviews))
  }

  lemma RemoveAt<T>(s: seq<T>, k: nat)
    requires k < |s|
    ensures s == s[..k] + [s[k]] + s[k + 1..]
    ensures multiset(s) == multiset(s[..k] + s[k + 1..]) + multiset{s[k]}
  {
    assert s == s[..k] + [s[k]] + s[k + 1..];
  }

  lemma CancelOne<T>(m1: multiset<T>, m2: multiset<T>, x: T)
    requires m1 + multiset{x} == m2 + multiset{x}
    ensures m1 == m2
  {
    assert forall y :: m1[y] == (m1 + multiset{x})[y] - multiset{x}[y];
    assert forall y :: m2[y] == (m2 + multiset{x})[y] - multiset{x}[y];
  }

  lemma {:induction false} RatingsRemoveAt(s: seq<Review>, k: nat)
    requires k < |s|
    ensures Ratings(s[..k] + s[k + 1..]) == Ratings(s)[..k] + Ratings(s)[k + 1..]
    ensures Ratings(s)[k] == s[k].rating
  {
    var l := s[..k] + s[k + 1..];
    var rl, rs := Ratings(l), Ratings(s);
    var expected := rs[..k] + rs[k + 1..];
    assert |rl| == |expected|;
    forall i | 0 <= i < |rl| ensures rl[i] == expected[i] {
      if i < k {
        assert l[i] == s[i];
      } else {
        assert l[i] == s[i + 1];
      }
    }
  }

  lemma {:induction false} RatingsPermutation(a: seq<Review>, b: seq<Review>)
    requires multiset(a) == multiset(b)
    ensures multiset(Ratings(a)) == multiset(Ratings(b))
    decreases |a|
  {
    if a == [] {
      assert |b| == |multiset(b)| == 0;
    } else {
      var n := |a| - 1;
      var x := a[n];
      assert x in multiset(b);
      var k :| 0 <= k < |b| && b[k] == x;
      RemoveAt(a, n);
      RemoveAt(b, k);
      assert a[..n] + a[n + 1..] == a[..n];
      CancelOne(multiset(a[..n]), multiset(b[..k] + b[k + 1..]), x);
      RatingsPermutation(a[..n], b[..k] + b[k + 1..]);
      RatingsRemoveAt(a, n);
      RatingsRemoveAt(b, k);
      var ra, rb := Ratings(a), Ratings(b);
      RemoveAt(ra, n);
      RemoveAt(rb, k);
      assert multiset(ra) == multiset(Ratings(a[..n])) + multiset{x.rating};
    }
  }

  /**
   * The book page shows the same mean and count as the book's card in the directory and on
   * the profile page, although it averages the reviews in newest-first order.
   */
  lemma PageAggregateMatchesCard(table: seq<Review>, bookId: Id)
    ensures PageAggregate(ReviewList(table, bookId)) == Aggregate(Ratings(ReviewsOfBook(table, bookId)))
  {
    RatingsPermutation(ReviewList(table, bookId), ReviewsOfBook(table, bookId));
    AggregateIgnoresOrder(Ratings(ReviewList(table, bookId)), Ratings(ReviewsOfBook(table, bookId)));
  }

  /** The owner check of the book page: a user is logged in and is the one who added the book. */
  predicate IsBookOwner(user: Option<Id>, book: Book)
    ensures IsBookOwner(user, book) ==> user.Some?
  {
    user.Some? && user.value == book.addedBy
  }

  /**
   * The owner check agrees with the owner-scoped book lists: a user owns a book of the table
   * exactly when that book is among the books the user added.
   */
  lemma OwnerIffAmongAddedBooks(user: Id, book: Book, books: seq<Book>)
    requires book in books
    ensures IsBookOwner(Some(user), book) <==> book in Filter(books, AddedBy(user))
  {
  }

  // ----- Submitting -----

  /**
   * The decision taken on a submit of the review form before anything is written: the
   * browser's check of the required text, then the checks of `handleSubmitReview`.
   */
  function SubmitDecision(user: Option<Id>, bookId: Id, userReview: Option<Review>, rating: int, text: string)
    : (w: ReviewWrite)
    ensures text == [] <==> w == Refused(EmptyText)
    ensures (text != [] && user.None?) <==> w == Refused(NotLoggedIn)
    ensures (text != [] && user.Some? && rating == 0) <==> w == Refused(NoRating)
    ensures w.UpdateOwn? <==> text != [] && user.Some? && rating != 0 && userReview.Some?
    ensures w.UpdateOwn? ==> w == UpdateOwn(userReview.value.id, rating, text)
    ensures w.InsertNew? ==> w == InsertNew(bookId, user.value, rating, text)
  {
    if text == [] then Refused(EmptyText)
    else if user.None? then Refused(NotLoggedIn)
    else if rating == 0 then Refused(NoRating)
    else if userReview.Some? then UpdateOwn(userReview.value.id, rating, text)
    else InsertNew(bookId, user.value, rating, text)
  }

  /** The reviews table after the store accepts a write; `freshId` and `now` are the store's. */
  function ApplyReviewWrite(table: seq<Review>, w: ReviewWrite, freshId: Id, now: int): seq<Review>
  {
    match w
    case Refused(_) => table
    case UpdateOwn(id, rating, text) => UpdateReviewRows(table, id, rating, text)
    case InsertNew(bookId, userId, rating, text) => table + [Review(freshId, bookId, userId, rating, text, now)]
  }

  /**
   * The session agrees with the table: the user's review, when held, is theirs for this
   * book; when none is held, the user has not reviewed the book.
   */
  ghost predicate Consistent(table: seq<Review>, bookId: Id, user: Option<Id>, userReview: Option<Review>)
  {
    user.Some? ==>
      match userReview
      case Some(r) => r.bookId == bookId && r.userId == user.value
      case None => !HasReviewed(table, bookId, user.value)
  }

  /** A submit from a consistent session never gives a user a second review of a book. */
  lemma SubmitKeepsOneReviewPerUser(table: seq<Review>, user: Option<Id>, bookId: Id,
                                    userReview: Option<Review>, rating: int, text: string, freshId: Id, now: int)
    requires OneReviewPerUser(table)
    requires Consistent(table, bookId, user, userReview)
    ensures OneReviewPerUser(ApplyReviewWrite(table, SubmitDecision(user, bookId, userReview, rating, text), freshId, now))
  {
    var w := SubmitDecision(user, bookId, userReview, rating, text);
    match w
    case Refused(_) =>
    case UpdateOwn(id, r, t) => UpdateKeepsOneReviewPerUser(table, id, r, t);
    case InsertNew(b, u, r, t) => InsertKeepsOneReviewPerUser(table, Review(freshId, b, u, r, t, now));
  }

  /**
   * Submitting with a review already held updates it in place: the book keeps its number of
   * reviews. Submitting without one adds exactly one review to the book.
   */
  lemma SubmitReviewCount(table: seq<Review>, user: Option<Id>, bookId: Id,
                          userReview: Option<Review>, rating: int, text: string, freshId: Id, now: int)
    ensures var w := SubmitDecision(user, bookId, userReview, rating, text);
      var after := |ReviewsOfBook(ApplyReviewWrite(table, w, freshId, now), bookId)|;
      var before := |ReviewsOfBook(table, bookId)|;
      (w.InsertNew? ==> after == before + 1) && (!w.InsertNew? ==> after == before)
  {
    var w := SubmitDecision(user, bookId, userReview, rating, text);
    match w
    case Refused(_) =>
    case UpdateOwn(id, r, t) => UpdateKeepsReviewCount(table, id, r, t, bookId);
    case InsertNew(b, u, r, t) => InsertAddsOneReview(table, Review(freshId, b, u, r, t, now));
  }

  /**
   * The window after an accepted insert: the page still holds no review of its own until the
   * refetch lands, so the session no longer agrees with the table, and a second submit inserts
   * again and gives the user two reviews of the book.
   */
  lemma SubmitTwiceBreaksRule(table: seq<Review>, user: Id, bookId: Id, rating: int, text: string,
                              firstId: Id, firstAt: int, secondId: Id, secondAt: int)
    requires rating != 0 && text != []
    ensures var w := SubmitDecision(Some(user), bookId, None, rating, text);
      var once := ApplyReviewWrite(table, w, firstId, firstAt);
      w.InsertNew? && !Consistent(once, bookId, Some(user), None) &&
      !OneReviewPerUser(ApplyReviewWrite(once, w, secondId, secondAt))
  {
    var once := table + [Review(firstId, bookId, user, rating, text, firstAt)];
    assert once[|table|].bookId == bookId && once[|table|].userId == user;
    InsertSecondReviewBreaksRule(once, Review(secondId, bookId, user, rating, text, secondAt));
  }

  // ----- The page -----

  /** The book page's component state; `bookId` is the route parameter. */
  class BookDetailsPage {
    const bookId: Id
    var book: Option<Book>
    var reviews: seq<Review>
    var loading: bool
    var rating: int
    var reviewText: string
    var submitting: bool
    var userReview: Option<Review>
    var editingReview: bool
    var deleteDialogOpen: bool
    var deleteType: DeleteTarget

    ghost predicate Valid()
      reads this
    {
      0 <= rating <= 5
    }

    constructor (bookId: Id)
      ensures Valid() && this.bookId == bookId
      ensures book == None && reviews == [] && loading && rating == 0 && reviewText == []
      ensures !submitting && userReview == None && !editingReview && !deleteDialogOpen
      ensures deleteType == ReviewTarget
    {
      this.bookId := bookId;
      book, reviews, loading, rating, reviewText := None, [], true, 0, [];
      submitting, userReview, editingReview, deleteDialogOpen, deleteType := false, None, false, false, ReviewTarget;
    }

    /** The review form is on screen (rather than the read-only view of the user's review). */
    predicate FormShown()
      reads this
    {
      userReview.None? || editingReview
    }

    /**
     * The delete-review control is on screen: the page is past its spinner and shows a loaded
     * book, and there is the "Your Review" card or a review card the user owns.
     */
    predicate DeleteReviewShown(user: Option<Id>)
      reads this
    {
      !loading && book.Some? && user.Some? &&
      ((userReview.Some? && !editingReview) || exists i :: 0 <= i < |reviews| && reviews[i].userId == user.value)
    }

    /**
     * `fetchBookDetails`: `ok` is whether the query succeeded. A missing row is an error of
     * the single-row lookup. On error the page keeps showing its spinner.
     */
    method FetchBookDetails(store: Store, ok: bool)
      requires store.Valid()
      modifies this`book, this`loading
      ensures var found := FindBook(store.books, bookId);
        if ok && found.Some? then book == found && !loading
        else book == old(book) && loading == old(loading)
      ensures ok && FindBook(store.books, bookId).Some? ==> book.Some? && forall i :: 0 <= i < |store.books| ==>
        (store.books[i].id == bookId <==> store.books[i] == book.value)
    {
      var found := FindBook(store.books, bookId);
      FindBookIsOnlyMatch(store.books, bookId);
      if ok && found.Some? {
        book := found;
        loading := false;
      }
    }

    /**
     * `fetchReviews`: on success the list is replaced and, for a logged-in user with a review
     * of the book, that review is picked up and fills the form. Nothing else is touched: in
     * particular a review held from before stays when the user has none. A session that held
     * no review, or picks one up, then agrees with the table.
     */
    method FetchReviews(store: Store, user: Option<Id>, ok: bool)
      requires Valid() && store.Valid()
      modifies this`reviews, this`userReview, this`rating, this`reviewText
      ensures Valid()
      ensures !ok ==> reviews == old(reviews) && userReview == old(userReview) &&
                      rating == old(rating) && reviewText == old(reviewText)
      ensures ok ==> reviews == ReviewList(store.reviews, bookId)
      ensures ok ==>
        var found := if user.Some? then FindOwnReview(reviews, user.value) else None;
        if found.Some? then userReview == found && rating == found.value.rating && reviewText == found.value.reviewText
        else userReview == old(userReview) && rating == old(rating) && reviewText == old(reviewText)
      ensures ok && user.Some? && (old(userReview).None? || FindOwnReview(reviews, user.value).Some?) ==>
        Consistent(store.reviews, bookId, user, userReview)
    {
      if ok {
        var listed := ReviewList(store.reviews, bookId);
        reviews := listed;
        if user.Some? {
          var existing := FindOwnReview(listed, user.value);
          ghost var held := if existing.Some? then existing else userReview;
          assert userReview.None? || existing.Some? ==> Consistent(store.reviews, bookId, user, held) by {
            OwnReviewMatchesTable(store.reviews, bookId, user.value);
          }
          if existing.Some? {
            ListedRatingsValid(store.reviews, bookId);
            userReview := existing;
            rating := existing.value.rating;
            reviewText := existing.value.reviewText;
          }
        }
      }
    }

    /** A star of the rating picker. */
    method ChooseRating(star: int)
      requires Valid() && 1 <= star <= 5
      modifies this`rating
      ensures Valid() && rating == star
    {
      rating := star;
    }

    method EditText(text: string)
      modifies this`reviewText
      ensures reviewText == text
    {
      reviewText := text;
    }

    /** "Edit Review" (or a review card's Edit) and the form's "Cancel". */
    method SetEditing(on: bool)
      modifies this`editingReview
      ensures editingReview == on
    {
      editingReview := on;
    }

    /** "Delete Book": present only for the book's owner. */
    method RequestDeleteBook(user: Option<Id>)
      modifies this`deleteType, this`deleteDialogOpen
      ensures if book.Some? && IsBookOwner(user, book.value) then deleteType == BookTarget && deleteDialogOpen
              else deleteType == old(deleteType) && deleteDialogOpen == old(deleteDialogOpen)
    {
      if book.Some? && IsBookOwner(user, book.value) {
        deleteType := BookTarget;
        deleteDialogOpen := true;
      }
    }

    /** "Delete Review" on the user's review or on a review card the user owns. */
    method RequestDeleteReview(user: Option<Id>)
      modifies this`deleteType, this`deleteDialogOpen
      ensures if old(DeleteReviewShown(user)) then deleteType == ReviewTarget && deleteDialogOpen
              else deleteType == old(deleteType) && deleteDialogOpen == old(deleteDialogOpen)
    {
      if DeleteReviewShown(user) {
        deleteType := ReviewTarget;
        deleteDialogOpen := true;
      }
    }

    /** The dialog's "Cancel" (or dismissing it). */
    method CloseDialog()
      modifies this`deleteDialogOpen
      ensures !deleteDialogOpen
    {
      deleteDialogOpen := false;
    }

    /**
     * `handleSubmitReview`: refused without a user or a rating; otherwise one write, an update
     * of the held review or an insert tied to (book, user). Only an accepted write leaves edit
     * mode. The list is refreshed by a following `FetchReviews`.
     */
    method SubmitReview(store: Store, user: Option<Id>, now: int, accepted: bool) returns (w: ReviewWrite, ok: bool)
      requires Valid() && store.Valid()
      modifies this`editingReview, this`submitting, store
      ensures Valid() && store.Valid()
      ensures w == SubmitDecision(user, bookId, userReview, rating, reviewText)
      ensures ok <==> !w.Refused? && accepted
      ensures store.reviews == if ok then ApplyReviewWrite(old(store.reviews), w, old(store.nextId), now)
                               else old(store.reviews)
      ensures store.books == old(store.books) && store.profiles == old(store.profiles)
      ensures editingReview == if ok then false else old(editingReview)
      ensures !w.Refused? ==> !submitting
      ensures w.Refused? ==> submitting == old(submitting)
      ensures old(OneReviewPerUser(store.reviews)) && old(Consistent(store.reviews, bookId, user, userReview)) ==>
        OneReviewPerUser(store.reviews)
      ensures ok ==> (FormShown() <==> userReview.None?)
      ensures ok && w.InsertNew? ==> userReview.None? && !Consistent(store.reviews, bookId, user, userReview)
    {
      w := SubmitDecision(user, bookId, userReview, rating, reviewText);
      ghost var before := store.reviews;
      ghost var freshId := store.nextId;
      if w.Refused? {
        ok := false;
        return;
      }
      submitting := true;
      if w.UpdateOwn? {
        ok := store.UpdateReview(w.id, w.rating, w.text, accepted);
      } else {
        ok := store.InsertReview(w.bookId, w.userId, w.rating, w.text, now, accepted);
      }
      if ok {
        editingReview := false;
      }
      submitting := false;
      if ok && w.InsertNew? {
        assert store.reviews[|before|].bookId == bookId && store.reviews[|before|].userId == user.value;
      }
      if OneReviewPerUser(before) && Consistent(before, bookId, user, userReview) {
        SubmitKeepsOneReviewPerUser(before, user, bookId, userReview, rating, reviewText, freshId, now);
      }
    }

    /**
     * `handleDeleteReview`: nothing without a held review; otherwise delete it by id, and on
     * success clear the session (no review, rating 0, empty text) and close the dialog.
     */
    method DeleteReview(store: Store, accepted: bool) returns (ok: bool)
      requires Valid() && store.Valid()
      modifies this`userReview, this`rating, this`reviewText, this`deleteDialogOpen, store
      ensures Valid() && store.Valid()
      ensures ok <==> old(userReview).Some? && accepted
      ensures store.reviews == if ok then DeleteReviewRows(old(store.reviews), old(userReview).value.id)
                               else old(store.reviews)
      ensures store.books == old(store.books) && store.profiles == old(store.profiles)
      ensures ok ==> userReview == None && rating == 0 && reviewText == [] && !deleteDialogOpen
      ensures ok ==> FormShown()
      ensures !ok ==> userReview == old(userReview) && rating == old(rating) &&
                      reviewText == old(reviewText) && deleteDialogOpen == old(deleteDialogOpen)
    {
      if userReview.None? {
        return false;
      }
      ok := store.DeleteReview(userReview.value.id, accepted);
      if !ok {
        return;
      }
      userReview := None;
      rating := 0;
      reviewText := [];
      deleteDialogOpen := false;
    }

    /** `handleDeleteBook`: delete the book by id; on success the page navigates to the directory. */
    method DeleteBook(store: Store, accepted: bool) returns (ok: bool)
      requires store.Valid()
      modifies store
      ensures store.Valid() && ok == accepted
      ensures store.books == if ok then Filter(old(store.books), OtherBook(bookId)) else old(store.books)
      ensures store.reviews == old(store.reviews) && store.profiles == old(store.profiles)
      ensures ok && FindBook(old(store.books), bookId).Some? ==> |store.books| == |old(store.books)| - 1
    {
      ghost var before := store.books;
      ok := store.DeleteBook(bookId, accepted);
      if ok && FindBook(before, bookId).Some? {
        var i :| 0 <= i < |before| && before[i] == FindBook(before, bookId).value;
        DeleteBookRemovesOne(before, i);
      }
    }

    /** The dialog's "Delete": the book delete when the dialog was opened for the book, else the review delete. */
    method ConfirmDelete(store: Store, accepted: bool) returns (target: DeleteTarget, ok: bool)
      requires Valid() && store.Valid()
      modifies this`userReview, this`rating, this`reviewText, this`deleteDialogOpen, store
      ensures Valid() && store.Valid()
      ensures target == old(deleteType)
      ensures target == BookTarget ==>
        ok == accepted && store.reviews == old(store.reviews) &&
        store.books == (if ok then Filter(old(store.books), OtherBook(bookId)) else old(store.books)) &&
        userReview == old(userReview) && rating == old(rating) && reviewText == old(reviewText)
      ensures target == BookTarget ==> deleteDialogOpen == old(deleteDialogOpen)
      ensures target == ReviewTarget ==>
        (ok <==> old(userReview).Some? && accepted) && store.books == old(store.books) &&
        store.reviews == (if ok then DeleteReviewRows(old(store.reviews), old(userReview).value.id)
                          else old(store.reviews))
      ensures target == ReviewTarget && ok ==>
        userReview == None && rating == 0 && reviewText == [] && !deleteDialogOpen
      ensures target == ReviewTarget && !ok ==>
        userReview == old(userReview) && rating == old(rating) && reviewText == old(reviewText) &&
        deleteDialogOpen == old(deleteDialogOpen)
    {
      target := deleteType;
      if target == BookTarget {
        ok := DeleteBook(store, accepted);
      } else {
        ok := DeleteReview(store, accepted);
      }
    }
  }
}
