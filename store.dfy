/**
 * The hosted store as the pages see it: the books, reviews and profiles tables held as
 * sequences of rows, and the writes the pages issue (insert, update by id, delete by id).
 * Whether the store accepts a write is a parameter: a rejected write changes nothing.
 */
module Backend {

  import opened Records
  import opened Query

  // ----- Row selectors: a column equal (or not equal) to a value -----

  function OfBook(bookId: Id): Review -> bool { (r: Review) => r.bookId == bookId }
  function ByUser(userId: Id): Review -> bool { (r: Review) => r.userId == userId }
  function AddedBy(userId: Id): Book -> bool { (b: Book) => b.addedBy == userId }
  function OtherReview(id: Id): Review -> bool { (r: Review) => r.id != id }
  function OtherBook(id: Id): Book -> bool { (b: Book) => b.id != id }
  function BookWithId(id: Id): Book -> bool { (b: Book) => b.id == id }

  /** The reviews of one book, in table order. */
  function ReviewsOfBook(reviews: seq<Review>, bookId: Id): seq<Review>
  {
    Filter(reviews, OfBook(bookId))
  }

  /** The single-row lookup of a book by id: the first row with that id. */
  function FindBook(books: seq<Book>, id: Id): (r: Option<Book>)
    ensures r.Some? ==> r.value in books && r.value.id == id
    ensures r.None? ==> forall i :: 0 <= i < |books| ==> books[i].id != id
  {
    FindFirst(books, BookWithId(id))
  }

  /**
   * With distinct book ids the lookup's row is the only row with that id, so the first
   * match is what a single-row query returns.
   */
  lemma FindBookIsOnlyMatch(books: seq<Book>, id: Id)
    requires Pairwise(books, DistinctBookIds)
    ensures FindBook(books, id).Some? ==>
      forall i :: 0 <= i < |books| && books[i].id == id ==> books[i] == FindBook(books, id).value
  {
    var r := FindBook(books, id);
    if r.Some? {
      var k :| 0 <= k < |books| && books[k] == r.value;
    }
  }

  function Ratings(reviews: seq<Review>): (ratings: seq<int>)
    ensures |ratings| == |reviews|
    ensures forall i :: 0 <= i < |reviews| ==> ratings[i] == reviews[i].rating
  {
    if reviews == [] then [] else [reviews[0].rating] + Ratings(reviews[1..])
  }

  // ----- Table invariants -----

  function DistinctReviewIds(x: Review, y: Review): bool { x.id != y.id }
  function DistinctBookIds(x: Book, y: Book): bool { x.id != y.id }
  function DistinctProfileUsers(x: Profile, y: Profile): bool { x.userId != y.userId }

  /** Two reviews are not by the same user about the same book. */
  function NotSameReviewer(x: Review, y: Review): bool
  {
    x.bookId != y.bookId || x.userId != y.userId
  }

  /** At most one review per (book, user): the application keeps this, the store does not enforce it. */
  ghost predicate OneReviewPerUser(reviews: seq<Review>)
  {
    Pairwise(reviews, NotSameReviewer)
  }

  /** `userId` has a review of `bookId` in the table. */
  ghost predicate HasReviewed(reviews: seq<Review>, bookId: Id, userId: Id)
  {
    exists i :: 0 <= i < |reviews| && reviews[i].bookId == bookId && reviews[i].userId == userId
  }

  // ----- Effects of the writes on a table -----

  /** Updating a review by id: the rows with that id get the new rating and text. */
  function UpdateReviewRows(reviews: seq<Review>, id: Id, rating: int, text: string): (r: seq<Review>)
    ensures |r| == |reviews|
    ensures forall i :: 0 <= i < |r| ==>
      r[i] == if reviews[i].id == id then reviews[i].(rating := rating, reviewText := text) else reviews[i]
  {
    if reviews == [] then []
    else
      var row := if reviews[0].id == id then reviews[0].(rating := rating, reviewText := text) else reviews[0];
      [row] + UpdateReviewRows(reviews[1..], id, rating, text)
  }

  /** Deleting reviews by id: the rows with another id are kept, in table order. */
  function DeleteReviewRows(reviews: seq<Review>, id: Id): (r: seq<Review>)
    ensures forall x :: x in r <==> x in reviews && x.id != id
  {
    Filter(reviews, OtherReview(id))
  }

  /** A review delete keeps every row with another id exactly as often as the table has it. */
  lemma DeleteReviewCounts(reviews: seq<Review>, id: Id)
    ensures forall x :: multiset(DeleteReviewRows(reviews, id))[x] == if x.id != id then multiset(reviews)[x] else 0
  {
    FilterCounts(reviews, OtherReview(id));
  }

  /** A books row after an update with the form's fields: those columns change, id, owner and creation time do not. */
  function UpdatedBook(b: Book, f: BookFields): (r: Book)
    ensures r.id == b.id && r.addedBy == b.addedBy && r.createdAt == b.createdAt
    ensures r.title == f.title && r.author == f.author && r.genre == f.genre
    ensures r.publishedYear == f.publishedYear && r.description == Some(f.description)
  {
    b.(title := f.title, author := f.author, description := Some(f.description),
       genre := f.genre, publishedYear := f.publishedYear)
  }

  /** Updating a book by id with the form's fields. */
  function UpdateBookRows(books: seq<Book>, id: Id, f: BookFields): (r: seq<Book>)
    ensures |r| == |books|
    ensures forall i :: 0 <= i < |r| ==>
      r[i] == if books[i].id == id then UpdatedBook(books[i], f) else books[i]
  {
    if books == [] then []
    else
      var row := if books[0].id == id then UpdatedBook(books[0], f) else books[0];
      [row] + UpdateBookRows(books[1..], id, f)
  }

  /** The row the store creates for an insert of the form's fields and an owner, with a fresh id and the current time. */
  function NewBook(id: Id, f: BookFields, addedBy: Id, now: int): (b: Book)
    ensures b.id == id && b.addedBy == addedBy && b.createdAt == now
    ensures b.title == f.title && b.author == f.author && b.genre == f.genre
    ensures b.publishedYear == f.publishedYear && b.description == Some(f.description)
  {
    Book(id, f.title, f.author, f.genre, f.publishedYear, Some(f.description), addedBy, now)
  }

  // ----- Lemmas about the writes -----

  /** Updating a review keeps the number of reviews of every book. */
  lemma {:induction false} UpdateKeepsReviewCount(reviews: seq<Review>, id: Id, rating: int, text: string, bookId: Id)
    ensures |ReviewsOfBook(UpdateReviewRows(reviews, id, rating, text), bookId)| == |ReviewsOfBook(reviews, bookId)|
  {
    if reviews != [] {
      UpdateKeepsReviewCount(reviews[1..], id, rating, text, bookId);
      var r := UpdateReviewRows(reviews, id, rating, text);
      assert r[1..] == UpdateReviewRows(reviews[1..], id, rating, text);
    }
  }

  /** Inserting a review of a book adds exactly one to that book's reviews. */
  lemma InsertAddsOneReview(reviews: seq<Review>, r: Review)
    ensures ReviewsOfBook(reviews + [r], r.bookId) == ReviewsOfBook(reviews, r.bookId) + [r]
  {
    FilterAppend(reviews, [r], OfBook(r.bookId));
    assert Filter([r], OfBook(r.bookId)) == [r] by {
      assert [r][1..] == [];
    }
  }

  lemma UpdateKeepsOneReviewPerUser(reviews: seq<Review>, id: Id, rating: int, text: string)
    requires OneReviewPerUser(reviews)
    ensures OneReviewPerUser(UpdateReviewRows(reviews, id, rating, text))
  {
    var r := UpdateReviewRows(reviews, id, rating, text);
    forall i, j | 0 <= i < j < |r| ensures NotSameReviewer(r[i], r[j]) {
      assert NotSameReviewer(reviews[i], reviews[j]);
    }
  }

  /** A first review by a user of a book keeps the one-review-per-user rule. */
  lemma InsertKeepsOneReviewPerUser(reviews: seq<Review>, r: Review)
    requires OneReviewPerUser(reviews)
    requires !HasReviewed(reviews, r.bookId, r.userId)
    ensures OneReviewPerUser(reviews + [r])
  {
    AppendPairwise(reviews, r, NotSameReviewer);
  }

  /** A second review by the same user of the same book breaks it. */
  lemma InsertSecondReviewBreaksRule(reviews: seq<Review>, r: Review)
    requires HasReviewed(reviews, r.bookId, r.userId)
    ensures !OneReviewPerUser(reviews + [r])
  {
    var i :| 0 <= i < |reviews| && reviews[i].bookId == r.bookId && reviews[i].userId == r.userId;
    var s := reviews + [r];
    assert s[i] == reviews[i] && s[|reviews|] == r;
    assert !NotSameReviewer(s[i], s[|reviews|]);
  }

  /** With distinct book ids, deleting a listed book's id removes that row and keeps the others in order. */
  lemma DeleteBookLeavesOthers(books: seq<Book>, i: nat)
    requires i < |books| && Pairwise(books, DistinctBookIds)
    ensures Filter(books, OtherBook(books[i].id)) == books[..i] + books[i + 1..]
  {
    forall j | 0 <= j < |books| && j != i ensures books[j].id != books[i].id {
      if j < i { assert DistinctBookIds(books[j], books[i]); }
      else { assert DistinctBookIds(books[i], books[j]); }
    }
    FilterDropsOne(books, i, OtherBook(books[i].id));
  }

  /** Deleting a book that is in the table lowers the number of books by exactly one. */
  lemma DeleteBookRemovesOne(books: seq<Book>, i: nat)
    requires i < |books| && Pairwise(books, DistinctBookIds)
    ensures |Filter(books, OtherBook(books[i].id))| == |books| - 1
  {
    DeleteBookLeavesOthers(books, i);
  }

  /**
   * Deleting a book lowers the count of any query over the books table by one exactly when
   * the deleted book satisfied it, and otherwise leaves the count as it was.
   */
  lemma DeleteBookCount(books: seq<Book>, i: nat, q: Book -> bool)
    requires i < |books| && Pairwise(books, DistinctBookIds)
    ensures Count(Filter(books, OtherBook(books[i].id)), q) == Count(books, q) - (if q(books[i]) then 1 else 0)
  {
    DeleteBookLeavesOthers(books, i);
    CountWithoutOne(books, i, q);
  }

  lemma DeleteKeepsOneReviewPerUser(reviews: seq<Review>, id: Id)
    requires OneReviewPerUser(reviews)
    ensures OneReviewPerUser(DeleteReviewRows(reviews, id))
  {
    FilterPairwise(reviews, OtherReview(id), NotSameReviewer);
  }

  /**
   * The remote store. `nextId` stands for the store's generator of fresh row ids: every
   * id in use is below it.
   */
  class Store {
    var books: seq<Book>
    var reviews: seq<Review>
    var profiles: seq<Profile>
    var nextId: Id

    ghost predicate Valid()
      reads this
    {
      (forall i :: 0 <= i < |books| ==> books[i].id < nextId) &&
      (forall i :: 0 <= i < |reviews| ==> reviews[i].id < nextId && ValidRating(reviews[i].rating)) &&
      Pairwise(books, DistinctBookIds) &&
      Pairwise(reviews, DistinctReviewIds) &&
      Pairwise(profiles, DistinctProfileUsers)
    }

    constructor ()
      ensures Valid()
      ensures books == [] && reviews == [] && profiles == []
    {
      books, reviews, profiles, nextId := [], [], [], 0;
    }

    method InsertReview(bookId: Id, userId: Id, rating: int, text: string, now: int, accepted: bool)
      returns (ok: bool)
      requires Valid() && ValidRating(rating)
      modifies this
      ensures Valid() && ok == accepted
      ensures books == old(books) && profiles == old(profiles)
      ensures reviews == if ok then old(reviews) + [Review(old(nextId), bookId, userId, rating, text, now)]
                         else old(reviews)
    {
      ok := accepted;
      if ok {
        var row := Review(nextId, bookId, userId, rating, text, now);
        AppendPairwise(reviews, row, DistinctReviewIds);
        reviews := reviews + [row];
        nextId := nextId + 1;
      }
    }

    method UpdateReview(id: Id, rating: int, text: string, accepted: bool) returns (ok: bool)
      requires Valid() && ValidRating(rating)
      modifies this
      ensures Valid() && ok == accepted
      ensures books == old(books) && profiles == old(profiles) && nextId == old(nextId)
      ensures reviews == if ok then UpdateReviewRows(old(reviews), id, rating, text) else old(reviews)
    {
      ok := accepted;
      if ok {
        var updated := UpdateReviewRows(reviews, id, rating, text);
        assert Pairwise(updated, DistinctReviewIds) by {
          forall i, j | 0 <= i < j < |updated| ensures DistinctReviewIds(updated[i], updated[j]) {
            assert DistinctReviewIds(reviews[i], reviews[j]);
          }
        }
        reviews := updated;
      }
    }

    method DeleteReview(id: Id, accepted: bool) returns (ok: bool)
      requires Valid()
      modifies this
      ensures Valid() && ok == accepted
      ensures books == old(books) && profiles == old(profiles) && nextId == old(nextId)
      ensures reviews == if ok then DeleteReviewRows(old(reviews), id) else old(reviews)
    {
      ok := accepted;
      if ok {
        FilterPairwise(reviews, OtherReview(id), DistinctReviewIds);
        var kept := DeleteReviewRows(reviews, id);
        assert forall i :: 0 <= i < |kept| ==> kept[i] in reviews;
        reviews := kept;
      }
    }

    method InsertBook(f: BookFields, addedBy: Id, now: int, accepted: bool) returns (ok: bool, id: Id)
      requires Valid()
      modifies this
      ensures Valid() && ok == accepted
      ensures reviews == old(reviews) && profiles == old(profiles)
      ensures ok ==> id == old(nextId) && books == old(books) + [NewBook(id, f, addedBy, now)]
      ensures !ok ==> books == old(books)
      ensures ok ==> forall i :: 0 <= i < |old(books)| ==> old(books)[i].id != id
    {
      ok, id := accepted, nextId;
      if ok {
        var row := NewBook(nextId, f, addedBy, now);
        AppendPairwise(books, row, DistinctBookIds);
        books := books + [row];
        nextId := nextId + 1;
      }
    }

    method UpdateBook(id: Id, f: BookFields, accepted: bool) returns (ok: bool)
      requires Valid()
      modifies this
      ensures Valid() && ok == accepted
      ensures reviews == old(reviews) && profiles == old(profiles) && nextId == old(nextId)
      ensures books == if ok then UpdateBookRows(old(books), id, f) else old(books)
    {
      ok := accepted;
      if ok {
        var updated := UpdateBookRows(books, id, f);
        assert Pairwise(updated, DistinctBookIds) by {
          forall i, j | 0 <= i < j < |updated| ensures DistinctBookIds(updated[i], updated[j]) {
            assert DistinctBookIds(books[i], books[j]);
          }
        }
        books := updated;
      }
    }

    method DeleteBook(id: Id, accepted: bool) returns (ok: bool)
      requires Valid()
      modifies this
      ensures Valid() && ok == accepted
      ensures reviews == old(reviews) && profiles == old(profiles) && nextId == old(nextId)
      ensures books == if ok then Filter(old(books), OtherBook(id)) else old(books)
    {
      ok := accepted;
      if ok {
        FilterPairwise(books, OtherBook(id), DistinctBookIds);
        var kept := Filter(books, OtherBook(id));
        assert forall i :: 0 <= i < |kept| ==> kept[i] in books;
        books := kept;
      }
    }
  }
}
