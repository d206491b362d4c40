/** Row shapes of the three remote tables (books, reviews, profiles) as the pages read and write them. */
module Records {

  /** Row and user identifiers; the hosted store uses UUIDs, only their equality matters here. */
  type Id = nat

  datatype Option<T> = None | Some(value: T)

  /** A row of the books table; `description` is the one nullable column. */
  datatype Book = Book(
    id: Id,
    title: string,
    author: string,
    genre: string,
    publishedYear: int,
    description: Option<string>,
    addedBy: Id,
    createdAt: int)

  /** A row of the reviews table. */
  datatype Review = Review(
    id: Id,
    bookId: Id,
    userId: Id,
    rating: int,
    reviewText: string,
    createdAt: int)

  /** A row of the profiles table (created by the sign-up flow, only read by the pages). */
  datatype Profile = Profile(userId: Id, name: string, email: string, createdAt: int)

  /**
   * The editable columns of a book: the add/edit form's fields, sent as the update payload
   * and, with `added_by`, as the insert payload.
   */
  datatype BookFields = BookFields(
    title: string,
    author: string,
    description: string,
    genre: string,
    publishedYear: int)

  /** Creation times, the keys of the newest-first orderings. */
  function BookCreated(b: Book): int { b.createdAt }
  function ReviewCreated(r: Review): int { r.createdAt }

  /** Ratings are stars from 1 to 5. */
  predicate ValidRating(n: int) { 1 <= n <= 5 }
}
