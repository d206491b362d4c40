# Book reviews: page logic model

A Dafny model of the sequential logic inside the four pages of a small book-review web
application. The application's backend is a hosted database. It has three tables:

- `books`, with an owner column `added_by`;
- `reviews`, with a 1-to-5 star `rating`;
- `profiles`.

The model holds these tables as sequences of records in a `Store` object. Each query a page
issues becomes a function on those sequences: equality filters, newest-first ordering,
row-range pagination and joins. Each write (insert, update by id, delete by id) becomes a
`Store` method. Whether a query or a write succeeds is a parameter of the step that issues it.

Modules:

- `Records`: the rows (`Book`, `Review`, `Profile`) and the book form's fields.
- `Query`: filter, count, newest-first sort and range slice, with their laws.
- `Rating`: the rating aggregate (mean of the star ratings, 0 with no ratings, and the count), as exact reals.
- `Backend`: row selectors, the effects of the writes on a table, and the rule of one review per user and book. It also holds the `Store` class.
- `Enrichment`: attaching the aggregate to each listed book, shared by the directory and the profile.
- `Directory`: the book directory (`BookList.tsx`). It covers search and genre filtering, 5-row pages, the page count, prev/next, and the genre list. The `BookListPage` class holds the page's state.
- `ReviewSession`: the book page (`BookDetails.tsx`). It covers the own-review pickup, the submit decision (refuse, update or insert), review and book delete, and the confirmation dialog. The `BookDetailsPage` class holds the page's state.
- `ProfileSummary`: the profile page (`Profile.tsx`). It covers the owner-scoped books and reviews lists and their counts. The `ProfilePage` class holds the page's state.
- `BookForm`: the add/edit page (`AddBook.tsx`). It covers the ownership gate when loading for edit, the form fill, and update versus insert with the owner set. The `AddBookPage` class holds the page's state.

Each page's component state is a class whose methods are the page's handlers. Each method's
contract gives the new state in terms of the pure query functions. Lemmas prove what those
functions promise.

## Model

| member | source | states |
|---|---|---|
| Query.Filter | src/pages/BookList.tsx:43-49 | a filtered query returns only table rows that pass the filter, every table row that passes, and never more rows than the table |
| Query.FilterCounts | src/pages/BookList.tsx:43-49 | a filter keeps each passing row exactly as often as the table holds it and drops every other row |
| Query.FilterAppend | src/pages/BookDetails.tsx:108-113 | filtering a table with a row appended equals filtering the old table, then the new row if it passes |
| Query.FindFirst | src/pages/BookDetails.tsx:47 | a single-row lookup returns the first row that satisfies the condition, or nothing exactly when no row does |
| Query.Count | src/pages/BookList.tsx:41 | the exact count is the number of rows the filter keeps |
| Query.FilterDropsOne | src/pages/BookDetails.tsx:147 | a filter that rejects exactly one row of the table returns the table without that row, the others in order |
| Query.CountWithoutOne | src/pages/BookList.tsx:41 | leaving one row out of a table lowers an exact count by one exactly when that row passes the filter |
| Query.FilterPairwise | src/pages/BookDetails.tsx:131 | deleting rows keeps every pairwise table invariant |
| Query.SortDesc | src/pages/BookList.tsx:54-55 | newest-first ordering yields a permutation of its input, sorted by creation time descending |
| Query.Range | src/pages/BookList.tsx:54-56 | a range gives rows from..to of the ordered result, clipped at its end; a range past the end is empty |
| Rating.Aggregate | src/pages/BookList.tsx:68-71 | the count is the number of ratings; the mean is 0 with no ratings, otherwise mean × count = sum |
| Rating.AggregateFetched | src/pages/BookList.tsx:68-76 | the count is the number of fetched ratings, 0 when the result is missing; the mean is 0 with no count, otherwise mean × count = the sum of the fetched ratings |
| Rating.SumBounds | src/pages/BookList.tsx:70 | ratings between lo and hi sum to between lo·n and hi·n |
| Rating.AverageWithinStars | src/pages/BookDetails.tsx:180-181 | with 1-to-5 ratings the mean lies in [0, 5], and in [1, 5] when there is a rating |
| Rating.AggregateIgnoresOrder | src/pages/Profile.tsx:45-53 | two review lists with the same ratings in any order have the same aggregate |
| Rating.ThreeReviewsExample | src/pages/BookList.tsx:68-71 | ratings 5, 4, 3 give mean 4.0 over 3 reviews |
| Backend.FindBook | src/pages/BookDetails.tsx:47 | looking a book up by id returns a table row with that id, or nothing exactly when no row has it |
| Backend.FindBookIsOnlyMatch | src/pages/BookDetails.tsx:47 | with distinct book ids the row found is the only row with that id, so the first match is the single row `.single()` returns |
| Backend.Ratings | src/pages/BookList.tsx:63-66 | the rating column is one rating per review, in order |
| Backend.UpdateReviewRows | src/pages/BookDetails.tsx:99-102 | updating by id changes rating and text of the rows with that id and no other row |
| Backend.DeleteReviewRows | src/pages/BookDetails.tsx:131 | deleting by id keeps the rows with another id and removes every row with that id |
| Backend.DeleteReviewCounts | src/pages/BookDetails.tsx:131 | a delete by id keeps every row with another id exactly as often as the table holds it |
| Backend.UpdatedBook | src/pages/AddBook.tsx:68 | an edited book row takes the form's fields and keeps its id, owner and creation time |
| Backend.UpdateBookRows | src/pages/AddBook.tsx:68 | a book update by id changes only the row with that id |
| Backend.UpdateKeepsReviewCount | src/pages/BookDetails.tsx:97-104 | updating a review keeps every book's number of reviews |
| Backend.InsertAddsOneReview | src/pages/BookDetails.tsx:106-115 | inserting a review adds exactly that review to its book's reviews |
| Backend.UpdateKeepsOneReviewPerUser | src/pages/BookDetails.tsx:97-102 | an update keeps the rule of at most one review per user and book |
| Backend.InsertKeepsOneReviewPerUser | src/pages/BookDetails.tsx:106-113 | a user's first review of a book keeps that rule |
| Backend.InsertSecondReviewBreaksRule | src/pages/BookDetails.tsx:106-113 | inserting a second review by the same user of the same book breaks it |
| Backend.DeleteKeepsOneReviewPerUser | src/pages/BookDetails.tsx:131 | a delete keeps that rule |
| Backend.DeleteBookLeavesOthers | src/pages/BookDetails.tsx:147 | with distinct book ids, deleting a listed book's id removes exactly that row and keeps the others in order |
| Backend.DeleteBookRemovesOne | src/pages/BookDetails.tsx:147 | deleting a book in the table lowers the number of books by exactly one |
| Backend.DeleteBookCount | src/pages/BookList.tsx:41-49 | after deleting a book, any exact count over the books table (the directory's search and genre count among them) drops by one exactly when the deleted book matched, and otherwise stays |
| Backend.Store.InsertReview | src/pages/BookDetails.tsx:108-115 | an accepted insert appends one review with a fresh id; a rejected one changes nothing; ids stay distinct |
| Backend.Store.UpdateReview | src/pages/BookDetails.tsx:99-104 | an accepted update applies the rating and text update; a rejected one changes nothing |
| Backend.Store.DeleteReview | src/pages/BookDetails.tsx:131-136 | an accepted delete removes the review id's rows; a rejected one changes nothing |
| Backend.Store.InsertBook | src/pages/AddBook.tsx:75-81 | an accepted insert appends the form's book, owned by the given user, under a fresh id not in use |
| Backend.Store.UpdateBook | src/pages/AddBook.tsx:68-70 | an accepted update applies the form to the row with that id; a rejected one changes nothing |
| Backend.Store.DeleteBook | src/pages/BookDetails.tsx:147-152 | an accepted delete removes the book with that id and leaves the reviews table as it is |
| Enrichment.FetchRatings | src/pages/BookList.tsx:63-66 | the per-book query is missing exactly when it failed; otherwise it holds one rating per review of that book, in table order |
| Enrichment.Rate | src/pages/BookList.tsx:62-78 | each book keeps its row; its review count is the number of its reviews and its mean is their mean; both are 0 when its review query failed |
| Enrichment.Enrich | src/pages/BookList.tsx:61-79 | enrichment maps every listed book, in order, to its rated form |
| Enrichment.EnrichKeepsBooks | src/pages/Profile.tsx:43-61 | enrichment keeps every book field, the number of books and their order |
| Enrichment.EnrichedAveragesWithinStars | src/pages/BookList.tsx:68-71 | on a table of 1-to-5 ratings every attached mean lies in [0, 5] |
| Directory.PageBounds | src/pages/BookList.tsx:51-52 | page p's range starts at 5·(p-1) and spans exactly 5 rows |
| Directory.RowOnPage | src/pages/BookList.tsx:51-52 | row i falls in page p's range iff p = i div 5 + 1, so page ranges never overlap |
| Directory.ConsecutivePagesAdjacent | src/pages/BookList.tsx:51-52 | page p+1's range starts right after page p's ends |
| Directory.TotalPages | src/pages/BookList.tsx:82 | the page count is the ceiling of count / 5, with a missing count read as 0 |
| Directory.PageRows | src/pages/BookList.tsx:51-56 | a page shows min(5, rows left after its start) rows (none past the end), namely the rows of the ordered result from its start onward |
| Directory.PagesUpToPrefix | src/pages/BookList.tsx:51-56 | pages 1 to k together are the first 5k rows of the result |
| Directory.AllPagesShowEveryRow | src/pages/BookList.tsx:51-56 | paging from 1 to the page count shows every row exactly once, in order |
| Directory.FirstAndLastPage | src/pages/BookList.tsx:51-56 | page 1 is the first five rows; the last page of a non-empty result holds 1 to 5 rows |
| Directory.SearchOnlyFilter | src/pages/BookList.tsx:43-45 | a non-empty term with genre "all" keeps exactly the books whose title or author matches the term, each as often as the table holds it |
| Directory.GenreOnlyFilter | src/pages/BookList.tsx:47-49 | an empty term with a genre other than "all" keeps exactly the books of that genre |
| Directory.SearchAndGenreFilter | src/pages/BookList.tsx:43-49 | with both set, a book is kept exactly when it matches the term and is of the genre |
| Directory.NoFilterListsAll | src/pages/BookList.tsx:43-49 | an empty term with genre "all" filters nothing out |
| Directory.Matching | src/pages/BookList.tsx:41-55 | the matching books are a permutation of the filtered table, newest first |
| Directory.QueryPage | src/pages/BookList.tsx:41-56 | the page query returns the exact count of matching books and the page's rows of the ordered matches |
| Directory.PageRowsMatch | src/pages/BookList.tsx:41-56 | every listed book is a table row that passes the filters, at most 5 are listed, newest first |
| Directory.Dedup | src/pages/BookList.tsx:33 | deduplication keeps exactly the values present, each once, in order of first occurrence as a JavaScript `Set` iterates them |
| Directory.Genres | src/pages/BookList.tsx:30-35 | the genre options are exactly the genres present in the books table, without duplicates |
| Directory.PrevPage | src/pages/BookList.tsx:163 | previous is page 1 from page 1 (or below) and otherwise one page back, so never below 1 |
| Directory.NextPage | src/pages/BookList.tsx:174 | next is the page count from the last page (or beyond) and otherwise one page forward, so never above the page count |
| Directory.BookListPage.PagerShown | src/pages/BookList.tsx:133-158 | definition: the page controls are on screen when loading is over, some book is listed and there is more than one page |
| Directory.BookListPage.constructor | src/pages/BookList.tsx:14-20 | the page starts loading, on page 1 of 1, with no term, genre "all" and no genres |
| Directory.BookListPage.FetchGenres | src/pages/BookList.tsx:30-36 | on success the genre options become the table's genres; on failure nothing changes |
| Directory.BookListPage.FetchBooks | src/pages/BookList.tsx:38-88 | on success the listing is the enriched page query (with the store's search matcher) and the page count is its ceiling; on failure both are kept; loading ends false either way |
| Directory.BookListPage.ChangeSearch | src/pages/BookList.tsx:105-108 | a new search term resets the page to 1 |
| Directory.BookListPage.ChangeGenre | src/pages/BookList.tsx:114-117 | a new genre filter resets the page to 1 |
| Directory.BookListPage.GoPrevious | src/pages/BookList.tsx:158-165 | with the pager shown and not on page 1 the page steps back (never below 1); otherwise nothing changes |
| Directory.BookListPage.GoNext | src/pages/BookList.tsx:171-176 | with the pager shown and not on the last page the page steps forward (never past the page count); otherwise nothing changes |
| ReviewSession.ReviewList | src/pages/BookDetails.tsx:58-63 | the listed reviews are a permutation of the book's reviews, newest first |
| ReviewSession.ListedRatingsValid | src/pages/BookDetails.tsx:58-70 | every listed review has a 1-to-5 rating when the table's reviews do |
| ReviewSession.FindOwnReview | src/pages/BookDetails.tsx:73 | the pickup returns the first listed review by the user, or nothing iff the user has none listed |
| ReviewSession.OwnReviewMatchesTable | src/pages/BookDetails.tsx:72-79 | a review is picked up iff the user has reviewed this book, and it is that stored review |
| ReviewSession.PageAggregate | src/pages/BookDetails.tsx:180-181 | the page's mean is 0 with no reviews, otherwise mean × count = sum; the count is the number of reviews |
| ReviewSession.RatingsPermutation | src/pages/BookDetails.tsx:180-181 | reordering the reviews reorders their ratings in the same way |
| ReviewSession.PageAggregateMatchesCard | src/pages/BookDetails.tsx:180-181 | the book page shows the same mean and count as the book's card elsewhere, although it averages newest-first |
| ReviewSession.IsBookOwner | src/pages/BookDetails.tsx:183 | a logged-out visitor never owns a book; a user owns a book when the user added it |
| ReviewSession.OwnerIffAmongAddedBooks | src/pages/BookDetails.tsx:183 | a user owns a table book exactly when it is among the books that user added |
| ReviewSession.SubmitDecision | src/pages/BookDetails.tsx:82-305 | an empty review text → blocked by the browser's `required` check before the handler runs; no user → refused; rating 0 → refused; a held review → update by its id; else insert for (book, user) |
| ReviewSession.SubmitKeepsOneReviewPerUser | src/pages/BookDetails.tsx:97-117 | when the session agrees with the table, a submit never gives a user a second review of a book |
| ReviewSession.SubmitReviewCount | src/pages/BookDetails.tsx:97-117 | an insert adds one review to the book; an update or a refusal keeps the count |
| ReviewSession.SubmitTwiceBreaksRule | src/pages/BookDetails.tsx:106-124 | until the refetch lands, a first review leaves the session holding no review while the table holds one, and a second submit inserts again: the user then has two reviews of the book |
| ReviewSession.BookDetailsPage.constructor | src/pages/BookDetails.tsx:28-37 | the page starts loading, with no book, no reviews, rating 0, empty text, no own review and a closed dialog |
| ReviewSession.BookDetailsPage.FormShown | src/pages/BookDetails.tsx:245 | definition: the review form is shown unless a review is held and edit mode is off |
| ReviewSession.BookDetailsPage.DeleteReviewShown | src/pages/BookDetails.tsx:158-349 | definition: once loading is over and the book is loaded, a logged-in user sees a delete-review control on the read-only view of their review (lines 265-270) or on a listed review card they own (lines 332-349); before that only the spinner or the not-found notice is shown |
| ReviewSession.BookDetailsPage.FetchBookDetails | src/pages/BookDetails.tsx:46-56 | on a store with distinct book ids, a found book is shown, it is the only row with the page's id, and loading ends; on error nothing changes |
| ReviewSession.BookDetailsPage.FetchReviews | src/pages/BookDetails.tsx:58-80 | on success the list is the book's reviews newest first, and the user's first review is picked up with its rating and text; otherwise nothing changes; a session that held no review, or picks one up, agrees with the table afterwards |
| ReviewSession.BookDetailsPage.ChooseRating | src/pages/BookDetails.tsx:282-286 | picking a star sets the rating to that star |
| ReviewSession.BookDetailsPage.EditText | src/pages/BookDetails.tsx:300-302 | typing sets the review text |
| ReviewSession.BookDetailsPage.SetEditing | src/pages/BookDetails.tsx:261 | Edit turns edit mode on and Cancel turns it off |
| ReviewSession.BookDetailsPage.RequestDeleteBook | src/pages/BookDetails.tsx:218-229 | only the book's owner (user id = added_by) can open the dialog for the book |
| ReviewSession.BookDetailsPage.RequestDeleteReview | src/pages/BookDetails.tsx:265-349 | the delete-review controls (the "Your Review" card's Delete and an owned review card's Delete) open the dialog for the review only while they are shown, that is with the book loaded; otherwise the dialog stays as it was |
| ReviewSession.BookDetailsPage.CloseDialog | src/pages/BookDetails.tsx:356 | dismissing closes the dialog |
| ReviewSession.BookDetailsPage.SubmitReview | src/pages/BookDetails.tsx:82-305 | a submit with an empty text, without a user or without a rating writes nothing and changes no review state; otherwise it sends exactly the decided update or insert; an accepted write leaves edit mode, so the form shows again only if no review is held; from a session consistent with the table, one review per user is preserved; after an accepted insert the session no longer is consistent, since it holds no review while the table has one |
| ReviewSession.BookDetailsPage.DeleteReview | src/pages/BookDetails.tsx:128-144 | with no held review nothing happens; a failed delete changes nothing; a successful one deletes the review by id, clears review, rating and text, closes the dialog and shows the form |
| ReviewSession.BookDetailsPage.DeleteBook | src/pages/BookDetails.tsx:146-156 | the book row with the page's id is deleted when the store accepts, and a book that was in the table lowers the number of books by one |
| ReviewSession.BookDetailsPage.ConfirmDelete | src/pages/BookDetails.tsx:367 | the dialog runs the book delete iff it was opened for the book (the session and the dialog state stay), otherwise the review delete, with its reset of review, rating, text and dialog on success and no change on failure |
| ProfileSummary.FindProfile | src/pages/Profile.tsx:27-33 | the profile is the user's row, or nothing exactly when there is none |
| ProfileSummary.FindProfileIsOnlyMatch | src/pages/Profile.tsx:27-33 | with one profile per user the row found is the user's only profile row, so the first match is the single row `.single()` returns |
| ProfileSummary.OwnBooks | src/pages/Profile.tsx:36-40 | the listed books are a permutation of the books added by the user (each row as often as the table holds it), newest first |
| ProfileSummary.JoinBook | src/pages/Profile.tsx:66-68 | a review's joined book is the title and author of its book, missing iff that book is gone |
| ProfileSummary.JoinBooks | src/pages/Profile.tsx:66-72 | every review is joined, in order |
| ProfileSummary.UserReviewRows | src/pages/Profile.tsx:66-70 | the user's review rows are a permutation of the reviews with that user id (each row as often as the table holds it), newest first |
| ProfileSummary.OwnReviews | src/pages/Profile.tsx:66-72 | the reviews list has one joined entry per review the user wrote, newest first |
| ProfileSummary.ProfileReviewsAreOwn | src/pages/Profile.tsx:66-70 | the reviews list holds every review the user wrote and no other, newest first |
| ProfileSummary.ProfileBooksAreOwn | src/pages/Profile.tsx:36-63 | every enriched book on the profile was added by the user, and none of the user's books is missing |
| ProfileSummary.ProfilePage.constructor | src/pages/Profile.tsx:13-16 | the page starts loading with no profile and empty lists |
| ProfileSummary.ProfilePage.Load | src/pages/Profile.tsx:18-78 | without a user nothing is fetched; with one profile per user, a loaded profile is the user's only profile row; with a user, each list is its owner-scoped query (empty when the query failed), "Books Added" and "Reviews Written" are those lists' lengths, and loading ends false |
| BookForm.SaveLoadedRoundTrip | src/pages/AddBook.tsx:47-53 | saving a loaded form unchanged writes back the loaded book, with a missing description becoming '' |
| BookForm.LoadSavedRoundTrip | src/pages/AddBook.tsx:47-53 | loading a saved book gives back exactly the saved form |
| BookForm.LoadDecision | src/pages/AddBook.tsx:32-45 | the form is filled iff the book was found and the user is its owner; a failed fetch is distinguished from a foreign book |
| BookForm.SubmitDecision | src/pages/AddBook.tsx:56-145 | an empty title, author or genre, or a year outside 1000 to the current year → blocked by the browser's `required`, `min` and `max` checks; otherwise: no user → no write; with an id → update of that id with the form; otherwise insert of the form owned by the user |
| BookForm.EditKeepsOwnership | src/pages/AddBook.tsx:66-68 | an edit never changes a book's id, owner or creation time, nor any other book |
| BookForm.ResaveUnchangedIsNoOp | src/pages/AddBook.tsx:66-68 | re-saving a loaded book that has a description leaves the books table unchanged |
| BookForm.CreatedBookIsOwned | src/pages/AddBook.tsx:75-79 | a created book carries the form's fields and is among its creator's books |
| BookForm.AddBookPage.constructor | src/pages/AddBook.tsx:17-24 | the form starts with empty text fields, the current year, and loading off |
| BookForm.AddBookPage.EditForm | src/pages/AddBook.tsx:108 | an input's change replaces the form's fields |
| BookForm.AddBookPage.FetchBook | src/pages/AddBook.tsx:32-54 | a failed fetch or a book the user does not own leaves the form untouched; the owner's book fills it field for field |
| BookForm.AddBookPage.Submit | src/pages/AddBook.tsx:56-145 | a form that fails the browser's checks or a missing user → nothing written; edit → the books table gets the form update by id; create → one new book owned by the user; loading is false after every write |

## Left out

- Network and concurrency: queries and writes are sequential steps. The source fires the per-book review queries together (`Promise.all`), and the refetch after a submit or delete is fire-and-forget. Those become separate calls (`FetchReviews` after `SubmitReview`). Races between stale responses are not modelled.
- Success or failure of each remote call is a boolean parameter (`ok`, `accepted`, and the set `failed` of books whose review query failed). Real error causes (network, row-level security) are not modelled.
- Toasts, `navigate`, rendering, `window.scrollTo` and the dialog widgets are left out. A navigation is visible only as the returned outcome (`LoadOutcome`, `ok`).
- Search: the store's case-insensitive pattern test (`ilike`) is a parameter of the model (`Directory.Matcher`), passed to `FetchBooks`. Its definition, including `%` and `_` acting as wildcards in the term, is not modelled.
- Directory.Matches: commas or parentheses in the search term, which break the filter string, are not modelled.
- Means are exact reals. `toFixed(1)`, `Math.round` for the star display, and IEEE floating point are not modelled.
- Dates: `created_at` is an integer timestamp supplied by the caller (`now`). The default year is a constructor parameter, and the year input's maximum is a parameter of `BookForm.AddBookPage.Submit` (`currentYear`). `getFullYear` and date formatting are left out.
- `parseInt` on the year input (which may give `NaN`) is not modelled. The form holds an integer year.
- Browser constraint validation is modelled only as the checks the forms declare (`required`, and `min`/`max` on the year). A text of spaces passes `required`, as in the browser. The browser's messages and focus handling are left out.
- Row ids are natural numbers drawn from `Store.nextId`. The real ids are UUIDs generated by the database.
- Database-side behaviour that the page code does not show is not modelled: cascading deletes of a deleted book's reviews, the `profiles(name)` join, and access policies. Deleting a book removes only its row.
- Query.SortDesc: the database's order among reviews or books with equal `created_at` is unspecified. The model fixes one such order (a stable insertion sort). Every lemma relies only on sortedness and the permutation property.
- The profile's `name` shown on review cards, and `BookCard`/`ReviewCard` pluralisation, are presentation and are left out.
- ReviewSession.BookDetailsPage.FetchBookDetails: when the book query fails the page only shows an error, and `loading` stays true. It does not redirect. The model follows that code.
- ReviewSession.BookDetailsPage.FetchReviews: when the current user has no review, the code does not clear a review held from before (for instance after signing in as another user). The model keeps this behaviour. `SubmitKeepsOneReviewPerUser` and `SubmitReview`'s uniqueness clause therefore assume a session consistent with the table. The same mismatch follows every accepted insert: `submitting` ends and the form stays (rating and text are not cleared) before the unawaited refetch brings the new review in, and a second submit in that window inserts a second review (`SubmitTwiceBreaksRule`). The model does not give `SubmitReview` the uniqueness clause for that case.
- Delete-review controls on review cards: `ReviewCard` gets the page's handlers and not the card's own review. So the dialog always deletes the held `userReview`, which is what `DeleteReview` models.
