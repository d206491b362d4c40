/**
 * The add/edit book page: with a book id in the route it loads that book into the form
 * (only for the book's owner) and saves by updating it; without one it saves by inserting
 * a new book owned by the current user.
 */
module BookForm {

  import opened Records
  import opened Query
  import opened Backend

  /** How loading a book for editing ends; the last two show an error and navigate to the directory. */
  datatype LoadOutcome = Filled | LoadFailed | NotOwner

  /** The write the form's submit sends to the books table, if any. */
  datatype BookWrite =
    | Blocked
    | NoWrite
    | UpdateExisting(id: Id, fields: BookFields)
    | InsertOwned(fields: BookFields, addedBy: Id)

  /** The form filled from a loaded row: field for field, a missing description as ''. */
  function FieldsOf(b: Book): BookFields
  {
    BookFields(b.title, b.author, if b.description.Some? then b.description.value else [], b.genre, b.publishedYear)
  }

  /** Saving a loaded form unchanged writes back the row it came from (a missing description becomes ''). */
  lemma SaveLoadedRoundTrip(b: Book)
    ensures UpdatedBook(b, FieldsOf(b)) == b.(description := Some(FieldsOf(b).description))
    ensures b.description.Some? ==> UpdatedBook(b, FieldsOf(b)) == b
  {
  }

  /** Loading a saved row gives back exactly the fields that were saved. */
  lemma LoadSavedRoundTrip(b: Book, f: BookFields)
    ensures FieldsOf(UpdatedBook(b, f)) == f
  {
  }

  /** `fetchBook`'s decision: a failed or empty query, then the owner check, then fill. */
  function LoadDecision(found: Option<Book>, user: Option<Id>): (o: LoadOutcome)
    ensures o == Filled <==> found.Some? && user == Some(found.value.addedBy)
    ensures o == LoadFailed <==> found.None?
  {
    if found.None? then LoadFailed
    else if user != Some(found.value.addedBy) then NotOwner
    else Filled
  }

  /**
   * The browser's constraint checks on the form: title, author, genre and year are required,
   * and the year lies between 1000 and the current year.
   */
  predicate FieldsValid(f: BookFields, currentYear: int)
  {
    f.title != [] && f.author != [] && f.genre != [] && 1000 <= f.publishedYear <= currentYear
  }

  /**
   * The decision taken on a submit: the browser blocks a form that fails its constraint
   * checks before `handleSubmit` runs; the handler then writes nothing without a user, an
   * update by id in edit mode, else an owned insert.
   */
  function SubmitDecision(editId: Option<Id>, user: Option<Id>, f: BookFields, currentYear: int): (w: BookWrite)
    ensures w == Blocked <==> !FieldsValid(f, currentYear)
    ensures w == NoWrite <==> FieldsValid(f, currentYear) && user.None?
    ensures w.UpdateExisting? <==> FieldsValid(f, currentYear) && user.Some? && editId.Some?
    ensures w.UpdateExisting? ==> w == UpdateExisting(editId.value, f)
    ensures w.InsertOwned? ==> w == InsertOwned(f, user.value)
    ensures (w.UpdateExisting? || w.InsertOwned?) ==> FieldsValid(w.fields, currentYear)
  {
    if !FieldsValid(f, currentYear) then Blocked
    else if user.None? then NoWrite
    else if editId.Some? then UpdateExisting(editId.value, f)
    else InsertOwned(f, user.value)
  }

  /**
   * An edit never changes who owns a book, its id or its creation time, and changes no
   * other book.
   */
  lemma EditKeepsOwnership(books: seq<Book>, id: Id, f: BookFields)
    ensures var after := UpdateBookRows(books, id, f);
      |after| == |books| &&
      (forall i :: 0 <= i < |books| ==>
        after[i].id == books[i].id && after[i].addedBy == books[i].addedBy && after[i].createdAt == books[i].createdAt) &&
      (forall i :: 0 <= i < |books| && books[i].id != id ==> after[i] == books[i])
  {
  }

  /** Re-saving the loaded form of a book with a description leaves the books table as it was. */
  lemma ResaveUnchangedIsNoOp(books: seq<Book>, i: nat)
    requires i < |books| && books[i].description.Some?
    requires Pairwise(books, DistinctBookIds)
    ensures UpdateBookRows(books, books[i].id, FieldsOf(books[i])) == books
  {
    var after := UpdateBookRows(books, books[i].id, FieldsOf(books[i]));
    forall k | 0 <= k < |books| ensures after[k] == books[k] {
      if k != i {
        if k < i { assert DistinctBookIds(books[k], books[i]); }
        else { assert DistinctBookIds(books[i], books[k]); }
      }
    }
  }

  /** A created book is owned by its creator and listed among the creator's books. */
  lemma CreatedBookIsOwned(books: seq<Book>, f: BookFields, user: Id, id: Id, now: int)
    ensures var b := NewBook(id, f, user, now);
      b in Filter(books + [b], AddedBy(user)) && FieldsOf(b) == f
  {
  }

  /** The add/edit page's component state; `editId` is the optional route parameter. */
  class AddBookPage {
    const editId: Option<Id>
    var loading: bool
    var form: BookFields

    /** The form starts empty, with the current year as the publication year. */
    constructor (editId: Option<Id>, currentYear: int)
      ensures this.editId == editId && !loading
      ensures form == BookFields([], [], [], [], currentYear)
    {
      this.editId := editId;
      loading := false;
      form := BookFields([], [], [], [], currentYear);
    }

    /** An input's `onChange`: the form takes the edited fields. */
    method EditForm(f: BookFields)
      modifies this`form
      ensures form == f
    {
      form := f;
    }

    /**
     * `fetchBook`, run by the effect only with an id in the route. `ok` is whether the query
     * succeeded; a missing row fails it too. Only the owner's book fills the form.
     */
    method FetchBook(store: Store, user: Option<Id>, ok: bool) returns (outcome: LoadOutcome)
      requires editId.Some? && store.Valid()
      modifies this`form
      ensures var found := if ok then FindBook(store.books, editId.value) else None;
        outcome == LoadDecision(found, user) &&
        form == if outcome == Filled then FieldsOf(found.value) else old(form)
    {
      var found := if ok then FindBook(store.books, editId.value) else None;
      outcome := LoadDecision(found, user);
      if outcome == Filled {
        form := FieldsOf(found.value);
      }
    }

    /**
     * A submit of the form, on `currentYear` (the year the year input's maximum is rendered
     * with): nothing when the browser blocks the form or without a user; otherwise one update
     * by id (the form fields only, so the owner is kept) or one insert of the form plus the
     * current user as owner. `loading` is back to false after any write, accepted or not.
     */
    method Submit(store: Store, user: Option<Id>, now: int, currentYear: int, accepted: bool)
      returns (w: BookWrite, ok: bool)
      requires store.Valid()
      modifies this`loading, store
      ensures store.Valid()
      ensures w == SubmitDecision(editId, user, form, currentYear)
      ensures ok <==> (w.UpdateExisting? || w.InsertOwned?) && accepted
      ensures !(w.UpdateExisting? || w.InsertOwned?) ==> loading == old(loading)
      ensures w.UpdateExisting? || w.InsertOwned? ==> !loading
      ensures store.reviews == old(store.reviews) && store.profiles == old(store.profiles)
      ensures store.books == match w
        case Blocked => old(store.books)
        case NoWrite => old(store.books)
        case UpdateExisting(id, f) => if ok then UpdateBookRows(old(store.books), id, f) else old(store.books)
        case InsertOwned(f, owner) =>
          if ok then old(store.books) + [NewBook(old(store.nextId), f, owner, now)] else old(store.books)
    {
      w := SubmitDecision(editId, user, form, currentYear);
      if w == Blocked || w == NoWrite {
        ok := false;
        return;
      }
      loading := true;
      if w.UpdateExisting? {
        ok := store.UpdateBook(w.id, w.fields, accepted);
      } else {
        var id;
        ok, id := store.InsertBook(w.fields, w.addedBy, now, accepted);
      }
      loading := false;
    }
  }
}
