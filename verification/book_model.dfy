/**
 * The Book document (backend/src/models/Book.js): a user's recommendation
 * with title, caption, image URL, a rating from 1 to 5 and an owner
 * reference, plus the `createdAt` / `updatedAt` timestamps the schema asks
 * Mongoose to maintain.
 */
module BookModel {
  import opened Opt
  import opened Http

  datatype Book = Book(
    id: ObjectId,
    title: string,
    caption: string,
    image: string,
    rating: int,
    user: ObjectId,
    createdAt: int,
    updatedAt: int)

  /** The schema's validators: required strings are non-empty, the rating lies in [1, 5]. */
  predicate ValidBook(b: Book) {
    && b.title != ""
    && b.caption != ""
    && b.image != ""
    && 1 <= b.rating <= 5
  }

  /** The books collection: documents keyed by their `_id`. */
  type BookStore = map<ObjectId, Book>

  /** Every stored document sits under its own id and passed the schema's validators. */
  ghost predicate WellFormedBooks(books: BookStore) {
    forall id :: id in books ==> books[id].id == id && ValidBook(books[id])
  }

  /**
   * A Book document before `save()`: each path holds the cast value, or
   * `None` when the value was missing or could not be cast to the path's type.
   */
  datatype BookDraft = BookDraft(
    title: Option<string>,
    caption: Option<string>,
    image: Option<string>,
    rating: Option<int>,
    user: Option<ObjectId>)

  /**
   * Schema validation on `save()`, with the store assigning id and
   * timestamps: the document that is written, or `None` when a `required`,
   * `min` or `max` validator rejects the draft.
   */
  function ValidateBook(draft: BookDraft, id: ObjectId, now: int): (r: Option<Book>)
    ensures r.Some? <==>
      && draft.title.Some? && draft.title.value != ""
      && draft.caption.Some? && draft.caption.value != ""
      && draft.image.Some? && draft.image.value != ""
      && draft.rating.Some? && 1 <= draft.rating.value <= 5
      && draft.user.Some?
    ensures r.Some? ==> ValidBook(r.value)
    ensures r.Some? ==>
      && r.value.id == id && r.value.createdAt == now && r.value.updatedAt == now
      && r.value.title == draft.title.value && r.value.caption == draft.caption.value
      && r.value.image == draft.image.value && r.value.rating == draft.rating.value
      && r.value.user == draft.user.value
  {
    match (draft.title, draft.caption, draft.image, draft.rating, draft.user)
    case (Some(title), Some(caption), Some(image), Some(rating), Some(user)) =>
      var book := Book(id, title, caption, image, rating, user, now, now);
      if ValidBook(book) then Some(book) else None
    case _ => None
  }
}
