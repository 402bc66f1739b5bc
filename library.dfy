/**
 * The `Library` class: the catalogue held in one mutable field, changed in
 * place by `AddBook` and `RemoveBook`.
 */
module LibraryStore {
  import opened Wrappers
  import opened Books
  import opened Catalog

  /** What `AddBook` reports. */
  datatype AddOutcome = Added | Duplicate

  /** What `RemoveBook` reports. */
  datatype RemoveOutcome = Removed | NotFound

  /** What `DisplayAllBooks` shows: the empty-catalogue message, or each book in order. */
  datatype Listing = NoBooks | BookList(entries: seq<Book>)

  class Library {
    /** The books, in the order they were added. */
    var books: seq<Book>

    /** Starts from what the data file held (`stored`), or from an empty
        catalogue when there is no file, it cannot be read, or it holds `null`.
        A file may hold books with duplicate ISBNs: nothing here checks it. */
    constructor (stored: Option<seq<Book>>)
      ensures books == if stored.Some? then stored.value else []
    {
      books := if stored.Some? then stored.value else [];
    }

    /** Appends `book` unless a book with its ISBN is already present. */
    method AddBook(book: Book) returns (outcome: AddOutcome)
      modifies this
      ensures outcome == Duplicate <==> HasIsbn(old(books), book.isbn)
      ensures outcome == Duplicate ==> books == old(books)
      ensures outcome == Added ==> books == old(books) + [book]
      ensures books == AfterAdd(old(books), book)
      ensures UniqueIsbns(old(books)) ==> UniqueIsbns(books)
    {
      if HasIsbn(books, book.isbn) {
        return Duplicate;
      }
      books := books + [book];
      return Added;
    }

    /** Deletes the first book whose ISBN is `isbn`, if there is one. */
    method RemoveBook(isbn: string) returns (outcome: RemoveOutcome)
      modifies this
      ensures outcome == NotFound <==> !HasIsbn(old(books), isbn)
      ensures outcome == NotFound ==> books == old(books)
      ensures outcome == Removed ==>
                exists k: nat :: IsFirstMatch(old(books), isbn, k) && books == old(books)[..k] + old(books)[k + 1..]
      ensures books == AfterRemove(old(books), isbn)
      ensures UniqueIsbns(old(books)) ==> UniqueIsbns(books) && !HasIsbn(books, isbn)
    {
      var found := FirstWithIsbn(books, isbn);
      match found
      case None =>
        outcome := NotFound;
      case Some(k) =>
        RemoveDeletesFirstMatch(books, isbn, k);
        books := RemoveAt(books, k);
        outcome := Removed;
    }

    /** The books whose title contains `title`, ignoring case, in catalogue order. */
    function FindBooksByTitle(title: string): seq<Book>
      reads this
    {
      FindByTitle(books, title)
    }

    /** The empty-catalogue message when there are no books; otherwise every
        book, one after another, in catalogue order. */
    method DisplayAllBooks() returns (shown: Listing)
      ensures shown == NoBooks <==> |books| == 0
      ensures shown.BookList? ==> shown.entries == books
    {
      if |books| == 0 {
        return NoBooks;
      }
      var entries := [];
      for i := 0 to |books|
        invariant entries == books[..i]
      {
        entries := entries + [books[i]];
      }
      assert books[..|books|] == books;
      return BookList(entries);
    }
  }
}
