/**
 * The console program's part in adding a book: the three text fields must
 * not be blank before a book is created and handed to the library.
 */
module Program {
  import opened Wrappers
  import opened Text
  import opened Books
  import opened Catalog
  import opened LibraryStore

  /** Every text field of the book has a character that is not white space. */
  predicate FieldsFilled(b: Book)
  {
    !IsBlank(b.title) && !IsBlank(b.author) && !IsBlank(b.isbn)
  }

  /** The check before `new Book(...)`: no book when the title, the author or
      the ISBN is empty or white space only. */
  function NewBook(title: string, author: string, year: Int32, isbn: string): (r: Option<Book>)
    ensures r.Some? <==> !IsBlank(title) && !IsBlank(author) && !IsBlank(isbn)
    ensures r.Some? ==> FieldsFilled(r.value) && r.value.isbn == isbn && r.value.title == title
    ensures r.Some? ==> r.value.author == author && r.value.year == year
  {
    if IsBlank(title) || IsBlank(author) || IsBlank(isbn) then None
    else Some(Book(title, author, year, isbn))
  }

  /** What adding a book from the console reports. */
  datatype NewBookOutcome = BlankField | Submitted(outcome: AddOutcome)

  /** Creates the book from the typed fields and adds it to `library`,
      unless a field is blank, in which case nothing changes. */
  method AddNewBook(library: Library, title: string, author: string, year: Int32, isbn: string)
    returns (result: NewBookOutcome)
    modifies library
    ensures result == BlankField <==> NewBook(title, author, year, isbn).None?
    ensures result == BlankField ==> library.books == old(library.books)
    ensures result.Submitted? ==>
              library.books == AfterAdd(old(library.books), Book(title, author, year, isbn))
    ensures result.Submitted? ==> (result.outcome == Duplicate <==> HasIsbn(old(library.books), isbn))
    ensures (forall i :: 0 <= i < |old(library.books)| ==> FieldsFilled(old(library.books)[i])) ==>
              forall i :: 0 <= i < |library.books| ==> FieldsFilled(library.books[i])
  {
    match NewBook(title, author, year, isbn)
    case None =>
      return BlankField;
    case Some(book) =>
      var added := library.AddBook(book);
      return Submitted(added);
  }
}
