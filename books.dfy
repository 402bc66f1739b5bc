/** The book record of the catalogue. */
module Books {

  /** The range of the C# `int` that holds a publication year. */
  newtype Int32 = x: int | -0x8000_0000 <= x < 0x8000_0000

  /** A book: title, author, publication year and ISBN, the ISBN being the
      catalogue's key. Nothing changes a book once it is created, so it is a value. */
  datatype Book = Book(title: string, author: string, year: Int32, isbn: string)
}
