# Library catalogue, modelled in Dafny

This project models the book catalogue of a single-user console program
(`Library/Program.cs`). The program keeps an ordered list of books, each with
a title, an author, a publication year and an ISBN. The ISBN is the key.
The user can add a book, remove a book by ISBN, search by title fragment
ignoring case, and list all books.

Modules, one per part of the program:

- `Books` (`books.dfy`): the `Book` record, as an immutable datatype, with the year as a 32-bit `Int32`.
- `Text` (`text.dfy`): the .NET string operations the catalogue uses. These are the ordinal case fold (ASCII), `IndexOf` and `IsNullOrWhiteSpace`.
- `Catalog` (`catalog.dfy`): the catalogue as a `seq<Book>`. Each operation is a function of the old sequence. The properties are lemmas about those functions.
- `LibraryStore` (`library.dfy`): the `Library` class. Its `books` field is reassigned in place by `AddBook` and `RemoveBook`. Each method's `ensures` ties the new field to the matching `Catalog` function and spells out the new state.
- `Program` (`program.dfy`): the non-blank check made before a book typed at the console is created and added.
- `Wrappers` (`wrappers.dfy`): `Option`.

`RemoveBook` in the source finds the book with `FirstOrDefault` and then calls
`List.Remove` on that object. `Book` does not override equality, so
`List.Remove` removes the first element that is the same object. That element
is the first book with the ISBN. With values, this is "delete at the index of
the first match".

A catalogue read from the data file may hold duplicate ISBNs. So uniqueness of
ISBNs is not a class invariant. Each operation instead keeps it if it held
before.

`Library.FindBooksByTitle` only delegates to `Catalog.FindByTitle`, which
carries the contract.

`AddNewBook` (Library/Program.cs:194) rejects a title, author or ISBN that is
empty or only white space, because it uses `IsNullOrWhiteSpace`. The model
follows that check in `Program.NewBook`.

## Model

| member | source | states |
|---|---|---|
| `Text.FoldIdempotent` | Library/Program.cs:68 | folding a string twice is folding it once; an already upper-cased fragment folds to itself |
| `Text.IndexOfFrom` | Library/Program.cs:68 | the result is -1 exactly when the fragment occurs nowhere at or after `from`; otherwise it is the first such occurrence |
| `Text.IndexOf` | Library/Program.cs:68 | `IndexOf` is non-negative iff the fragment occurs in the text; then it is a position where the fragment occurs and no earlier position holds it; the empty fragment is found at 0 |
| `Catalog.HasIsbn` | Library/Program.cs:41 | `Any(b => b.ISBN == isbn)` is true iff some position of the catalogue holds a book with exactly that ISBN |
| `Catalog.FirstWithIsbn` | Library/Program.cs:53 | `FirstOrDefault` finds nothing iff no book has the ISBN; otherwise it gives the position of a book with the ISBN such that no earlier book has it |
| `Catalog.AfterAdd` | Library/Program.cs:39-49 | with the ISBN present the catalogue is unchanged; with it fresh, the old books keep their places, the length grows by one and the new book is last; afterwards the ISBN is present; unique ISBNs stay unique |
| `Catalog.AfterRemove` | Library/Program.cs:51-64 | with no book having the ISBN the catalogue is unchanged; otherwise it shrinks by one; the result is always a subsequence of the old catalogue, in the same order; with unique ISBNs, afterwards no book has that ISBN and the ISBNs stay unique |
| `Catalog.RemoveDeletesFirstMatch` | Library/Program.cs:53-56 | removal deletes exactly the first book with the ISBN: the books before and after it are kept in order, and exactly one copy of that book leaves the multiset of books |
| `Catalog.RemoveAtKeepsUnique` | Library/Program.cs:53-56 | when ISBNs are unique, deleting the first match leaves unique ISBNs and no book with that ISBN |
| `Catalog.FindByTitle` | Library/Program.cs:66-69 | the result of `Library.FindBooksByTitle`, which delegates here: every book found has a title containing the fragment ignoring case; every matching book is found as often as it occurs in the catalogue and no other book is; the result keeps catalogue order, as a subsequence of it |
| `Catalog.AddSameIsbnTwice` | Library/Program.cs:41-45 | a second add under an ISBN already added leaves the catalogue as the first add left it |
| `Catalog.AddedBookOccursOnce` | Library/Program.cs:41-46 | a book added under a fresh ISBN occurs exactly once in the catalogue, at its end |
| `Catalog.AddThenRemove` | Library/Program.cs:39-64 | adding a book under a fresh ISBN and then removing that ISBN gives back the original catalogue |
| `Catalog.RemoveLeavesLaterDuplicate` | Library/Program.cs:53-56 | when two books share an ISBN, removing that ISBN deletes only the first, so a book with the ISBN remains |
| `Catalog.FindEmptyFragment` | Library/Program.cs:68 | searching for the empty fragment returns the whole catalogue, in order |
| `Catalog.FindNothing` | Library/Program.cs:68 | a fragment no title contains returns the empty list |
| `Catalog.FindIgnoresCase` | Library/Program.cs:68 | two fragments that differ only in letter case find the same books |
| `Catalog.FindUpperCased` | Library/Program.cs:68 | searching for the upper-cased fragment finds what the fragment as typed finds |
| `Catalog.GatsbyExample` | Library/Program.cs:66-69 | a catalogue holding "The Great Gatsby" finds it under "great" and "GREAT" and finds nothing under "xyz" |
| `LibraryStore.Library.constructor` | Library/Program.cs:99-118 | the catalogue starts as the list of (non-null) books the data file held, or empty when there is no file, it cannot be read, or it holds `null` |
| `LibraryStore.Library.AddBook` | Library/Program.cs:39-49 | reports a duplicate iff the ISBN was present, and then nothing changes; otherwise the book is appended at the end; unique ISBNs stay unique |
| `LibraryStore.Library.RemoveBook` | Library/Program.cs:51-64 | reports not-found iff no book had the ISBN, and then nothing changes; otherwise the first book with the ISBN is deleted and the others keep their order; with unique ISBNs none with that ISBN remains |
| `LibraryStore.Library.DisplayAllBooks` | Library/Program.cs:71-84 | shows the empty-catalogue message iff there are no books; otherwise shows every book, in catalogue order |
| `Program.NewBook` | Library/Program.cs:194-200 | a book is created iff none of title, author and ISBN is empty or white space only; it carries exactly the typed fields |
| `Program.AddNewBook` | Library/Program.cs:194-201 | a blank field is reported and the catalogue is unchanged; otherwise the book is added as `AddBook` specifies, and a duplicate is reported iff its ISBN was already present; if every stored book had filled fields, every book still has them |

## Left out

- `SaveBooks` (Library/Program.cs:86-97): JSON serialisation through Newtonsoft.Json and a file write, with exceptions reported and swallowed. The saves triggered after a successful add or remove are not modelled. Nothing in memory depends on them.
- `LoadData` (Library/Program.cs:99-118): reading and parsing the file is I/O. The constructor takes its result as a parameter (`Option<seq<Book>>`).
- Console output, the menu loop in `Main`, `DisplayMenu`, and the prompting in `AddNewBook`, `RemoveBook` and `FindBooks` (Library/Program.cs:121-229): user-interface code. The typed values become parameters. `DisplayAllBooks` returns what it would print instead of printing it.
- `int.TryParse` and its retry loop (Library/Program.cs:180-189): a library call driven by interactive input. The year is simply an `Int32` parameter.
- `Book.ToString` (Library/Program.cs:23-26): presentation only.
- `Text.FoldChar`: `OrdinalIgnoreCase` upper-cases every character with the invariant culture's simple case mapping. The model folds only the ASCII letters `a`-`z`. Titles outside ASCII may therefore match in the program and not in the model.
- Null strings: the model's strings are never null. In the program, a book loaded with a null title makes `FindBooksByTitle` throw. A book loaded with a null ISBN is matched by `RemoveBook(null)`, which the console passes on when `Console.ReadLine` returns null at the end of input (Library/Program.cs:207). Both cases are outside the model.
- Null entries in the loaded list: a data file holding `[null]` loads a list with a null element (Library/Program.cs:106). `AddBook`, `RemoveBook` and `FindBooksByTitle` then throw `NullReferenceException` (Library/Program.cs:41, 53, 68), which nothing catches, so the program stops. The model's list holds only books, so it does not represent such a list or that failure.
- Reference identity of `Book` objects: books are values here. Mutating a book through another reference is impossible in the program as written, because only the `Library` holds them.
