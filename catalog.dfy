/**
 * The catalogue as a value: an ordered sequence of books. Each operation of
 * the `Library` class is specified here by a function of the old sequence,
 * and the properties the program relies on are proved about those functions.
 */
module Catalog {
  import opened Wrappers
  import opened Text
  import opened Books

  /** No two books of the catalogue share an ISBN (exact, case-sensitive). */
  ghost predicate UniqueIsbns(books: seq<Book>)
  {
    forall i, j :: 0 <= i < j < |books| ==> books[i].isbn != books[j].isbn
  }

  /** `k` is the position of the first book whose ISBN is `isbn`. */
  ghost predicate IsFirstMatch(books: seq<Book>, isbn: string, k: nat)
  {
    k < |books| && books[k].isbn == isbn && forall j :: 0 <= j < k ==> books[j].isbn != isbn
  }

  /** `r` is `s` with some elements left out, the rest in their original order. */
  ghost predicate IsSubsequence(r: seq<Book>, s: seq<Book>)
    decreases |s|
  {
    r == [] || (s != [] && ((r[0] == s[0] && IsSubsequence(r[1..], s[1..])) || IsSubsequence(r, s[1..])))
  }

  /** `books.Any(b => b.ISBN == isbn)`. */
  function HasIsbn(books: seq<Book>, isbn: string): (r: bool)
    ensures r <==> exists i :: 0 <= i < |books| && books[i].isbn == isbn
  {
    if books == [] then false
    else books[0].isbn == isbn || HasIsbn(books[1..], isbn)
  }

  /** `books.FirstOrDefault(b => b.ISBN == isbn)`, as the position of the book it finds. */
  function FirstWithIsbn(books: seq<Book>, isbn: string): (r: Option<nat>)
    ensures r.None? <==> !HasIsbn(books, isbn)
    ensures r.Some? ==> IsFirstMatch(books, isbn, r.value)
  {
    if books == [] then None
    else if books[0].isbn == isbn then Some(0)
    else match FirstWithIsbn(books[1..], isbn)
      case None => None
      case Some(k) => Some(k + 1)
  }

  /** The sequence without its element at position `k`. */
  function RemoveAt(books: seq<Book>, k: nat): seq<Book>
    requires k < |books|
  {
    books[..k] + books[k + 1..]
  }

  /** The catalogue after `AddBook(book)`: unchanged when the ISBN is taken,
      otherwise the book appended at the end. */
  function AfterAdd(books: seq<Book>, book: Book): (r: seq<Book>)
    ensures HasIsbn(books, book.isbn) ==> r == books
    ensures !HasIsbn(books, book.isbn) ==> |r| == |books| + 1 && r[..|books|] == books && r[|books|] == book
    ensures HasIsbn(r, book.isbn)
    ensures UniqueIsbns(books) ==> UniqueIsbns(r)
  {
    if HasIsbn(books, book.isbn) then books else books + [book]
  }

  /** The catalogue after `RemoveBook(isbn)`: the first book with that ISBN
      deleted, or unchanged when there is none. */
  function AfterRemove(books: seq<Book>, isbn: string): (r: seq<Book>)
    ensures !HasIsbn(books, isbn) ==> r == books
    ensures |r| == if HasIsbn(books, isbn) then |books| - 1 else |books|
    ensures IsSubsequence(r, books)
    ensures UniqueIsbns(books) ==> UniqueIsbns(r) && !HasIsbn(r, isbn)
  {
    match FirstWithIsbn(books, isbn)
    case None =>
      SubsequenceReflexive(books);
      books
    case Some(k) =>
      RemoveAtIsSubsequence(books, k);
      RemoveAtKeepsUnique(books, isbn, k);
      RemoveAt(books, k)
  }

  /** Deleting the first match keeps the books before it and after it in
      place and takes exactly one copy of the matched book out. */
  lemma RemoveDeletesFirstMatch(books: seq<Book>, isbn: string, k: nat)
    requires IsFirstMatch(books, isbn, k)
    ensures AfterRemove(books, isbn) == books[..k] + books[k + 1..]
    ensures multiset(AfterRemove(books, isbn)) + multiset{books[k]} == multiset(books)
  {
    assert books == books[..k] + [books[k]] + books[k + 1..];
  }

  /** With unique ISBNs, deleting the first match leaves none behind. */
  lemma RemoveAtKeepsUnique(books: seq<Book>, isbn: string, k: nat)
    requires IsFirstMatch(books, isbn, k)
    ensures UniqueIsbns(books) ==> UniqueIsbns(RemoveAt(books, k)) && !HasIsbn(RemoveAt(books, k), isbn)
  {
    if UniqueIsbns(books) {
      var r := RemoveAt(books, k);
      forall i | 0 <= i < |r|
        ensures r[i] == if i < k then books[i] else books[i + 1]
      {
      }
    }
  }

  /** Every catalogue is a subsequence of itself. */
  lemma {:induction false} SubsequenceReflexive(s: seq<Book>)
    ensures IsSubsequence(s, s)
    decreases |s|
  {
    if s != [] {
      SubsequenceReflexive(s[1..]);
    }
  }

  /** Deleting one element leaves a subsequence, the rest in order. */
  lemma {:induction false} RemoveAtIsSubsequence(s: seq<Book>, k: nat)
    requires k < |s|
    ensures IsSubsequence(RemoveAt(s, k), s)
    decreases k
  {
    var r := RemoveAt(s, k);
    if k == 0 {
      assert r == s[1..];
      SubsequenceReflexive(s[1..]);
    } else {
      assert r[0] == s[0];
      assert r[1..] == RemoveAt(s[1..], k - 1);
      RemoveAtIsSubsequence(s[1..], k - 1);
    }
  }

  /** `b.Title.IndexOf(title, StringComparison.OrdinalIgnoreCase) >= 0`. */
  predicate TitleMatches(b: Book, fragment: string)
  {
    IndexOf(Fold(b.title), Fold(fragment)) >= 0
  }

  /** `books.Where(b => TitleMatches(b, fragment)).ToList()`: every book whose
      title contains the fragment, ignoring case, in catalogue order, each as
      many times as it occurs in the catalogue. */
  function FindByTitle(books: seq<Book>, fragment: string): (r: seq<Book>)
    ensures forall i :: 0 <= i < |r| ==> TitleMatches(r[i], fragment)
    ensures forall b :: multiset(r)[b] == if TitleMatches(b, fragment) then multiset(books)[b] else 0
    ensures IsSubsequence(r, books)
  {
    if books == [] then []
    else
      var rest := FindByTitle(books[1..], fragment);
      assert books == [books[0]] + books[1..];
      if TitleMatches(books[0], fragment) then [books[0]] + rest else rest
  }

  /** Adding a second book under an ISBN already added leaves the catalogue
      as the first addition left it. */
  lemma AddSameIsbnTwice(books: seq<Book>, first: Book, second: Book)
    requires first.isbn == second.isbn
    ensures AfterAdd(AfterAdd(books, first), second) == AfterAdd(books, first)
  {
  }

  /** A book added under a fresh ISBN is in the catalogue exactly once, at its end. */
  lemma AddedBookOccursOnce(books: seq<Book>, book: Book)
    requires !HasIsbn(books, book.isbn)
    ensures multiset(AfterAdd(books, book))[book] == 1
    ensures AfterAdd(books, book)[|books|] == book
  {
    assert book !in books;
  }

  /** Removing the ISBN of a book just added under a fresh ISBN restores the catalogue. */
  lemma {:induction false} AddThenRemove(books: seq<Book>, book: Book)
    requires !HasIsbn(books, book.isbn)
    ensures AfterRemove(AfterAdd(books, book), book.isbn) == books
  {
    var added := books + [book];
    assert IsFirstMatch(added, book.isbn, |books|);
    RemoveDeletesFirstMatch(added, book.isbn, |books|);
    assert added[..|books|] == books;
  }

  /** When the ISBNs are not unique, only the first of two books sharing an
      ISBN is removed: the later one stays. */
  lemma RemoveLeavesLaterDuplicate(books: seq<Book>, i: nat, j: nat)
    requires i < j < |books| && books[i].isbn == books[j].isbn
    ensures HasIsbn(AfterRemove(books, books[i].isbn), books[i].isbn)
  {
    var isbn := books[i].isbn;
    var k := FirstWithIsbn(books, isbn).value;
    RemoveDeletesFirstMatch(books, isbn, k);
    assert AfterRemove(books, isbn)[j - 1] == books[j];
  }

  /** The empty fragment occurs in every title (`IndexOf` finds it at 0),
      so searching for it returns the whole catalogue. */
  lemma {:induction false} FindEmptyFragment(books: seq<Book>)
    ensures FindByTitle(books, "") == books
  {
    if books != [] {
      assert OccursAt(Fold(books[0].title), Fold(""), 0);
      FindEmptyFragment(books[1..]);
    }
  }

  /** A fragment that no title contains finds nothing. */
  lemma FindNothing(books: seq<Book>, fragment: string)
    requires forall i :: 0 <= i < |books| ==> !TitleMatches(books[i], fragment)
    ensures FindByTitle(books, fragment) == []
  {
  }

  /** Fragments that fold to the same string find the same books: the
      search ignores case. */
  lemma {:induction false} FindIgnoresCase(books: seq<Book>, fragment: string, other: string)
    requires Fold(fragment) == Fold(other)
    ensures FindByTitle(books, fragment) == FindByTitle(books, other)
  {
    if books != [] {
      FindIgnoresCase(books[1..], fragment, other);
    }
  }

  /** Searching for the fragment spelt in upper case finds what searching
      for it as typed finds. */
  lemma FindUpperCased(books: seq<Book>, fragment: string)
    ensures FindByTitle(books, Fold(fragment)) == FindByTitle(books, fragment)
  {
    FoldIdempotent(fragment);
    FindIgnoresCase(books, Fold(fragment), fragment);
  }

  /** A catalogue holding "The Great Gatsby" finds it under "great" and
      under "GREAT", and finds nothing under "xyz". */
  lemma GatsbyExample(gatsby: Book)
    requires gatsby.title == "The Great Gatsby"
    ensures FindByTitle([gatsby], "great") == [gatsby]
    ensures FindByTitle([gatsby], "GREAT") == [gatsby]
    ensures FindByTitle([gatsby], "xyz") == []
  {
    var title := Fold(gatsby.title);
    assert title == "THE GREAT GATSBY";
    assert Fold("great") == "GREAT" == Fold("GREAT");
    assert OccursAt(title, "GREAT", 4);
    assert Fold("xyz") == "XYZ";
    forall i: nat
      ensures !OccursAt(title, "XYZ", i)
    {
      if i + 3 <= |title| {
        assert title[i..i + 3][0] == title[i];
      }
    }
  }
}
