/**
 * The library as the program keeps it: `Book` objects whose availability
 * flag is flipped in place, and a `Library` holding the book and patron
 * lists, which only grow by appending. Console prompts become parameters and
 * printed messages become outcome codes.
 */
module LibraryManagement {
  import opened Options
  import opened JavaStrings
  import opened LibraryCatalog

  /** A book of the catalog; only its availability ever changes. */
  class Book {
    const title: string
    const author: string
    const genre: string
    var available: bool

    constructor (title: string, author: string, genre: string, available: bool)
      ensures Info() == BookInfo(title, author, genre, available)
    {
      this.title := title;
      this.author := author;
      this.genre := genre;
      this.available := available;
    }

    /** The book's current value. */
    function Info(): BookInfo
      reads this
    {
      BookInfo(title, author, genre, available)
    }

    /** `setAvailable` */
    method SetAvailable(available: bool)
      modifies this
      ensures Info() == old(Info()).(available := available)
    {
      this.available := available;
    }
  }

  function BookTitle(b: Book): string { b.title }

  function BookAuthor(b: Book): string { b.author }

  function BookGenre(b: Book): string { b.genre }

  /** The values of a list of books, position by position. */
  ghost function Snapshot(books: seq<Book>): (r: seq<BookInfo>)
    reads set b | b in books
    ensures |r| == |books|
    ensures forall i :: 0 <= i < |books| ==> r[i] == books[i].Info()
  {
    if books == [] then [] else Snapshot(books[..|books| - 1]) + [books[|books| - 1].Info()]
  }

  /** A sequence that agrees with `before` off `i` and holds `v` at `i` is `before` updated at `i`. */
  lemma ChangedAt(before: seq<BookInfo>, now: seq<BookInfo>, i: nat, v: BookInfo)
    requires |now| == |before| && i < |now| && now[i] == v
    requires forall j :: 0 <= j < |before| && j != i ==> now[j] == before[j]
    ensures now == before[i := v]
  {
  }

  /** Calculating days overdue: ten days since borrowing against seven allowed, whatever the book. */
  const DaysFromBorrowing := 10
  const DueDays := 7

  /** `calculateDaysOverdue`: always three days, so a fine is always due. */
  function DaysOverdue(book: Book): (days: int)
    ensures days == 3 && days > 0
  {
    if DaysFromBorrowing - DueDays > 0 then DaysFromBorrowing - DueDays else 0
  }

  /** The position of the first element whose key equals `query` ignoring case. */
  method IndexOfFirst<T>(s: seq<T>, key: T -> string, query: string) returns (r: Option<nat>)
    ensures r == FirstMatch(s, key, query)
  {
    var i := 0;
    while i < |s|
      invariant 0 <= i <= |s|
      invariant forall j :: 0 <= j < i ==> !EqualsIgnoreCase(key(s[j]), query)
    {
      if EqualsIgnoreCase(key(s[i]), query) {
        FirstMatchAt(s, key, query, i);
        return Some(i);
      }
      i := i + 1;
    }
    return None;
  }

  /** Collects, in list order, the elements whose key contains `query` ignoring case. */
  method CollectMatching<T>(s: seq<T>, key: T -> string, query: string) returns (result: seq<T>)
    ensures result == Matching(s, key, query)
  {
    result := [];
    var i := 0;
    while i < |s|
      invariant 0 <= i <= |s|
      invariant result == Matching(s[..i], key, query)
    {
      assert s[..i + 1][..i] == s[..i];
      if ContainsIgnoreCase(key(s[i]), query) {
        result := result + [s[i]];
      }
      i := i + 1;
    }
    assert s[..i] == s;
  }

  class Library {
    var books: seq<Book>
    var patrons: seq<Patron>

    /** No book object is listed twice, so flipping one flag changes one position. */
    ghost predicate Valid()
      reads this
    {
      forall i, j :: 0 <= i < j < |books| ==> books[i] != books[j]
    }

    /** The catalog as values. */
    ghost function Catalog(): seq<BookInfo>
      reads this, set b | b in books
    {
      Snapshot(books)
    }

    /** A library whose files are absent starts with no books and no patrons. */
    constructor ()
      ensures Valid() && books == [] && patrons == []
    {
      books := [];
      patrons := [];
    }

    /** `addBook`: appends a book the list does not hold yet. */
    method AddBook(book: Book)
      requires Valid() && book !in books
      modifies this
      ensures Valid()
      ensures books == old(books) + [book] && patrons == old(patrons)
      ensures Catalog() == old(Catalog()) + [book.Info()]
    {
      books := books + [book];
    }

    /** `addPatron`: appends a patron. */
    method AddPatron(patron: Patron)
      requires Valid()
      modifies this
      ensures Valid()
      ensures patrons == old(patrons) + [patron] && books == old(books)
    {
      patrons := patrons + [patron];
    }

    /** `findPatronByName`: the first patron whose name equals `name` ignoring case. */
    method FindPatronByName(name: string) returns (patron: Option<Patron>)
      ensures patron.None? <==> !HasMatch(patrons, NameOf, name)
      ensures patron.Some? ==> patron.value == patrons[FirstMatch(patrons, NameOf, name).value]
    {
      var i := IndexOfFirst(patrons, NameOf, name);
      patron := if i.Some? then Some(patrons[i.value]) else None;
    }

    /** `findBookByTitle`: the first book whose title equals `title` ignoring case, or null. */
    method FindBookByTitle(title: string) returns (book: Book?)
      ensures book == null <==> !HasMatch(books, BookTitle, title)
      ensures book != null ==> book == books[FirstMatch(books, BookTitle, title).value]
    {
      var i := IndexOfFirst(books, BookTitle, title);
      book := if i.Some? then books[i.value] else null;
    }

    /** The catalog values and the book objects are looked up at the same position. */
    lemma SameLookup(title: string)
      requires Valid()
      ensures FirstMatch(Catalog(), TitleOf, title) == FirstMatch(books, BookTitle, title)
    {
      FirstMatchSameKeys(Catalog(), TitleOf, books, BookTitle, title);
    }

    /** `setAvailable` on the book at position `i`; no other book changes. */
    method SetAvailableAt(i: nat, available: bool)
      requires Valid() && i < |books|
      modifies books[i]
      ensures Valid() && books == old(books) && patrons == old(patrons)
      ensures Catalog() == old(Catalog())[i := old(Catalog())[i].(available := available)]
    {
      ghost var before := Catalog();
      assert forall j :: 0 <= j < |books| && j != i ==> books[j] != books[i];
      books[i].SetAvailable(available);
      ChangedAt(before, Catalog(), i, before[i].(available := available));
    }

    /** `borrowBook` with the patron name and the title as parameters. */
    method BorrowBook(patronName: string, bookTitle: string) returns (outcome: BorrowOutcome)
      requires Valid()
      modifies set b | b in books
      ensures Valid() && books == old(books) && patrons == old(patrons)
      ensures (outcome, Catalog()) == Borrow(old(Catalog()), patrons, patronName, bookTitle)
    {
      SameLookup(bookTitle);
      var patron := FindPatronByName(patronName);
      if patron.None? {
        return PatronNotFound;
      }
      var book := FindBookByTitle(bookTitle);
      if book == null {
        return BookNotFound;
      }
      if !book.available {
        return NotAvailable;
      }
      SetAvailableAt(FirstMatch(books, BookTitle, bookTitle).value, false);
      outcome := Borrowed;
    }

    /** `returnBook` with the title as a parameter; no patron is involved. */
    method ReturnBook(bookTitle: string) returns (outcome: ReturnOutcome)
      requires Valid()
      modifies set b | b in books
      ensures Valid() && books == old(books) && patrons == old(patrons)
      ensures (outcome, Catalog()) == Return(old(Catalog()), bookTitle)
    {
      SameLookup(bookTitle);
      var book := FindBookByTitle(bookTitle);
      if book == null {
        return NoSuchBook;
      }
      if book.available {
        return AlreadyAvailable;
      }
      SetAvailableAt(FirstMatch(books, BookTitle, bookTitle).value, true);
      outcome := Returned;
    }

    /**
     * `calculateFine`: the patron, then the book must be found; the days
     * overdue are always positive, so a found pair is always fined.
     */
    method CalculateFine(patronName: string, bookTitle: string) returns (outcome: FineOutcome)
      ensures outcome == FinePatronNotFound <==> !HasMatch(patrons, NameOf, patronName)
      ensures outcome == FineBookNotFound <==>
                HasMatch(patrons, NameOf, patronName) && !HasMatch(books, BookTitle, bookTitle)
      ensures !outcome.NoFine?
      ensures outcome.Fine? ==>
                && outcome.patron == patrons[FirstMatch(patrons, NameOf, patronName).value]
                && outcome.daysOverdue == 3
    {
      var patron := FindPatronByName(patronName);
      if patron.None? {
        return FinePatronNotFound;
      }
      var book := FindBookByTitle(bookTitle);
      if book == null {
        return FineBookNotFound;
      }
      var found := patron.value;
      var days := DaysOverdue(book);
      if days > 0 {
        outcome := Fine(found, days);
      } else {
        outcome := NoFine(found);
      }
    }

    /** `findBooksByTitle` */
    method FindBooksByTitle(title: string) returns (result: seq<Book>)
      ensures result == Matching(books, BookTitle, title)
    {
      result := CollectMatching(books, BookTitle, title);
    }

    /** `findBooksByAuthor` */
    method FindBooksByAuthor(author: string) returns (result: seq<Book>)
      ensures result == Matching(books, BookAuthor, author)
    {
      result := CollectMatching(books, BookAuthor, author);
    }

    /** `findBooksByGenre` */
    method FindBooksByGenre(genre: string) returns (result: seq<Book>)
      ensures result == Matching(books, BookGenre, genre)
    {
      result := CollectMatching(books, BookGenre, genre);
    }

    /** `findPatronsByName` */
    method FindPatronsByName(name: string) returns (result: seq<Patron>)
      ensures result == Matching(patrons, NameOf, name)
    {
      result := CollectMatching(patrons, NameOf, name);
    }
  }
}
