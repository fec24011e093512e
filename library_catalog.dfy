/**
 * The library's record logic on plain values: the book and patron records,
 * the first-match and substring lookups, the lending transitions on the
 * catalog, and the one-line text form each record has in its file.
 */
module LibraryCatalog {
  import opened Options
  import opened JavaStrings

  /** The value of one book: three catalog fields and the two-state availability flag. */
  datatype BookInfo = BookInfo(title: string, author: string, genre: string, available: bool)

  /** A patron; patrons are never changed once added. */
  datatype Patron = Patron(name: string, contactInfo: string)

  /** How `borrowBook` ends; each failure leaves every book as it was. */
  datatype BorrowOutcome = Borrowed | PatronNotFound | BookNotFound | NotAvailable

  /** How `returnBook` ends; each failure leaves every book as it was. */
  datatype ReturnOutcome = Returned | NoSuchBook | AlreadyAvailable

  /** How `calculateFine` ends. */
  datatype FineOutcome =
    | FinePatronNotFound
    | FineBookNotFound
    | Fine(patron: Patron, daysOverdue: int)
    | NoFine(patron: Patron)

  function TitleOf(b: BookInfo): string { b.title }

  function NameOf(p: Patron): string { p.name }

  // ---------------------------------------------------------------------------
  // Lookups
  // ---------------------------------------------------------------------------

  /** Some element of `s` has a key equal to `query` ignoring case. */
  predicate HasMatch<T>(s: seq<T>, key: T -> string, query: string)
  {
    exists j :: 0 <= j < |s| && EqualsIgnoreCase(key(s[j]), query)
  }

  /**
   * The position of the first element whose key equals `query` ignoring
   * case, or None when there is none: the lookup of `findBookByTitle` and
   * `findPatronByName`.
   */
  function FirstMatch<T>(s: seq<T>, key: T -> string, query: string): (r: Option<nat>)
    ensures r.Some? <==> HasMatch(s, key, query)
    ensures r.Some? ==> r.value < |s| && EqualsIgnoreCase(key(s[r.value]), query)
    ensures r.Some? ==> forall j :: 0 <= j < r.value ==> !EqualsIgnoreCase(key(s[j]), query)
  {
    if s == [] then None
    else if EqualsIgnoreCase(key(s[0]), query) then Some(0)
    else
      match FirstMatch(s[1..], key, query)
      case None => None
      case Some(i) => assert s[1..][i] == s[i + 1]; Some(i + 1)
  }

  /** A first match found by a scan is the one FirstMatch names. */
  lemma FirstMatchAt<T>(s: seq<T>, key: T -> string, query: string, i: nat)
    requires i < |s| && EqualsIgnoreCase(key(s[i]), query)
    requires forall j :: 0 <= j < i ==> !EqualsIgnoreCase(key(s[j]), query)
    ensures FirstMatch(s, key, query) == Some(i)
  {
    var r := FirstMatch(s, key, query);
    assert r.Some?;
  }

  /** The lookup depends only on the keys: two lists with the same keys match at the same place. */
  lemma FirstMatchSameKeys<T, U>(s: seq<T>, key: T -> string, t: seq<U>, key': U -> string, query: string)
    requires |s| == |t|
    requires forall j :: 0 <= j < |s| ==> key(s[j]) == key'(t[j])
    ensures FirstMatch(s, key, query) == FirstMatch(t, key', query)
  {
    var r := FirstMatch(s, key, query);
    if r.Some? {
      FirstMatchAt(t, key', query, r.value);
    }
  }

  /**
   * The elements of `s` whose key contains `query` ignoring case, in their
   * order in `s`: the result of `findBooksByTitle`, `findBooksByAuthor`,
   * `findBooksByGenre` and `findPatronsByName`.
   */
  function Matching<T>(s: seq<T>, key: T -> string, query: string): (r: seq<T>)
    ensures |r| <= |s|
    ensures forall i :: 0 <= i < |r| ==> r[i] in s && ContainsIgnoreCase(key(r[i]), query)
    ensures forall j :: 0 <= j < |s| && ContainsIgnoreCase(key(s[j]), query) ==> s[j] in r
  {
    if s == [] then []
    else
      var last := s[|s| - 1];
      Matching(s[..|s| - 1], key, query) + (if ContainsIgnoreCase(key(last), query) then [last] else [])
  }

  /** The positions of the matching elements, in increasing order. */
  ghost function MatchingPositions<T>(s: seq<T>, key: T -> string, query: string): (idx: seq<nat>)
    ensures forall k :: 0 <= k < |idx| ==> idx[k] < |s| && ContainsIgnoreCase(key(s[idx[k]]), query)
    ensures forall k, l :: 0 <= k < l < |idx| ==> idx[k] < idx[l]
    ensures forall j :: 0 <= j < |s| && ContainsIgnoreCase(key(s[j]), query) ==> j in idx
  {
    if s == [] then []
    else
      var n := |s| - 1;
      var prefix := s[..n];
      var before := MatchingPositions(prefix, key, query);
      assert forall k :: 0 <= k < |before| ==> s[before[k]] == prefix[before[k]];
      assert forall j :: 0 <= j < n ==> s[j] == prefix[j];
      before + (if ContainsIgnoreCase(key(s[n]), query) then [n] else [])
  }

  /**
   * The search keeps exactly the matching elements, as a subsequence in list
   * order: its k-th element is the element at the k-th matching position.
   */
  lemma {:induction false} MatchingIsOrderedSelection<T>(s: seq<T>, key: T -> string, query: string)
    ensures |Matching(s, key, query)| == |MatchingPositions(s, key, query)|
    ensures forall k :: 0 <= k < |Matching(s, key, query)| ==>
              Matching(s, key, query)[k] == s[MatchingPositions(s, key, query)[k]]
  {
    if s != [] {
      var n := |s| - 1;
      var prefix := s[..n];
      MatchingIsOrderedSelection(prefix, key, query);
      var r, idx := Matching(prefix, key, query), MatchingPositions(prefix, key, query);
      var tail := if ContainsIgnoreCase(key(s[n]), query) then [s[n]] else [];
      assert Matching(s, key, query) == r + tail;
      assert MatchingPositions(s, key, query) == idx + (if tail == [] then [] else [n]);
      forall k | 0 <= k < |r|
        ensures (r + tail)[k] == s[idx[k]]
      {
        assert s[idx[k]] == prefix[idx[k]];
      }
    }
  }

  /** An element is found exactly when it is in the list and its key contains the query. */
  lemma {:induction false} MatchingMembership<T>(s: seq<T>, key: T -> string, query: string, x: T)
    ensures x in Matching(s, key, query) <==> x in s && ContainsIgnoreCase(key(x), query)
  {
    if s != [] {
      var n := |s| - 1;
      MatchingMembership(s[..n], key, query, x);
      assert s == s[..n] + [s[n]];
    }
  }

  /** An empty query finds the whole list. */
  lemma {:induction false} MatchingEmptyQuery<T>(s: seq<T>, key: T -> string)
    ensures Matching(s, key, "") == s
  {
    if s != [] {
      var n := |s| - 1;
      MatchingEmptyQuery(s[..n], key);
      EmptyPartMatchesAll(key(s[n]));
      assert s == s[..n] + [s[n]];
    }
  }

  // ---------------------------------------------------------------------------
  // Lending
  // ---------------------------------------------------------------------------

  /**
   * `borrowBook` on the catalog: the patron is looked up first, then the
   * first book with the title, then its availability is checked; only a
   * success changes anything, and then only the availability of that one book.
   */
  function Borrow(books: seq<BookInfo>, patrons: seq<Patron>, patronName: string, title: string)
    : (r: (BorrowOutcome, seq<BookInfo>))
    ensures r.0 == PatronNotFound <==> !HasMatch(patrons, NameOf, patronName)
    ensures r.0 == BookNotFound <==> HasMatch(patrons, NameOf, patronName) && !HasMatch(books, TitleOf, title)
    ensures r.0 == Borrowed <==>
              HasMatch(patrons, NameOf, patronName) && HasMatch(books, TitleOf, title)
              && books[FirstMatch(books, TitleOf, title).value].available
    ensures r.0 != Borrowed ==> r.1 == books
    ensures |r.1| == |books|
    ensures r.0 == Borrowed ==>
              var i := FirstMatch(books, TitleOf, title).value;
              && r.1[i] == books[i].(available := false)
              && forall j :: 0 <= j < |books| && j != i ==> r.1[j] == books[j]
  {
    if FirstMatch(patrons, NameOf, patronName).None? then (PatronNotFound, books)
    else
      match FirstMatch(books, TitleOf, title)
      case None => (BookNotFound, books)
      case Some(i) =>
        if !books[i].available then (NotAvailable, books)
        else (Borrowed, books[i := books[i].(available := false)])
  }

  /**
   * `returnBook` on the catalog: no patron is consulted; the first book with
   * the title must exist and be borrowed, and only its flag changes.
   */
  function Return(books: seq<BookInfo>, title: string): (r: (ReturnOutcome, seq<BookInfo>))
    ensures r.0 == NoSuchBook <==> !HasMatch(books, TitleOf, title)
    ensures r.0 == Returned <==>
              HasMatch(books, TitleOf, title) && !books[FirstMatch(books, TitleOf, title).value].available
    ensures r.0 != Returned ==> r.1 == books
    ensures |r.1| == |books|
    ensures r.0 == Returned ==>
              var i := FirstMatch(books, TitleOf, title).value;
              && r.1[i] == books[i].(available := true)
              && forall j :: 0 <= j < |books| && j != i ==> r.1[j] == books[j]
  {
    match FirstMatch(books, TitleOf, title)
    case None => (NoSuchBook, books)
    case Some(i) =>
      if books[i].available then (AlreadyAvailable, books)
      else (Returned, books[i := books[i].(available := true)])
  }

  /** Returning the title just borrowed succeeds and gives back the catalog as it was. */
  lemma ReturnUndoesBorrow(books: seq<BookInfo>, patrons: seq<Patron>, patronName: string, title: string)
    requires Borrow(books, patrons, patronName, title).0 == Borrowed
    ensures Return(Borrow(books, patrons, patronName, title).1, title) == (Returned, books)
  {
    var after := Borrow(books, patrons, patronName, title).1;
    var i := FirstMatch(books, TitleOf, title).value;
    FirstMatchSameKeys(after, TitleOf, books, TitleOf, title);
    assert after[i := after[i].(available := true)] == books;
  }

  /** A second borrow of the same title, by anyone, is refused as not available. */
  lemma BorrowTwiceRefused(books: seq<BookInfo>, patrons: seq<Patron>, patronName: string, other: string, title: string)
    requires Borrow(books, patrons, patronName, title).0 == Borrowed
    requires HasMatch(patrons, NameOf, other)
    ensures Borrow(Borrow(books, patrons, patronName, title).1, patrons, other, title) == (NotAvailable, Borrow(books, patrons, patronName, title).1)
  {
    var after := Borrow(books, patrons, patronName, title).1;
    FirstMatchSameKeys(after, TitleOf, books, TitleOf, title);
  }

  // ---------------------------------------------------------------------------
  // Line formats of books.txt and patrons.txt
  // ---------------------------------------------------------------------------

  /** A field that survives the line format: no comma and nothing for `trim` to remove. */
  predicate IsPlainField(x: string)
  {
    ',' !in x && IsTrimmed(x)
  }

  /**
   * One line of the books file: `title, author, genre, available`. It opens
   * with the title, closes with the flag's text, and adds three ", "
   * separators to the four fields.
   */
  function BookLine(b: BookInfo): (r: string)
    ensures |r| == |b.title| + |b.author| + |b.genre| + |BooleanText(b.available)| + 6
    ensures r[..|b.title|] == b.title
    ensures r[|r| - |BooleanText(b.available)|..] == BooleanText(b.available)
  {
    b.title + ", " + b.author + ", " + b.genre + ", " + BooleanText(b.available)
  }

  /**
   * One line of the books file read back: split on commas, trim each of the
   * first four fields, parse the fourth as a boolean; a line with fewer than
   * four fields is an error (Java throws an index exception there).
   */
  function ParseBookLine(line: string): (r: Option<BookInfo>)
    ensures r.Some? <==> |Split(line)| >= 4
    ensures r.Some? ==> IsTrimmed(r.value.title) && IsTrimmed(r.value.author) && IsTrimmed(r.value.genre)
  {
    var parts := Split(line);
    if |parts| < 4 then None
    else
      TrimIsTrimmed(parts[0]);
      TrimIsTrimmed(parts[1]);
      TrimIsTrimmed(parts[2]);
      Some(BookInfo(Trim(parts[0]), Trim(parts[1]), Trim(parts[2]), ParseBoolean(Trim(parts[3]))))
  }

  /** One line of the patrons file: `name, contactInfo`, the two fields around one ", ". */
  function PatronLine(p: Patron): (r: string)
    ensures |r| == |p.name| + |p.contactInfo| + 2
    ensures r[..|p.name|] == p.name && r[|p.name|..|p.name| + 2] == ", "
    ensures r[|p.name| + 2..] == p.contactInfo
  {
    p.name + ", " + p.contactInfo
  }

  /** One line of the patrons file read back; fewer than two fields is an error. */
  function ParsePatronLine(line: string): (r: Option<Patron>)
    ensures r.Some? <==> |Split(line)| >= 2
    ensures r.Some? ==> IsTrimmed(r.value.name) && IsTrimmed(r.value.contactInfo)
  {
    var parts := Split(line);
    if |parts| < 2 then None
    else
      TrimIsTrimmed(parts[0]);
      TrimIsTrimmed(parts[1]);
      Some(Patron(Trim(parts[0]), Trim(parts[1])))
  }

  /** The ", " separator is a comma followed by a field led by a space. */
  lemma CommaSpace(x: string, y: string)
    ensures x + ", " + y == x + "," + (" " + y)
  {
  }

  lemma SpaceAddsNoComma(x: string)
    requires ',' !in x
    ensures ',' !in " " + x
  {
  }

  /** A saved book line splits into its four fields, each after the first led by one space. */
  lemma BookLineFields(b: BookInfo)
    requires ',' !in b.title && ',' !in b.author && ',' !in b.genre
    ensures Split(BookLine(b)) == [b.title, " " + b.author, " " + b.genre, " " + BooleanText(b.available)]
  {
    var flag := BooleanText(b.available);
    var parts := [b.title, " " + b.author, " " + b.genre, " " + flag];
    assert BookLine(b) == Join(parts) by {
      var head := b.title + "," + (" " + b.author);
      CommaSpace(b.title, b.author);
      CommaSpace(head, b.genre);
      CommaSpace(head + "," + (" " + b.genre), flag);
      JoinOfFour(parts[0], parts[1], parts[2], parts[3]);
    }
    assert ',' !in parts[1] && ',' !in parts[2] && ',' !in parts[3] by {
      SpaceAddsNoComma(b.author);
      SpaceAddsNoComma(b.genre);
      SpaceAddsNoComma(flag);
    }
    SplitOfJoin(parts);
  }

  /** The fourth field of a book line, led by its space, parses back to the flag. */
  lemma FlagField(available: bool)
    ensures ParseBoolean(Trim(" " + BooleanText(available))) == available
  {
    var flag := BooleanText(available);
    assert IsTrimmed(flag);
    TrimAfterSpace(flag);
    ParseBooleanText(available);
  }

  /** A line that splits into four plain fields, each after the first led by one space, reads back as that book. */
  lemma ParseBookFields(line: string, b: BookInfo)
    requires IsPlainField(b.title) && IsPlainField(b.author) && IsPlainField(b.genre)
    requires Split(line) == [b.title, " " + b.author, " " + b.genre, " " + BooleanText(b.available)]
    ensures ParseBookLine(line) == Some(b)
  {
    TrimAfterSpace(b.title);
    TrimAfterSpace(b.author);
    TrimAfterSpace(b.genre);
    FlagField(b.available);
  }

  /** Reading back a saved book line gives the same book when its fields are plain. */
  lemma BookLineRoundTrip(b: BookInfo)
    requires IsPlainField(b.title) && IsPlainField(b.author) && IsPlainField(b.genre)
    ensures ParseBookLine(BookLine(b)) == Some(b)
  {
    BookLineFields(b);
    ParseBookFields(BookLine(b), b);
  }

  /** Reading back a saved patron line gives the same patron when its fields are plain. */
  lemma PatronLineRoundTrip(p: Patron)
    requires IsPlainField(p.name) && IsPlainField(p.contactInfo)
    ensures ParsePatronLine(PatronLine(p)) == Some(p)
  {
    var parts := [p.name, " " + p.contactInfo];
    assert PatronLine(p) == Join(parts) by {
      JoinOfTwo(parts[0], parts[1]);
      assert ", " == "," + " ";
    }
    SplitOfJoin(parts);
    TrimAfterSpace(p.name);
    TrimAfterSpace(p.contactInfo);
  }
}
