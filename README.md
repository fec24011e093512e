# Library lending and online bank ledger, modelled in Dafny

This project models the record-keeping core of two small Java console
programs and proves properties of it.

**Library management.** A library keeps an ordered list of books and an
ordered list of patrons. Both lists only grow, by appending. Each book has a
title, an author, a genre and an availability flag. `borrowBook` looks up the
patron by name, then the first book whose title equals the query ignoring
case, then checks that the book is available, and only then clears the flag.
`returnBook` looks up the book the same way and sets the flag again when it
was cleared; no patron is consulted. `calculateFine` finds the patron and the
book; the days overdue are the constant 10 - 7 = 3, so a fine is always due.
Four searches keep, in list order, the books (by title, author or genre) or
the patrons (by name) whose field contains the query ignoring case. Each
book is saved as the line `title, author, genre, available` and read back by
splitting on commas, trimming each field and parsing the flag; patrons are
saved as `name, contactInfo`.

**Online bank.** A bank maps account numbers to users and keeps an account
counter that starts at 1000. `createAccount` pre-increments the counter,
gives savings accounts (type "savings" in any case) an opening balance of 500
and every other type 0, and puts the new user under the new number even when
that number is already taken. `login` checks the number and the password.
`withdraw` needs the account, the exact password and a balance of at least
the amount; `credit` needs only the account; `applyForLoan` needs the account
and the password and adds the loan amount itself to the balance. Every
change of balance appends one history entry; `viewAccountInfo` shows the
account and then clears its history. Accounts loaded at start-up are put
under their numbers in file order and do not move the counter.

The model has two layers for each program:

- `LibraryCatalog` and `BankLedger` are value-level specifications: the
  records as datatypes and one function per operation giving the outcome and
  the state after it. The contracts and lemmas about the programs live here.
- `LibraryManagement` and `OnlineBank` are the programs' own objects as
  Dafny classes (`Book`, `Library`, `User`, `Bank`) whose methods update
  fields in place. Each method is proved to leave the objects' values
  (`Library.Catalog()`, `Bank.Ledger()`) exactly as the value-level function
  prescribes.
- `JavaStrings` gives the Java string operations the programs rely on:
  `equalsIgnoreCase`, `toLowerCase().contains`, `trim`, `split(",")`,
  `String.valueOf(boolean)` and `Boolean.parseBoolean`.

Console input becomes method parameters and printed messages become outcome
codes (`BorrowOutcome`, `ReturnOutcome`, `FineOutcome`, `Outcome`). Balances
are exact reals: floating-point rounding is not modelled.

Two details of the code shape the model:

- A loan changes the balance. `applyForLoan` prints the interest and the
  total owed, but posts only the loan amount through `addTransaction`
  (OnlineBankSystem.java:141), which adds it to the balance
  (OnlineBankSystem.java:242). `BankLedger.ApplyForLoan` adds the loan amount.
- Not every change is saved. The bank saves only after `createAccount`
  (OnlineBankSystem.java:78); the library saves after adding a book or a
  patron and after borrowing and returning (LibraryManagementSystem.java:170,
  182, 212, 233). File writing is not modelled.

## Model

| member | source | states |
|---|---|---|
| JavaStrings.EmptyPartMatchesAll | LibraryManagementSystem.java:425 | every string contains the empty query ignoring case |
| JavaStrings.TrimIsTrimmed | LibraryManagementSystem.java:354-357 | `trim` leaves no leading or trailing character at or below space, and trimming twice is trimming once |
| JavaStrings.TrimAfterSpace | LibraryManagementSystem.java:354-357 | a field with nothing to trim comes back from `trim` unchanged, also with the one space the line format puts before it |
| JavaStrings.SplitOfJoin | LibraryManagementSystem.java:353 | joining two or more comma-free fields with commas, the last one non-empty, and splitting on "," gives back exactly those fields |
| JavaStrings.ParseBooleanText | LibraryManagementSystem.java:357 | `Boolean.parseBoolean` reads back the text `String.valueOf` writes for either flag |
| LibraryCatalog.FirstMatch | LibraryManagementSystem.java:404-420 | the lookup finds something iff some key equals the query ignoring case; the position found holds such a key and no earlier position does |
| LibraryCatalog.Matching | LibraryManagementSystem.java:422-460 | a search result is no longer than the list; each element of it is in the list and its field contains the query ignoring case, and every such element of the list is in it |
| LibraryCatalog.MatchingIsOrderedSelection | LibraryManagementSystem.java:422-460 | a search result is the list's elements at the matching positions, in increasing position order, and every matching position is among them |
| LibraryCatalog.MatchingMembership | LibraryManagementSystem.java:422-460 | an element is in a search result iff it is in the list and its field contains the query ignoring case |
| LibraryCatalog.MatchingEmptyQuery | LibraryManagementSystem.java:422-460 | searching for the empty string returns the whole list in order |
| LibraryCatalog.Borrow | LibraryManagementSystem.java:189-212 | the patron check comes first, then the book lookup, then availability; success iff the patron exists, the book exists and the first such book is available; on failure no book changes; on success only that first book changes, and only its flag, to unavailable |
| LibraryCatalog.Return | LibraryManagementSystem.java:220-233 | the patron is never consulted; success iff the first book with the title exists and is unavailable; on failure nothing changes; on success only that book becomes available |
| LibraryCatalog.ReturnUndoesBorrow | LibraryManagementSystem.java:210-231 | returning the title just borrowed succeeds and restores the catalog exactly |
| LibraryCatalog.BorrowTwiceRefused | LibraryManagementSystem.java:205-210 | after a successful borrow, borrowing the same title again, by any known patron, is refused as not available and changes nothing |
| LibraryCatalog.BookLine | LibraryManagementSystem.java:369 | a saved book line opens with the title, closes with the text of the flag, and is the four fields plus three ", " separators long; `BookLineFields` and `BookLineRoundTrip` state how it splits and reads back |
| LibraryCatalog.ParseBookLine | LibraryManagementSystem.java:353-358 | a line is read as a book iff it splits into at least four fields; the title, author and genre read are trimmed |
| LibraryCatalog.PatronLine | LibraryManagementSystem.java:396 | a saved patron line is the name, then ", ", then the contact information; `PatronLineRoundTrip` states how it reads back |
| LibraryCatalog.ParsePatronLine | LibraryManagementSystem.java:380-385 | a line is read as a patron iff it splits into at least two fields; the name and contact information read are trimmed |
| LibraryCatalog.BookLineFields | LibraryManagementSystem.java:369 | a saved book line whose fields hold no comma splits into exactly four fields, the last three each led by one space |
| LibraryCatalog.FlagField | LibraryManagementSystem.java:357 | the saved availability flag, after its leading space is trimmed, parses back to the same flag |
| LibraryCatalog.ParseBookFields | LibraryManagementSystem.java:353-358 | a line splitting into four plain fields with their leading spaces is read back as the book with those fields |
| LibraryCatalog.BookLineRoundTrip | LibraryManagementSystem.java:353-369 | reading back a saved book line gives the same book when no field has a comma or surrounding blanks |
| LibraryCatalog.PatronLineRoundTrip | LibraryManagementSystem.java:382-396 | reading back a saved patron line gives the same patron under the same condition |
| LibraryManagement.Book.constructor | LibraryManagementSystem.java:100-105 | a new book holds the four given values |
| LibraryManagement.Book.SetAvailable | LibraryManagementSystem.java:123-125 | only the flag changes, to the given value |
| LibraryManagement.DaysOverdue | LibraryManagementSystem.java:264-268 | the days overdue are 3 for every book, so they are always positive |
| LibraryManagement.IndexOfFirst | LibraryManagementSystem.java:404-420 | the scan returns the position `FirstMatch` specifies |
| LibraryManagement.CollectMatching | LibraryManagementSystem.java:422-460 | the accumulating loop returns the search result `Matching` specifies |
| LibraryManagement.Library.constructor | LibraryManagementSystem.java:163-166 | a library starts with no books and no patrons |
| LibraryManagement.Library.AddBook | LibraryManagementSystem.java:168-171 | the book is appended at the end; earlier books and all patrons are unchanged |
| LibraryManagement.Library.AddPatron | LibraryManagementSystem.java:180-183 | the patron is appended at the end; earlier patrons and all books are unchanged |
| LibraryManagement.Library.FindPatronByName | LibraryManagementSystem.java:404-411 | no patron iff no name equals the query ignoring case; otherwise the first such patron |
| LibraryManagement.Library.FindBookByTitle | LibraryManagementSystem.java:413-420 | null iff no title equals the query ignoring case; otherwise the first such book object |
| LibraryManagement.Library.BorrowBook | LibraryManagementSystem.java:185-213 | the outcome and the books' values afterwards are those of `Borrow`; the lists themselves are unchanged |
| LibraryManagement.Library.ReturnBook | LibraryManagementSystem.java:215-234 | the outcome and the books' values afterwards are those of `Return`; the lists themselves are unchanged |
| LibraryManagement.Library.CalculateFine | LibraryManagementSystem.java:236-262 | patron not found iff no name matches; book not found iff the patron matches and no title does; otherwise a fine for the first matching patron with 3 days overdue, never "no fine" |
| LibraryManagement.Library.FindBooksByTitle | LibraryManagementSystem.java:422-430 | the result is the books whose title contains the query ignoring case, in list order |
| LibraryManagement.Library.FindBooksByAuthor | LibraryManagementSystem.java:432-440 | the result is the books whose author contains the query ignoring case, in list order |
| LibraryManagement.Library.FindBooksByGenre | LibraryManagementSystem.java:442-450 | the result is the books whose genre contains the query ignoring case, in list order |
| LibraryManagement.Library.FindPatronsByName | LibraryManagementSystem.java:452-460 | the result is the patrons whose name contains the query ignoring case, in list order |
| BankLedger.NextAccountNumber | OnlineBankSystem.java:64 | the next number is the counter plus one, wrapping from the largest `int` to the smallest |
| BankLedger.Authenticate | OnlineBankSystem.java:246-248 | an attempt is accepted iff it has the password's length and agrees with it character by character, case included |
| BankLedger.PasswordIsCaseSensitive | OnlineBankSystem.java:246-248 | with the password "Secret", "Secret" is accepted and "secret" and "SECRET" are refused |
| BankLedger.Post | OnlineBankSystem.java:241-244 | posting moves the balance by exactly the amount, appends one entry holding the amount and the new balance after the unchanged old history, and changes nothing else |
| BankLedger.ClearHistory | OnlineBankSystem.java:254-256 | the history becomes empty and every other field is unchanged |
| BankLedger.ChainedSteps | OnlineBankSystem.java:241-243 | in a chained history each entry's balance is the previous entry's balance plus its own amount |
| BankLedger.PostKeepsConsistent | OnlineBankSystem.java:241-244 | posting an amount keeps the history consistent with the balance |
| BankLedger.HistoryExplainsBalance | OnlineBankSystem.java:241-244 | for a consistent account, the balance is the balance before the first recorded posting plus the sum of all recorded amounts |
| BankLedger.OpeningBalance | OnlineBankSystem.java:75 | 500 iff the type equals "savings" ignoring case, otherwise 0 |
| BankLedger.CreateAccount | OnlineBankSystem.java:63-82 | the new number is the counter advanced by one; the accounts gain exactly that key, holding the given holder, password and type, the opening balance and an empty history, replacing any account already there; other accounts are unchanged; well-formed accounts stay well-formed |
| BankLedger.Login | OnlineBankSystem.java:84-109 | not found iff the number is absent; success iff the number is present and the password is exactly equal |
| BankLedger.ViewAccountInfo | OnlineBankSystem.java:111-128 | shows the account iff it exists, as it was; afterwards only its history has changed, to empty; other accounts are unchanged |
| BankLedger.ApplyForLoan | OnlineBankSystem.java:130-157 | not found iff the number is absent; success iff the password matches; success adds the loan amount itself to the balance and appends one entry; any failure changes nothing; only that account may change |
| BankLedger.Withdraw | OnlineBankSystem.java:159-186 | not found iff absent; wrong password iff present with another password; success iff the password matches and the balance is at least the amount; success subtracts the amount and appends one entry; any failure changes nothing; only that account may change |
| BankLedger.Credit | OnlineBankSystem.java:188-202 | success iff the account exists, without any password; success adds the amount and appends one entry; a missing account changes nothing; only that account may change |
| BankLedger.Load | OnlineBankSystem.java:21-43 | the accounts loaded from stored records are well-formed |
| BankLedger.Restore | OnlineBankSystem.java:27-34 | a stored record becomes an account with the stored number and balance and an empty history, which is consistent |
| BankLedger.LoadKeys | OnlineBankSystem.java:26-36 | the loaded numbers are exactly the stored ones |
| BankLedger.LoadLastWins | OnlineBankSystem.java:35 | a stored account that no later record repeats is loaded as stored, with an empty history |
| BankLedger.CreditThenWithdraw | OnlineBankSystem.java:159-202 | for an existing account whose balance is not negative, crediting then withdrawing the same amount with the right password succeeds twice, restores the balance and records both entries |
| BankLedger.ViewTwice | OnlineBankSystem.java:111-122 | viewing twice shows the same account, the second time with an empty history, and the second view changes nothing |
| BankLedger.SavingsScenario | OnlineBankSystem.java:63-186 | a first "Savings" account gets number 1001 and 500; withdrawing 200 leaves 300; withdrawing 1000 is refused and leaves 300 |
| BankLedger.CreateOverwritesLoaded | OnlineBankSystem.java:14-82 | an account loaded under 1001 is replaced by the first account created after loading, since loading does not move the counter |
| OnlineBank.User.constructor | OnlineBankSystem.java:212-219 | a new user holds the given values and an empty history |
| OnlineBank.User.AddTransaction | OnlineBankSystem.java:241-244 | the balance grows by the amount and one entry with the amount and the new balance is appended |
| OnlineBank.User.Authenticate | OnlineBankSystem.java:246-248 | true iff the attempt is exactly the stored password |
| OnlineBank.User.ClearTransactionHistory | OnlineBankSystem.java:254-256 | only the history changes, back to empty |
| OnlineBank.Bank.constructor | OnlineBankSystem.java:14-43 | the counter is 1000, the accounts are the stored ones loaded in order, and every user object is new |
| OnlineBank.Bank.CreateAccount | OnlineBankSystem.java:63-82 | the number returned is the new counter, and the number and the accounts afterwards are those of `BankLedger.CreateAccount`; the user under it is a new object and every other key keeps its old user object |
| OnlineBank.Bank.Login | OnlineBankSystem.java:84-109 | the outcome is that of `BankLedger.Login` |
| OnlineBank.Bank.ViewAccountInfo | OnlineBankSystem.java:111-128 | what is shown and the accounts afterwards are those of `BankLedger.ViewAccountInfo`; the map and the counter are unchanged |
| OnlineBank.Bank.ApplyForLoan | OnlineBankSystem.java:130-157 | the outcome and the accounts afterwards are those of `BankLedger.ApplyForLoan`; the map and the counter are unchanged |
| OnlineBank.Bank.Withdraw | OnlineBankSystem.java:159-186 | the outcome and the accounts afterwards are those of `BankLedger.Withdraw`; the map and the counter are unchanged |
| OnlineBank.Bank.Credit | OnlineBankSystem.java:188-202 | the outcome and the accounts afterwards are those of `BankLedger.Credit`; the map and the counter are unchanged |
| OnlineBank.SavingsSession | OnlineBankSystem.java:261-310 | on a bank started without stored accounts, creating a "Savings" account gives 1001; withdrawing 200 from it succeeds and withdrawing 1000 next is refused, leaving 300: the objects the constructor and `createAccount` make are new, so later calls may change them |
| OnlineBank.CreditAfterLoad | OnlineBankSystem.java:261-317 | crediting right after start-up succeeds iff some stored record carries the number, and otherwise reports the account as not found |

## Left out

- Menus, `Scanner` prompts and all `System.out` text: inputs are parameters and messages are outcome codes.
- File I/O of both programs: reading and writing files, `Files.exists` and the exception handlers around them. Only the per-line format and parse of books and patrons are modelled.
- LibraryManagement.Library.constructor: starts empty, as when neither data file exists; loading the files line by line is not modelled beyond `ParseBookLine` and `ParsePatronLine`.
- LibraryCatalog.ParseBookLine: a line with fewer than four fields gives `None`. In Java, indexing the first missing field throws `ArrayIndexOutOfBoundsException`: at LibraryManagementSystem.java:355, 356 or 357 for a line of one, two or three fields, which the `catch (IOException e)` around the load (LibraryManagementSystem.java:360) does not catch. It escapes the `Library` constructor, called outside any `try` in `main` (LibraryManagementSystem.java:8), and ends the program.
- LibraryCatalog.ParsePatronLine: a line with fewer than two fields gives `None`; in Java the same uncaught exception (LibraryManagementSystem.java:384, 387) ends the program.
- OnlineBank.Bank.constructor: takes the stored records already split and converted; `Integer.parseInt`, `Double.parseDouble` and the error handling of the bank file are not modelled, and `saveUserData` is not modelled.
- LibraryManagement.Library.AddBook: requires that the same book object is not already in the list. Every caller passes a freshly made `Book`, and a book object listed twice would break the one-object-per-position reasoning about the flag.
- LibraryManagement.Library.CalculateFine: does not compute the fine amount `daysOverdue * 1.0`, which is floating point and printed only.
- BankLedger.ApplyForLoan: the 6.5 % interest and the total owed are printed only and are not modelled.
- Balances are exact reals: IEEE double rounding is not modelled, and neither are NaN and the infinities, which `Scanner.nextDouble` accepts. A NaN amount, for one, makes `balance >= amount` false, so Java refuses the withdrawal, while a NaN credit would make the balance NaN.
- The transaction history is a sequence of (amount, new balance) entries, not the `StringBuilder` text with its header and its "+" prefix printed even for withdrawals.
- JavaStrings.EqualsIgnoreCase: folds case for ASCII letters only; Java also folds other Unicode letters.
- JavaStrings.Lower: maps only the ASCII capitals to lower case; Java's `toLowerCase` also lowers other Unicode letters and follows the default locale.
- JavaStrings.ContainsIgnoreCase: inherits the ASCII-only `Lower`, so the four searches match case-insensitively for ASCII letters only.
- JavaStrings.Split: models `split(",")` for the literal comma only, not general regular expressions.
- OnlineBank.Bank.Valid: states only that each user is stored under its own number. That each history accounts for its balance is stated on the values, by `WellFormed` in the `BankLedger` contracts.
- `displayBooks`, `displaySearchResults`, `generateReports` and its unimplemented reports, the `toString` methods and the getters: output only.
