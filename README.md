# Library management: a verified model

This project models the core of a small lending library, written in Python. The model covers:

- the `Library` aggregate, with its four registries (books, members, librarians, transactions), its four id counters, and the borrow/return protocol;
- the entity classes `Book`, `Member`, `BorrowTransaction` and `Librarian`;
- the delegating operations a `Librarian` performs;
- saving and loading the library at the level of the dictionaries that go into and come out of the JSON file.

The model is layered like this:

- **Entities**:
  - `book.dfy`, `member.dfy` and `borrow_transaction.dfy` are classes. Their only mutable fields are the ones the Python methods reassign: `available`, `borrowed_books`, `return_date` and `is_returned`.
  - A librarian never changes, so `librarian.dfy` models it as a datatype.
  - Each `to_dict` record is a datatype (`BookData`, `MemberData`, `TransactionData`, `LibrarianData`).
- **`LibraryState`** (`library_state.dfy`) is the library as a value, a `Snapshot`. It holds the records of each registry, each registry's insertion order (Python dicts iterate in insertion order), and the counters. Every library operation is a function of a snapshot. `LibraryProperties` (`library_properties.dfy`) proves what these functions guarantee for all states.
- **`Libraries.Library`** (`library.dfy`) is the imperative class.
  - It holds `map<int, Book>`-style registries of objects and updates them in place.
  - Every method is proved to move `State()` (the snapshot its objects describe) exactly as the matching `LibraryState` function does.
  - The scans of `return_book`, `get_member_borrowed_books` and `search_books`, and the loops of `load_from_file`, are `while` loops with invariants.
- **`Persistence`** (`persistence.dfy`) holds the saved document (`LibraryData`) and the functions `Save` and `Load`. It proves the round trip `Load(Save(s)) == s`.
- **`LibrarianDesk`** (`librarian_desk.dfy`) holds the librarian's operations. Each one calls the library operation it forwards to.
- **`Text`** provides the string operations the library relies on:
  - ASCII `lower()`;
  - substring search;
  - formatting integers into messages, which is proved invertible.

The invariant `Consistent` (in `LibraryState`) ties the registries together:

- a book is available exactly when no open loan of it is recorded;
- a member lists a book exactly when an open loan of that book to that member is recorded;
- member lists have no duplicates;
- a book has at most one open loan;
- every transaction id is below the transaction counter.

Borrowing, returning, adding a librarian and adding a fresh-id book or member under the stated side conditions preserve it. Removing a book also preserves it, because the invariant speaks only of registered books. But `remove_book` has no in-use check: it can leave an open loan whose book is gone, and re-adding an available book under that id then breaks the invariant (`RemoveBookLeavesOrphanLoan`, `RemoveThenReAddBreaksConsistency`).

Time is whole seconds; a day is 86400 and the loan period 14 days. Every `datetime.now()` of the source is an explicit `now` parameter.

Where the written description and the code differ, the model follows the code:

- `search_books` also matches the ISBN, although its docstring speaks only of title and author.

## Model

| member | source | states |
|---|---|---|
| Books.Book.constructor | Library-Management-System/book.py:2-8 | the new book's record has the given fields; `available` defaults to true |
| Books.Book.FromDict | Library-Management-System/book.py:33-42 | the rebuilt book's `to_dict` is exactly the given record (round trip) |
| Books.Book.Borrow | Library-Management-System/book.py:14-18 | returns whether the book was available; if so only `available` becomes false, otherwise nothing changes |
| Books.Book.ReturnBook | Library-Management-System/book.py:20-21 | `available` becomes true whatever it was; no other field changes |
| Books.BorrowThenReturn | Library-Management-System/book.py:14-21 | on an available book, borrow succeeds and borrow-then-return restores the book's record exactly |
| Books.ReturnTwice | Library-Management-System/book.py:20-21 | returning twice leaves the same record as returning once (idempotence) |
| Members.AppendIfAbsent | Library-Management-System/member.py:12-16 | the id is in the result, nothing else is added, and a duplicate-free list stays duplicate-free (prefix and length: `AppendIfAbsentShape`) |
| Members.AppendIfAbsentShape | Library-Management-System/member.py:12-16 | the old list is a prefix of the result, which is at most one entry longer, and as long as the old list exactly when the id was already listed |
| Members.IndexOf | Library-Management-System/member.py:18-22 | the position found holds the id and no earlier position does; `|s|` means absent |
| Members.RemoveFirst | Library-Management-System/member.py:18-22 | an absent id leaves the list as it is; a present one shortens it by exactly one; no id is introduced |
| Members.RemoveFirstShape | Library-Management-System/member.py:18-22 | `remove` of an absent id changes nothing; of a present one it cuts out exactly its first occurrence |
| Members.RemoveFirstNoDuplicates | Library-Management-System/member.py:18-22 | on a duplicate-free list the id is gone afterwards, every other id stays, and the list stays duplicate-free |
| Members.AppendThenRemove | Library-Management-System/member.py:12-22 | borrowing an id the member does not hold and then returning it restores the list exactly |
| Members.Member.constructor | Library-Management-System/member.py:2-7 | a new member holds no books |
| Members.Member.FromDict | Library-Management-System/member.py:36-45 | the rebuilt member's `to_dict` is exactly the given record, list order included |
| Members.Member.BorrowBook | Library-Management-System/member.py:12-16 | true iff the id was absent; the list gains the id at the end only then; no duplicate is ever introduced |
| Members.Member.ReturnBook | Library-Management-System/member.py:18-22 | true iff the id was present; the list loses its first occurrence only; on a duplicate-free list the id is gone |
| Members.Member.BorrowedBooksCount | Library-Management-System/member.py:24-25 | the count equals the length of the member's list |
| Transactions.Reloaded | Library-Management-System/borrow_transaction.py:53-67 | reloading re-derives `is_returned` from `return_date`, keeps every other field (the due date is not recomputed), and is the identity on coherent records |
| Transactions.BorrowTransaction.constructor | Library-Management-System/borrow_transaction.py:4-12 | the due date is the given one or borrow date plus 14 days; the transaction is returned iff a return date is given |
| Transactions.BorrowTransaction.FromDict | Library-Management-System/borrow_transaction.py:53-67 | the rebuilt transaction's record is `Reloaded` of the stored one and is coherent |
| Transactions.BorrowTransaction.ReturnBook | Library-Management-System/borrow_transaction.py:19-22 | the return date becomes the given date or else `now`; `is_returned` becomes true; nothing else changes |
| Transactions.BorrowTransaction.IsOverdue | Library-Management-System/borrow_transaction.py:24-28 | overdue iff the as-of instant (return date if returned, else now) is past the due date, in both branches |
| Transactions.BorrowTransaction.DaysOverdue | Library-Management-System/borrow_transaction.py:30-39 | never negative; 0 unless past due; otherwise the floor of the overdue time in days; positive implies `IsOverdue` |
| Transactions.NotOverdueWhenOpened | Library-Management-System/borrow_transaction.py:4-12 | with the default due date, an open loan is not overdue (and 0 days overdue) at its borrow instant |
| Librarians.FromDict | Library-Management-System/librarian.py:54-60 | the rebuilt librarian's `to_dict` is exactly the given record |
| Librarians.RoundTrip | Library-Management-System/librarian.py:47-60 | `from_dict(to_dict(l))` equals `l` field by field |
| Text.Lower | Library-Management-System/library.py:150 | lower-casing keeps the length and maps each character on its own |
| Text.Contains | Library-Management-System/library.py:153-155 | `q in s` holds iff `q` occurs in `s` at some offset |
| Text.ParseIntToString | Library-Management-System/library.py:80 | the integer printed in a message can be read back exactly |
| Text.IntToStringInjective | Library-Management-System/library.py:109 | different transaction ids give different printed ids |
| LibraryState.FirstOpen | Library-Management-System/library.py:93-99 | the transaction found is registered, open for the pair and listed; none is found iff no listed transaction is open for the pair |
| LibraryState.AddBook | Library-Management-System/library.py:20-25 | success iff the id is new; on failure the library is unchanged; afterwards the id is registered (exact new state: `AddBookOutcome`) |
| LibraryState.RemoveBook | Library-Management-System/library.py:27-32 | success iff the id was registered; on failure the library is unchanged; afterwards the id is not registered, and on success it has left the order (rest: `RemoveBookOutcome`) |
| LibraryState.AddMember | Library-Management-System/library.py:34-39 | success iff the id is new; on failure the library is unchanged; afterwards the id is registered (rest: `AddMemberOutcome`) |
| LibraryState.AddLibrarian | Library-Management-System/library.py:41-46 | success iff the id is new; on failure the library is unchanged; afterwards the id is registered (rest: `AddLibrarianOutcome`) |
| LibraryState.Borrow | Library-Management-System/library.py:48-80 | success iff member, book and librarian are registered and the book is available; on failure the library is unchanged; on success the transaction counter advances by one (rest: `BorrowFailure`, `BorrowSuccess`) |
| LibraryState.Return | Library-Management-System/library.py:82-109 | success iff member and book are registered and the scan finds an open loan of the pair; on failure the library is unchanged; the transaction counter never moves (rest: `ReturnFailure`, `ReturnSuccess`) |
| LibraryState.AvailableBookIds | Library-Management-System/library.py:115-117 | an id is listed iff it is in the order and names a registered available book (order: `AvailableBorrowedPartition`) |
| LibraryState.BorrowedBookIds | Library-Management-System/library.py:119-121 | an id is listed iff it is in the order and does not name a registered available book (order: `AvailableBorrowedPartition`) |
| LibraryState.MemberBorrowedIds | Library-Management-System/library.py:135-146 | an id is listed iff the member is registered, lists it, and it names a registered book (order: `MemberBorrowedBooks`) |
| LibraryState.SearchIds | Library-Management-System/library.py:148-157 | an id is listed iff it is in the order and its book matches the lower-cased query (order: `SearchResults`) |
| LibraryState.Select | Library-Management-System/library.py:115-121 | an id is selected iff it is listed and passes the filter; the selection is no longer than the list and keeps distinctness (its order: `SelectOrder`, `SelectAppend`) |
| LibraryState.Without | Library-Management-System/library.py:30 | removing an id from the insertion order drops exactly that id and keeps distinctness (its order: `WithoutOrder`) |
| LibraryProperties.SelectAppend | Library-Management-System/library.py:115-121 | filtering `a + b` gives the filtered `a` followed by the filtered `b` |
| LibraryProperties.SelectOrder | Library-Management-System/library.py:115-121 | the filtered list is a subsequence of the list (order kept) holding every occurrence of each kept id and none of the others |
| LibraryProperties.WithoutIsSelect | Library-Management-System/library.py:30 | deleting a key from the insertion order is filtering out that key |
| LibraryProperties.WithoutOrder | Library-Management-System/library.py:30 | `del` keeps every other key in place: it distributes over concatenation, and the result is a subsequence of the old order holding every other key as often as before |
| LibraryProperties.EmptyConsistent | Library-Management-System/library.py:9-18 | a new library satisfies the invariant |
| LibraryProperties.AddBookOutcome | Library-Management-System/library.py:20-25 | success iff the id is new; on failure nothing changes; on success only the book registry gains the record at the end of the order |
| LibraryProperties.AddBookConsistency | Library-Management-System/library.py:20-25 | adding a fresh-id book keeps the invariant iff its availability matches whether a loan of its id is open |
| LibraryProperties.AddThenRemove | Library-Management-System/library.py:20-32 | removing a book just added under a fresh id restores the library exactly |
| LibraryProperties.RemoveBookOutcome | Library-Management-System/library.py:27-32 | true iff the id was present; afterwards it is absent; on success the registry is the old one minus that id and the order is `Without` of the old order (each other id keeps its place: `WithoutOrder`); the other registries and the counters are unchanged |
| LibraryProperties.RemoveBookLeavesOrphanLoan | Library-Management-System/library.py:27-32 | removing a book on loan succeeds and leaves its open transaction in place (no in-use check) |
| LibraryProperties.RemoveBookConsistency | Library-Management-System/library.py:27-32 | removal preserves the invariant |
| LibraryProperties.RemoveThenReAddBreaksConsistency | Library-Management-System/library.py:20-32 | re-adding an available book under the id of a removed book still on loan succeeds and breaks the invariant |
| LibraryProperties.AddMemberOutcome | Library-Management-System/library.py:34-39 | success iff the id is new; on failure nothing changes; on success only the member registry gains the record |
| LibraryProperties.AddMemberConsistency | Library-Management-System/library.py:34-39 | adding a fresh-id member keeps the invariant iff its list is duplicate-free and lists exactly its open loans |
| LibraryProperties.AddNewMemberConsistent | Library-Management-System/library.py:34-39 | a member holding nothing, with no open loan under its id, may join without breaking the invariant |
| LibraryProperties.AddLibrarianOutcome | Library-Management-System/library.py:41-46 | success iff the id is new; on success the librarian is filed and its id is appended to the order; only the librarian registry changes; the invariant is kept |
| LibraryProperties.BorrowFailure | Library-Management-System/library.py:48-61 | success iff member, book and librarian exist and the book is available; otherwise the first failing check's message is returned, in the order member, book, librarian, availability, and nothing changes |
| LibraryProperties.BorrowSuccess | Library-Management-System/library.py:63-80 | one open transaction (book, member, librarian, due now + 14 days) filed under the old counter, appended to the transaction order when that id is new; the counter advances by 1; the book becomes unavailable; the member's list is the old list, plus the book at the end when it was not listed; the message carries the id, readable back; the name, the librarians, every order but the transactions' and the other counters are unchanged |
| LibraryProperties.BorrowLoans | Library-Management-System/library.py:63-80 | the open loans afterwards are those before plus the new (book, member) loan |
| LibraryProperties.BorrowPreservesConsistency | Library-Management-System/library.py:48-80 | borrowing preserves the invariant |
| LibraryProperties.BorrowWellFormed | Library-Management-System/library.py:48-80 | borrowing keeps every registry filed under its own ids with its order |
| LibraryProperties.BorrowOpensTheOnlyLoan | Library-Management-System/library.py:63-80 | after a successful borrow the new transaction is the only open loan of the book |
| LibraryProperties.ReturnFailure | Library-Management-System/library.py:82-102 | success iff member and book exist and a loan of the pair is open; otherwise the first failing check's message is returned and nothing changes |
| LibraryProperties.ReturnWellFormed | Library-Management-System/library.py:82-109 | returning keeps every registry filed under its own ids with its order |
| LibraryProperties.ReturnSuccess | Library-Management-System/library.py:93-109 | the first open transaction of the pair in insertion order is closed, dated now; all other transactions unchanged; the book is available again; the member's list loses the id; the message carries the id |
| LibraryProperties.ReturnLoans | Library-Management-System/library.py:104-109 | the open loans afterwards are all those before except the book's |
| LibraryProperties.ReturnPreservesConsistency | Library-Management-System/library.py:82-109 | returning preserves the invariant |
| LibraryProperties.BorrowThenReturn | Library-Management-System/library.py:48-109 | a borrow followed by the return of that pair closes exactly the new loan, names its id, and restores the book and member records |
| LibraryProperties.BorrowThenScan | Library-Management-System/library.py:48-100 | right after a borrow, the return scan of that pair finds the new loan, and the book had no open loan before |
| LibraryProperties.SelectPartition | Library-Management-System/library.py:115-121 | the ids passing a filter and those failing it together make up the list, as a multiset |
| LibraryProperties.SelectAll | Library-Management-System/library.py:148-157 | a filter every id passes selects the whole list |
| LibraryProperties.AvailableBorrowedPartition | Library-Management-System/library.py:111-121 | available and borrowed books partition all books; each holds exactly the books with that availability, once each, as a subsequence of the registry order |
| LibraryProperties.MemberBorrowedBooks | Library-Management-System/library.py:135-146 | [] for an unknown member; otherwise exactly the listed ids still registered, as a subsequence of the member's list holding each such id as often as the list does, and the whole list when every id is registered |
| LibraryProperties.MemberBorrowedBooksAreLoans | Library-Management-System/library.py:135-146 | in a consistent library a member's borrowed books are exactly those on open loan to them |
| LibraryProperties.SearchResults | Library-Management-System/library.py:148-157 | an id is a result iff its lower-cased title, author or ISBN contains the lower-cased query; the results are distinct and a subsequence of the registry order; the empty query returns every book in order |
| LibraryProperties.SearchIgnoresQueryCase | Library-Management-System/library.py:148-150 | a query and its lower-cased form find the same books |
| LibraryProperties.LowerIdempotent | Library-Management-System/library.py:150 | lower-casing twice is lower-casing once |
| Persistence.Index | Library-Management-System/library.py:187-208 | the rebuilt registry's order lists its keys exactly once; each record is filed under its own id and came from the list (meaning: `IndexMeaning`, `IndexCovers`) |
| Persistence.LastPos | Library-Management-System/library.py:187-208 | the position found carries the id and no later position does; -1 when none does |
| Persistence.FirstPos | Library-Management-System/library.py:187-208 | the position found carries the id and no earlier position does; the list length when none does |
| Persistence.IndexLastWins | Library-Management-System/library.py:187-208 | an id is registered iff some record carries it, and the record kept is the last one carrying it |
| Persistence.IndexFirstExists | Library-Management-System/library.py:187-208 | an id is registered iff its first carrying record exists |
| Persistence.IndexFirstOrder | Library-Management-System/library.py:187-208 | the ids are ordered by the position of their first record: a repeated id keeps its first place |
| Persistence.IndexMeaning | Library-Management-System/library.py:187-208 | the rebuilt registry and its order are as `Indexed` says: last record wins, first position kept, each id once |
| Persistence.IndexCovers | Library-Management-System/library.py:187-208 | no record is lost: every record's id is registered |
| Persistence.Load | Library-Management-System/library.py:178-216 | a loaded library is well formed and has the stored name; each counter is its `next_ids` entry, or 1 when the entry is missing (registries: `LoadRegistries`, `LoadKeepsEveryId`) |
| Persistence.LoadRegistries | Library-Management-System/library.py:186-208 | each of the four registries is rebuilt from its list as `Indexed` says: an id is registered iff a record carries it, the last such record is kept, ids ordered by first record |
| Persistence.LoadKeepsEveryId | Library-Management-System/library.py:186-208 | every record of each saved list has its id registered after loading |
| Persistence.RegistryRoundTrip | Library-Management-System/library.py:159-208 | rebuilding a registry from its listing gives back the same map and order |
| Persistence.Save | Library-Management-System/library.py:159-172 | the saved name is the library's; reading each counter back from `next_ids` with the default of 1 gives the library's counter (registries: `SaveLoadRoundTrip`, `SaveSizes`) |
| Persistence.SaveLoadRoundTrip | Library-Management-System/library.py:159-216 | loading what was saved reproduces the name, all four registries with their orders, and all four counters |
| Persistence.LibrariansRoundTrip | Library-Management-System/librarian.py:47-60 | rebuilding saved librarian records gives back the same librarians, in order |
| Persistence.ReloadCoherent | Library-Management-System/borrow_transaction.py:53-67 | reloading the saved records of coherent transactions changes none of them |
| Persistence.ReloadedCoherent | Library-Management-System/library.py:205-208 | every transaction a load files has its returned flag agreeing with its return date |
| Persistence.SaveSizes | Library-Management-System/library.py:159-172 | each saved list is as long as its registry |
| Libraries.LoadBooks | Library-Management-System/library.py:187-190 | one fresh book object for each record, filed as `Index` of the list prescribes |
| Libraries.FileBook | Library-Management-System/library.py:189-190 | one step of the book loop: a fresh book with the given record, filed under its id; the id is appended to the order only if new; other entries are kept |
| Libraries.LoadMembers | Library-Management-System/library.py:193-196 | one fresh member object for each record, filed as `Index` of the list prescribes |
| Libraries.FileMember | Library-Management-System/library.py:195-196 | one step of the member loop: a fresh member with the given record, filed under its id; a new id is appended; other entries are kept |
| Libraries.LoadLibrarians | Library-Management-System/library.py:199-202 | the librarians rebuilt by `from_dict`, filed as `Index` prescribes |
| Libraries.LoadTransactions | Library-Management-System/library.py:205-208 | one fresh transaction object for each record, with its reloaded record, filed as `Index` prescribes |
| Libraries.FileReloaded | Library-Management-System/library.py:207-208 | one step of the transaction loop: a fresh transaction whose record is the reloaded one, filed under its id; a new id is appended |
| Libraries.ReloadAdvance | Library-Management-System/library.py:205-208 | one more record through the transaction loop extends `Index` of the reloaded prefix by that record under its id |
| Libraries.LoadObjects | Library-Management-System/library.py:186-208 | the three object registries rebuilt from a document, all objects fresh |
| Libraries.Library.constructor | Library-Management-System/library.py:9-18 | the library is empty, named, with every counter at 1 |
| Libraries.Library.AddBook | Library-Management-System/library.py:20-25 | the state moves as `LibraryState.AddBook`; the very object given is filed; on failure nothing changes |
| Libraries.Library.RemoveBook | Library-Management-System/library.py:27-32 | the state moves as `LibraryState.RemoveBook`; the id is removed from the registry |
| Libraries.Library.AddMember | Library-Management-System/library.py:34-39 | the state moves as `LibraryState.AddMember`; the very object given is filed |
| Libraries.Library.AddLibrarian | Library-Management-System/library.py:41-46 | the state moves as `LibraryState.AddLibrarian` |
| Libraries.Library.LendBook | Library-Management-System/library.py:73 | only that book's availability changes, to false |
| Libraries.Library.RecordBorrowing | Library-Management-System/library.py:74 | only that member's list changes, by `AppendIfAbsent` |
| Libraries.Library.FileTransaction | Library-Management-System/library.py:77-78 | the transaction is filed under the id and the counter advances; books and members untouched |
| Libraries.Library.OpenLoan | Library-Management-System/library.py:63-80 | with every check passed, the state becomes `Borrow`'s new state and the new transaction object is fresh, filed under the old counter |
| Libraries.Library.FileLoan | Library-Management-System/library.py:76-78 | filing the new loan object after the entity updates yields `Borrow`'s new state, keeps `Valid`, and touches only the transaction registry and counter |
| Libraries.Library.StartLoan | Library-Management-System/library.py:63-74 | the new transaction object is fresh and holds a two-week open loan; the book is marked out and the member lists the book; nothing else changes |
| Libraries.BorrowSplits | Library-Management-System/library.py:63-78 | a successful borrow is exactly the two entity updates, then filing the loan under the counter and advancing it, and the result is well formed |
| Libraries.Library.BorrowBook | Library-Management-System/library.py:48-80 | state, success flag and message are exactly `Borrow`'s; the registries keep their objects; only a successful borrow adds a (fresh) transaction |
| Libraries.Library.FindActiveTransaction | Library-Management-System/library.py:92-99 | the object found is the one `FirstOpen` names: the first open transaction of the pair in insertion order, or none |
| Libraries.Library.CloseTransaction | Library-Management-System/library.py:105 | only that transaction's record changes: closed, dated now |
| Libraries.Library.ShelveBook | Library-Management-System/library.py:106 | only that book's availability changes, to true |
| Libraries.Library.RecordReturn | Library-Management-System/library.py:107 | only that member's list changes, by `RemoveFirst` |
| Libraries.Library.ReturnBook | Library-Management-System/library.py:82-109 | state, success flag and message are exactly `Return`'s |
| Libraries.Library.CloseLoan | Library-Management-System/library.py:104-107 | the found loan is closed at `now`, the book is back on the shelf, the member loses the first copy of the book id; nothing else changes |
| Libraries.ReturnSplits | Library-Management-System/library.py:92-109 | on the loan the scan finds, a successful return is exactly the three entity updates, and the result is well formed |
| Libraries.Library.GetAllBooks | Library-Management-System/library.py:111-113 | every registered book once, nothing else; the i-th entry is the book filed under the i-th id of the registry order |
| Libraries.Library.GetAvailableBooks | Library-Management-System/library.py:115-117 | exactly the registered books that are available, once each, as a subsequence of `GetAllBooks`; the listing of `AvailableBookIds` |
| Libraries.Library.GetBorrowedBooks | Library-Management-System/library.py:119-121 | exactly the registered books that are not available, once each, as a subsequence of `GetAllBooks`; the listing of `BorrowedBookIds` |
| Libraries.Library.Shelf | Library-Management-System/library.py:115-121 | the books filtered by availability are distinct, exactly those with the given flag, and a subsequence of `GetAllBooks` |
| Libraries.Shelved | Library-Management-System/library.py:115-121 | over any registry whose books carry their ids, the availability filter lists each kept book once, exactly those with the flag, in registry order |
| Libraries.ProjectSubsequence | Library-Management-System/library.py:111-121 | listing the objects of a subsequence of ids gives a subsequence of the full listing |
| Libraries.Library.GetAllMembers | Library-Management-System/library.py:123-125 | every member once, nothing else; the i-th entry is the member filed under the i-th id of the order |
| Libraries.Library.GetAllLibrarians | Library-Management-System/library.py:127-129 | every librarian once, nothing else; the i-th entry is the librarian filed under the i-th id of the order |
| Libraries.Library.GetAllTransactions | Library-Management-System/library.py:131-133 | every transaction once, nothing else; the i-th entry is the transaction filed under the i-th id of the order |
| Libraries.Library.GetMemberBorrowedBooks | Library-Management-System/library.py:135-146 | [] for an unknown member; otherwise a book is listed iff the member lists its id; in a consistent library iff it is on loan to them |
| Libraries.Library.CollectMatches | Library-Management-System/library.py:151-157 | the books, in registry order, whose record matches the lower-cased query |
| Libraries.Library.SearchBooks | Library-Management-System/library.py:148-157 | a registered book is a result iff it matches the lower-cased query; results are registered and distinct; the empty query returns `GetAllBooks` |
| Libraries.Library.SearchListing | Library-Management-System/library.py:148-157 | listing the search ids gives distinct registered books, exactly the matching ones |
| Libraries.Library.SaveToFile | Library-Management-System/library.py:159-172 | loading the saved document gives back exactly this library; each list is as long as its registry; `next_ids` holds the four counters |
| Libraries.Library.Install | Library-Management-System/library.py:186-208 | the three object registries and their orders are replaced; every other field is unchanged |
| Libraries.Library.LoadFromFile | Library-Management-System/library.py:178-219 | a missing or unparsable file returns false and changes nothing; otherwise the library is exactly `Load` of the document, well formed, with all entity objects fresh |
| LibrarianDesk.AddBook | Library-Management-System/librarian.py:12-14 | exactly the effect and answer of `Library.add_book` |
| LibrarianDesk.RemoveBook | Library-Management-System/librarian.py:16-18 | exactly the effect and answer of `Library.remove_book` |
| LibrarianDesk.RegisterMember | Library-Management-System/librarian.py:20-22 | exactly the effect and answer of `Library.add_member` |
| LibrarianDesk.ProcessBorrow | Library-Management-System/librarian.py:24-26 | exactly `Borrow` with the librarian's own id as the lender |
| LibrarianDesk.ProcessReturn | Library-Management-System/librarian.py:28-30 | exactly the effect and answer of `Library.return_book` |
| LibrarianDesk.GenerateReport | Library-Management-System/librarian.py:32-45 | "books", "members" and "transactions" each give that one listing; any other type gives all three |
| LibrarianDesk.FullReportCovers | Library-Management-System/librarian.py:40-45 | the default report lists every book, member and transaction |

## Left out

- File and JSON I/O:
  - `open`, `json.dump` and `json.load` are not modelled; `save_to_file` produces the document value and `load_from_file` receives the parsed document.
  - The parsed document is `None` when the file is missing or is not valid JSON.
- `isoformat`/`fromisoformat`: timestamps stay integers in the records, so their encoding is taken to be a bijection.
- `load_from_file` with a document lacking a key: the uncaught `KeyError`, which leaves part of the state assigned, is not modelled.
  - Every `LibraryData` has all its fields, and a missing `next_ids` object is modelled as an empty map.
  - For the same reason, the model assigns the fields in a different order than the source: name, librarians, counters, then the objects.
- A null `return_date` is modelled as `None`. The source tests a stored `return_date` for truthiness, so an empty string would also mean "not returned"; that case is not modelled.
- `datetime.now()` is an explicit `now` parameter. `get_days_overdue` reads the clock twice; the model uses one instant for both.
- Times are whole seconds; sub-second differences are not modelled.
- `Text.Lower` covers only ASCII case mapping. Python's Unicode-aware `str.lower()` is not modelled.
- `__str__` of every class is not modelled (display strings only).
- `Member.from_dict` makes the member share the stored list object. The model copies it, so aliasing between a member and its loaded dictionary is not modelled.
- Python lets callers reassign any attribute. The model makes fixed the fields no core code reassigns, such as ids, titles and due dates.
- `main.py` (interactive menu), `test_system.py` (test script) and `__init__.py` (package exports) are not part of this model.
- `Books.Book.ToDict`, `Members.Member.ToDict` and `Transactions.BorrowTransaction.ToDict` have no contract of their own. They are the records the rest of the model is stated in, and their round trips are stated on the `FromDict` constructors.
