/**
 * What a librarian does at the desk: every operation is the matching `Library` operation, called
 * on the library passed in, with the librarian's own id where the library asks for one.
 */
module LibrarianDesk {
  import opened Common
  import opened Books
  import opened Members
  import opened Transactions
  import opened Librarians
  import opened LibraryState
  import opened Libraries

  /** What `generate_report` returns: one listing, or (for any other report type) all three. */
  datatype Report =
    | BookReport(books: seq<Book>)
    | MemberReport(members: seq<Member>)
    | TransactionReport(transactions: seq<BorrowTransaction>)
    | FullReport(allBooks: seq<Book>, allMembers: seq<Member>, allTransactions: seq<BorrowTransaction>)

  /** `Librarian.add_book`: exactly `Library.add_book`. */
  method AddBook(clerk: Librarian, library: Library, book: Book) returns (ok: bool)
    requires library.Valid()
    modifies library
    ensures library.Valid()
    ensures Change(library.State(), ok) == LibraryState.AddBook(old(library.State()), book.ToDict())
    ensures ok ==> library.books == old(library.books)[book.bookId := book]
    ensures !ok ==> unchanged(library)
  {
    ok := library.AddBook(book);
  }

  /** `Librarian.remove_book`: exactly `Library.remove_book`. */
  method RemoveBook(clerk: Librarian, library: Library, bookId: int) returns (ok: bool)
    requires library.Valid()
    modifies library
    ensures library.Valid()
    ensures Change(library.State(), ok) == LibraryState.RemoveBook(old(library.State()), bookId)
    ensures library.books == old(library.books) - {bookId}
  {
    ok := library.RemoveBook(bookId);
  }

  /** `Librarian.register_member`: exactly `Library.add_member`. */
  method RegisterMember(clerk: Librarian, library: Library, member: Member) returns (ok: bool)
    requires library.Valid()
    modifies library
    ensures library.Valid()
    ensures Change(library.State(), ok) == LibraryState.AddMember(old(library.State()), member.ToDict())
    ensures ok ==> library.members == old(library.members)[member.memberId := member]
    ensures !ok ==> unchanged(library)
  {
    ok := library.AddMember(member);
  }

  /**
   * `Librarian.process_borrow`: `Library.borrow_book` with this librarian as the one who lends,
   * so a librarian the library does not know is refused with "Librarian not found".
   */
  method ProcessBorrow(clerk: Librarian, library: Library, memberId: int, bookId: int, now: int)
    returns (success: bool, message: string)
    requires library.Valid()
    modifies library, library.books.Values, library.members.Values
    ensures library.Valid()
    ensures Step(library.State(), success, message) == Borrow(old(library.State()), memberId, bookId, clerk.librarianId, now)
    ensures library.books == old(library.books) && library.members == old(library.members)
  {
    success, message := library.BorrowBook(memberId, bookId, clerk.librarianId, now);
  }

  /** `Librarian.process_return`: exactly `Library.return_book`. */
  method ProcessReturn(clerk: Librarian, library: Library, memberId: int, bookId: int, now: int)
    returns (success: bool, message: string)
    requires library.Valid()
    modifies library.books.Values, library.members.Values, library.transactions.Values
    ensures library.Valid()
    ensures Step(library.State(), success, message) == Return(old(library.State()), memberId, bookId, now)
  {
    success, message := library.ReturnBook(memberId, bookId, now);
  }

  /**
   * `Librarian.generate_report`: "books", "members" and "transactions" give that one listing;
   * every other report type, "all" included, gives all three.
   */
  function GenerateReport(clerk: Librarian, library: Library, reportType: string := "all"): (r: Report)
    requires library.Valid()
    reads library, library.books.Values, library.members.Values, library.transactions.Values
    ensures r.BookReport? <==> reportType == "books"
    ensures r.MemberReport? <==> reportType == "members"
    ensures r.TransactionReport? <==> reportType == "transactions"
    ensures r.BookReport? ==> r.books == library.GetAllBooks()
    ensures r.MemberReport? ==> r.members == library.GetAllMembers()
    ensures r.TransactionReport? ==> r.transactions == library.GetAllTransactions()
    ensures r.FullReport? ==> r.allBooks == library.GetAllBooks() && r.allMembers == library.GetAllMembers()
                                && r.allTransactions == library.GetAllTransactions()
  {
    if reportType == "books" then BookReport(library.GetAllBooks())
    else if reportType == "members" then MemberReport(library.GetAllMembers())
    else if reportType == "transactions" then TransactionReport(library.GetAllTransactions())
    else FullReport(library.GetAllBooks(), library.GetAllMembers(), library.GetAllTransactions())
  }

  /** The full report lists every registered book, member and loan, once each. */
  lemma FullReportCovers(clerk: Librarian, library: Library)
    requires library.Valid()
    ensures var r := GenerateReport(clerk, library);
      && r.FullReport?
      && (forall k :: k in library.books ==> library.books[k] in r.allBooks)
      && (forall k :: k in library.members ==> library.members[k] in r.allMembers)
      && (forall k :: k in library.transactions ==> library.transactions[k] in r.allTransactions)
      && |r.allBooks| == |library.books.Keys| && |r.allTransactions| == |library.transactions.Keys|
  {
  }
}
