/**
 * The library's state as a value: its four registries (records keyed by id, with their
 * insertion order) and its four id counters, and every library operation as a function of it.
 * The `Library` class is proved to follow these functions; the lemmas here say what they mean.
 */
module LibraryState {
  import opened Common
  import opened Text
  import opened Books
  import opened Members
  import opened Transactions
  import opened Librarians

  datatype Snapshot = Snapshot(
    name: string,
    books: map<int, BookData>,
    bookOrder: seq<int>,
    members: map<int, MemberData>,
    memberOrder: seq<int>,
    librarians: map<int, Librarian>,
    librarianOrder: seq<int>,
    transactions: map<int, TransactionData>,
    transactionOrder: seq<int>,
    nextBookId: int,
    nextMemberId: int,
    nextLibrarianId: int,
    nextTransactionId: int)

  /** The outcome of an add or remove: the new state and the boolean the operation returns. */
  datatype Change = Change(state: Snapshot, ok: bool)

  /** The outcome of a borrow or return: the new state and the (success, message) pair returned. */
  datatype Step = Step(state: Snapshot, success: bool, message: string)

  const MemberNotFound: string := "Member not found"
  const BookNotFound: string := "Book not found"
  const LibrarianNotFound: string := "Librarian not found"
  const BookNotAvailable: string := "Book is not available"
  const NoActiveTransaction: string := "No active borrowing transaction found"
  const BorrowedPrefix: string := "Book borrowed successfully. Transaction ID: "
  const ReturnedPrefix: string := "Book returned successfully. Transaction ID: "

  /** A freshly constructed library: empty registries, every counter at 1. */
  function Empty(name: string): Snapshot
  {
    Snapshot(name, map[], [], map[], [], map[], [], map[], [], 1, 1, 1, 1)
  }

  /** Each order lists its registry's keys once, and every entity is filed under its own id. */
  ghost predicate WellFormed(s: Snapshot)
  {
    && Enumerates(s.bookOrder, s.books.Keys)
    && (forall k :: k in s.books ==> s.books[k].bookId == k)
    && Enumerates(s.memberOrder, s.members.Keys)
    && (forall k :: k in s.members ==> s.members[k].memberId == k)
    && Enumerates(s.librarianOrder, s.librarians.Keys)
    && (forall k :: k in s.librarians ==> s.librarians[k].librarianId == k)
    && Enumerates(s.transactionOrder, s.transactions.Keys)
    && (forall k :: k in s.transactions ==> s.transactions[k].transactionId == k && s.transactions[k].Coherent())
  }

  // ---------------------------------------------------------------------------------------
  // Registries

  /** `Library.add_book`: rejects an id already present, otherwise files the book under its id. */
  function AddBook(s: Snapshot, b: BookData): (r: Change)
    ensures r.ok <==> b.bookId !in s.books
    ensures !r.ok ==> r.state == s
    ensures b.bookId in r.state.books
  {
    if b.bookId in s.books then Change(s, false)
    else Change(s.(books := s.books[b.bookId := b], bookOrder := s.bookOrder + [b.bookId]), true)
  }

  /** `Library.remove_book`: deletes the id if present; loans naming it are left alone. */
  function RemoveBook(s: Snapshot, id: int): (r: Change)
    ensures r.ok <==> id in s.books
    ensures !r.ok ==> r.state == s
    ensures id !in r.state.books
    ensures r.ok ==> id !in r.state.bookOrder
  {
    if id in s.books then Change(s.(books := s.books - {id}, bookOrder := Without(s.bookOrder, id)), true)
    else Change(s, false)
  }

  /** The order after `del`: the deleted key drops out, the others keep their places. */
  function Without(order: seq<int>, id: int): (r: seq<int>)
    ensures forall k :: k in r <==> k in order && k != id
    ensures NoDuplicates(order) ==> NoDuplicates(r)
  {
    if order == [] then []
    else if order[0] == id then Without(order[1..], id)
    else
      var rest := Without(order[1..], id);
      assert NoDuplicates(order) ==> order[0] !in order[1..] && NoDuplicates(order[1..]) by {
        if NoDuplicates(order) {
          forall j | 0 <= j < |order| - 1 ensures order[1..][j] != order[0] {
            assert order[1..][j] == order[j + 1];
          }
        }
      }
      [order[0]] + rest
  }

  /** `Library.add_member`: the same duplicate rejection as `AddBook`. */
  function AddMember(s: Snapshot, m: MemberData): (r: Change)
    ensures r.ok <==> m.memberId !in s.members
    ensures !r.ok ==> r.state == s
    ensures m.memberId in r.state.members
  {
    if m.memberId in s.members then Change(s, false)
    else Change(s.(members := s.members[m.memberId := m], memberOrder := s.memberOrder + [m.memberId]), true)
  }

  /** `Library.add_librarian`: the same duplicate rejection as `AddBook`. */
  function AddLibrarian(s: Snapshot, l: Librarian): (r: Change)
    ensures r.ok <==> l.librarianId !in s.librarians
    ensures !r.ok ==> r.state == s
    ensures l.librarianId in r.state.librarians
  {
    if l.librarianId in s.librarians then Change(s, false)
    else Change(s.(librarians := s.librarians[l.librarianId := l],
                   librarianOrder := s.librarianOrder + [l.librarianId]), true)
  }

  // ---------------------------------------------------------------------------------------
  // Borrow and return

  function BorrowedMessage(tid: int): string { BorrowedPrefix + IntToString(tid) }
  function ReturnedMessage(tid: int): string { ReturnedPrefix + IntToString(tid) }

  /** Files `t` under key `k`; a key already present keeps its place in the order, as in a Python dict. */
  function PutTransaction(s: Snapshot, k: int, t: TransactionData): Snapshot
  {
    s.(transactions := s.transactions[k := t],
       transactionOrder := if k in s.transactions then s.transactionOrder else s.transactionOrder + [k])
  }

  /**
   * `Library.borrow_book` at time `now`: member, book, librarian and availability are checked in
   * that order; on success a two-week loan is filed under the transaction counter, which then
   * advances, the book is marked out and the member's list gains the book.
   */
  function Borrow(s: Snapshot, memberId: int, bookId: int, librarianId: int, now: int): (r: Step)
    ensures r.success <==> memberId in s.members && bookId in s.books && librarianId in s.librarians
                           && s.books[bookId].available
    ensures !r.success ==> r.state == s
    ensures r.success ==> r.state.nextTransactionId == s.nextTransactionId + 1
  {
    if memberId !in s.members then Step(s, false, MemberNotFound)
    else if bookId !in s.books then Step(s, false, BookNotFound)
    else if librarianId !in s.librarians then Step(s, false, LibrarianNotFound)
    else if !s.books[bookId].available then Step(s, false, BookNotAvailable)
    else
      var tid := s.nextTransactionId;
      var t := TransactionData(tid, bookId, memberId, librarianId, now, now + LoanPeriod, None, false);
      var m := s.members[memberId];
      var s' := PutTransaction(s, tid, t).(
        books := s.books[bookId := s.books[bookId].(available := false)],
        members := s.members[memberId := m.(borrowedBooks := AppendIfAbsent(m.borrowedBooks, bookId))],
        nextTransactionId := tid + 1);
      Step(s', true, BorrowedMessage(tid))
  }

  /** The transaction is an unreturned loan of `bookId` to `memberId`. */
  predicate OpenFor(t: TransactionData, bookId: int, memberId: int)
  {
    t.bookId == bookId && t.memberId == memberId && !t.isReturned
  }

  /** The scan of `return_book`: the first id in `order` filed in `txs` as an open loan of the pair. */
  function FirstOpen(txs: map<int, TransactionData>, order: seq<int>, bookId: int, memberId: int): (r: Option<int>)
    ensures r.Some? ==> exists i :: 0 <= i < |order| && order[i] == r.value && r.value in txs
                                    && OpenFor(txs[r.value], bookId, memberId)
                                    && forall j :: 0 <= j < i ==> !(order[j] in txs && OpenFor(txs[order[j]], bookId, memberId))
    ensures r.None? <==> forall k :: k in order && k in txs ==> !OpenFor(txs[k], bookId, memberId)
  {
    if order == [] then None
    else if order[0] in txs && OpenFor(txs[order[0]], bookId, memberId) then
      assert order[0] in order;
      Some(order[0])
    else
      var r := FirstOpen(txs, order[1..], bookId, memberId);
      assert forall k :: k in order <==> k == order[0] || k in order[1..];
      assert r.Some? ==> exists i :: 0 <= i < |order| && order[i] == r.value && r.value in txs
                                    && OpenFor(txs[r.value], bookId, memberId)
                                    && forall j :: 0 <= j < i ==> !(order[j] in txs && OpenFor(txs[order[j]], bookId, memberId)) by {
        if r.Some? {
          var i :| 0 <= i < |order| - 1 && order[1..][i] == r.value && r.value in txs
                   && OpenFor(txs[r.value], bookId, memberId)
                   && forall j :: 0 <= j < i ==> !(order[1..][j] in txs && OpenFor(txs[order[1..][j]], bookId, memberId));
          assert forall j :: 1 <= j < i + 1 ==> order[j] == order[1..][j - 1];
        }
      }
      r
  }

  /** One step of the scan: the suffix from `i` either starts with an open loan or defers to the suffix after it. */
  lemma FirstOpenStep(txs: map<int, TransactionData>, order: seq<int>, i: int, bookId: int, memberId: int)
    requires 0 <= i < |order|
    ensures FirstOpen(txs, order[i..], bookId, memberId)
         == if order[i] in txs && OpenFor(txs[order[i]], bookId, memberId) then Some(order[i])
            else FirstOpen(txs, order[i + 1..], bookId, memberId)
  {
    assert order[i..][0] == order[i];
    assert order[i..][1..] == order[i + 1..];
  }

  /**
   * `Library.return_book` at time `now`: member and book must exist, then the first open loan of
   * the pair in insertion order is closed, the book goes back on the shelf and leaves the member's list.
   */
  function Return(s: Snapshot, memberId: int, bookId: int, now: int): (r: Step)
    ensures r.success <==> memberId in s.members && bookId in s.books
                           && FirstOpen(s.transactions, s.transactionOrder, bookId, memberId).Some?
    ensures !r.success ==> r.state == s
    ensures r.state.nextTransactionId == s.nextTransactionId
  {
    if memberId !in s.members then Step(s, false, MemberNotFound)
    else if bookId !in s.books then Step(s, false, BookNotFound)
    else match FirstOpen(s.transactions, s.transactionOrder, bookId, memberId)
      case None => Step(s, false, NoActiveTransaction)
      case Some(tid) =>
        var m := s.members[memberId];
        var s' := s.(
          transactions := s.transactions[tid := s.transactions[tid].(returnDate := Some(now), isReturned := true)],
          books := s.books[bookId := s.books[bookId].(available := true)],
          members := s.members[memberId := m.(borrowedBooks := RemoveFirst(m.borrowedBooks, bookId))]);
        Step(s', true, ReturnedMessage(tid))
  }

  // ---------------------------------------------------------------------------------------
  // Queries

  /** The ids of `ids` that satisfy `keep` (or fail it, when `polarity` is false), in their order. */
  function Select(ids: seq<int>, keep: int -> bool, polarity: bool): (r: seq<int>)
    ensures forall x :: x in r <==> x in ids && keep(x) == polarity
    ensures |r| <= |ids|
    ensures NoDuplicates(ids) ==> NoDuplicates(r)
  {
    if ids == [] then []
    else
      var front := Select(ids[..|ids| - 1], keep, polarity);
      var last := ids[|ids| - 1];
      assert forall x :: x in ids <==> x in ids[..|ids| - 1] || x == last;
      if keep(last) == polarity then
        if NoDuplicates(ids) then NoDuplicatesAppend(front, last); front + [last] else front + [last]
      else front
  }

  function Availability(books: map<int, BookData>): int -> bool
  {
    k => k in books && books[k].available
  }

  function Except(id: int): int -> bool
  {
    k => k != id
  }

  function Registered(books: map<int, BookData>): int -> bool
  {
    k => k in books
  }

  /** The search test of `search_books`: the lower-cased query occurs in the lower-cased title, author or ISBN. */
  predicate Matches(b: BookData, lowerQuery: string)
  {
    Contains(Lower(b.title), lowerQuery) || Contains(Lower(b.author), lowerQuery) || Contains(Lower(b.isbn), lowerQuery)
  }

  function Matching(books: map<int, BookData>, lowerQuery: string): int -> bool
  {
    k => k in books && Matches(books[k], lowerQuery)
  }

  /** `get_available_books`, as ids in registry order. */
  function AvailableBookIds(s: Snapshot): (r: seq<int>)
    ensures forall k :: k in r <==> k in s.bookOrder && k in s.books && s.books[k].available
  {
    Select(s.bookOrder, Availability(s.books), true)
  }

  /** `get_borrowed_books`, as ids in registry order. */
  function BorrowedBookIds(s: Snapshot): (r: seq<int>)
    ensures forall k :: k in r <==> k in s.bookOrder && !(k in s.books && s.books[k].available)
  {
    Select(s.bookOrder, Availability(s.books), false)
  }

  /** `get_member_borrowed_books`, as ids: the member's list without ids no longer registered. */
  function MemberBorrowedIds(s: Snapshot, memberId: int): (r: seq<int>)
    ensures forall k :: k in r <==> memberId in s.members && k in s.members[memberId].borrowedBooks && k in s.books
  {
    if memberId !in s.members then [] else Select(s.members[memberId].borrowedBooks, Registered(s.books), true)
  }

  /** `search_books`, as ids in registry order. */
  function SearchIds(s: Snapshot, query: string): (r: seq<int>)
    ensures forall k :: k in r <==> k in s.bookOrder && k in s.books && Matches(s.books[k], Lower(query))
  {
    Select(s.bookOrder, Matching(s.books, Lower(query)), true)
  }

  // ---------------------------------------------------------------------------------------
  // The consistency invariant

  /** Some transaction on record is an open loan of `bookId`. */
  ghost predicate OnLoan(s: Snapshot, bookId: int)
  {
    exists t :: t in s.transactions && s.transactions[t].bookId == bookId && !s.transactions[t].isReturned
  }

  /** Some transaction on record is an open loan of `bookId` to `memberId`. */
  ghost predicate OnLoanTo(s: Snapshot, bookId: int, memberId: int)
  {
    exists t :: t in s.transactions && OpenFor(s.transactions[t], bookId, memberId)
  }

  /**
   * Books, members and loans agree: a registered book is available exactly when no loan of it is
   * open; a member lists a book exactly when a loan of it to them is open, and lists it once; a
   * book has at most one open loan; and every transaction id is below the transaction counter.
   */
  ghost predicate Consistent(s: Snapshot)
  {
    && WellFormed(s)
    && (forall b :: b in s.books ==> (s.books[b].available <==> !OnLoan(s, b)))
    && (forall m, b :: m in s.members ==> (b in s.members[m].borrowedBooks <==> OnLoanTo(s, b, m)))
    && (forall m :: m in s.members ==> NoDuplicates(s.members[m].borrowedBooks))
    && (forall t1, t2 ::
          (t1 in s.transactions && t2 in s.transactions
           && !s.transactions[t1].isReturned && !s.transactions[t2].isReturned
           && s.transactions[t1].bookId == s.transactions[t2].bookId) ==> t1 == t2)
    && (forall t :: t in s.transactions ==> t < s.nextTransactionId)
  }
}
