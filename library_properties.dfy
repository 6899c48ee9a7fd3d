/** What the library operations of `LibraryState` guarantee, stated as lemmas over all states. */
module LibraryProperties {
  import opened Common
  import opened Text
  import opened Books
  import opened Members
  import opened Transactions
  import opened Librarians
  import opened LibraryState

  // ---------------------------------------------------------------------------------------
  // Construction and registries

  /** A new library is consistent. */
  lemma EmptyConsistent(name: string)
    ensures Consistent(Empty(name))
  {
  }

  /**
   * `add_book` rejects a taken id and changes nothing; a fresh id is stored with its book, joins
   * the end of the listing order, and the other registries and all counters are untouched.
   */
  lemma AddBookOutcome(s: Snapshot, b: BookData)
    ensures AddBook(s, b).ok <==> b.bookId !in s.books
    ensures !AddBook(s, b).ok ==> AddBook(s, b).state == s
    ensures AddBook(s, b).ok ==>
      var s' := AddBook(s, b).state;
      && s'.books == s.books[b.bookId := b]
      && s'.bookOrder == s.bookOrder + [b.bookId]
      && s' == s.(books := s'.books, bookOrder := s'.bookOrder)
    ensures WellFormed(s) ==> WellFormed(AddBook(s, b).state)
  {
  }

  /**
   * Adding a book with a fresh id to a consistent library keeps it consistent exactly when the
   * book's flag agrees with the loans on record for that id. A book built with `available=False`,
   * or one re-added while an old loan of its id is still open, breaks the invariant.
   */
  lemma AddBookConsistency(s: Snapshot, b: BookData)
    requires Consistent(s) && b.bookId !in s.books
    ensures Consistent(AddBook(s, b).state) <==> (b.available <==> !OnLoan(s, b.bookId))
  {
    var s' := AddBook(s, b).state;
    assert s'.books[b.bookId] == b;
    assert forall k :: OnLoan(s', k) == OnLoan(s, k);
    if b.available <==> !OnLoan(s, b.bookId) {
      assert WellFormed(s');
    }
  }

  lemma {:induction false} WithoutAppended(order: seq<int>, id: int)
    requires id !in order
    ensures Without(order + [id], id) == order
  {
    if order != [] {
      WithoutAppended(order[1..], id);
      assert (order + [id])[1..] == order[1..] + [id];
    }
  }

  /** Removing a book that was just added under a fresh id gives back the library as it was. */
  lemma AddThenRemove(s: Snapshot, b: BookData)
    requires WellFormed(s) && b.bookId !in s.books
    ensures RemoveBook(AddBook(s, b).state, b.bookId) == Change(s, true)
  {
    WithoutAppended(s.bookOrder, b.bookId);
    assert s.books[b.bookId := b] - {b.bookId} == s.books;
  }

  /**
   * `remove_book` succeeds exactly when the id is registered; afterwards the id is gone, the
   * other books keep their records and, through `Without`, their places in the order, and
   * members, librarians, transactions, name and counters are as before.
   */
  lemma RemoveBookOutcome(s: Snapshot, id: int)
    ensures RemoveBook(s, id).ok <==> id in s.books
    ensures id !in RemoveBook(s, id).state.books
    ensures forall k :: k in s.books && k != id ==>
              k in RemoveBook(s, id).state.books && RemoveBook(s, id).state.books[k] == s.books[k]
    ensures var s' := RemoveBook(s, id).state;
      s' == s.(books := s'.books, bookOrder := s'.bookOrder)
    ensures RemoveBook(s, id).ok ==>
      RemoveBook(s, id).state.books == s.books - {id} && RemoveBook(s, id).state.bookOrder == Without(s.bookOrder, id)
    ensures WellFormed(s) ==> WellFormed(RemoveBook(s, id).state)
  {
    if id !in s.books {
      assert RemoveBook(s, id).state == s;
    }
  }

  /**
   * Removal performs no in-use check: removing a book that is out on loan leaves an open
   * transaction naming an id the book registry no longer has.
   */
  lemma RemoveBookLeavesOrphanLoan(s: Snapshot, id: int)
    requires OnLoan(s, id)
    ensures RemoveBook(s, id).ok <==> id in s.books
    ensures var s' := RemoveBook(s, id).state;
      exists t :: t in s'.transactions && s'.transactions[t].bookId == id && !s'.transactions[t].isReturned
                  && s'.transactions[t].bookId !in s'.books
  {
    var t :| t in s.transactions && s.transactions[t].bookId == id && !s.transactions[t].isReturned;
    assert RemoveBook(s, id).state.transactions[t] == s.transactions[t];
  }

  /** Removal keeps the invariant as stated (it only speaks of registered books), ... */
  lemma RemoveBookConsistency(s: Snapshot, id: int)
    requires Consistent(s)
    ensures Consistent(RemoveBook(s, id).state)
  {
    var s' := RemoveBook(s, id).state;
    assert forall k :: OnLoan(s', k) == OnLoan(s, k);
    assert forall k, m :: OnLoanTo(s', k, m) == OnLoanTo(s, k, m);
  }

  /** ... but re-adding an available book under the id of a removed book that is still on loan breaks it. */
  lemma RemoveThenReAddBreaksConsistency(s: Snapshot, b: BookData)
    requires Consistent(s) && b.bookId in s.books && OnLoan(s, b.bookId) && b.available
    ensures AddBook(RemoveBook(s, b.bookId).state, b).ok
    ensures !Consistent(AddBook(RemoveBook(s, b.bookId).state, b).state)
  {
    var s1 := RemoveBook(s, b.bookId).state;
    var s2 := AddBook(s1, b).state;
    var t :| t in s.transactions && s.transactions[t].bookId == b.bookId && !s.transactions[t].isReturned;
    assert s2.transactions[t] == s.transactions[t];
    assert OnLoan(s2, b.bookId);
    assert s2.books[b.bookId].available;
  }

  /** `add_member` has the duplicate rejection of `add_book` and touches only the member registry. */
  lemma AddMemberOutcome(s: Snapshot, m: MemberData)
    ensures AddMember(s, m).ok <==> m.memberId !in s.members
    ensures !AddMember(s, m).ok ==> AddMember(s, m).state == s
    ensures AddMember(s, m).ok ==>
      var s' := AddMember(s, m).state;
      && s'.members == s.members[m.memberId := m]
      && s'.memberOrder == s.memberOrder + [m.memberId]
      && s' == s.(members := s'.members, memberOrder := s'.memberOrder)
    ensures WellFormed(s) ==> WellFormed(AddMember(s, m).state)
  {
  }

  /**
   * A member added under a fresh id keeps a consistent library consistent exactly when their list
   * is duplicate-free and names precisely the books on open loan to that id.
   */
  lemma AddMemberConsistency(s: Snapshot, m: MemberData)
    requires Consistent(s) && m.memberId !in s.members
    ensures Consistent(AddMember(s, m).state) <==>
              NoDuplicates(m.borrowedBooks) && forall b :: b in m.borrowedBooks <==> OnLoanTo(s, b, m.memberId)
  {
    var s' := AddMember(s, m).state;
    assert s'.members[m.memberId] == m;
    assert forall k, mm :: OnLoanTo(s', k, mm) == OnLoanTo(s, k, mm);
    assert forall k :: OnLoan(s', k) == OnLoan(s, k);
    if NoDuplicates(m.borrowedBooks) && forall b :: b in m.borrowedBooks <==> OnLoanTo(s, b, m.memberId) {
      assert WellFormed(s');
    }
  }

  /** In particular a newly constructed member, holding nothing, may join when no loan to that id is open. */
  lemma AddNewMemberConsistent(s: Snapshot, m: MemberData)
    requires Consistent(s) && m.memberId !in s.members && m.borrowedBooks == []
    requires forall b :: !OnLoanTo(s, b, m.memberId)
    ensures Consistent(AddMember(s, m).state)
  {
    AddMemberConsistency(s, m);
  }

  /**
   * `add_librarian`: duplicate rejection; on success the librarian is filed and its id joins the
   * end of the order; only the librarian registry changes, and the invariant is kept.
   */
  lemma AddLibrarianOutcome(s: Snapshot, l: Librarian)
    ensures AddLibrarian(s, l).ok <==> l.librarianId !in s.librarians
    ensures !AddLibrarian(s, l).ok ==> AddLibrarian(s, l).state == s
    ensures AddLibrarian(s, l).ok ==>
      var s' := AddLibrarian(s, l).state;
      && s'.librarians == s.librarians[l.librarianId := l]
      && s'.librarianOrder == s.librarianOrder + [l.librarianId]
      && s' == s.(librarians := s'.librarians, librarianOrder := s'.librarianOrder)
    ensures Consistent(s) ==> Consistent(AddLibrarian(s, l).state)
  {
    var s' := AddLibrarian(s, l).state;
    assert forall k :: OnLoan(s', k) == OnLoan(s, k);
    assert forall k, mm :: OnLoanTo(s', k, mm) == OnLoanTo(s, k, mm);
  }

  // ---------------------------------------------------------------------------------------
  // Borrow

  /**
   * `borrow_book` succeeds exactly when member, book and librarian exist and the book is
   * available; otherwise it fails with the reason of the first check that fails, in the order
   * member, book, librarian, availability, and the state is unchanged.
   */
  lemma BorrowFailure(s: Snapshot, memberId: int, bookId: int, librarianId: int, now: int)
    ensures var r := Borrow(s, memberId, bookId, librarianId, now);
      && (r.success <==> memberId in s.members && bookId in s.books && librarianId in s.librarians
                         && s.books[bookId].available)
      && (!r.success ==> r.state == s)
      && (memberId !in s.members ==> r.message == MemberNotFound)
      && (memberId in s.members && bookId !in s.books ==> r.message == BookNotFound)
      && (memberId in s.members && bookId in s.books && librarianId !in s.librarians ==> r.message == LibrarianNotFound)
      && ((memberId in s.members && bookId in s.books && librarianId in s.librarians
           && !s.books[bookId].available) ==> r.message == BookNotAvailable)
  {
  }

  /**
   * A successful borrow files one new open loan of (book, member, librarian), due two weeks
   * from now, under the old transaction counter; the counter advances by one; the book is out;
   * the member's list gains it unless already there; a fresh transaction id joins the end of the
   * transaction order; the message names the transaction id; no other field changes.
   */
  lemma BorrowSuccess(s: Snapshot, memberId: int, bookId: int, librarianId: int, now: int)
    requires Borrow(s, memberId, bookId, librarianId, now).success
    ensures var r := Borrow(s, memberId, bookId, librarianId, now);
      var tid := s.nextTransactionId;
      && r.state.transactions == s.transactions[tid := TransactionData(tid, bookId, memberId, librarianId,
                                                                       now, now + LoanPeriod, None, false)]
      && r.state.nextTransactionId == s.nextTransactionId + 1
      && r.state.books == s.books[bookId := s.books[bookId].(available := false)]
      && var list := s.members[memberId].borrowedBooks;
      && r.state.members[memberId].borrowedBooks == (if bookId in list then list else list + [bookId])
      && bookId in r.state.members[memberId].borrowedBooks
      && r.state.members == s.members[memberId := r.state.members[memberId]]
      && r.state.members[memberId] == s.members[memberId].(borrowedBooks := r.state.members[memberId].borrowedBooks)
      && r.state.transactionOrder == (if tid in s.transactions then s.transactionOrder else s.transactionOrder + [tid])
      && r.state.name == s.name && r.state.librarians == s.librarians && r.state.librarianOrder == s.librarianOrder
      && r.state.bookOrder == s.bookOrder && r.state.memberOrder == s.memberOrder
      && (r.state.nextBookId, r.state.nextMemberId, r.state.nextLibrarianId) == (s.nextBookId, s.nextMemberId, s.nextLibrarianId)
      && r.message == BorrowedPrefix + IntToString(tid)
      && ParseInt(r.message[|BorrowedPrefix|..]) == tid
  {
    var r := Borrow(s, memberId, bookId, librarianId, now);
    assert r.message[|BorrowedPrefix|..] == IntToString(s.nextTransactionId);
    ParseIntToString(s.nextTransactionId);
  }

  /** The open loans after a successful borrow are those before plus the new one. */
  lemma BorrowLoans(s: Snapshot, memberId: int, bookId: int, librarianId: int, now: int)
    requires Consistent(s) && Borrow(s, memberId, bookId, librarianId, now).success
    ensures var s' := Borrow(s, memberId, bookId, librarianId, now).state;
      && s.nextTransactionId !in s.transactions
      && (forall k :: OnLoan(s', k) <==> OnLoan(s, k) || k == bookId)
      && (forall k, m :: OnLoanTo(s', k, m) <==> OnLoanTo(s, k, m) || (k == bookId && m == memberId))
  {
    var s' := Borrow(s, memberId, bookId, librarianId, now).state;
    var tid := s.nextTransactionId;
    assert tid in s'.transactions && OpenFor(s'.transactions[tid], bookId, memberId);
    forall k ensures OnLoan(s', k) <==> OnLoan(s, k) || k == bookId {
      if OnLoan(s, k) {
        var t :| t in s.transactions && s.transactions[t].bookId == k && !s.transactions[t].isReturned;
        assert s'.transactions[t] == s.transactions[t];
      }
    }
    forall k, m ensures OnLoanTo(s', k, m) <==> OnLoanTo(s, k, m) || (k == bookId && m == memberId) {
      if OnLoanTo(s, k, m) {
        var t :| t in s.transactions && OpenFor(s.transactions[t], k, m);
        assert s'.transactions[t] == s.transactions[t];
      }
    }
  }

  /** Borrowing keeps a consistent library consistent. */
  lemma BorrowPreservesConsistency(s: Snapshot, memberId: int, bookId: int, librarianId: int, now: int)
    requires Consistent(s)
    ensures Consistent(Borrow(s, memberId, bookId, librarianId, now).state)
  {
    var r := Borrow(s, memberId, bookId, librarianId, now);
    if r.success {
      var s' := r.state;
      var tid := s.nextTransactionId;
      BorrowLoans(s, memberId, bookId, librarianId, now);
      assert !OnLoan(s, bookId);
      BorrowWellFormed(s, memberId, bookId, librarianId, now);
      forall b | b in s'.books ensures s'.books[b].available <==> !OnLoan(s', b) {
      }
      forall m, b | m in s'.members ensures b in s'.members[m].borrowedBooks <==> OnLoanTo(s', b, m) {
        if m != memberId && b == bookId {
          assert !OnLoanTo(s, bookId, m);
        }
      }
      forall t1, t2 | t1 in s'.transactions && t2 in s'.transactions
          && !s'.transactions[t1].isReturned && !s'.transactions[t2].isReturned
          && s'.transactions[t1].bookId == s'.transactions[t2].bookId
        ensures t1 == t2
      {
      }
    }
  }

  /** A borrow keeps every registry filed under its own ids. */
  lemma BorrowWellFormed(s: Snapshot, memberId: int, bookId: int, librarianId: int, now: int)
    requires WellFormed(s)
    ensures WellFormed(Borrow(s, memberId, bookId, librarianId, now).state)
  {
    if Borrow(s, memberId, bookId, librarianId, now).success && s.nextTransactionId !in s.transactions {
      NoDuplicatesAppend(s.transactionOrder, s.nextTransactionId);
    }
  }

  /** After a successful borrow from a consistent library, the new transaction is the only open loan of the book. */
  lemma BorrowOpensTheOnlyLoan(s: Snapshot, memberId: int, bookId: int, librarianId: int, now: int)
    requires Consistent(s) && Borrow(s, memberId, bookId, librarianId, now).success
    ensures var s' := Borrow(s, memberId, bookId, librarianId, now).state;
      var tid := s.nextTransactionId;
      && tid in s'.transactions
      && s'.transactions[tid] == TransactionData(tid, bookId, memberId, librarianId, now, now + LoanPeriod, None, false)
      && forall t :: t in s'.transactions && s'.transactions[t].bookId == bookId && !s'.transactions[t].isReturned ==> t == tid
  {
    BorrowPreservesConsistency(s, memberId, bookId, librarianId, now);
  }

  // ---------------------------------------------------------------------------------------
  // Return

  /**
   * `return_book` fails without changing anything when the member is unknown, the book is
   * unknown, or no open loan of the pair is on record, with the reason of the first such check;
   * otherwise it succeeds.
   */
  lemma ReturnFailure(s: Snapshot, memberId: int, bookId: int, now: int)
    requires WellFormed(s)
    ensures var r := Return(s, memberId, bookId, now);
      && (r.success <==> memberId in s.members && bookId in s.books && OnLoanTo(s, bookId, memberId))
      && (!r.success ==> r.state == s)
      && (memberId !in s.members ==> r.message == MemberNotFound)
      && (memberId in s.members && bookId !in s.books ==> r.message == BookNotFound)
      && (memberId in s.members && bookId in s.books && !OnLoanTo(s, bookId, memberId) ==> r.message == NoActiveTransaction)
  {
    if OnLoanTo(s, bookId, memberId) {
      var t :| t in s.transactions && OpenFor(s.transactions[t], bookId, memberId);
      assert t in s.transactionOrder;
    }
  }

  /** A return keeps every registry filed under its own ids. */
  lemma ReturnWellFormed(s: Snapshot, memberId: int, bookId: int, now: int)
    requires WellFormed(s)
    ensures WellFormed(Return(s, memberId, bookId, now).state)
  {
  }

  /**
   * A successful return closes, dated `now`, the first open loan of the pair in insertion
   * order; every other transaction is unchanged; the book is back and the member's list loses
   * the book's first occurrence; the message names the transaction id.
   */
  lemma ReturnSuccess(s: Snapshot, memberId: int, bookId: int, now: int)
    requires Return(s, memberId, bookId, now).success
    ensures var r := Return(s, memberId, bookId, now);
      exists i :: 0 <= i < |s.transactionOrder| && s.transactionOrder[i] in s.transactions
        && OpenFor(s.transactions[s.transactionOrder[i]], bookId, memberId)
        && (forall j :: 0 <= j < i ==> !(s.transactionOrder[j] in s.transactions
                                         && OpenFor(s.transactions[s.transactionOrder[j]], bookId, memberId)))
        && var tid := s.transactionOrder[i];
           && r.state.transactions == s.transactions[tid := s.transactions[tid].(returnDate := Some(now), isReturned := true)]
           && r.state.books == s.books[bookId := s.books[bookId].(available := true)]
           && r.state.members == s.members[memberId := s.members[memberId].(borrowedBooks :=
                                             RemoveFirst(s.members[memberId].borrowedBooks, bookId))]
           && r.state == s.(transactions := r.state.transactions, books := r.state.books, members := r.state.members)
           && r.message == ReturnedPrefix + IntToString(tid)
  {
  }

  /** The open loans after a successful return from a consistent library: all but those of the book. */
  lemma ReturnLoans(s: Snapshot, memberId: int, bookId: int, now: int)
    requires Consistent(s) && Return(s, memberId, bookId, now).success
    ensures var s' := Return(s, memberId, bookId, now).state;
      && (forall k :: OnLoan(s', k) <==> OnLoan(s, k) && k != bookId)
      && (forall k, m :: OnLoanTo(s', k, m) <==> OnLoanTo(s, k, m) && k != bookId)
      && OnLoanTo(s, bookId, memberId)
  {
    var s' := Return(s, memberId, bookId, now).state;
    var tid := FirstOpen(s.transactions, s.transactionOrder, bookId, memberId).value;
    assert OpenFor(s.transactions[tid], bookId, memberId);
    forall k ensures OnLoan(s', k) <==> OnLoan(s, k) && k != bookId {
      if OnLoan(s', k) {
        var t :| t in s'.transactions && s'.transactions[t].bookId == k && !s'.transactions[t].isReturned;
        assert t != tid && s.transactions[t] == s'.transactions[t];
        if k == bookId { assert false; }
      }
      if OnLoan(s, k) && k != bookId {
        var t :| t in s.transactions && s.transactions[t].bookId == k && !s.transactions[t].isReturned;
        assert t != tid && s.transactions[t] == s'.transactions[t];
      }
    }
    forall k, m ensures OnLoanTo(s', k, m) <==> OnLoanTo(s, k, m) && k != bookId {
      if OnLoanTo(s', k, m) {
        var t :| t in s'.transactions && OpenFor(s'.transactions[t], k, m);
        assert OnLoan(s', k);
        assert t != tid && s.transactions[t] == s'.transactions[t];
      }
      if OnLoanTo(s, k, m) && k != bookId {
        var t :| t in s.transactions && OpenFor(s.transactions[t], k, m);
        assert t != tid && s.transactions[t] == s'.transactions[t];
      }
    }
  }

  /** Returning keeps a consistent library consistent. */
  lemma ReturnPreservesConsistency(s: Snapshot, memberId: int, bookId: int, now: int)
    requires Consistent(s)
    ensures Consistent(Return(s, memberId, bookId, now).state)
  {
    var r := Return(s, memberId, bookId, now);
    if r.success {
      var s' := r.state;
      ReturnLoans(s, memberId, bookId, now);
      var list := s.members[memberId].borrowedBooks;
      RemoveFirstNoDuplicates(list, bookId);
      ReturnWellFormed(s, memberId, bookId, now);
      forall m, b | m in s'.members ensures b in s'.members[m].borrowedBooks <==> OnLoanTo(s', b, m) {
        if m != memberId && b == bookId {
          assert !OnLoanTo(s, bookId, m);
        }
      }
      var tid := FirstOpen(s.transactions, s.transactionOrder, bookId, memberId).value;
      assert forall t :: t in s'.transactions && !s'.transactions[t].isReturned ==>
        t != tid && s'.transactions[t] == s.transactions[t];
    }
  }

  /**
   * A borrow followed by the return of the same pair closes exactly the loan the borrow opened,
   * names its id, and restores the book record and the member's list.
   */
  lemma BorrowThenReturn(s: Snapshot, memberId: int, bookId: int, librarianId: int, borrowedAt: int, returnedAt: int)
    requires Consistent(s) && Borrow(s, memberId, bookId, librarianId, borrowedAt).success
    ensures var s1 := Borrow(s, memberId, bookId, librarianId, borrowedAt).state;
      var r := Return(s1, memberId, bookId, returnedAt);
      var tid := s.nextTransactionId;
      && r.success
      && r.message == ReturnedPrefix + IntToString(tid)
      && r.state.books == s.books
      && r.state.members == s.members
      && r.state.transactions[tid] == TransactionData(tid, bookId, memberId, librarianId, borrowedAt,
                                                      borrowedAt + LoanPeriod, Some(returnedAt), true)
  {
    BorrowThenScan(s, memberId, bookId, librarianId, borrowedAt);
    assert bookId !in s.members[memberId].borrowedBooks;
    AppendThenRemove(s.members[memberId].borrowedBooks, bookId);
    assert s.books[bookId := s.books[bookId].(available := false)][bookId := s.books[bookId].(available := true)] == s.books;
  }

  /** Right after a borrow, the return scan of the same pair finds the loan the borrow opened. */
  lemma BorrowThenScan(s: Snapshot, memberId: int, bookId: int, librarianId: int, now: int)
    requires Consistent(s) && Borrow(s, memberId, bookId, librarianId, now).success
    ensures var s1 := Borrow(s, memberId, bookId, librarianId, now).state;
      FirstOpen(s1.transactions, s1.transactionOrder, bookId, memberId) == Some(s.nextTransactionId)
    ensures !OnLoan(s, bookId)
  {
    var s1 := Borrow(s, memberId, bookId, librarianId, now).state;
    var tid := s.nextTransactionId;
    BorrowOpensTheOnlyLoan(s, memberId, bookId, librarianId, now);
    assert !OnLoan(s, bookId);
    assert OnLoanTo(s1, bookId, memberId) by {
      assert OpenFor(s1.transactions[tid], bookId, memberId);
    }
    ReturnFailure(s1, memberId, bookId, 0) by { BorrowPreservesConsistency(s, memberId, bookId, librarianId, now); }
  }

  // ---------------------------------------------------------------------------------------
  // Queries

  /** Filtering one more id appends it exactly when it passes. */
  lemma SelectSnoc(ids: seq<int>, x: int, keep: int -> bool, polarity: bool)
    ensures Select(ids + [x], keep, polarity) == Select(ids, keep, polarity) + (if keep(x) == polarity then [x] else [])
  {
    assert (ids + [x])[..|ids|] == ids;
  }

  lemma {:induction false} SelectPartition(ids: seq<int>, keep: int -> bool)
    ensures multiset(Select(ids, keep, true)) + multiset(Select(ids, keep, false)) == multiset(ids)
  {
    if ids != [] {
      SelectPartition(ids[..|ids| - 1], keep);
      assert ids == ids[..|ids| - 1] + [ids[|ids| - 1]];
    }
  }

  lemma {:induction false} SelectAll(ids: seq<int>, keep: int -> bool)
    requires forall x :: x in ids ==> keep(x)
    ensures Select(ids, keep, true) == ids
  {
    if ids != [] {
      var front, last := ids[..|ids| - 1], ids[|ids| - 1];
      assert ids == front + [last];
      assert forall x :: x in front ==> x in ids;
      SelectAll(front, keep);
      SelectSnoc(front, last, keep, true);
    }
  }

  /** Filtering distributes over concatenation: the kept ids of `a + b` are those of `a`, then those of `b`. */
  lemma {:induction false} SelectAppend(a: seq<int>, b: seq<int>, keep: int -> bool, polarity: bool)
    ensures Select(a + b, keep, polarity) == Select(a, keep, polarity) + Select(b, keep, polarity)
    decreases |b|
  {
    if b == [] {
      assert a + b == a;
    } else {
      var front, last := b[..|b| - 1], b[|b| - 1];
      assert b == front + [last];
      assert a + b == (a + front) + [last];
      SelectAppend(a, front, keep, polarity);
      SelectSnoc(a + front, last, keep, polarity);
      SelectSnoc(front, last, keep, polarity);
    }
  }

  /**
   * What filtering means: the result is a subsequence of the input (it keeps the input's order)
   * holding every occurrence of each kept id and no occurrence of any other.
   */
  lemma {:induction false} SelectOrder(ids: seq<int>, keep: int -> bool, polarity: bool)
    ensures Subsequence(Select(ids, keep, polarity), ids)
    ensures forall x :: multiset(Select(ids, keep, polarity))[x] == if keep(x) == polarity then multiset(ids)[x] else 0
  {
    if ids != [] {
      var front, last := ids[..|ids| - 1], ids[|ids| - 1];
      assert ids == front + [last];
      SelectOrder(front, keep, polarity);
      SelectSnoc(front, last, keep, polarity);
      SubsequenceSnoc(Select(front, keep, polarity), front, last);
    }
  }

  /** Deleting a key from the order is filtering out that key. */
  lemma {:induction false} WithoutIsSelect(order: seq<int>, id: int)
    ensures Without(order, id) == Select(order, Except(id), true)
  {
    if order != [] {
      WithoutIsSelect(order[1..], id);
      assert order == [order[0]] + order[1..];
      SelectAppend([order[0]], order[1..], Except(id), true);
      SelectSnoc([], order[0], Except(id), true);
      assert [] + [order[0]] == [order[0]];
    }
  }

  /**
   * `del` keeps the other keys in place: deletion distributes over concatenation, and the result
   * is a subsequence of the old order holding every other key as often as before.
   */
  lemma WithoutOrder(a: seq<int>, b: seq<int>, id: int)
    ensures Without(a + b, id) == Without(a, id) + Without(b, id)
    ensures Subsequence(Without(a, id), a)
    ensures forall x :: multiset(Without(a, id))[x] == if x == id then 0 else multiset(a)[x]
  {
    WithoutIsSelect(a + b, id);
    WithoutIsSelect(a, id);
    WithoutIsSelect(b, id);
    SelectAppend(a, b, Except(id), true);
    SelectOrder(a, Except(id), true);
  }

  /**
   * `get_available_books` and `get_borrowed_books` split `get_all_books` by the `available` flag:
   * together they hold every registered book exactly once.
   */
  lemma AvailableBorrowedPartition(s: Snapshot)
    requires WellFormed(s)
    ensures multiset(AvailableBookIds(s)) + multiset(BorrowedBookIds(s)) == multiset(s.bookOrder)
    ensures forall k :: k in AvailableBookIds(s) <==> k in s.books && s.books[k].available
    ensures forall k :: k in BorrowedBookIds(s) <==> k in s.books && !s.books[k].available
    ensures Subsequence(AvailableBookIds(s), s.bookOrder) && NoDuplicates(AvailableBookIds(s))
    ensures Subsequence(BorrowedBookIds(s), s.bookOrder) && NoDuplicates(BorrowedBookIds(s))
  {
    SelectPartition(s.bookOrder, Availability(s.books));
    SelectOrder(s.bookOrder, Availability(s.books), true);
    SelectOrder(s.bookOrder, Availability(s.books), false);
  }

  /**
   * `get_member_borrowed_books` is empty for an unknown member and otherwise lists, in the
   * member's own order, the ids on their list that are still registered books.
   */
  lemma MemberBorrowedBooks(s: Snapshot, memberId: int)
    ensures memberId !in s.members ==> MemberBorrowedIds(s, memberId) == []
    ensures memberId in s.members ==>
      forall k :: k in MemberBorrowedIds(s, memberId) <==> k in s.members[memberId].borrowedBooks && k in s.books
    ensures memberId in s.members && (forall k :: k in s.members[memberId].borrowedBooks ==> k in s.books) ==>
      MemberBorrowedIds(s, memberId) == s.members[memberId].borrowedBooks
    ensures memberId in s.members ==>
      && Subsequence(MemberBorrowedIds(s, memberId), s.members[memberId].borrowedBooks)
      && forall k :: multiset(MemberBorrowedIds(s, memberId))[k] ==
                     if k in s.books then multiset(s.members[memberId].borrowedBooks)[k] else 0
  {
    if memberId in s.members {
      SelectOrder(s.members[memberId].borrowedBooks, Registered(s.books), true);
      if forall k :: k in s.members[memberId].borrowedBooks ==> k in s.books {
        SelectAll(s.members[memberId].borrowedBooks, Registered(s.books));
      }
    }
  }

  /** In a consistent library a member's borrowed books are exactly the books on open loan to them. */
  lemma MemberBorrowedBooksAreLoans(s: Snapshot, memberId: int)
    requires Consistent(s) && memberId in s.members
    ensures forall k :: k in MemberBorrowedIds(s, memberId) <==> k in s.books && OnLoanTo(s, k, memberId)
  {
    MemberBorrowedBooks(s, memberId);
  }

  /**
   * `search_books` returns exactly the registered books whose lower-cased title, author or ISBN
   * contains the lower-cased query, in registry order; the empty query returns every book.
   */
  lemma SearchResults(s: Snapshot, query: string)
    requires WellFormed(s)
    ensures forall k :: k in SearchIds(s, query) <==> k in s.books && Matches(s.books[k], Lower(query))
    ensures Subsequence(SearchIds(s, query), s.bookOrder) && NoDuplicates(SearchIds(s, query))
    ensures query == [] ==> SearchIds(s, query) == s.bookOrder
  {
    SelectOrder(s.bookOrder, Matching(s.books, Lower(query)), true);
    if query == [] {
      forall k | k in s.bookOrder ensures Matching(s.books, Lower(query))(k) {
        assert OccursAt(Lower(query), Lower(s.books[k].title), 0);
      }
      SelectAll(s.bookOrder, Matching(s.books, Lower(query)));
    }
  }

  /** Case does not matter to the search: a query and its lower-cased form find the same books. */
  lemma SearchIgnoresQueryCase(s: Snapshot, query: string)
    ensures SearchIds(s, query) == SearchIds(s, Lower(query))
  {
    LowerIdempotent(query);
  }

  lemma LowerIdempotent(q: string)
    ensures Lower(Lower(q)) == Lower(q)
  {
  }
}
