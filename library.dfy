/**
 * The library object: four registries of entity objects keyed by id, each with its insertion
 * order (the iteration order of a Python dict), and the four id counters. Every method is
 * proved to move `State()` exactly as the matching function of `LibraryState` does.
 */
module Libraries {
  import opened Common
  import opened Text
  import opened Books
  import opened Members
  import opened Transactions
  import opened Librarians
  import opened LibraryState
  import opened Persistence
  import opened LibraryProperties

  /** The records `to_dict` gives for each book of a registry. */
  function BookRecords(m: map<int, Book>): map<int, BookData>
    reads m.Values
  {
    map k | k in m :: m[k].ToDict()
  }

  function MemberRecords(m: map<int, Member>): map<int, MemberData>
    reads m.Values
  {
    map k | k in m :: m[k].ToDict()
  }

  function TransactionRecords(m: map<int, BorrowTransaction>): map<int, TransactionData>
    reads m.Values
  {
    map k | k in m :: m[k].ToDict()
  }

  /** Filing an object under `id` files its record there. */
  lemma TransactionRecordsPut(m: map<int, BorrowTransaction>, id: int, t: BorrowTransaction)
    ensures TransactionRecords(m[id := t]) == TransactionRecords(m)[id := t.ToDict()]
  {
    assert TransactionRecords(m[id := t]).Keys == TransactionRecords(m)[id := t.ToDict()].Keys;
  }

  /** The two entity updates of a successful borrow: the book marked out and the member's list extended. */
  function Lent(s: Snapshot, memberId: int, bookId: int): Snapshot
    requires memberId in s.members && bookId in s.books
  {
    var m := s.members[memberId];
    s.(books := s.books[bookId := s.books[bookId].(available := false)],
       members := s.members[memberId := m.(borrowedBooks := AppendIfAbsent(m.borrowedBooks, bookId))])
  }

  /**
   * A successful borrow is the two entity updates followed by filing the loan and advancing the
   * counter, and it leaves a well-formed library well-formed.
   */
  lemma BorrowSplits(s: Snapshot, memberId: int, bookId: int, librarianId: int, now: int,
                     lent: Snapshot, record: TransactionData, final: Snapshot)
    requires WellFormed(s)
    requires memberId in s.members && bookId in s.books && librarianId in s.librarians && s.books[bookId].available
    requires lent == Lent(s, memberId, bookId)
    requires record == TransactionData(s.nextTransactionId, bookId, memberId, librarianId, now, now + LoanPeriod, None, false)
    requires final == PutTransaction(lent, s.nextTransactionId, record).(nextTransactionId := s.nextTransactionId + 1)
    ensures final == Borrow(s, memberId, bookId, librarianId, now).state
    ensures WellFormed(final)
  {
    BorrowWellFormed(s, memberId, bookId, librarianId, now);
  }

  /** The three entity updates of a successful return: the loan closed, the book back, the member's entry gone. */
  function Returned(s: Snapshot, tid: int, memberId: int, bookId: int, now: int): Snapshot
    requires tid in s.transactions && memberId in s.members && bookId in s.books
  {
    var m := s.members[memberId];
    s.(transactions := s.transactions[tid := s.transactions[tid].(returnDate := Some(now), isReturned := true)],
       books := s.books[bookId := s.books[bookId].(available := true)],
       members := s.members[memberId := m.(borrowedBooks := RemoveFirst(m.borrowedBooks, bookId))])
  }

  /** A successful return is the three entity updates on the loan the scan finds, and keeps the library well-formed. */
  lemma ReturnSplits(s: Snapshot, memberId: int, bookId: int, now: int, tid: int, final: Snapshot)
    requires WellFormed(s)
    requires memberId in s.members && bookId in s.books
    requires FirstOpen(s.transactions, s.transactionOrder, bookId, memberId) == Some(tid)
    requires final == Returned(s, tid, memberId, bookId, now)
    ensures final == Return(s, memberId, bookId, now).state
    ensures WellFormed(final)
  {
    ReturnWellFormed(s, memberId, bookId, now);
  }

  /** One more id through a filtering loop over `order`: its entity is appended exactly when it is kept. */
  lemma ListingStep<T>(m: map<int, T>, order: seq<int>, i: int, keep: int -> bool)
    requires 0 <= i < |order| && order[i] in m
    ensures Project(m, Select(order[..i + 1], keep, true))
            == Project(m, Select(order[..i], keep, true)) + (if keep(order[i]) then [m[order[i]]] else [])
  {
    assert order[..i + 1] == order[..i] + [order[i]];
    SelectSnoc(order[..i], order[i], keep, true);
    ProjectSnoc(m, Select(order[..i], keep, true), order[i]);
  }

  /** Listing keeps order: the entities filed under a subsequence of `b` form a subsequence of `b`'s listing. */
  lemma {:induction false} ProjectSubsequence<T>(m: map<int, T>, a: seq<int>, b: seq<int>, key: T -> int)
    requires forall k :: k in a ==> k in m
    requires forall k :: k in b ==> k in m
    requires forall k :: k in m ==> key(m[k]) == k
    requires Subsequence(a, b)
    ensures Subsequence(Project(m, a), Project(m, b))
    decreases |b|
  {
    if a != [] {
      var a', x := a[..|a| - 1], a[|a| - 1];
      var b', y := b[..|b| - 1], b[|b| - 1];
      assert a == a' + [x] && b == b' + [y];
      assert forall k :: k in a' ==> k in a;
      assert forall k :: k in b' ==> k in b;
      ProjectSnoc(m, a', x);
      ProjectSnoc(m, b', y);
      if x == y {
        ProjectSubsequence(m, a', b', key);
        SubsequenceSnoc(Project(m, a'), Project(m, b'), m[x]);
      } else {
        ProjectSubsequence(m, a, b', key);
        SubsequenceSnoc(Project(m, a), Project(m, b'), m[y]);
      }
    }
  }

  /**
   * The books of `m` kept by the availability filter over `order`: each listed once, exactly
   * those whose flag equals `polarity`, in the order of the full listing.
   */
  lemma Shelved(m: map<int, Book>, records: map<int, BookData>, order: seq<int>, polarity: bool)
    requires records.Keys == m.Keys && forall k :: k in m ==> records[k].available == m[k].available
    requires forall k :: k in m ==> m[k].bookId == k
    requires NoDuplicates(order) && forall k :: k in order ==> k in m
    requires forall k :: k in m ==> k in order
    ensures var r := Project(m, Select(order, Availability(records), polarity));
      && NoDuplicates(r)
      && (forall k :: k in m ==> (m[k] in r <==> m[k].available == polarity))
      && (forall b :: b in r ==> b in m.Values)
      && Subsequence(r, Project(m, order))
  {
    var ids := Select(order, Availability(records), polarity);
    SelectOrder(order, Availability(records), polarity);
    Listing(m, ids, BookIdOf);
    ProjectSubsequence(m, ids, order, BookIdOf);
  }

  lemma BookRecordsPut(m: map<int, Book>, id: int, x: Book)
    ensures BookRecords(m[id := x]) == BookRecords(m)[id := x.ToDict()]
  {
    assert BookRecords(m[id := x]).Keys == BookRecords(m)[id := x.ToDict()].Keys;
  }

  lemma MemberRecordsPut(m: map<int, Member>, id: int, x: Member)
    ensures MemberRecords(m[id := x]) == MemberRecords(m)[id := x.ToDict()]
  {
    assert MemberRecords(m[id := x]).Keys == MemberRecords(m)[id := x.ToDict()].Keys;
  }

  /**
   * Listing the entities filed under `ids`, in a registry whose entities carry their own ids:
   * an entity is listed exactly when its id is among `ids`, and distinct ids give distinct entries.
   */
  lemma Listing<T>(m: map<int, T>, ids: seq<int>, key: T -> int)
    requires forall k :: k in ids ==> k in m
    requires forall k :: k in m ==> key(m[k]) == k
    ensures forall k :: k in m ==> (m[k] in Project(m, ids) <==> k in ids)
    ensures forall x :: x in Project(m, ids) ==> x in m.Values
    ensures NoDuplicates(ids) ==> NoDuplicates(Project(m, ids))
  {
    var r := Project(m, ids);
    ProjectAt(m, ids);
    forall k | k in m && m[k] in r ensures k in ids {
      var i :| 0 <= i < |r| && r[i] == m[k];
      assert key(m[ids[i]]) == ids[i];
    }
    forall k | k in ids ensures m[k] in r {
      var i :| 0 <= i < |ids| && ids[i] == k;
      assert r[i] == m[k];
    }
    forall x | x in r ensures x in m.Values {
      var i :| 0 <= i < |r| && r[i] == x;
      assert ids[i] in m;
    }
    if NoDuplicates(ids) {
      forall i, j | 0 <= i < j < |r| ensures r[i] != r[j] {
        assert key(r[i]) == ids[i] && key(r[j]) == ids[j];
      }
    }
  }

  /** The first `n` records and the first `n + 1`: the loop of `load_from_file` advanced by one record. */
  lemma PrefixStep<T>(recs: seq<T>, n: int)
    requires 0 <= n < |recs|
    ensures recs[..n + 1] != [] && recs[..n + 1][..n] == recs[..n] && recs[..n + 1][n] == recs[n]
  {
  }

  /** One more record through the indexing loop: it is filed under its key, and a new key is appended. */
  lemma IndexAdvance<T>(recs: seq<T>, i: int, key: T -> int, records: map<int, T>, order: seq<int>)
    requires 0 <= i < |recs|
    requires (records, order) == Index(recs[..i], key)
    ensures (records[key(recs[i]) := recs[i]], if key(recs[i]) in records then order else order + [key(recs[i])])
            == Index(recs[..i + 1], key)
  {
    assert recs[..i + 1][..i] == recs[..i];
    IndexStep(recs[..i + 1], key);
  }

  /** One step of the book loop: a fresh `Book.from_dict(rec)` filed under its id, which is appended if new. */
  method FileBook(m: map<int, Book>, order: seq<int>, rec: BookData) returns (m': map<int, Book>, order': seq<int>)
    ensures BookRecords(m') == old(BookRecords(m))[rec.bookId := rec]
    ensures order' == if rec.bookId in m then order else order + [rec.bookId]
    ensures rec.bookId in m' && fresh(m'[rec.bookId]) && forall k :: k in m' && k != rec.bookId ==> k in m && m'[k] == m[k]
  {
    ghost var records := BookRecords(m);
    var book := new Book.FromDict(rec);
    assert BookRecords(m) == records;
    order' := if book.bookId in m then order else order + [book.bookId];
    BookRecordsPut(m, book.bookId, book);
    m' := m[book.bookId := book];
  }

  /**
   * The book loop of `load_from_file`: a fresh `Book.from_dict` object per record, filed under
   * its id into an empty registry, so the registry holds exactly what `Index` computes.
   */
  method LoadBooks(recs: seq<BookData>) returns (m: map<int, Book>, order: seq<int>)
    ensures (BookRecords(m), order) == Index(recs, BookKey)
    ensures forall k :: k in m ==> fresh(m[k])
  {
    m := map[];
    order := [];
    var i := 0;
    while i < |recs|
      invariant 0 <= i <= |recs|
      invariant (BookRecords(m), order) == Index(recs[..i], BookKey)
      invariant forall k :: k in m ==> fresh(m[k])
    {
      IndexAdvance(recs, i, BookKey, BookRecords(m), order);
      m, order := FileBook(m, order, recs[i]);
      i := i + 1;
    }
    assert recs[..i] == recs;
  }

  /** One step of the member loop: a fresh `Member.from_dict(rec)` filed under its id. */
  method FileMember(m: map<int, Member>, order: seq<int>, rec: MemberData) returns (m': map<int, Member>, order': seq<int>)
    ensures MemberRecords(m') == old(MemberRecords(m))[rec.memberId := rec]
    ensures order' == if rec.memberId in m then order else order + [rec.memberId]
    ensures rec.memberId in m' && fresh(m'[rec.memberId]) && forall k :: k in m' && k != rec.memberId ==> k in m && m'[k] == m[k]
  {
    ghost var records := MemberRecords(m);
    var member := new Member.FromDict(rec);
    assert MemberRecords(m) == records;
    order' := if member.memberId in m then order else order + [member.memberId];
    MemberRecordsPut(m, member.memberId, member);
    m' := m[member.memberId := member];
  }

  /** The member loop of `load_from_file`. */
  method LoadMembers(recs: seq<MemberData>) returns (m: map<int, Member>, order: seq<int>)
    ensures (MemberRecords(m), order) == Index(recs, MemberKey)
    ensures forall k :: k in m ==> fresh(m[k])
  {
    m := map[];
    order := [];
    var i := 0;
    while i < |recs|
      invariant 0 <= i <= |recs|
      invariant (MemberRecords(m), order) == Index(recs[..i], MemberKey)
      invariant forall k :: k in m ==> fresh(m[k])
    {
      IndexAdvance(recs, i, MemberKey, MemberRecords(m), order);
      m, order := FileMember(m, order, recs[i]);
      i := i + 1;
    }
    assert recs[..i] == recs;
  }

  /** The librarian loop of `load_from_file`: librarians are values, rebuilt by `Librarian.from_dict`. */
  method LoadLibrarians(recs: seq<LibrarianData>) returns (m: map<int, Librarian>, order: seq<int>)
    ensures (m, order) == Index(LibrariansFromDicts(recs), LibrarianKey)
  {
    m := map[];
    order := [];
    var i := 0;
    while i < |recs|
      invariant 0 <= i <= |recs|
      invariant (m, order) == Index(LibrariansFromDicts(recs[..i]), LibrarianKey)
    {
      var librarian := FromDict(recs[i]);
      PrefixStep(recs, i);
      ghost var rebuilt := LibrariansFromDicts(recs[..i + 1]);
      assert rebuilt[..i] == LibrariansFromDicts(recs[..i]);
      IndexStep(rebuilt, LibrarianKey);
      if librarian.librarianId !in m {
        order := order + [librarian.librarianId];
      }
      m := m[librarian.librarianId := librarian];
      i := i + 1;
    }
    assert recs[..i] == recs;
  }

  /** `IndexAdvance` for the reloaded transaction records. */
  lemma ReloadAdvance(recs: seq<TransactionData>, i: int, records: map<int, TransactionData>, order: seq<int>)
    requires 0 <= i < |recs|
    requires (records, order) == Index(ReloadAll(recs[..i]), TransactionKey)
    ensures var k := recs[i].transactionId;
      (records[k := Reloaded(recs[i])], if k in records then order else order + [k])
      == Index(ReloadAll(recs[..i + 1]), TransactionKey)
  {
    var front := ReloadAll(recs[..i]);
    assert recs[..i + 1][..i] == recs[..i];
    var r := ReloadAll(recs[..i + 1]);
    assert r == front + [Reloaded(recs[i])];
    assert r[..i] == front;
    IndexStep(r, TransactionKey);
  }

  /** One step of the transaction loop: a fresh `BorrowTransaction.from_dict(rec)` filed under its id. */
  method FileReloaded(m: map<int, BorrowTransaction>, order: seq<int>, rec: TransactionData)
    returns (m': map<int, BorrowTransaction>, order': seq<int>)
    ensures TransactionRecords(m') == old(TransactionRecords(m))[rec.transactionId := Reloaded(rec)]
    ensures order' == if rec.transactionId in m then order else order + [rec.transactionId]
    ensures rec.transactionId in m' && fresh(m'[rec.transactionId])
    ensures forall k :: k in m' && k != rec.transactionId ==> k in m && m'[k] == m[k]
  {
    ghost var records := TransactionRecords(m);
    var transaction := new BorrowTransaction.FromDict(rec);
    assert TransactionRecords(m) == records;
    order' := if transaction.transactionId in m then order else order + [transaction.transactionId];
    TransactionRecordsPut(m, transaction.transactionId, transaction);
    m' := m[transaction.transactionId := transaction];
  }

  /** The transaction loop of `load_from_file`: each record goes through `BorrowTransaction.from_dict`. */
  method LoadTransactions(recs: seq<TransactionData>) returns (m: map<int, BorrowTransaction>, order: seq<int>)
    ensures (TransactionRecords(m), order) == Index(ReloadAll(recs), TransactionKey)
    ensures forall k :: k in m ==> fresh(m[k])
  {
    m := map[];
    order := [];
    var i := 0;
    while i < |recs|
      invariant 0 <= i <= |recs|
      invariant (TransactionRecords(m), order) == Index(ReloadAll(recs[..i]), TransactionKey)
      invariant forall k :: k in m ==> fresh(m[k])
    {
      ReloadAdvance(recs, i, TransactionRecords(m), order);
      m, order := FileReloaded(m, order, recs[i]);
      i := i + 1;
    }
    assert recs[..i] == recs;
  }

  /** The three object loops of `load_from_file`: fresh books, members and transactions rebuilt from the document. */
  method LoadObjects(data: LibraryData)
    returns (books: map<int, Book>, bookOrder: seq<int>, members: map<int, Member>, memberOrder: seq<int>,
             transactions: map<int, BorrowTransaction>, transactionOrder: seq<int>)
    ensures (BookRecords(books), bookOrder) == Index(data.books, BookKey)
    ensures (MemberRecords(members), memberOrder) == Index(data.members, MemberKey)
    ensures (TransactionRecords(transactions), transactionOrder) == Index(ReloadAll(data.transactions), TransactionKey)
    ensures forall k :: k in books ==> fresh(books[k])
    ensures forall k :: k in members ==> fresh(members[k])
    ensures forall k :: k in transactions ==> fresh(transactions[k])
  {
    books, bookOrder := LoadBooks(data.books);
    ghost var bookRecords := BookRecords(books);
    members, memberOrder := LoadMembers(data.members);
    ghost var memberRecords := MemberRecords(members);
    transactions, transactionOrder := LoadTransactions(data.transactions);
    assert BookRecords(books) == bookRecords && MemberRecords(members) == memberRecords;
  }

  function BookIdOf(b: Book): int { b.bookId }
  function MemberIdOf(m: Member): int { m.memberId }
  function TransactionIdOf(t: BorrowTransaction): int { t.transactionId }

  class Library {
    var name: string
    var books: map<int, Book>
    var bookOrder: seq<int>
    var members: map<int, Member>
    var memberOrder: seq<int>
    var librarians: map<int, Librarian>
    var librarianOrder: seq<int>
    var transactions: map<int, BorrowTransaction>
    var transactionOrder: seq<int>
    var nextBookId: int
    var nextMemberId: int
    var nextLibrarianId: int
    var nextTransactionId: int

    /** The library as a value: what `to_dict` gives for every entity, the orders and the counters. */
    function State(): Snapshot
      reads this, books.Values, members.Values, transactions.Values
    {
      Snapshot(name, BookRecords(books), bookOrder, MemberRecords(members), memberOrder,
               librarians, librarianOrder, TransactionRecords(transactions), transactionOrder,
               nextBookId, nextMemberId, nextLibrarianId, nextTransactionId)
    }

    /** `Valid` holds of a library whose state is a well-formed snapshot. */
    lemma ValidAt(s: Snapshot)
      requires State() == s && WellFormed(s)
      ensures Valid()
    {
    }

    /** Every order lists its registry, every entity is filed under its own id, every loan is coherent. */
    ghost predicate Valid()
      reads this, books.Values, members.Values, transactions.Values
    {
      WellFormed(State())
    }

    /** `Library.__init__`: nothing registered, every counter at 1. */
    constructor (name: string)
      ensures Valid()
      ensures State() == Empty(name)
    {
      this.name := name;
      books := map[];
      bookOrder := [];
      members := map[];
      memberOrder := [];
      librarians := map[];
      librarianOrder := [];
      transactions := map[];
      transactionOrder := [];
      nextBookId := 1;
      nextMemberId := 1;
      nextLibrarianId := 1;
      nextTransactionId := 1;
    }

    /** Every entity object is filed under its own id. */
    lemma Filed()
      requires Valid()
      ensures forall k :: k in books ==> books[k].bookId == k
      ensures forall k :: k in members ==> members[k].memberId == k
      ensures forall k :: k in librarians ==> librarians[k].librarianId == k
      ensures forall k :: k in transactions ==> transactions[k].transactionId == k
    {
      forall k | k in books ensures books[k].bookId == k {
        assert State().books[k].bookId == k;
      }
      forall k | k in members ensures members[k].memberId == k {
        assert State().members[k].memberId == k;
      }
      forall k | k in transactions ensures transactions[k].transactionId == k {
        assert State().transactions[k].transactionId == k;
      }
    }

    /** `Library.add_book`: files the very object given, unless its id is taken. */
    method AddBook(book: Book) returns (ok: bool)
      requires Valid()
      modifies this
      ensures Valid()
      ensures Change(State(), ok) == LibraryState.AddBook(old(State()), book.ToDict())
      ensures ok ==> books == old(books)[book.bookId := book]
      ensures !ok ==> unchanged(this)
    {
      if book.bookId in books {
        return false;
      }
      NoDuplicatesAppend(bookOrder, book.bookId);
      assert BookRecords(books[book.bookId := book]) == BookRecords(books)[book.bookId := book.ToDict()];
      books := books[book.bookId := book];
      bookOrder := bookOrder + [book.bookId];
      return true;
    }

    /** `Library.remove_book`. */
    method RemoveBook(bookId: int) returns (ok: bool)
      requires Valid()
      modifies this
      ensures Valid()
      ensures Change(State(), ok) == LibraryState.RemoveBook(old(State()), bookId)
      ensures books == old(books) - {bookId}
    {
      if bookId in books {
        books := books - {bookId};
        bookOrder := Without(bookOrder, bookId);
        return true;
      }
      return false;
    }

    /** `Library.add_member`: files the very object given, unless its id is taken. */
    method AddMember(member: Member) returns (ok: bool)
      requires Valid()
      modifies this
      ensures Valid()
      ensures Change(State(), ok) == LibraryState.AddMember(old(State()), member.ToDict())
      ensures ok ==> members == old(members)[member.memberId := member]
      ensures !ok ==> unchanged(this)
    {
      if member.memberId in members {
        return false;
      }
      NoDuplicatesAppend(memberOrder, member.memberId);
      assert MemberRecords(members[member.memberId := member])
          == MemberRecords(members)[member.memberId := member.ToDict()];
      members := members[member.memberId := member];
      memberOrder := memberOrder + [member.memberId];
      return true;
    }

    /** `Library.add_librarian`. */
    method AddLibrarian(librarian: Librarian) returns (ok: bool)
      requires Valid()
      modifies this
      ensures Valid()
      ensures Change(State(), ok) == LibraryState.AddLibrarian(old(State()), librarian)
      ensures !ok ==> unchanged(this)
    {
      if librarian.librarianId in librarians {
        return false;
      }
      NoDuplicatesAppend(librarianOrder, librarian.librarianId);
      librarians := librarians[librarian.librarianId := librarian];
      librarianOrder := librarianOrder + [librarian.librarianId];
      return true;
    }
  
    /** Books are filed under their own ids, so distinct ids hold distinct book objects. */
    lemma BooksDistinct(bookId: int)
      requires Valid() && bookId in books
      ensures books[bookId].bookId == bookId
      ensures forall k :: k in books && k != bookId ==> books[k] != books[bookId]
    {
      forall k | k in books ensures books[k].bookId == k {
        assert State().books[k].bookId == k;
      }
    }

    lemma MembersDistinct(memberId: int)
      requires Valid() && memberId in members
      ensures members[memberId].memberId == memberId
      ensures forall k :: k in members && k != memberId ==> members[k] != members[memberId]
    {
      forall k | k in members ensures members[k].memberId == k {
        assert State().members[k].memberId == k;
      }
    }

    lemma TransactionsDistinct(tid: int)
      requires Valid() && tid in transactions
      ensures transactions[tid].transactionId == tid
      ensures forall k :: k in transactions && k != tid ==> transactions[k] != transactions[tid]
    {
      forall k | k in transactions ensures transactions[k].transactionId == k {
        assert State().transactions[k].transactionId == k;
      }
    }

    /** `book.borrow()` on the book filed under `bookId`: its record alone is marked out. */
    method LendBook(bookId: int)
      requires bookId in books
      requires forall k :: k in books && k != bookId ==> books[k] != books[bookId]
      modifies books[bookId]
      ensures State() == old(State()).(books := old(State()).books[bookId := old(State()).books[bookId].(available := false)])
    {
      ghost var records := BookRecords(books);
      var _ := books[bookId].Borrow();
      forall k | k in books && k != bookId ensures BookRecords(books)[k] == records[k] {
        assert books[k].ToDict() == old(books[k].ToDict());
      }
      assert BookRecords(books) == records[bookId := books[bookId].ToDict()];
    }

    /** `book.return_book()` on the book filed under `bookId`: its record alone is back on the shelf. */
    method ShelveBook(bookId: int)
      requires bookId in books
      requires forall k :: k in books && k != bookId ==> books[k] != books[bookId]
      modifies books[bookId]
      ensures State() == old(State()).(books := old(State()).books[bookId := old(State()).books[bookId].(available := true)])
    {
      ghost var records := BookRecords(books);
      books[bookId].ReturnBook();
      forall k | k in books && k != bookId ensures BookRecords(books)[k] == records[k] {
        assert books[k].ToDict() == old(books[k].ToDict());
      }
      assert BookRecords(books) == records[bookId := books[bookId].ToDict()];
    }

    /** `member.borrow_book(book_id)` on the member filed under `memberId`. */
    method RecordBorrowing(memberId: int, bookId: int)
      requires memberId in members
      requires forall k :: k in members && k != memberId ==> members[k] != members[memberId]
      modifies members[memberId]
      ensures var m := old(State()).members[memberId];
        State() == old(State()).(members := old(State()).members[memberId := m.(borrowedBooks := AppendIfAbsent(m.borrowedBooks, bookId))])
    {
      ghost var records := MemberRecords(members);
      var _ := members[memberId].BorrowBook(bookId);
      forall k | k in members && k != memberId ensures MemberRecords(members)[k] == records[k] {
        assert members[k].ToDict() == old(members[k].ToDict());
      }
      assert MemberRecords(members) == records[memberId := members[memberId].ToDict()];
    }

    /** `member.return_book(book_id)` on the member filed under `memberId`. */
    method RecordReturn(memberId: int, bookId: int)
      requires memberId in members
      requires forall k :: k in members && k != memberId ==> members[k] != members[memberId]
      modifies members[memberId]
      ensures var m := old(State()).members[memberId];
        State() == old(State()).(members := old(State()).members[memberId := m.(borrowedBooks := RemoveFirst(m.borrowedBooks, bookId))])
    {
      ghost var records := MemberRecords(members);
      var _ := members[memberId].ReturnBook(bookId);
      forall k | k in members && k != memberId ensures MemberRecords(members)[k] == records[k] {
        assert members[k].ToDict() == old(members[k].ToDict());
      }
      assert MemberRecords(members) == records[memberId := members[memberId].ToDict()];
    }

    /** `transaction.return_book()` on the transaction filed under `tid`, dated `now`. */
    method CloseTransaction(tid: int, now: int)
      requires tid in transactions
      requires forall k :: k in transactions && k != tid ==> transactions[k] != transactions[tid]
      modifies transactions[tid]
      ensures var t := old(State()).transactions[tid];
        State() == old(State()).(transactions := old(State()).transactions[tid := t.(returnDate := Some(now), isReturned := true)])
    {
      ghost var records := TransactionRecords(transactions);
      transactions[tid].ReturnBook(None, now);
      forall k | k in transactions && k != tid ensures TransactionRecords(transactions)[k] == records[k] {
        assert transactions[k].ToDict() == old(transactions[k].ToDict());
      }
      assert TransactionRecords(transactions) == records[tid := transactions[tid].ToDict()];
    }

    /**
     * `self.transactions[id] = t` followed by `self.next_transaction_id += 1`: an id already on
     * record keeps its place in the order.
     */
    method FileTransaction(id: int, t: BorrowTransaction)
      modifies this
      ensures State() == PutTransaction(old(State()), id, old(t.ToDict())).(nextTransactionId := old(nextTransactionId) + 1)
      ensures books == old(books) && members == old(members)
      ensures transactions == old(transactions)[id := t]
    {
      TransactionRecordsPut(transactions, id, t);
      if id !in transactions {
        transactionOrder := transactionOrder + [id];
      }
      transactions := transactions[id := t];
      nextTransactionId := nextTransactionId + 1;
    }

    /**
     * The successful half of `borrow_book`: a loan object filed under the transaction counter,
     * the book marked out, the member's list extended, the counter advanced.
     */
    method OpenLoan(memberId: int, bookId: int, librarianId: int, now: int) returns (tid: int)
      requires Valid()
      requires memberId in members && bookId in books && librarianId in librarians && books[bookId].available
      modifies this, books[bookId], members[memberId]
      ensures Valid()
      ensures tid == old(nextTransactionId)
      ensures State() == Borrow(old(State()), memberId, bookId, librarianId, now).state
      ensures books == old(books) && members == old(members)
      ensures tid in transactions && fresh(transactions[tid]) && transactions == old(transactions)[tid := transactions[tid]]
    {
      ghost var before := State();
      BooksDistinct(bookId);
      MembersDistinct(memberId);
      tid := nextTransactionId;
      var transaction := StartLoan(tid, memberId, bookId, librarianId, now);
      FileLoan(before, memberId, bookId, librarianId, now, transaction);
    }

    /** The last step of a successful borrow: the new loan object filed and the counter advanced. */
    method FileLoan(ghost before: Snapshot, memberId: int, bookId: int, librarianId: int, now: int, t: BorrowTransaction)
      requires WellFormed(before)
      requires memberId in before.members && bookId in before.books && librarianId in before.librarians
      requires before.books[bookId].available
      requires State() == Lent(before, memberId, bookId) && nextTransactionId == before.nextTransactionId
      requires t.ToDict() == TransactionData(nextTransactionId, bookId, memberId, librarianId, now, now + LoanPeriod, None, false)
      modifies this
      ensures Valid()
      ensures nextTransactionId == old(nextTransactionId) + 1
      ensures State() == Borrow(before, memberId, bookId, librarianId, now).state
      ensures books == old(books) && members == old(members)
      ensures transactions == old(transactions)[old(nextTransactionId) := t]
    {
      ghost var lent, record := State(), t.ToDict();
      FileTransaction(nextTransactionId, t);
      BorrowSplits(before, memberId, bookId, librarianId, now, lent, record, State());
      ValidAt(State());
    }

    /**
     * The middle of a successful borrow: the new transaction object, then `book.borrow()` and
     * `member.borrow_book(book_id)`, which change those two entities and nothing else.
     */
    method StartLoan(tid: int, memberId: int, bookId: int, librarianId: int, now: int) returns (t: BorrowTransaction)
      requires memberId in members && bookId in books
      requires forall k :: k in books && k != bookId ==> books[k] != books[bookId]
      requires forall k :: k in members && k != memberId ==> members[k] != members[memberId]
      modifies books[bookId], members[memberId]
      ensures fresh(t)
      ensures t.ToDict() == TransactionData(tid, bookId, memberId, librarianId, now, now + LoanPeriod, None, false)
      ensures State() == Lent(old(State()), memberId, bookId)
    {
      t := new BorrowTransaction(tid, bookId, memberId, librarianId, now);
      ghost var record := t.ToDict();
      assert State() == old(State());
      LendBook(bookId);
      ghost var lent := State();
      RecordBorrowing(memberId, bookId);
      assert State().books == lent.books;
      assert t.ToDict() == record;
    }

    /**
     * `Library.borrow_book` at time `now`: on success the book object is marked out, the member
     * object records it, and a new transaction object is filed under the transaction counter.
     */
    method BorrowBook(memberId: int, bookId: int, librarianId: int, now: int) returns (success: bool, message: string)
      requires Valid()
      modifies this, books.Values, members.Values
      ensures Valid()
      ensures Step(State(), success, message) == Borrow(old(State()), memberId, bookId, librarianId, now)
      ensures books == old(books) && members == old(members)
      ensures success ==> old(nextTransactionId) in transactions && fresh(transactions[old(nextTransactionId)])
      ensures forall k :: k in old(transactions) && !(success && k == old(nextTransactionId)) ==>
                k in transactions && transactions[k] == old(transactions[k])
    {
      if memberId !in members {
        return false, MemberNotFound;
      }
      if bookId !in books {
        return false, BookNotFound;
      }
      if librarianId !in librarians {
        return false, LibrarianNotFound;
      }
      if !books[bookId].available {
        return false, BookNotAvailable;
      }
      var tid := OpenLoan(memberId, bookId, librarianId, now);
      return true, BorrowedMessage(tid);
    }

    /**
     * The scan of `return_book`: the transactions in insertion order, stopping at the first open
     * loan of `bookId` to `memberId`.
     */
    method FindActiveTransaction(bookId: int, memberId: int) returns (active: Option<BorrowTransaction>)
      requires forall k :: k in transactionOrder ==> k in transactions
      ensures var first := FirstOpen(TransactionRecords(transactions), transactionOrder, bookId, memberId);
        && (first.None? ==> active.None?)
        && (first.Some? ==> first.value in transactions && active == Some(transactions[first.value]))
    {
      ghost var records := TransactionRecords(transactions);
      active := None;
      var i := 0;
      assert transactionOrder[i..] == transactionOrder;
      while i < |transactionOrder|
        invariant 0 <= i <= |transactionOrder|
        invariant forall k :: k in transactionOrder ==> k in transactions
        invariant FirstOpen(records, transactionOrder[i..], bookId, memberId)
               == FirstOpen(records, transactionOrder, bookId, memberId)
      {
        assert transactionOrder[i] in transactionOrder;
        var transaction := transactions[transactionOrder[i]];
        assert records[transactionOrder[i]] == transaction.ToDict();
        FirstOpenStep(records, transactionOrder, i, bookId, memberId);
        if transaction.bookId == bookId && transaction.memberId == memberId && !transaction.isReturned {
          return Some(transaction);
        }
        i := i + 1;
      }
    }

    /**
     * `Library.return_book` at time `now`: scans the transactions in insertion order for the first
     * open loan of the book to the member, closes it, puts the book back and clears the member's entry.
     */
    method ReturnBook(memberId: int, bookId: int, now: int) returns (success: bool, message: string)
      requires Valid()
      modifies books.Values, members.Values, transactions.Values
      ensures Valid()
      ensures Step(State(), success, message) == Return(old(State()), memberId, bookId, now)
    {
      if memberId !in members {
        return false, MemberNotFound;
      }
      if bookId !in books {
        return false, BookNotFound;
      }
      ghost var before := State();
      BooksDistinct(bookId);
      MembersDistinct(memberId);
      assert forall k :: k in transactionOrder ==> k in transactions;
      var active := FindActiveTransaction(bookId, memberId);
      if active.None? {
        return false, NoActiveTransaction;
      }
      var tid := active.value.transactionId;
      assert FirstOpen(before.transactions, transactionOrder, bookId, memberId) == Some(tid);
      TransactionsDistinct(tid);
      CloseLoan(tid, memberId, bookId, now);
      ReturnSplits(before, memberId, bookId, now, tid, State());
      ValidAt(State());
      return true, ReturnedMessage(tid);
    }

    /**
     * The successful half of `return_book`: `transaction.return_book()`, `book.return_book()` and
     * `member.return_book(book_id)`, which change those three entities and nothing else.
     */
    method CloseLoan(tid: int, memberId: int, bookId: int, now: int)
      requires tid in transactions && memberId in members && bookId in books
      requires forall k :: k in transactions && k != tid ==> transactions[k] != transactions[tid]
      requires forall k :: k in books && k != bookId ==> books[k] != books[bookId]
      requires forall k :: k in members && k != memberId ==> members[k] != members[memberId]
      modifies transactions[tid], books[bookId], members[memberId]
      ensures State() == Returned(old(State()), tid, memberId, bookId, now)
    {
      CloseTransaction(tid, now);
      ghost var closed := State();
      ShelveBook(bookId);
      ghost var shelved := State();
      RecordReturn(memberId, bookId);
      assert shelved.transactions == closed.transactions;
    }

    // -------------------------------------------------------------------------------------
    // Queries

    /** `get_all_books`: every registered book once, in registry order. */
    function GetAllBooks(): (r: seq<Book>)
      requires Valid()
      reads this, books.Values, members.Values, transactions.Values
      ensures |r| == |books.Keys| && NoDuplicates(r)
      ensures forall k :: k in books ==> books[k] in r
      ensures forall b :: b in r ==> b in books.Values
      ensures |r| == |bookOrder| && forall i :: 0 <= i < |r| ==> bookOrder[i] in books && r[i] == books[bookOrder[i]]
    {
      Filed();
      Listing(books, bookOrder, BookIdOf);
      ProjectAt(books, bookOrder);
      EnumeratesSize(bookOrder, books.Keys);
      Project(books, bookOrder)
    }

    /** `get_available_books`: exactly the registered books on the shelf, each once, in registry order. */
    function GetAvailableBooks(): (r: seq<Book>)
      requires Valid()
      reads this, books.Values, members.Values, transactions.Values
      ensures NoDuplicates(r)
      ensures forall k :: k in books ==> (books[k] in r <==> books[k].available)
      ensures forall b :: b in r ==> b in books.Values
      ensures r == Project(books, AvailableBookIds(State())) && Subsequence(r, GetAllBooks())
    {
      Shelf(true);
      Project(books, AvailableBookIds(State()))
    }

    /** `get_borrowed_books`: exactly the registered books that are out, each once, in registry order. */
    function GetBorrowedBooks(): (r: seq<Book>)
      requires Valid()
      reads this, books.Values, members.Values, transactions.Values
      ensures NoDuplicates(r)
      ensures forall k :: k in books ==> (books[k] in r <==> !books[k].available)
      ensures forall b :: b in r ==> b in books.Values
      ensures r == Project(books, BorrowedBookIds(State())) && Subsequence(r, GetAllBooks())
    {
      Shelf(false);
      Project(books, BorrowedBookIds(State()))
    }

    /** The books on the shelf (`polarity` true) or out (false), in registry order. */
    lemma Shelf(polarity: bool)
      requires Valid()
      ensures var r := Project(books, Select(bookOrder, Availability(State().books), polarity));
        && NoDuplicates(r)
        && (forall k :: k in books ==> (books[k] in r <==> books[k].available == polarity))
        && (forall b :: b in r ==> b in books.Values)
        && Subsequence(r, GetAllBooks())
    {
      Filed();
      Shelved(books, State().books, bookOrder, polarity);
    }

    /** `get_all_members`: every registered member once, in registry order. */
    function GetAllMembers(): (r: seq<Member>)
      requires Valid()
      reads this, books.Values, members.Values, transactions.Values
      ensures |r| == |members.Keys| && NoDuplicates(r)
      ensures forall k :: k in members ==> members[k] in r
      ensures forall m :: m in r ==> m in members.Values
      ensures |r| == |memberOrder| && forall i :: 0 <= i < |r| ==> memberOrder[i] in members && r[i] == members[memberOrder[i]]
    {
      Filed();
      Listing(members, memberOrder, MemberIdOf);
      ProjectAt(members, memberOrder);
      EnumeratesSize(memberOrder, members.Keys);
      Project(members, memberOrder)
    }

    /** `get_all_librarians`: every registered librarian once, in registry order. */
    function GetAllLibrarians(): (r: seq<Librarian>)
      requires Valid()
      reads this, books.Values, members.Values, transactions.Values
      ensures |r| == |librarians.Keys| && NoDuplicates(r)
      ensures forall k :: k in librarians ==> librarians[k] in r
      ensures forall l :: l in r ==> l in librarians.Values
      ensures |r| == |librarianOrder|
      ensures forall i :: 0 <= i < |r| ==> librarianOrder[i] in librarians && r[i] == librarians[librarianOrder[i]]
    {
      Filed();
      Listing(librarians, librarianOrder, LibrarianKey);
      ProjectAt(librarians, librarianOrder);
      EnumeratesSize(librarianOrder, librarians.Keys);
      Project(librarians, librarianOrder)
    }

    /** `get_all_transactions`: every transaction on record once, in the order they were filed. */
    function GetAllTransactions(): (r: seq<BorrowTransaction>)
      requires Valid()
      reads this, books.Values, members.Values, transactions.Values
      ensures |r| == |transactions.Keys| && NoDuplicates(r)
      ensures forall k :: k in transactions ==> transactions[k] in r
      ensures forall t :: t in r ==> t in transactions.Values
      ensures |r| == |transactionOrder|
      ensures forall i :: 0 <= i < |r| ==> transactionOrder[i] in transactions && r[i] == transactions[transactionOrder[i]]
    {
      Filed();
      Listing(transactions, transactionOrder, TransactionIdOf);
      ProjectAt(transactions, transactionOrder);
      EnumeratesSize(transactionOrder, transactions.Keys);
      Project(transactions, transactionOrder)
    }
  
    /**
     * `get_member_borrowed_books`: nothing for an unknown member; otherwise the books on the
     * member's list that are still registered, in the member's order.
     */
    method GetMemberBorrowedBooks(memberId: int) returns (r: seq<Book>)
      requires Valid()
      ensures r == Project(books, MemberBorrowedIds(State(), memberId))
      ensures memberId !in members ==> r == []
      ensures forall k :: k in books ==> (books[k] in r <==> memberId in members && k in members[memberId].borrowedBooks)
      ensures forall b :: b in r ==> b in books.Values
      ensures Consistent(State()) && memberId in members ==>
                forall k :: k in books ==> (books[k] in r <==> OnLoanTo(State(), k, memberId))
    {
      if memberId !in members {
        return [];
      }
      var borrowed := members[memberId].borrowedBooks;
      r := [];
      var i := 0;
      while i < |borrowed|
        invariant 0 <= i <= |borrowed|
        invariant r == Project(books, borrowed[..i])
      {
        var bookId := borrowed[i];
        assert borrowed[..i + 1] == borrowed[..i] + [bookId];
        ProjectSnoc(books, borrowed[..i], bookId);
        if bookId in books {
          r := r + [books[bookId]];
        }
        i := i + 1;
      }
      assert borrowed[..i] == borrowed;
      ProjectRegistered(books, State().books, borrowed);
      Filed();
      MemberBorrowedBooks(State(), memberId);
      Listing(books, MemberBorrowedIds(State(), memberId), BookIdOf);
      if Consistent(State()) {
        MemberBorrowedBooksAreLoans(State(), memberId);
      }
    }

    /**
     * `search_books`: the registered books, in registry order, whose lower-cased title, author
     * or ISBN contains the lower-cased query.
     */
    method SearchBooks(query: string) returns (r: seq<Book>)
      requires Valid()
      ensures r == Project(books, SearchIds(State(), query))
      ensures NoDuplicates(r)
      ensures forall k :: k in books ==> (books[k] in r <==> Matches(books[k].ToDict(), Lower(query)))
      ensures forall b :: b in r ==> b in books.Values
      ensures query == [] ==> r == GetAllBooks()
    {
      assert forall k :: k in bookOrder ==> k in books;
      var q := Lower(query);
      r := CollectMatches(q);
      SearchListing(query);
    }

    /** The scan of `search_books`: the books, in registry order, that match the lower-cased query. */
    method CollectMatches(q: string) returns (r: seq<Book>)
      requires forall k :: k in bookOrder ==> k in books
      ensures r == Project(books, Select(bookOrder, Matching(BookRecords(books), q), true))
    {
      ghost var records := BookRecords(books);
      ghost var keep := Matching(records, q);
      r := [];
      var i := 0;
      while i < |bookOrder|
        invariant 0 <= i <= |bookOrder|
        invariant forall k :: k in bookOrder ==> k in books
        invariant r == Project(books, Select(bookOrder[..i], keep, true))
      {
        var id := bookOrder[i];
        assert id in bookOrder;
        var book := books[id];
        var hit := Matches(book.ToDict(), q);
        assert records[id] == book.ToDict();
        ListingStep(books, bookOrder, i, keep);
        if hit {
          r := r + [book];
        }
        i := i + 1;
      }
      assert bookOrder[..i] == bookOrder;
    }

    /** What the listing of `SearchIds` holds, in terms of the book objects. */
    lemma SearchListing(query: string)
      requires Valid()
      ensures var r := Project(books, SearchIds(State(), query));
        && NoDuplicates(r)
        && (forall k :: k in books ==> (books[k] in r <==> Matches(books[k].ToDict(), Lower(query))))
        && (forall b :: b in r ==> b in books.Values)
        && (query == [] ==> r == GetAllBooks())
    {
      Filed();
      SearchResults(State(), query);
      Listing(books, SearchIds(State(), query), BookIdOf);
    }

    /**
     * `save_to_file`'s document: every registry as its `to_dict` records in insertion order, and
     * `next_ids` holding all four counters. Loading it gives back exactly this library.
     */
    function SaveToFile(): (d: LibraryData)
      requires Valid()
      reads this, books.Values, members.Values, transactions.Values
      ensures Load(d) == State()
      ensures d.name == name
      ensures |d.books| == |books| && |d.members| == |members| && |d.transactions| == |transactions|
      ensures |d.librarians| == |librarians|
      ensures d.nextIds == map["book" := nextBookId, "member" := nextMemberId,
                               "librarian" := nextLibrarianId, "transaction" := nextTransactionId]
    {
      var s := State();
      SaveLoadRoundTrip(s);
      SaveSizes(s);
      assert s.books.Keys == books.Keys && s.members.Keys == members.Keys && s.transactions.Keys == transactions.Keys;
      Save(s)
    }

    /** Files the three object registries and their orders; nothing else changes. */
    method Install(books: map<int, Book>, bookOrder: seq<int>, members: map<int, Member>, memberOrder: seq<int>,
                   transactions: map<int, BorrowTransaction>, transactionOrder: seq<int>)
      modifies this
      ensures BookRecords(this.books) == old(BookRecords(books)) && this.bookOrder == bookOrder
      ensures MemberRecords(this.members) == old(MemberRecords(members)) && this.memberOrder == memberOrder
      ensures TransactionRecords(this.transactions) == old(TransactionRecords(transactions))
      ensures this.transactionOrder == transactionOrder
      ensures this.books == books && this.members == members && this.transactions == transactions
      ensures name == old(name) && librarians == old(librarians) && librarianOrder == old(librarianOrder)
      ensures nextBookId == old(nextBookId) && nextMemberId == old(nextMemberId)
      ensures nextLibrarianId == old(nextLibrarianId) && nextTransactionId == old(nextTransactionId)
    {
      this.books, this.bookOrder := books, bookOrder;
      this.members, this.memberOrder := members, memberOrder;
      this.transactions, this.transactionOrder := transactions, transactionOrder;
    }

    /**
     * `load_from_file` on the parsed file, `None` when the file is missing or is not JSON: then
     * nothing changes and the answer is false. Otherwise every registry is replaced by fresh
     * objects rebuilt from the document, and the library is exactly `Load` of it.
     */
    method LoadFromFile(file: Option<LibraryData>) returns (ok: bool)
      modifies this
      ensures ok == file.Some?
      ensures !ok ==> unchanged(this)
      ensures ok ==> Valid() && State() == Load(file.value)
      ensures ok ==> (forall k :: k in books ==> fresh(books[k])) && (forall k :: k in members ==> fresh(members[k]))
                       && (forall k :: k in transactions ==> fresh(transactions[k]))
    {
      if file.None? {
        return false;
      }
      var data := file.value;
      name := data.name;
      librarians, librarianOrder := LoadLibrarians(data.librarians);
      nextBookId := GetOr(data.nextIds, "book", 1);
      nextMemberId := GetOr(data.nextIds, "member", 1);
      nextLibrarianId := GetOr(data.nextIds, "librarian", 1);
      nextTransactionId := GetOr(data.nextIds, "transaction", 1);
      var bookMap, bookIds, memberMap, memberIds, transactionMap, transactionIds := LoadObjects(data);
      ghost var installed := Snapshot(name, BookRecords(bookMap), bookIds, MemberRecords(memberMap), memberIds,
                                      librarians, librarianOrder, TransactionRecords(transactionMap), transactionIds,
                                      nextBookId, nextMemberId, nextLibrarianId, nextTransactionId);
      LoadFrom(data, installed.books, bookIds, installed.members, memberIds, librarians, librarianOrder,
               installed.transactions, transactionIds);
      Install(bookMap, bookIds, memberMap, memberIds, transactionMap, transactionIds);
      assert State() == installed;
      return true;
    }
  }
}
