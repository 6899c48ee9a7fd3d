/** One loan of one book to one member, with its due date and overdue arithmetic. */
module Transactions {
  import opened Common

  /** Timestamps are whole seconds; a day is 86400 of them. */
  const Day: int := 86400

  /** The default loan period: two weeks. */
  const LoanPeriod: int := 14 * Day

  /** The dictionary `BorrowTransaction.to_dict` produces (timestamps kept as numbers). */
  datatype TransactionData = TransactionData(
    transactionId: int,
    bookId: int,
    memberId: int,
    librarianId: int,
    borrowDate: int,
    dueDate: int,
    returnDate: Option<int>,
    isReturned: bool)
  {
    /** The closed/open flag agrees with the presence of a return date, as every transaction object keeps it. */
    predicate Coherent()
    {
      isReturned == returnDate.Some?
    }
  }

  /**
   * `to_dict(from_dict(d))`: `from_dict` ignores the stored `is_returned` and derives it from
   * `return_date`; every other field, the due date included, is kept as stored.
   */
  function Reloaded(d: TransactionData): (r: TransactionData)
    ensures r.Coherent()
    ensures r.(isReturned := d.isReturned) == d
    ensures d.Coherent() ==> r == d
  {
    d.(isReturned := d.returnDate.Some?)
  }

  /** A borrow transaction. Only the return date and the returned flag change after construction. */
  class BorrowTransaction {
    const transactionId: int
    const bookId: int
    const memberId: int
    const librarianId: int
    const borrowDate: int
    const dueDate: int
    var returnDate: Option<int>
    var isReturned: bool

    ghost predicate Valid()
      reads this
    {
      ToDict().Coherent()
    }

    /**
     * Without a due date the loan is due two weeks after it began; a given due date is kept.
     * The transaction is closed from the start exactly when a return date is given.
     */
    constructor (transactionId: int, bookId: int, memberId: int, librarianId: int, borrowDate: int,
                 dueDate: Option<int> := None, returnDate: Option<int> := None)
      ensures Valid()
      ensures ToDict() == TransactionData(transactionId, bookId, memberId, librarianId, borrowDate,
                                          if dueDate.Some? then dueDate.value else borrowDate + LoanPeriod,
                                          returnDate, returnDate.Some?)
    {
      this.transactionId := transactionId;
      this.bookId := bookId;
      this.memberId := memberId;
      this.librarianId := librarianId;
      this.borrowDate := borrowDate;
      this.dueDate := if dueDate.Some? then dueDate.value else borrowDate + LoanPeriod;
      this.returnDate := returnDate;
      this.isReturned := returnDate.Some?;
    }

    /** `BorrowTransaction.from_dict`: the stored due date is not recomputed; the flag is re-derived. */
    constructor FromDict(d: TransactionData)
      ensures Valid()
      ensures ToDict() == Reloaded(d)
    {
      transactionId := d.transactionId;
      bookId := d.bookId;
      memberId := d.memberId;
      librarianId := d.librarianId;
      borrowDate := d.borrowDate;
      dueDate := d.dueDate;
      returnDate := d.returnDate;
      isReturned := d.returnDate.Some?;
    }

    /** `BorrowTransaction.to_dict`. */
    function ToDict(): TransactionData
      reads this
    {
      TransactionData(transactionId, bookId, memberId, librarianId, borrowDate, dueDate, returnDate, isReturned)
    }

    /** Closes the loan, dated `returnDate` if one is given and `now` otherwise. */
    method ReturnBook(returnDate: Option<int>, now: int)
      modifies this
      ensures Valid()
      ensures ToDict() == old(ToDict()).(returnDate := Some(if returnDate.Some? then returnDate.value else now),
                                         isReturned := true)
    {
      this.returnDate := Some(if returnDate.Some? then returnDate.value else now);
      isReturned := true;
    }

    /** The instant the overdue question is asked about: the return date once closed, else `now`. */
    function AsOf(now: int): int
      requires Valid()
      reads this
    {
      if isReturned then returnDate.value else now
    }

    /** `BorrowTransaction.is_overdue`, with the current time passed in. */
    function IsOverdue(now: int): (r: bool)
      requires Valid()
      reads this
      ensures r <==> AsOf(now) > dueDate
      ensures !isReturned ==> (r <==> now > dueDate)
      ensures isReturned ==> (r <==> returnDate.value > dueDate)
    {
      if isReturned then returnDate.value > dueDate else now > dueDate
    }

    /**
     * `BorrowTransaction.get_days_overdue`: zero unless past due, otherwise the number of whole
     * days (rounded down) by which the as-of instant passes the due date.
     */
    function DaysOverdue(now: int): (n: int)
      requires Valid()
      reads this
      ensures n >= 0
      ensures AsOf(now) <= dueDate ==> n == 0
      ensures AsOf(now) > dueDate ==> n * Day <= AsOf(now) - dueDate < (n + 1) * Day
      ensures n > 0 ==> IsOverdue(now)
    {
      if !isReturned then
        (if now > dueDate then (now - dueDate) / Day else 0)
      else
        (if returnDate.value > dueDate then (returnDate.value - dueDate) / Day else 0)
    }
  }

  /** A loan opened with the default due date is not overdue at the instant it is opened. */
  lemma NotOverdueWhenOpened(t: BorrowTransaction)
    requires t.Valid() && !t.isReturned && t.dueDate == t.borrowDate + LoanPeriod
    ensures !t.IsOverdue(t.borrowDate)
    ensures t.DaysOverdue(t.borrowDate) == 0
  {
  }
}
