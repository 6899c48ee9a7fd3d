/** A book of the library and its dictionary form. */
module Books {

  /** The dictionary `Book.to_dict` produces: every field of the book. */
  datatype BookData = BookData(
    bookId: int,
    title: string,
    author: string,
    isbn: string,
    publicationYear: int,
    available: bool)

  /**
   * A book. Only `available` is ever reassigned, by `Borrow` and `ReturnBook`;
   * the descriptive fields are fixed at construction.
   */
  class Book {
    const bookId: int
    const title: string
    const author: string
    const isbn: string
    const publicationYear: int
    var available: bool

    /** A new book is available unless the caller says otherwise. */
    constructor (bookId: int, title: string, author: string, isbn: string, publicationYear: int,
                 available: bool := true)
      ensures ToDict() == BookData(bookId, title, author, isbn, publicationYear, available)
    {
      this.bookId := bookId;
      this.title := title;
      this.author := author;
      this.isbn := isbn;
      this.publicationYear := publicationYear;
      this.available := available;
    }

    /** `Book.from_dict`: rebuilds a book whose dictionary is exactly `d`. */
    constructor FromDict(d: BookData)
      ensures ToDict() == d
    {
      bookId := d.bookId;
      title := d.title;
      author := d.author;
      isbn := d.isbn;
      publicationYear := d.publicationYear;
      available := d.available;
    }

    /** `Book.to_dict`. */
    function ToDict(): BookData
      reads this
    {
      BookData(bookId, title, author, isbn, publicationYear, available)
    }

    /** Lends the book out if it is on the shelf; reports whether it was. */
    method Borrow() returns (ok: bool)
      modifies this
      ensures ok == old(available)
      ensures ok ==> ToDict() == old(ToDict()).(available := false)
      ensures !ok ==> ToDict() == old(ToDict())
    {
      if available {
        available := false;
        return true;
      }
      return false;
    }

    /** Puts the book back on the shelf, whatever its state was. */
    method ReturnBook()
      modifies this
      ensures ToDict() == old(ToDict()).(available := true)
    {
      available := true;
    }
  }

  /** Borrowing an available book and returning it leaves the book exactly as it was. */
  method BorrowThenReturn(b: Book) returns (ok: bool)
    requires b.available
    modifies b
    ensures ok
    ensures b.ToDict() == old(b.ToDict())
  {
    ok := b.Borrow();
    b.ReturnBook();
  }

  /** Returning twice is returning once. */
  method ReturnTwice(b: Book)
    modifies b
    ensures b.ToDict() == old(b.ToDict()).(available := true)
  {
    b.ReturnBook();
    b.ReturnBook();
  }
}
