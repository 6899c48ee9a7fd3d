/** A librarian: an identity that performs operations; nothing about it ever changes. */
module Librarians {

  /** The dictionary `Librarian.to_dict` produces. */
  datatype LibrarianData = LibrarianData(librarianId: int, name: string, email: string)

  datatype Librarian = Librarian(librarianId: int, name: string, email: string)
  {
    /** `Librarian.to_dict`. */
    function ToDict(): (d: LibrarianData)
      ensures d.librarianId == librarianId
    {
      LibrarianData(librarianId, name, email)
    }
  }

  /** `Librarian.from_dict`: rebuilds the librarian whose dictionary is `d`. */
  function FromDict(d: LibrarianData): (l: Librarian)
    ensures l.ToDict() == d
  {
    Librarian(d.librarianId, d.name, d.email)
  }

  /** `from_dict(to_dict(l))` is `l`, field by field. */
  lemma RoundTrip(l: Librarian)
    ensures FromDict(l.ToDict()) == l
  {
  }
}
