/** A library member, the list of book ids they hold, and its dictionary form. */
module Members {
  import opened Common

  /** The dictionary `Member.to_dict` produces; `borrowedBooks` is a copy of the member's list. */
  datatype MemberData = MemberData(
    memberId: int,
    name: string,
    email: string,
    phone: string,
    borrowedBooks: seq<int>)

  /** `list.append` guarded by `not in`: the list after `Member.borrow_book(x)`. */
  function AppendIfAbsent(s: seq<int>, x: int): (r: seq<int>)
    ensures x in r
    ensures forall y :: y in r <==> y in s || y == x
    ensures NoDuplicates(s) ==> NoDuplicates(r)
  {
    if x in s then s else s + [x]
  }

  /** `borrow_book`'s append keeps the list as its prefix and adds at most one entry, none when `x` is listed. */
  lemma AppendIfAbsentShape(s: seq<int>, x: int)
    ensures var r := AppendIfAbsent(s, x);
      && |s| <= |r| <= |s| + 1 && r[..|s|] == s
      && (x in s <==> |r| == |s|)
  {
  }

  /** Position of the first occurrence of `x` in `s` (`list.index`), or `|s|` when there is none. */
  function IndexOf(s: seq<int>, x: int): (i: nat)
    ensures i <= |s|
    ensures i < |s| ==> s[i] == x
    ensures x !in s[..i]
  {
    if s == [] then 0
    else if s[0] == x then 0
    else
      var j := IndexOf(s[1..], x);
      assert s[..j + 1] == [s[0]] + s[1..][..j];
      j + 1
  }

  /** Python's `list.remove(x)` when `x` is present: drops the first occurrence of `x` only. */
  function RemoveFirst(s: seq<int>, x: int): (r: seq<int>)
    ensures x !in s ==> r == s
    ensures |r| == if x in s then |s| - 1 else |s|
    ensures forall y :: y in r ==> y in s
  {
    var i := IndexOf(s, x);
    if i == |s| then s else s[..i] + s[i + 1..]
  }

  /** `remove` of an absent value changes nothing; of a present one, it cuts out its first occurrence. */
  lemma RemoveFirstShape(s: seq<int>, x: int)
    ensures x !in s ==> RemoveFirst(s, x) == s
    ensures x in s ==> exists i :: 0 <= i < |s| && s[i] == x && x !in s[..i] && RemoveFirst(s, x) == s[..i] + s[i + 1..]
  {
    var i := IndexOf(s, x);
    if i == |s| { assert s[..i] == s; }
  }

  /** On a duplicate-free list, `remove` takes out exactly `x`, and the rest keep their order and stay distinct. */
  lemma RemoveFirstNoDuplicates(s: seq<int>, x: int)
    requires NoDuplicates(s)
    ensures x !in RemoveFirst(s, x)
    ensures forall y :: y in RemoveFirst(s, x) <==> y in s && y != x
    ensures NoDuplicates(RemoveFirst(s, x))
  {
    var r := RemoveFirst(s, x);
    var i := IndexOf(s, x);
    if i == |s| {
      assert s[..i] == s;
    } else {
      assert r == s[..i] + s[i + 1..];
      assert |r| == |s| - 1;
      assert forall k :: 0 <= k < |r| ==> r[k] == s[if k < i then k else k + 1];
      forall y ensures y in r <==> y in s && y != x {
        if y in r {
          var k :| 0 <= k < |r| && r[k] == y;
          assert s[if k < i then k else k + 1] == y;
        }
        if y in s && y != x {
          var k :| 0 <= k < |s| && s[k] == y;
          assert k != i;
          assert r[if k < i then k else k - 1] == y;
        }
      }
    }
  }

  /** Borrowing a book the member does not hold and then returning it restores the list exactly. */
  lemma AppendThenRemove(s: seq<int>, x: int)
    requires x !in s
    ensures RemoveFirst(AppendIfAbsent(s, x), x) == s
  {
    var t := s + [x];
    var i := IndexOf(t, x);
    assert t[..|s|] == s;
  }

  /** A member. The contact fields are fixed; the list of borrowed book ids changes in place. */
  class Member {
    const memberId: int
    const name: string
    const email: string
    const phone: string
    var borrowedBooks: seq<int>

    /** A new member holds no books. */
    constructor (memberId: int, name: string, email: string, phone: string)
      ensures ToDict() == MemberData(memberId, name, email, phone, [])
    {
      this.memberId := memberId;
      this.name := name;
      this.email := email;
      this.phone := phone;
      borrowedBooks := [];
    }

    /** `Member.from_dict`: the stored list, in its stored order, becomes the member's list. */
    constructor FromDict(d: MemberData)
      ensures ToDict() == d
    {
      memberId := d.memberId;
      name := d.name;
      email := d.email;
      phone := d.phone;
      borrowedBooks := d.borrowedBooks;
    }

    /** `Member.to_dict`. */
    function ToDict(): MemberData
      reads this
    {
      MemberData(memberId, name, email, phone, borrowedBooks)
    }

    /** Records a book as held, unless it already is; the list never gains a duplicate. */
    method BorrowBook(bookId: int) returns (ok: bool)
      modifies this
      ensures ok == (bookId !in old(borrowedBooks))
      ensures borrowedBooks == (if ok then old(borrowedBooks) + [bookId] else old(borrowedBooks))
      ensures borrowedBooks == AppendIfAbsent(old(borrowedBooks), bookId)
      ensures NoDuplicates(old(borrowedBooks)) ==> NoDuplicates(borrowedBooks)
    {
      if bookId !in borrowedBooks {
        borrowedBooks := borrowedBooks + [bookId];
        return true;
      }
      return false;
    }

    /** Drops a held book from the list; reports whether it was held. */
    method ReturnBook(bookId: int) returns (ok: bool)
      modifies this
      ensures ok == (bookId in old(borrowedBooks))
      ensures borrowedBooks == RemoveFirst(old(borrowedBooks), bookId)
      ensures !ok ==> borrowedBooks == old(borrowedBooks)
      ensures NoDuplicates(old(borrowedBooks)) ==> bookId !in borrowedBooks && NoDuplicates(borrowedBooks)
    {
      if NoDuplicates(borrowedBooks) {
        RemoveFirstNoDuplicates(borrowedBooks, bookId);
      }
      if bookId in borrowedBooks {
        borrowedBooks := RemoveFirst(borrowedBooks, bookId);
        return true;
      }
      return false;
    }

    /** `Member.get_borrowed_books_count`. */
    function BorrowedBooksCount(): (n: nat)
      reads this
      ensures n == |ToDict().borrowedBooks|
    {
      |borrowedBooks|
    }
  }
}
