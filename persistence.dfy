/**
 * Saving and loading the library at the level of the saved document: the document's fields,
 * `Save` (what `save_to_file` serializes) and `Load` (what `load_from_file` rebuilds).
 */
module Persistence {
  import opened Common
  import opened Books
  import opened Members
  import opened Transactions
  import opened Librarians
  import opened LibraryState

  /** The saved document: the name, the four entity lists in registry order, and the counters under `next_ids`. */
  datatype LibraryData = LibraryData(
    name: string,
    books: seq<BookData>,
    members: seq<MemberData>,
    librarians: seq<LibrarianData>,
    transactions: seq<TransactionData>,
    nextIds: map<string, int>)

  /** The values of `m` at the ids of `order`, in that order (ids not in `m` are passed over). */
  function Project<T>(m: map<int, T>, order: seq<int>): (r: seq<T>)
    ensures (forall k :: k in order ==> k in m) ==> |r| == |order|
  {
    if order == [] then []
    else
      var last := order[|order| - 1];
      Project(m, order[..|order| - 1]) + (if last in m then [m[last]] else [])
  }

  /**
   * The loop `for rec in recs: registry[key(rec)] = rec` run on an empty dict: the resulting
   * map and its insertion order. A repeated id keeps its first position and its last record.
   */
  function Index<T>(recs: seq<T>, key: T -> int): (r: (map<int, T>, seq<int>))
    ensures Enumerates(r.1, r.0.Keys)
    ensures forall k :: k in r.0 ==> key(r.0[k]) == k
    ensures forall k :: k in r.0 ==> r.0[k] in recs
  {
    if recs == [] then (map[], [])
    else
      var front := Index(recs[..|recs| - 1], key);
      var rec := recs[|recs| - 1];
      var k := key(rec);
      assert forall x :: x in recs[..|recs| - 1] ==> x in recs;
      if k in front.0 then (front.0[k := rec], front.1)
      else
        NoDuplicatesAppend(front.1, k);
        (front.0[k := rec], front.1 + [k])
  }

  /** The position of the last record filed under `k`, or -1 when there is none. */
  function LastPos<T>(recs: seq<T>, key: T -> int, k: int): (p: int)
    ensures -1 <= p < |recs|
    ensures p >= 0 ==> key(recs[p]) == k
    ensures forall i :: p < i < |recs| ==> key(recs[i]) != k
  {
    if recs == [] then -1
    else if key(recs[|recs| - 1]) == k then |recs| - 1
    else LastPos(recs[..|recs| - 1], key, k)
  }

  /** The position of the first record filed under `k`, or `|recs|` when there is none. */
  function FirstPos<T>(recs: seq<T>, key: T -> int, k: int): (p: nat)
    ensures p <= |recs|
    ensures p < |recs| ==> key(recs[p]) == k
    ensures forall i :: 0 <= i < p ==> key(recs[i]) != k
  {
    if recs == [] then 0
    else
      var p := FirstPos(recs[..|recs| - 1], key, k);
      if p < |recs| - 1 then p
      else if key(recs[|recs| - 1]) == k then |recs| - 1
      else |recs|
  }

  /**
   * What rebuilding a registry from a list means: an id is registered exactly when some record
   * carries it, the record kept is the last one carrying it, and the ids are ordered by the
   * position of the first record carrying each.
   */
  ghost predicate Indexed<T>(recs: seq<T>, key: T -> int, m: map<int, T>, order: seq<int>)
  {
    && Enumerates(order, m.Keys)
    && (forall k :: k in m <==> LastPos(recs, key, k) >= 0)
    && (forall k :: k in m ==> m[k] == recs[LastPos(recs, key, k)])
    && (forall i, j :: 0 <= i < j < |order| ==> FirstPos(recs, key, order[i]) < FirstPos(recs, key, order[j]))
  }

  /** A later record under the same id replaces the earlier one. */
  lemma {:induction false} IndexLastWins<T>(recs: seq<T>, key: T -> int)
    ensures var r := Index(recs, key);
      && (forall k :: k in r.0 <==> LastPos(recs, key, k) >= 0)
      && (forall k :: k in r.0 ==> r.0[k] == recs[LastPos(recs, key, k)])
  {
    if recs != [] {
      var front, last := recs[..|recs| - 1], recs[|recs| - 1];
      IndexLastWins(front, key);
      IndexStep(recs, key);
      forall k | key(last) != k ensures LastPos(recs, key, k) == LastPos(front, key, k) {
      }
    }
  }

  /** An id is filed exactly when some record carries it. */
  lemma {:induction false} IndexFirstExists<T>(recs: seq<T>, key: T -> int)
    ensures forall k :: k in Index(recs, key).0 <==> FirstPos(recs, key, k) < |recs|
  {
    if recs != [] {
      IndexFirstExists(recs[..|recs| - 1], key);
      IndexStep(recs, key);
      forall k ensures k in Index(recs, key).0 <==> FirstPos(recs, key, k) < |recs| {
        FirstPosSnoc(recs, key, k);
      }
    }
  }

  /** A repeated id keeps the position of its first record. */
  lemma {:induction false} IndexFirstOrder<T>(recs: seq<T>, key: T -> int)
    ensures var r := Index(recs, key);
      forall i, j :: 0 <= i < j < |r.1| ==> FirstPos(recs, key, r.1[i]) < FirstPos(recs, key, r.1[j])
  {
    if recs != [] {
      var front := recs[..|recs| - 1];
      var f := Index(front, key);
      IndexFirstOrder(front, key);
      IndexFirstExists(front, key);
      IndexStep(recs, key);
      var r := Index(recs, key);
      forall i, j | 0 <= i < j < |r.1| ensures FirstPos(recs, key, r.1[i]) < FirstPos(recs, key, r.1[j]) {
        assert r.1[i] in f.1;
        FirstPosSnoc(recs, key, r.1[i]);
        FirstPosSnoc(recs, key, r.1[j]);
        if j < |f.1| {
          assert r.1[j] in f.1;
        }
      }
    }
  }

  lemma FirstPosSnoc<T>(recs: seq<T>, key: T -> int, k: int)
    requires recs != []
    ensures var front := recs[..|recs| - 1];
      && (FirstPos(front, key, k) < |front| ==> FirstPos(recs, key, k) == FirstPos(front, key, k))
      && (FirstPos(front, key, k) == |front| ==> FirstPos(recs, key, k) == if key(recs[|recs| - 1]) == k then |front| else |recs|)
  {
  }

  /** Rebuilding a registry from a list has the meaning `Indexed` gives it. */
  lemma IndexMeaning<T>(recs: seq<T>, key: T -> int)
    ensures Indexed(recs, key, Index(recs, key).0, Index(recs, key).1)
  {
    IndexLastWins(recs, key);
    IndexFirstExists(recs, key);
    IndexFirstOrder(recs, key);
  }

  /** Rebuilding a registry from a list drops no record: every record's id is filed. */
  lemma IndexCovers<T>(recs: seq<T>, key: T -> int)
    ensures forall x :: x in recs ==> key(x) in Index(recs, key).0
  {
    IndexLastWins(recs, key);
    forall x | x in recs ensures key(x) in Index(recs, key).0 {
      var i :| 0 <= i < |recs| && recs[i] == x;
      assert LastPos(recs, key, key(x)) >= i;
    }
  }

  function BookKey(b: BookData): int { b.bookId }
  function MemberKey(m: MemberData): int { m.memberId }
  function LibrarianKey(l: Librarian): int { l.librarianId }
  function TransactionKey(t: TransactionData): int { t.transactionId }

  function LibrarianDicts(ls: seq<Librarian>): (r: seq<LibrarianData>)
    ensures |r| == |ls| && forall i :: 0 <= i < |ls| ==> r[i] == ls[i].ToDict()
  {
    if ls == [] then [] else LibrarianDicts(ls[..|ls| - 1]) + [ls[|ls| - 1].ToDict()]
  }

  function LibrariansFromDicts(ds: seq<LibrarianData>): (r: seq<Librarian>)
    ensures |r| == |ds| && forall i :: 0 <= i < |ds| ==> r[i] == FromDict(ds[i])
  {
    if ds == [] then [] else LibrariansFromDicts(ds[..|ds| - 1]) + [FromDict(ds[|ds| - 1])]
  }

  function ReloadAll(ds: seq<TransactionData>): (r: seq<TransactionData>)
    ensures |r| == |ds| && forall i :: 0 <= i < |ds| ==> r[i] == Reloaded(ds[i])
  {
    if ds == [] then [] else ReloadAll(ds[..|ds| - 1]) + [Reloaded(ds[|ds| - 1])]
  }

  /** `save_to_file`'s document: every registry listed in insertion order, and all four counters. */
  function Save(s: Snapshot): (d: LibraryData)
    ensures d.name == s.name
    ensures GetOr(d.nextIds, "book", 1) == s.nextBookId && GetOr(d.nextIds, "member", 1) == s.nextMemberId
    ensures GetOr(d.nextIds, "librarian", 1) == s.nextLibrarianId
    ensures GetOr(d.nextIds, "transaction", 1) == s.nextTransactionId
  {
    LibraryData(
      s.name,
      Project(s.books, s.bookOrder),
      Project(s.members, s.memberOrder),
      LibrarianDicts(Project(s.librarians, s.librarianOrder)),
      Project(s.transactions, s.transactionOrder),
      map["book" := s.nextBookId, "member" := s.nextMemberId,
          "librarian" := s.nextLibrarianId, "transaction" := s.nextTransactionId])
  }

  /**
   * `load_from_file` on a parsed document: every registry is rebuilt from scratch from its list,
   * transactions re-derive their returned flag, and a counter absent from `next_ids` becomes 1.
   */
  function Load(d: LibraryData): (s: Snapshot)
    ensures WellFormed(s)
    ensures s.name == d.name
    ensures "book" in d.nextIds ==> s.nextBookId == d.nextIds["book"]
    ensures "book" !in d.nextIds ==> s.nextBookId == 1
    ensures "member" in d.nextIds ==> s.nextMemberId == d.nextIds["member"]
    ensures "member" !in d.nextIds ==> s.nextMemberId == 1
    ensures "librarian" in d.nextIds ==> s.nextLibrarianId == d.nextIds["librarian"]
    ensures "librarian" !in d.nextIds ==> s.nextLibrarianId == 1
    ensures "transaction" in d.nextIds ==> s.nextTransactionId == d.nextIds["transaction"]
    ensures "transaction" !in d.nextIds ==> s.nextTransactionId == 1
  {
    var books := Index(d.books, BookKey);
    var members := Index(d.members, MemberKey);
    var librarians := Index(LibrariansFromDicts(d.librarians), LibrarianKey);
    var transactions := Index(ReloadAll(d.transactions), TransactionKey);
    ReloadedCoherent(d.transactions);
    Snapshot(d.name, books.0, books.1, members.0, members.1, librarians.0, librarians.1,
             transactions.0, transactions.1,
             GetOr(d.nextIds, "book", 1), GetOr(d.nextIds, "member", 1),
             GetOr(d.nextIds, "librarian", 1), GetOr(d.nextIds, "transaction", 1))
  }

  /**
   * The registries `load_from_file` rebuilds: an id is registered exactly when a record carries
   * it, the last record under an id is the one kept, and ids are ordered by their first record; librarians come back
   * through `from_dict` and transactions with their returned flag re-derived.
   */
  lemma LoadRegistries(d: LibraryData)
    ensures var s := Load(d);
      && Indexed(d.books, BookKey, s.books, s.bookOrder)
      && Indexed(d.members, MemberKey, s.members, s.memberOrder)
      && Indexed(LibrariansFromDicts(d.librarians), LibrarianKey, s.librarians, s.librarianOrder)
      && Indexed(ReloadAll(d.transactions), TransactionKey, s.transactions, s.transactionOrder)
  {
    IndexMeaning(d.books, BookKey);
    IndexMeaning(d.members, MemberKey);
    IndexMeaning(LibrariansFromDicts(d.librarians), LibrarianKey);
    IndexMeaning(ReloadAll(d.transactions), TransactionKey);
  }

  /** No record of the document is lost: each one's id is registered after loading. */
  lemma LoadKeepsEveryId(d: LibraryData)
    ensures var s := Load(d);
      && (forall b :: b in d.books ==> b.bookId in s.books)
      && (forall m :: m in d.members ==> m.memberId in s.members)
      && (forall l :: l in d.librarians ==> l.librarianId in s.librarians)
      && (forall t :: t in d.transactions ==> t.transactionId in s.transactions)
  {
    var ls := LibrariansFromDicts(d.librarians);
    var ts := ReloadAll(d.transactions);
    var s := Load(d);
    assert s.books == Index(d.books, BookKey).0 && s.members == Index(d.members, MemberKey).0;
    assert s.librarians == Index(ls, LibrarianKey).0 && s.transactions == Index(ts, TransactionKey).0;
    IndexCovers(d.books, BookKey);
    IndexCovers(d.members, MemberKey);
    IndexCovers(ls, LibrarianKey);
    IndexCovers(ts, TransactionKey);
    forall l | l in d.librarians ensures LibrarianKey(FromDict(l)) in Index(ls, LibrarianKey).0 {
      var i :| 0 <= i < |d.librarians| && d.librarians[i] == l;
      assert ls[i] in ls;
    }
    forall t | t in d.transactions ensures TransactionKey(Reloaded(t)) in Index(ts, TransactionKey).0 {
      var i :| 0 <= i < |d.transactions| && d.transactions[i] == t;
      assert ts[i] in ts;
    }
  }

  /** Every transaction that loading files has its returned flag re-derived from its return date. */
  lemma ReloadedCoherent(ds: seq<TransactionData>)
    ensures forall k :: k in Index(ReloadAll(ds), TransactionKey).0 ==> Index(ReloadAll(ds), TransactionKey).0[k].Coherent()
  {
    var m := Index(ReloadAll(ds), TransactionKey).0;
    forall k | k in m ensures m[k].Coherent() {
      var i :| 0 <= i < |ds| && ReloadAll(ds)[i] == m[k];
    }
  }

  lemma IndexStep<T>(recs: seq<T>, key: T -> int)
    requires recs != []
    ensures var front := Index(recs[..|recs| - 1], key);
      var k := key(recs[|recs| - 1]);
      Index(recs, key) == (front.0[k := recs[|recs| - 1]], if k in front.0 then front.1 else front.1 + [k])
  {
  }

  /** Indexing the records of a registry listed in its own order gives back that registry and order. */
  lemma {:induction false} IndexProject<T>(m: map<int, T>, order: seq<int>, key: T -> int)
    requires NoDuplicates(order)
    requires forall k :: k in order ==> k in m && key(m[k]) == k
    ensures var r := Index(Project(m, order), key);
      && r.1 == order
      && (forall k :: k in r.0 <==> k in order)
      && (forall k :: k in r.0 ==> r.0[k] == m[k])
  {
    if order != [] {
      var front := order[..|order| - 1];
      var last := order[|order| - 1];
      assert order == front + [last];
      assert last !in front;
      IndexProject(m, front, key);
      var recs := Project(m, order);
      assert recs[..|recs| - 1] == Project(m, front);
      assert recs[|recs| - 1] == m[last];
      IndexStep(recs, key);
    }
  }

  lemma {:induction false} RegistryRoundTrip<T>(m: map<int, T>, order: seq<int>, key: T -> int)
    requires Enumerates(order, m.Keys)
    requires forall k :: k in m ==> key(m[k]) == k
    ensures Index(Project(m, order), key).0 == m
    ensures Index(Project(m, order), key).1 == order
  {
    IndexProject(m, order, key);
    var r := Index(Project(m, order), key);
    SameMap(r.0, m, order);
  }

  lemma SameMap<T>(a: map<int, T>, b: map<int, T>, order: seq<int>)
    requires forall k :: k in a <==> k in order
    requires forall k :: k in order <==> k in b
    requires forall k :: k in a ==> a[k] == b[k]
    ensures a == b
  {
    forall k ensures k in a <==> k in b {
      assert k in a <==> k in order;
    }
    assert a.Keys == b.Keys;
    assert forall k :: k in b ==> a[k] == b[k];
  }

  /**
   * Loading what was saved gives back the same library: the name, all four registries with their
   * order and every field of every entity, and all four counters.
   */
  lemma {:induction false} SaveLoadRoundTrip(s: Snapshot)
    requires WellFormed(s)
    ensures Load(Save(s)) == s
  {
    var d := Save(s);
    RegistryRoundTrip(s.books, s.bookOrder, BookKey);
    RegistryRoundTrip(s.members, s.memberOrder, MemberKey);
    var ls := Project(s.librarians, s.librarianOrder);
    LibrariansRoundTrip(ls);
    RegistryRoundTrip(s.librarians, s.librarianOrder, LibrarianKey);
    var ts := Project(s.transactions, s.transactionOrder);
    ReloadCoherent(s.transactions, s.transactionOrder);
    RegistryRoundTrip(s.transactions, s.transactionOrder, TransactionKey);
    LoadFrom(d, s.books, s.bookOrder, s.members, s.memberOrder, s.librarians, s.librarianOrder,
             s.transactions, s.transactionOrder);
  }

  lemma LibrariansRoundTrip(ls: seq<Librarian>)
    ensures LibrariansFromDicts(LibrarianDicts(ls)) == ls
  {
    assert forall i :: 0 <= i < |ls| ==> FromDict(ls[i].ToDict()) == ls[i];
  }

  /** Saved transactions are coherent, so reloading them changes none. */
  lemma ReloadCoherent(m: map<int, TransactionData>, order: seq<int>)
    requires forall k :: k in m ==> m[k].Coherent()
    ensures ReloadAll(Project(m, order)) == Project(m, order)
  {
    var ts := Project(m, order);
    ProjectValues(m, order);
    assert forall i :: 0 <= i < |ts| ==> ts[i] in ts;
  }

  /** The saved lists have one entry per registered entity. */
  lemma SaveSizes(s: Snapshot)
    requires WellFormed(s)
    ensures |Save(s).books| == |s.books| && |Save(s).members| == |s.members|
    ensures |Save(s).librarians| == |s.librarians| && |Save(s).transactions| == |s.transactions|
  {
    EnumeratesSize(s.bookOrder, s.books.Keys);
    EnumeratesSize(s.memberOrder, s.members.Keys);
    EnumeratesSize(s.librarianOrder, s.librarians.Keys);
    EnumeratesSize(s.transactionOrder, s.transactions.Keys);
  }

  lemma {:induction false} ProjectValues<T>(m: map<int, T>, order: seq<int>)
    ensures forall x :: x in Project(m, order) ==> exists k :: k in m && m[k] == x
  {
    if order != [] {
      ProjectValues(m, order[..|order| - 1]);
    }
  }

  /** Listing one more id appends its entity, if it has one. */
  lemma ProjectSnoc<T>(m: map<int, T>, ids: seq<int>, x: int)
    ensures Project(m, ids + [x]) == Project(m, ids) + (if x in m then [m[x]] else [])
  {
    assert (ids + [x])[..|ids|] == ids;
  }

  /** Listing skips unregistered ids, so filtering them out first changes nothing. */
  lemma {:induction false} ProjectRegistered<T>(m: map<int, T>, records: map<int, BookData>, ids: seq<int>)
    requires m.Keys == records.Keys
    ensures Project(m, Select(ids, Registered(records), true)) == Project(m, ids)
  {
    if ids != [] {
      var front := ids[..|ids| - 1];
      var last := ids[|ids| - 1];
      assert ids == front + [last];
      ProjectRegistered(m, records, front);
      ProjectSnoc(m, front, last);
      ProjectSnoc(m, Select(front, Registered(records), true), last);
    }
  }

  /** When every id is registered, the listing has one entry per id, in the same order. */
  lemma {:induction false} ProjectAt<T>(m: map<int, T>, order: seq<int>)
    requires forall k :: k in order ==> k in m
    ensures |Project(m, order)| == |order|
    ensures forall i :: 0 <= i < |order| ==> order[i] in m && Project(m, order)[i] == m[order[i]]
  {
    if order != [] {
      assert forall k :: k in order[..|order| - 1] ==> k in order;
      ProjectAt(m, order[..|order| - 1]);
    }
  }

  /**
   * Unfolds `Load` for the proofs of `SaveLoadRoundTrip` and `Library.LoadFromFile`: registries
   * rebuilt by `Index` under names of the caller's choosing, counters read with a default of 1.
   */
  lemma LoadFrom(d: LibraryData, books: map<int, BookData>, bookOrder: seq<int>, members: map<int, MemberData>,
                 memberOrder: seq<int>, librarians: map<int, Librarian>, librarianOrder: seq<int>,
                 transactions: map<int, TransactionData>, transactionOrder: seq<int>)
    requires (books, bookOrder) == Index(d.books, BookKey)
    requires (members, memberOrder) == Index(d.members, MemberKey)
    requires (librarians, librarianOrder) == Index(LibrariansFromDicts(d.librarians), LibrarianKey)
    requires (transactions, transactionOrder) == Index(ReloadAll(d.transactions), TransactionKey)
    ensures Load(d) == Snapshot(d.name, books, bookOrder, members, memberOrder, librarians, librarianOrder,
                                transactions, transactionOrder,
                                GetOr(d.nextIds, "book", 1), GetOr(d.nextIds, "member", 1),
                                GetOr(d.nextIds, "librarian", 1), GetOr(d.nextIds, "transaction", 1))
  {
  }
}
