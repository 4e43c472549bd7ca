/**
 * The task3 library: no reservations; a book is borrowable only when its
 * status is "Available", and every check runs before any write.
 */
module BasicLibrary {
  import opened Wrappers
  import opened LibraryRecords
  import L = Lists
  import Maps

  /** Adding forces the status to Available and overwrites any book with the same ID. */
  function AddBook(lib: Library, book: Book): (r: Library)
    ensures r.books.Keys == lib.books.Keys + {book.id}
    ensures r.books[book.id].status == StatusAvailable
    ensures r.books[book.id] == book.(status := r.books[book.id].status)
    ensures forall id :: id in lib.books && id != book.id ==> r.books[id] == lib.books[id]
    ensures r.members == lib.members
  {
    lib.(books := lib.books[book.id := book.(status := StatusAvailable)])
  }

  /** Removing never fails; removing an absent ID changes nothing. */
  function RemoveBook(lib: Library, bookID: int): (r: Library)
    ensures r.books.Keys == lib.books.Keys - {bookID}
    ensures forall id :: id in r.books ==> r.books[id] == lib.books[id]
    ensures r.members == lib.members
    ensures bookID !in lib.books ==> r == lib
  {
    lib.(books := lib.books - {bookID})
  }

  function AddMember(lib: Library, member: Member): (r: Library)
    ensures r.members.Keys == lib.members.Keys + {member.id}
    ensures r.members[member.id] == member
    ensures forall id :: id in lib.members && id != member.id ==> r.members[id] == lib.members[id]
    ensures r.books == lib.books
  {
    lib.(members := lib.members[member.id := member])
  }

  function BorrowBook(lib: Library, bookID: int, memberID: int): (r: Step)
    ensures bookID !in lib.books ==> r.err == Some(BookNotFound)
    ensures bookID in lib.books && lib.books[bookID].status != StatusAvailable ==> r.err == Some(AlreadyBorrowed)
    ensures bookID in lib.books && lib.books[bookID].status == StatusAvailable && memberID !in lib.members ==> r.err == Some(MemberNotFound)
    ensures r.err.Some? ==> r.lib == lib
    ensures r.err.None? <==> bookID in lib.books && lib.books[bookID].status == StatusAvailable && memberID in lib.members
    ensures r.err.None? ==>
              && r.lib.books == lib.books[bookID := lib.books[bookID].(status := StatusBorrowed)]
              && r.lib.members.Keys == lib.members.Keys
              && r.lib.members[memberID].borrowed == lib.members[memberID].borrowed + [r.lib.books[bookID]]
              && r.lib.members[memberID] == lib.members[memberID].(borrowed := r.lib.members[memberID].borrowed)
              && forall id :: id in lib.members && id != memberID ==> r.lib.members[id] == lib.members[id]
  {
    if bookID !in lib.books then Step(lib, Some(BookNotFound))
    else
      var book := lib.books[bookID];
      if book.status != StatusAvailable then Step(lib, Some(AlreadyBorrowed))
      else if memberID !in lib.members then Step(lib, Some(MemberNotFound))
      else
        var member := lib.members[memberID];
        var lent := book.(status := StatusBorrowed);
        Step(Library(lib.books[bookID := lent], lib.members[memberID := member.(borrowed := member.borrowed + [lent])]), None)
  }

  function ReturnBook(lib: Library, bookID: int, memberID: int): (r: Step)
    ensures bookID !in lib.books ==> r.err == Some(BookNotFound)
    ensures bookID in lib.books && memberID !in lib.members ==> r.err == Some(MemberNotFound)
    ensures bookID in lib.books && memberID in lib.members && !HoldsBook(lib.members[memberID].borrowed, bookID) ==>
              r.err == Some(NotBorrowedByMember)
    ensures r.err.Some? ==> r.lib == lib
    ensures r.err.None? <==> bookID in lib.books && memberID in lib.members && HoldsBook(lib.members[memberID].borrowed, bookID)
    ensures r.err.None? ==>
              && r.lib.books == lib.books[bookID := lib.books[bookID].(status := StatusAvailable)]
              && r.lib.members.Keys == lib.members.Keys
              && (forall id :: id in lib.members && id != memberID ==> r.lib.members[id] == lib.members[id])
              && r.lib.members[memberID] == lib.members[memberID].(borrowed := r.lib.members[memberID].borrowed)
              && RemovedFirst(lib.members[memberID].borrowed, r.lib.members[memberID].borrowed, bookID)
  {
    if bookID !in lib.books then Step(lib, Some(BookNotFound))
    else if memberID !in lib.members then Step(lib, Some(MemberNotFound))
    else
      var book := lib.books[bookID];
      var member := lib.members[memberID];
      match L.FirstIndex(member.borrowed, BookId, bookID)
      case None => Step(lib, Some(NotBorrowedByMember))
      case Some(i) =>
        var rest := L.RemoveAt(member.borrowed, i);
        assert rest == member.borrowed[..i] + member.borrowed[i + 1..];
        Step(Library(lib.books[bookID := book.(status := StatusAvailable)], lib.members[memberID := member.(borrowed := rest)]), None)
  }

  function ListBorrowedBooks(lib: Library, memberID: int): (r: seq<Book>)
    ensures memberID !in lib.members ==> r == []
    ensures memberID in lib.members ==> r == lib.members[memberID].borrowed
  {
    if memberID in lib.members then lib.members[memberID].borrowed else []
  }

  /** The books whose status is Available, in Go's unspecified map order. */
  method ListAvailableBooks(lib: Library) returns (r: seq<Book>)
    ensures forall b :: b in r ==> b.status == StatusAvailable && b in lib.books.Values
    ensures forall id :: id in lib.books && lib.books[id].status == StatusAvailable ==> lib.books[id] in r
    ensures |r| == |set id | id in lib.books && lib.books[id].status == StatusAvailable|
  {
    ghost var order;
    r, order := Maps.CollectValues(lib.books, IsAvailable);
    assert Maps.KeysWhere(lib.books, IsAvailable) == set id | id in lib.books && lib.books[id].status == StatusAvailable;
    forall b | b in r
      ensures b in lib.books.Values
    {
      var i :| 0 <= i < |r| && r[i] == b;
      assert lib.books[order[i]] == b;
    }
  }

  /**
   * Borrowing an Available book and returning it restores the library
   * exactly, provided the member's list held no entry for that book before
   * (otherwise the return removes the older entry, the first match).
   */
  lemma BorrowReturnRoundTrip(lib: Library, bookID: int, memberID: int)
    requires BorrowBook(lib, bookID, memberID).err.None?
    requires lib.books[bookID].id == bookID
    requires !HoldsBook(lib.members[memberID].borrowed, bookID)
    ensures ReturnBook(BorrowBook(lib, bookID, memberID).lib, bookID, memberID) == Step(lib, None)
  {
    var mid := BorrowBook(lib, bookID, memberID).lib;
    var member := lib.members[memberID];
    var lent := mid.books[bookID];
    assert mid.members[memberID] == member.(borrowed := member.borrowed + [lent]);
    assert forall j :: 0 <= j < |member.borrowed| ==> member.borrowed[j].id != bookID;
    L.AppendThenRemove(member.borrowed, lent, BookId);
    assert mid.members[memberID := member] == lib.members;
    assert mid.books[bookID := lent.(status := StatusAvailable)] == lib.books;
  }

  /** When the list already held the book, the round trip keeps the new snapshot and drops the prior one. */
  lemma RoundTripNeedsFreshList()
    ensures
      var prior := Book(1, "T", "A", StatusBorrowed);
      var lib := Library(map[1 := Book(1, "T", "A", StatusAvailable)], map[1 := Member(1, "M", [prior.(title := "Old")])]);
      var back := ReturnBook(BorrowBook(lib, 1, 1).lib, 1, 1);
      && back.err.None?
      && back.lib.members[1].borrowed == [prior]
      && back.lib != lib
  {
    var prior := Book(1, "T", "A", StatusBorrowed);
    var lib := Library(map[1 := Book(1, "T", "A", StatusAvailable)], map[1 := Member(1, "M", [prior.(title := "Old")])]);
    var mid := BorrowBook(lib, 1, 1).lib;
    assert mid.members[1].borrowed == [prior.(title := "Old"), prior];
    assert L.FirstIndex(mid.members[1].borrowed, BookId, 1) == Some(0);
  }

  /** Every book and member is stored under its own ID, and every stored status is Available or Borrowed. */
  ghost predicate WellFormed(lib: Library) {
    && (forall id :: id in lib.books ==> lib.books[id].id == id && lib.books[id].status in {StatusAvailable, StatusBorrowed})
    && (forall id :: id in lib.members ==> lib.members[id].id == id)
  }

  /** One call on the library's surface. */
  datatype Op =
    | AddBookOp(book: Book)
    | RemoveBookOp(bookID: int)
    | AddMemberOp(member: Member)
    | BorrowOp(bookID: int, memberID: int)
    | ReturnOp(bookID: int, memberID: int)

  function Apply(lib: Library, op: Op): Library {
    match op
    case AddBookOp(b) => AddBook(lib, b)
    case RemoveBookOp(b) => RemoveBook(lib, b)
    case AddMemberOp(m) => AddMember(lib, m)
    case BorrowOp(b, m) => BorrowBook(lib, b, m).lib
    case ReturnOp(b, m) => ReturnBook(lib, b, m).lib
  }

  /** The state after the calls `ops`, in order. */
  function Run(lib: Library, ops: seq<Op>): Library
    decreases |ops|
  {
    if |ops| == 0 then lib else Run(Apply(lib, ops[0]), ops[1..])
  }

  lemma ApplyKeepsWellFormed(lib: Library, op: Op)
    requires WellFormed(lib)
    ensures WellFormed(Apply(lib, op))
  {
    match op
    case BorrowOp(b, m) => BorrowKeepsWellFormed(lib, b, m);
    case ReturnOp(b, m) => ReturnKeepsWellFormed(lib, b, m);
    case _ =>
  }

  lemma BorrowKeepsWellFormed(lib: Library, bookID: int, memberID: int)
    requires WellFormed(lib)
    ensures WellFormed(BorrowBook(lib, bookID, memberID).lib)
  {
    var r := BorrowBook(lib, bookID, memberID);
    if r.err.None? {
      assert r.lib.books[bookID] == lib.books[bookID].(status := StatusBorrowed);
      assert r.lib.members[memberID].id == memberID;
    }
  }

  lemma ReturnKeepsWellFormed(lib: Library, bookID: int, memberID: int)
    requires WellFormed(lib)
    ensures WellFormed(ReturnBook(lib, bookID, memberID).lib)
  {
    var r := ReturnBook(lib, bookID, memberID);
    if r.err.None? {
      assert r.lib.books[bookID] == lib.books[bookID].(status := StatusAvailable);
      assert r.lib.members[memberID].id == memberID;
    }
  }

  /** No sequence of calls stores a book or member under a foreign ID or gives a book a third status. */
  lemma {:induction false} RunKeepsWellFormed(lib: Library, ops: seq<Op>)
    requires WellFormed(lib)
    ensures WellFormed(Run(lib, ops))
    decreases |ops|
  {
    if |ops| > 0 {
      ApplyKeepsWellFormed(lib, ops[0]);
      RunKeepsWellFormed(Apply(lib, ops[0]), ops[1..]);
    }
  }

  /** Removing a book just added under a new ID gives back the library as it was. */
  lemma RemoveUndoesAdd(lib: Library, book: Book)
    requires book.id !in lib.books
    ensures RemoveBook(AddBook(lib, book), book.id) == lib
  {
    assert AddBook(lib, book).books - {book.id} == lib.books;
  }

  /**
   * The listing follows the member's list: a borrow appends the lent copy,
   * a return drops the first entry for the book, and no other member's
   * listing changes.
   */
  lemma ListingFollowsBorrowAndReturn(lib: Library, bookID: int, memberID: int, other: int)
    requires other != memberID
    ensures
      var b := BorrowBook(lib, bookID, memberID);
      && (b.err.None? ==> ListBorrowedBooks(b.lib, memberID) == ListBorrowedBooks(lib, memberID) + [b.lib.books[bookID]])
      && ListBorrowedBooks(b.lib, other) == ListBorrowedBooks(lib, other)
    ensures
      var r := ReturnBook(lib, bookID, memberID);
      && (r.err.None? ==> RemovedFirst(ListBorrowedBooks(lib, memberID), ListBorrowedBooks(r.lib, memberID), bookID))
      && ListBorrowedBooks(r.lib, other) == ListBorrowedBooks(lib, other)
  {
  }
}
