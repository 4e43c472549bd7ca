/**
 * Properties of the reserving library as a state machine: the invariants its
 * transitions keep, the reservation interleavings (reserve, borrow, expire)
 * as call sequences, and the stale-reservation defect of the return.
 */
module ReservationLemmas {
  import opened Wrappers
  import opened ReservingLibrary
  import Lists

  /** Every stored status is one of the three the source writes. */
  predicate StatusClosed(s: string) {
    s == StatusAvailable || s == StatusReserved || s == StatusBorrowed
  }

  /** Entries are keyed by their own identifiers and carry a known status. */
  ghost predicate WellFormed(lib: Library) {
    && (forall id :: id in lib.books ==> lib.books[id].id == id && StatusClosed(lib.books[id].status))
    && (forall id :: id in lib.members ==> lib.members[id].id == id)
  }

  /** The documented meaning of `reservedBy`: 0 unless the book is Reserved. */
  ghost predicate ReservationsCleared(lib: Library) {
    forall id :: id in lib.books && lib.books[id].status != StatusReserved ==> lib.books[id].reservedBy == NotReserved
  }

  /** One call on the library's surface, the expiry of a reservation included. */
  datatype Op =
    | AddBookOp(book: Book)
    | RemoveBookOp(bookID: int)
    | AddMemberOp(member: Member)
    | BorrowOp(bookID: int, memberID: int)
    | ReturnOp(bookID: int, memberID: int)
    | ReserveOp(bookID: int, memberID: int)
    | ExpireOp(bookID: int, memberID: int)

  /** The state after `op`; `fixed` selects the corrected return. */
  function Apply(lib: Library, op: Op, fixed: bool): Library {
    match op
    case AddBookOp(b) => AddBook(lib, b)
    case RemoveBookOp(b) => RemoveBook(lib, b)
    case AddMemberOp(m) => AddMember(lib, m)
    case BorrowOp(b, m) => BorrowBook(lib, b, m).lib
    case ReturnOp(b, m) => if fixed then ReturnBookFixed(lib, b, m).lib else ReturnBook(lib, b, m).lib
    case ReserveOp(b, m) => ReserveBook(lib, b, m).lib
    case ExpireOp(b, m) => Expire(lib, b, m)
  }

  /** The state after the calls `ops`, in order. */
  function Run(lib: Library, ops: seq<Op>, fixed: bool): Library
    decreases |ops|
  {
    if |ops| == 0 then lib else Run(Apply(lib, ops[0], fixed), ops[1..], fixed)
  }

  lemma ApplyKeepsWellFormed(lib: Library, op: Op, fixed: bool)
    requires WellFormed(lib)
    ensures WellFormed(Apply(lib, op, fixed))
  {
    match op
    case ReturnOp(b, m) => ReturnKeepsWellFormed(lib, b, m, fixed);
    case BorrowOp(b, m) =>
    case ReserveOp(b, m) =>
    case ExpireOp(b, m) =>
    case _ => AdminKeepsWellFormed(lib, op);
  }

  /** Either return, as written or corrected, keeps a well-formed library well-formed. */
  lemma ReturnKeepsWellFormed(lib: Library, b: int, m: int, fixed: bool)
    requires WellFormed(lib)
    ensures WellFormed(Apply(lib, ReturnOp(b, m), fixed))
  {
    var r := Apply(lib, ReturnOp(b, m), fixed);
    if !fixed && ReturnBook(lib, b, m).err.None? {
      assert r.books == lib.books[b := lib.books[b].(status := StatusAvailable, reservedBy := r.books[b].reservedBy)];
    }
  }

  /** Adding and removing books and members keeps a well-formed library well-formed. */
  lemma AdminKeepsWellFormed(lib: Library, op: Op)
    requires WellFormed(lib)
    requires op.AddBookOp? || op.RemoveBookOp? || op.AddMemberOp?
    ensures WellFormed(Apply(lib, op, false))
  {
  }

  /** No sequence of calls, as written or corrected, leaves a book with an unknown status. */
  lemma {:induction false} RunKeepsWellFormed(lib: Library, ops: seq<Op>, fixed: bool)
    requires WellFormed(lib)
    ensures WellFormed(Run(lib, ops, fixed))
    decreases |ops|
  {
    if |ops| > 0 {
      ApplyKeepsWellFormed(lib, ops[0], fixed);
      RunKeepsWellFormed(Apply(lib, ops[0], fixed), ops[1..], fixed);
    }
  }

  lemma FixedApplyKeepsReservationsCleared(lib: Library, op: Op)
    requires ReservationsCleared(lib)
    ensures ReservationsCleared(Apply(lib, op, true))
  {
  }

  /** With the corrected return, `reservedBy` is 0 on every book that is not Reserved, whatever the calls. */
  lemma {:induction false} FixedRunKeepsReservationsCleared(lib: Library, ops: seq<Op>)
    requires ReservationsCleared(lib)
    ensures ReservationsCleared(Run(lib, ops, true))
    decreases |ops|
  {
    if |ops| > 0 {
      FixedApplyKeepsReservationsCleared(lib, ops[0]);
      FixedRunKeepsReservationsCleared(Apply(lib, ops[0], true), ops[1..]);
    }
  }

  /**
   * The return as written breaks the invariant: a member still listing book
   * 1 returns it after member 2 has reserved it, and the book ends up
   * Available yet reserved by member 2.
   */
  lemma ReturnLeavesStaleReservation()
    ensures
      var start := Library(map[1 := Book(1, "T", "A", StatusAvailable, NotReserved)],
                           map[1 := Member(1, "M", [Book(1, "T", "A", StatusBorrowed, NotReserved)])]);
      var reserved := ReserveBook(start, 1, 2).lib;
      var returned := ReturnBook(reserved, 1, 1);
      && WellFormed(start) && ReservationsCleared(start)
      && ReservationsCleared(reserved)
      && returned.err.None?
      && returned.lib.books[1].status == StatusAvailable
      && returned.lib.books[1].reservedBy == 2
      && !ReservationsCleared(returned.lib)
  {
    var start := Library(map[1 := Book(1, "T", "A", StatusAvailable, NotReserved)],
                         map[1 := Member(1, "M", [Book(1, "T", "A", StatusBorrowed, NotReserved)])]);
    var reserved := ReserveBook(start, 1, 2).lib;
    assert reserved.members[1].borrowed[0].id == 1;
    var returned := ReturnBook(reserved, 1, 1);
    assert returned.lib.books[1].status != StatusReserved;
  }

  /** Once a reservation succeeds, a different member cannot borrow the book. */
  lemma ReservedBookRefusesOthers(lib: Library, bookID: int, holder: int, other: int)
    requires ReserveBook(lib, bookID, holder).err.None?
    requires other != holder
    ensures
      var reserved := ReserveBook(lib, bookID, holder).lib;
      BorrowBook(reserved, bookID, other) == Step(reserved, Some(ReservedByAnother))
  {
  }

  /** The reserving member can borrow the reserved book, and a later expiry changes nothing. */
  lemma BorrowNeutralisesExpiry(lib: Library, bookID: int, memberID: int)
    requires ReserveBook(lib, bookID, memberID).err.None?
    requires memberID in lib.members
    ensures
      var reserved := ReserveBook(lib, bookID, memberID).lib;
      var borrowed := BorrowBook(reserved, bookID, memberID);
      && borrowed.err.None?
      && borrowed.lib.books[bookID].status == StatusBorrowed
      && Expire(borrowed.lib, bookID, memberID) == borrowed.lib
  {
  }

  /** An unclaimed reservation expires back to Available with `reservedBy` cleared. */
  lemma ExpiryRevertsUnclaimed(lib: Library, bookID: int, memberID: int)
    requires ReserveBook(lib, bookID, memberID).err.None?
    ensures
      var expired := Expire(ReserveBook(lib, bookID, memberID).lib, bookID, memberID);
      && expired.books[bookID].status == StatusAvailable
      && expired.books[bookID].reservedBy == NotReserved
      && expired.members == lib.members
  {
  }

  /**
   * A stale timer cannot cancel a newer reservation: after an expiry for
   * `first`, another member's reservation of the same book is untouched.
   */
  lemma StaleExpiryKeepsNewReservation(lib: Library, bookID: int, first: int, second: int)
    requires first != second
    requires ReserveBook(lib, bookID, second).err.None?
    ensures
      var reserved := ReserveBook(lib, bookID, second).lib;
      Expire(reserved, bookID, first) == reserved
  {
  }

  /** Of two borrowers of one book, the second always finds it already borrowed. */
  lemma SecondBorrowFails(lib: Library, bookID: int, m1: int, m2: int)
    requires BorrowBook(lib, bookID, m1).err.None?
    ensures
      var after := BorrowBook(lib, bookID, m1).lib;
      BorrowBook(after, bookID, m2) == Step(after, Some(AlreadyBorrowed))
  {
  }

  /**
   * Borrowing for an unknown member strands the book: it is Borrowed, but if
   * no member listed it before, no member can return it.
   */
  lemma {:induction false} StrandedBookCannotBeReturned(lib: Library, bookID: int, stranger: int, m: int)
    requires bookID in lib.books && Borrowable(lib.books[bookID], stranger) && stranger !in lib.members
    requires forall id, j :: id in lib.members && 0 <= j < |lib.members[id].borrowed| ==> lib.members[id].borrowed[j].id != bookID
    ensures
      var after := BorrowBook(lib, bookID, stranger);
      && after.err == Some(MemberNotFound)
      && after.lib.books[bookID].status == StatusBorrowed
      && ReturnBook(after.lib, bookID, m).err.Some?
  {
    var after := BorrowBook(lib, bookID, stranger);
    assert after.lib.members == lib.members;
    if m in lib.members {
      assert forall j :: 0 <= j < |lib.members[m].borrowed| ==> lib.members[m].borrowed[j].id != bookID;
    }
  }

  /**
   * Borrowing an Available, unreserved book and returning it restores the
   * library, with the corrected return and with the return as written: the
   * lent copy carries no reservation, so there is none left to clear.
   */
  lemma BorrowReturnRoundTrip(lib: Library, bookID: int, memberID: int)
    requires WellFormed(lib)
    requires BorrowBook(lib, bookID, memberID).err.None?
    requires lib.books[bookID].status == StatusAvailable && lib.books[bookID].reservedBy == NotReserved
    requires forall j :: 0 <= j < |lib.members[memberID].borrowed| ==> lib.members[memberID].borrowed[j].id != bookID
    ensures ReturnBookFixed(BorrowBook(lib, bookID, memberID).lib, bookID, memberID) == Step(lib, None)
    ensures ReturnBook(BorrowBook(lib, bookID, memberID).lib, bookID, memberID) == Step(lib, None)
  {
    var mid := BorrowBook(lib, bookID, memberID).lib;
    var member := lib.members[memberID];
    var lent := mid.books[bookID];
    assert mid.members[memberID] == member.(borrowed := member.borrowed + [lent]);
    Lists.AppendThenRemove(member.borrowed, lent, BookId);
    assert mid.members[memberID := member] == lib.members;
    assert mid.books[bookID := lent.(status := StatusAvailable, reservedBy := NotReserved)] == lib.books;
  }

  /**
   * The worked scenario: book 101 reserved by member 7, refused to member 9,
   * borrowed by member 7, untouched by the stale expiry, then returned.
   */
  lemma ReservationScenario()
    ensures
      var s0 := AddMember(AddMember(AddBook(EmptyLibrary(), Book(101, "T", "A", "", 0)), Member(7, "A", [])), Member(9, "B", []));
      var s1 := ReserveBook(s0, 101, 7);
      var s2 := BorrowBook(s1.lib, 101, 9);
      var s3 := BorrowBook(s2.lib, 101, 7);
      var s4 := Expire(s3.lib, 101, 7);
      var s5 := ReturnBook(s4, 101, 7);
      && s1.err.None? && s1.lib.books[101].status == StatusReserved && s1.lib.books[101].reservedBy == 7
      && s2.err == Some(ReservedByAnother)
      && s3.err.None? && s3.lib.books[101].status == StatusBorrowed
      && s4.books[101].status == StatusBorrowed
      && s5.err.None? && s5.lib.books[101].status == StatusAvailable
      && s5.lib.members[7].borrowed == []
  {
    var s0 := AddMember(AddMember(AddBook(EmptyLibrary(), Book(101, "T", "A", "", 0)), Member(7, "A", [])), Member(9, "B", []));
    var s3 := BorrowBook(BorrowBook(ReserveBook(s0, 101, 7).lib, 101, 9).lib, 101, 7);
    assert s3.lib.members[7].borrowed[0].id == 101;
  }

  /**
   * The listing follows the member's list: a successful borrow appends the
   * lent copy, a successful return drops the first entry for the book, and
   * no other member's listing changes.
   */
  lemma ListingFollowsBorrowAndReturn(lib: Library, bookID: int, memberID: int, other: int)
    requires other != memberID
    ensures
      var b := BorrowBook(lib, bookID, memberID);
      && (b.err.None? ==> ListBorrowedBooks(b.lib, memberID) == ListBorrowedBooks(lib, memberID) + [b.lib.books[bookID]])
      && ListBorrowedBooks(b.lib, other) == ListBorrowedBooks(lib, other)
    ensures
      var r := ReturnBook(lib, bookID, memberID);
      && (r.err.None? ==> RemovedFirst(ListBorrowedBooks(lib, memberID), ListBorrowedBooks(r.lib, memberID), bookID))
      && ListBorrowedBooks(r.lib, other) == ListBorrowedBooks(lib, other)
  {
  }
}
