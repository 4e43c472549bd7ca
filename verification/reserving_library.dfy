/**
 * The library inventory with reservations (task4 `services.Library`).
 *
 * Books move between "Available", "Reserved" and "Borrowed"; `reservedBy`
 * holds the reserving member, with 0 meaning "not reserved". Members keep an
 * ordered list of snapshots of the books they borrowed. Every operation is
 * a pure transition from one library state to the next; the mutex that
 * makes each call atomic in the source is what lets the model treat calls
 * as a sequence. The timer goroutine of a reservation becomes the explicit
 * step `Expire`, so reservation interleavings are ordinary call sequences.
 */
module ReservingLibrary {
  import opened Wrappers
  import Lists
  import Maps

  const StatusAvailable: string := "Available"
  const StatusReserved: string := "Reserved"
  const StatusBorrowed: string := "Borrowed"

  /** The `reservedBy` value of a book nobody has reserved. */
  const NotReserved: int := 0

  datatype Book = Book(id: int, title: string, author: string, status: string, reservedBy: int)

  datatype Member = Member(id: int, name: string, borrowed: seq<Book>)

  datatype Library = Library(books: map<int, Book>, members: map<int, Member>)

  datatype LibError =
    | BookNotFound
    | ReservedByAnother
    | AlreadyBorrowed
    | MemberNotFound
    | NotBorrowedByMember
    | NotAvailableForReservation

  /** The text of the error value the source returns. */
  function Message(e: LibError): string {
    match e
    case BookNotFound => "book not found"
    case ReservedByAnother => "book is reserved by another member"
    case AlreadyBorrowed => "book is already borrowed"
    case MemberNotFound => "member not found"
    case NotBorrowedByMember => "this book is not borrowed by the member"
    case NotAvailableForReservation => "book is not available for reservation"
  }

  /** The state after a call together with the error it returned (None for nil). */
  datatype Step = Step(lib: Library, err: Option<LibError>)

  function EmptyLibrary(): Library {
    Library(map[], map[])
  }

  function BookId(b: Book): int {
    b.id
  }

  /** True when `b` is still reserved by `memberID`. */
  predicate ReservedFor(b: Book, memberID: int) {
    b.status == StatusReserved && b.reservedBy == memberID
  }

  /** True when `memberID` may take `b`: it is Available, or Reserved by that very member. */
  predicate Borrowable(b: Book, memberID: int) {
    b.status == StatusAvailable || ReservedFor(b, memberID)
  }

  /** The book a member has borrowed, as recorded in the books map after a borrow. */
  function Lent(b: Book): Book {
    b.(status := StatusBorrowed, reservedBy := NotReserved)
  }

  function AddBook(lib: Library, book: Book): (r: Library)
    ensures r.books.Keys == lib.books.Keys + {book.id}
    ensures r.books[book.id].status == StatusAvailable && r.books[book.id].reservedBy == NotReserved
    ensures r.books[book.id] == book.(status := r.books[book.id].status, reservedBy := r.books[book.id].reservedBy)
    ensures forall id :: id in lib.books && id != book.id ==> r.books[id] == lib.books[id]
    ensures r.members == lib.members
  {
    lib.(books := lib.books[book.id := book.(status := StatusAvailable, reservedBy := NotReserved)])
  }

  function RemoveBook(lib: Library, bookID: int): (r: Library)
    ensures r.books.Keys == lib.books.Keys - {bookID}
    ensures forall id :: id in r.books ==> r.books[id] == lib.books[id]
    ensures r.members == lib.members
  {
    lib.(books := lib.books - {bookID})
  }

  function AddMember(lib: Library, member: Member): (r: Library)
    ensures r.members.Keys == lib.members.Keys + {member.id}
    ensures r.members[member.id] == member
    ensures forall id :: id in lib.members && id != member.id ==> r.members[id] == lib.members[id]
    ensures r.books == lib.books
  {
    lib.(members := lib.members[member.id := member])
  }

  /**
   * Borrowing. The book is written back as Borrowed before the member is
   * looked up, so an unknown member gets "member not found" while the book
   * stays Borrowed with nobody's list holding it.
   */
  function BorrowBook(lib: Library, bookID: int, memberID: int): (r: Step)
    ensures bookID !in lib.books ==> r == Step(lib, Some(BookNotFound))
    ensures bookID in lib.books && lib.books[bookID].status == StatusReserved && lib.books[bookID].reservedBy != memberID ==>
              r == Step(lib, Some(ReservedByAnother))
    ensures bookID in lib.books && lib.books[bookID].status != StatusReserved && lib.books[bookID].status != StatusAvailable ==>
              r == Step(lib, Some(AlreadyBorrowed))
    ensures r.err.None? <==> bookID in lib.books && Borrowable(lib.books[bookID], memberID) && memberID in lib.members
    ensures r.err == Some(MemberNotFound) <==> bookID in lib.books && Borrowable(lib.books[bookID], memberID) && memberID !in lib.members
    ensures bookID in lib.books && Borrowable(lib.books[bookID], memberID) ==>
              && r.lib.books == lib.books[bookID := Lent(lib.books[bookID])]
              && r.lib.books[bookID].status == StatusBorrowed && r.lib.books[bookID].reservedBy == NotReserved
    ensures r.err.None? ==>
              && r.lib.members.Keys == lib.members.Keys
              && r.lib.members[memberID].borrowed == lib.members[memberID].borrowed + [r.lib.books[bookID]]
              && r.lib.members[memberID] == lib.members[memberID].(borrowed := r.lib.members[memberID].borrowed)
              && forall id :: id in lib.members && id != memberID ==> r.lib.members[id] == lib.members[id]
    ensures r.err.Some? ==> r.lib.members == lib.members
  {
    if bookID !in lib.books then Step(lib, Some(BookNotFound))
    else
      var book := lib.books[bookID];
      if book.status == StatusReserved && book.reservedBy != memberID then Step(lib, Some(ReservedByAnother))
      else if book.status != StatusAvailable && book.status != StatusReserved then Step(lib, Some(AlreadyBorrowed))
      else
        var lent := Lent(book);
        var books := lib.books[bookID := lent];
        if memberID !in lib.members then Step(lib.(books := books), Some(MemberNotFound))
        else
          var member := lib.members[memberID];
          Step(Library(books, lib.members[memberID := member.(borrowed := member.borrowed + [lent])]), None)
  }

  /**
   * Returning. Only the first entry of the member's list carrying `bookID` is
   * dropped; the book becomes Available but, as written, keeps its
   * `reservedBy` value (see `ReturnBookFixed`).
   */
  function ReturnBook(lib: Library, bookID: int, memberID: int): (r: Step)
    ensures bookID !in lib.books ==> r == Step(lib, Some(BookNotFound))
    ensures bookID in lib.books && memberID !in lib.members ==> r == Step(lib, Some(MemberNotFound))
    ensures bookID in lib.books && memberID in lib.members &&
            (forall j :: 0 <= j < |lib.members[memberID].borrowed| ==> lib.members[memberID].borrowed[j].id != bookID) ==>
              r == Step(lib, Some(NotBorrowedByMember))
    ensures r.err.None? <==>
              && bookID in lib.books && memberID in lib.members
              && exists j :: 0 <= j < |lib.members[memberID].borrowed| && lib.members[memberID].borrowed[j].id == bookID
    ensures r.err.Some? ==> r.lib == lib
    ensures r.err.None? ==>
              && r.lib.books == lib.books[bookID := lib.books[bookID].(status := StatusAvailable)]
              && r.lib.members.Keys == lib.members.Keys
              && (forall id :: id in lib.members && id != memberID ==> r.lib.members[id] == lib.members[id])
              && RemovedFirst(lib.members[memberID].borrowed, r.lib.members[memberID].borrowed, bookID)
              && r.lib.members[memberID] == lib.members[memberID].(borrowed := r.lib.members[memberID].borrowed)
  {
    ReturnWith(lib, bookID, memberID, false)
  }

  /** `after` is `before` without its first entry for `bookID`, all others in their order. */
  ghost predicate RemovedFirst(before: seq<Book>, after: seq<Book>, bookID: int) {
    exists i ::
      && 0 <= i < |before| && before[i].id == bookID
      && (forall j :: 0 <= j < i ==> before[j].id != bookID)
      && after == before[..i] + before[i + 1..]
  }

  /** The shared body of the as-written and the corrected return; `clear` says whether `reservedBy` is reset. */
  function ReturnWith(lib: Library, bookID: int, memberID: int, clear: bool): (r: Step)
    ensures r.err.Some? ==> r.lib == lib
    ensures bookID in lib.books && memberID in lib.members &&
            (forall j :: 0 <= j < |lib.members[memberID].borrowed| ==> lib.members[memberID].borrowed[j].id != bookID) ==>
              r.err == Some(NotBorrowedByMember)
    ensures r.err.None? ==> bookID in lib.books && memberID in lib.members
    ensures r.err.None? ==>
              && r.lib.members.Keys == lib.members.Keys
              && (forall id :: id in lib.members && id != memberID ==> r.lib.members[id] == lib.members[id])
              && RemovedFirst(lib.members[memberID].borrowed, r.lib.members[memberID].borrowed, bookID)
              && r.lib.members[memberID] == lib.members[memberID].(borrowed := r.lib.members[memberID].borrowed)
  {
    if bookID !in lib.books then Step(lib, Some(BookNotFound))
    else if memberID !in lib.members then Step(lib, Some(MemberNotFound))
    else
      var book := lib.books[bookID];
      var member := lib.members[memberID];
      match Lists.FirstIndex(member.borrowed, BookId, bookID)
      case None => Step(lib, Some(NotBorrowedByMember))
      case Some(i) =>
        var returned := if clear then book.(status := StatusAvailable, reservedBy := NotReserved)
                        else book.(status := StatusAvailable);
        var rest := Lists.RemoveAt(member.borrowed, i);
        assert rest == member.borrowed[..i] + member.borrowed[i + 1..];
        Step(Library(lib.books[bookID := returned], lib.members[memberID := member.(borrowed := rest)]), None)
  }

  /** The return the source evidently intends: an Available book is never left reserved by anyone. */
  function ReturnBookFixed(lib: Library, bookID: int, memberID: int): (r: Step)
    ensures r.err.Some? ==> r.lib == lib
    ensures r.err.None? <==>
              && bookID in lib.books && memberID in lib.members
              && exists j :: 0 <= j < |lib.members[memberID].borrowed| && lib.members[memberID].borrowed[j].id == bookID
    ensures r.err.None? ==>
              && r.lib.books == lib.books[bookID := lib.books[bookID].(status := StatusAvailable, reservedBy := NotReserved)]
              && r.lib.members == ReturnBook(lib, bookID, memberID).lib.members
    ensures r.err == ReturnBook(lib, bookID, memberID).err
  {
    ReturnWith(lib, bookID, memberID, true)
  }

  function ReserveBook(lib: Library, bookID: int, memberID: int): (r: Step)
    ensures bookID !in lib.books ==> r == Step(lib, Some(BookNotFound))
    ensures bookID in lib.books && lib.books[bookID].status != StatusAvailable ==> r == Step(lib, Some(NotAvailableForReservation))
    ensures r.err.None? <==> bookID in lib.books && lib.books[bookID].status == StatusAvailable
    ensures r.err.None? ==>
              && r.lib.members == lib.members
              && r.lib.books.Keys == lib.books.Keys
              && ReservedFor(r.lib.books[bookID], memberID)
              && r.lib.books[bookID] == lib.books[bookID].(status := StatusReserved, reservedBy := memberID)
              && forall id :: id in lib.books && id != bookID ==> r.lib.books[id] == lib.books[id]
  {
    if bookID !in lib.books then Step(lib, Some(BookNotFound))
    else
      var book := lib.books[bookID];
      if book.status != StatusAvailable then Step(lib, Some(NotAvailableForReservation))
      else Step(lib.(books := lib.books[bookID := book.(status := StatusReserved, reservedBy := memberID)]), None)
  }

  /**
   * What the reservation timer does when it fires: revert the book to
   * Available only if it is still reserved by the same member.
   */
  function Expire(lib: Library, bookID: int, memberID: int): (r: Library)
    ensures r == lib <==> !(bookID in lib.books && ReservedFor(lib.books[bookID], memberID))
    ensures r.members == lib.members && r.books.Keys == lib.books.Keys
    ensures forall id :: id in lib.books && id != bookID ==> r.books[id] == lib.books[id]
    ensures bookID in lib.books && ReservedFor(lib.books[bookID], memberID) ==>
              r.books[bookID] == lib.books[bookID].(status := StatusAvailable, reservedBy := NotReserved)
  {
    if bookID !in lib.books then lib
    else
      var book := lib.books[bookID];
      if book.status == StatusReserved && book.reservedBy == memberID then
        lib.(books := lib.books[bookID := book.(status := StatusAvailable, reservedBy := NotReserved)])
      else lib
  }

  function ListBorrowedBooks(lib: Library, memberID: int): (r: seq<Book>)
    ensures memberID !in lib.members ==> r == []
    ensures memberID in lib.members ==> r == lib.members[memberID].borrowed
  {
    if memberID in lib.members then lib.members[memberID].borrowed else []
  }

  predicate IsAvailable(b: Book) {
    b.status == StatusAvailable
  }

  /** The books currently Available, in Go's unspecified map order. */
  method ListAvailableBooks(lib: Library) returns (r: seq<Book>)
    ensures forall b :: b in r ==> b.status == StatusAvailable && b in lib.books.Values
    ensures forall id :: id in lib.books && lib.books[id].status == StatusAvailable ==> lib.books[id] in r
    ensures |r| == |set id | id in lib.books && lib.books[id].status == StatusAvailable|
  {
    ghost var order;
    r, order := Maps.CollectValues(lib.books, IsAvailable);
    assert Maps.KeysWhere(lib.books, IsAvailable) == set id | id in lib.books && lib.books[id].status == StatusAvailable;
    forall b | b in r
      ensures b in lib.books.Values
    {
      var i :| 0 <= i < |r| && r[i] == b;
      assert lib.books[order[i]] == b;
    }
  }
}
