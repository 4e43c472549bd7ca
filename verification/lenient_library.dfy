/**
 * The golang/task3 library: books are stored exactly as given, removal
 * reports a missing book, and a return is judged by the book's status alone
 * rather than by the member's list.
 */
module LenientLibrary {
  import opened Wrappers
  import opened LibraryRecords
  import L = Lists
  import Basic = BasicLibrary

  /** Stores the book exactly as given, caller-supplied status included. */
  function AddBook(lib: Library, book: Book): (r: Library)
    ensures r.books.Keys == lib.books.Keys + {book.id}
    ensures r.books[book.id] == book
    ensures forall id :: id in lib.books && id != book.id ==> r.books[id] == lib.books[id]
    ensures r.members == lib.members
  {
    lib.(books := lib.books[book.id := book])
  }

  function RemoveBook(lib: Library, bookID: int): (r: Step)
    ensures r.err.Some? <==> bookID !in lib.books
    ensures r.err.Some? ==> r == Step(lib, Some(BookNotFound))
    ensures r.lib.books.Keys == lib.books.Keys - {bookID}
    ensures forall id :: id in r.lib.books ==> r.lib.books[id] == lib.books[id]
    ensures r.lib.members == lib.members
  {
    if bookID !in lib.books then Step(lib, Some(BookNotFound))
    else Step(lib.(books := lib.books - {bookID}), None)
  }

  /**
   * Returning succeeds for any known member once the book is Borrowed; the
   * member's first entry for the book is dropped if there is one, and the
   * list is left alone if there is none.
   */
  function ReturnBook(lib: Library, bookID: int, memberID: int): (r: Step)
    ensures bookID !in lib.books ==> r.err == Some(BookNotFound)
    ensures bookID in lib.books && lib.books[bookID].status != StatusBorrowed ==> r.err == Some(NotBorrowed)
    ensures bookID in lib.books && lib.books[bookID].status == StatusBorrowed && memberID !in lib.members ==> r.err == Some(MemberNotFound)
    ensures r.err.Some? ==> r.lib == lib
    ensures r.err.None? <==> bookID in lib.books && lib.books[bookID].status == StatusBorrowed && memberID in lib.members
    ensures r.err.None? ==>
              && r.lib.books == lib.books[bookID := lib.books[bookID].(status := StatusAvailable)]
              && r.lib.members.Keys == lib.members.Keys
              && (forall id :: id in lib.members && id != memberID ==> r.lib.members[id] == lib.members[id])
              && r.lib.members[memberID] == lib.members[memberID].(borrowed := r.lib.members[memberID].borrowed)
    ensures r.err.None? && HoldsBook(lib.members[memberID].borrowed, bookID) ==>
              RemovedFirst(lib.members[memberID].borrowed, r.lib.members[memberID].borrowed, bookID)
    ensures r.err.None? && !HoldsBook(lib.members[memberID].borrowed, bookID) ==>
              r.lib.members == lib.members
  {
    if bookID !in lib.books then Step(lib, Some(BookNotFound))
    else
      var book := lib.books[bookID];
      if book.status != StatusBorrowed then Step(lib, Some(NotBorrowed))
      else if memberID !in lib.members then Step(lib, Some(MemberNotFound))
      else
        var member := lib.members[memberID];
        var books := lib.books[bookID := book.(status := StatusAvailable)];
        match L.FirstIndex(member.borrowed, BookId, bookID)
        case None =>
          assert lib.members[memberID := member] == lib.members;
          Step(Library(books, lib.members[memberID := member]), None)
        case Some(i) =>
          var rest := L.RemoveAt(member.borrowed, i);
          assert rest == member.borrowed[..i] + member.borrowed[i + 1..];
          Step(Library(books, lib.members[memberID := member.(borrowed := rest)]), None)
  }

  /** The member's list, or nil (None) for an unknown member. */
  function ListBorrowedBooks(lib: Library, memberID: int): (r: Option<seq<Book>>)
    ensures r.None? <==> memberID !in lib.members
    ensures r.Some? ==> r.value == lib.members[memberID].borrowed
  {
    if memberID in lib.members then Some(lib.members[memberID].borrowed) else None
  }

  /**
   * Any known member can return a Borrowed book that someone else holds: the
   * book becomes Available while the real borrower's list still shows it.
   */
  lemma ReturnByBystander(lib: Library, bookID: int, borrower: int, bystander: int)
    requires bookID in lib.books && lib.books[bookID].status == StatusBorrowed
    requires borrower in lib.members && bystander in lib.members && borrower != bystander
    requires HoldsBook(lib.members[borrower].borrowed, bookID)
    requires !HoldsBook(lib.members[bystander].borrowed, bookID)
    ensures
      var r := ReturnBook(lib, bookID, bystander);
      && r.err.None?
      && r.lib.books[bookID].status == StatusAvailable
      && r.lib.members == lib.members
      && HoldsBook(r.lib.members[borrower].borrowed, bookID)
  {
  }

  /**
   * A book added with a status other than Available cannot be borrowed right
   * after it is added; unless that status is Borrowed, it cannot be returned
   * either, so neither call moves it out of its status.
   */
  lemma ForeignStatusBlocksBorrow(lib: Library, book: Book, memberID: int)
    requires book.status != StatusAvailable
    ensures Basic.BorrowBook(AddBook(lib, book), book.id, memberID).err == Some(AlreadyBorrowed)
    ensures book.status != StatusBorrowed ==> ReturnBook(AddBook(lib, book), book.id, memberID).err == Some(NotBorrowed)
  {
  }

  /**
   * A book added as Borrowed is reopened by the return of any known member,
   * even one whose list does not show it, and can then be borrowed.
   */
  lemma BorrowedStatusReopens(lib: Library, book: Book, returner: int, borrower: int)
    requires book.status == StatusBorrowed
    requires returner in lib.members && borrower in lib.members
    ensures
      var returned := ReturnBook(AddBook(lib, book), book.id, returner);
      && returned.err.None?
      && Basic.BorrowBook(returned.lib, book.id, borrower).err.None?
  {
  }

  /** Every book and member is stored under its own ID; any status string may occur. */
  ghost predicate Keyed(lib: Library) {
    && (forall id :: id in lib.books ==> lib.books[id].id == id)
    && (forall id :: id in lib.members ==> lib.members[id].id == id)
  }

  /** One call on this library's surface; it has no call that adds members. */
  datatype Op =
    | AddBookOp(book: Book)
    | RemoveBookOp(bookID: int)
    | BorrowOp(bookID: int, memberID: int)
    | ReturnOp(bookID: int, memberID: int)

  function Apply(lib: Library, op: Op): Library {
    match op
    case AddBookOp(b) => AddBook(lib, b)
    case RemoveBookOp(b) => RemoveBook(lib, b).lib
    case BorrowOp(b, m) => Basic.BorrowBook(lib, b, m).lib
    case ReturnOp(b, m) => ReturnBook(lib, b, m).lib
  }

  /** The state after the calls `ops`, in order. */
  function Run(lib: Library, ops: seq<Op>): Library
    decreases |ops|
  {
    if |ops| == 0 then lib else Run(Apply(lib, ops[0]), ops[1..])
  }

  lemma ApplyKeepsKeyed(lib: Library, op: Op)
    requires Keyed(lib)
    ensures Keyed(Apply(lib, op))
    ensures Apply(lib, op).members.Keys == lib.members.Keys
  {
  }

  /** No sequence of calls stores a book or member under a foreign ID, and the set of members never changes. */
  lemma {:induction false} RunKeepsKeyed(lib: Library, ops: seq<Op>)
    requires Keyed(lib)
    ensures Keyed(Run(lib, ops))
    ensures Run(lib, ops).members.Keys == lib.members.Keys
    decreases |ops|
  {
    if |ops| > 0 {
      ApplyKeepsKeyed(lib, ops[0]);
      RunKeepsKeyed(Apply(lib, ops[0]), ops[1..]);
    }
  }

  /** Removing a book just added under a new ID gives back the library; removing it again reports it missing. */
  lemma RemoveUndoesAdd(lib: Library, book: Book)
    requires book.id !in lib.books
    ensures RemoveBook(AddBook(lib, book), book.id) == Step(lib, None)
    ensures RemoveBook(RemoveBook(AddBook(lib, book), book.id).lib, book.id) == Step(lib, Some(BookNotFound))
  {
    assert AddBook(lib, book).books - {book.id} == lib.books;
  }

  /**
   * The listing of a known member follows the borrow and the return: a
   * borrow appends the lent copy, and a return by the holder drops the
   * first entry for the book; an unknown member's listing stays nil.
   */
  lemma ListingFollowsBorrowAndReturn(lib: Library, bookID: int, memberID: int)
    ensures
      var b := Basic.BorrowBook(lib, bookID, memberID);
      && (b.err.None? ==> ListBorrowedBooks(b.lib, memberID) == Some(ListBorrowedBooks(lib, memberID).value + [b.lib.books[bookID]]))
      && (memberID !in lib.members ==> ListBorrowedBooks(b.lib, memberID).None?)
    ensures
      var r := ReturnBook(lib, bookID, memberID);
      && (r.err.None? && HoldsBook(lib.members[memberID].borrowed, bookID) ==>
            RemovedFirst(ListBorrowedBooks(lib, memberID).value, ListBorrowedBooks(r.lib, memberID).value, bookID))
      && (memberID !in lib.members ==> ListBorrowedBooks(r.lib, memberID).None?)
  {
  }
}
