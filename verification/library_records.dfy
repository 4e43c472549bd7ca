/**
 * The records of the two library variants without reservations (task3 and
 * golang/task3 `services.Library`): a book carries a free-form status
 * string, a member an ordered list of borrowed-book snapshots.
 */
module LibraryRecords {
  import opened Wrappers

  const StatusAvailable: string := "Available"
  const StatusBorrowed: string := "Borrowed"

  datatype Book = Book(id: int, title: string, author: string, status: string)

  datatype Member = Member(id: int, name: string, borrowed: seq<Book>)

  datatype Library = Library(books: map<int, Book>, members: map<int, Member>)

  datatype LibError =
    | BookNotFound
    | AlreadyBorrowed
    | MemberNotFound
    | NotBorrowedByMember
    | NotBorrowed

  /** The text of the error value the sources return. */
  function Message(e: LibError): string {
    match e
    case BookNotFound => "book not found"
    case AlreadyBorrowed => "book is already borrowed"
    case MemberNotFound => "member not found"
    case NotBorrowedByMember => "this book is not borrowed by the member"
    case NotBorrowed => "book is not borrowed"
  }

  /** The state after a call together with the error it returned (None for nil). */
  datatype Step = Step(lib: Library, err: Option<LibError>)

  function BookId(b: Book): int {
    b.id
  }

  predicate IsAvailable(b: Book) {
    b.status == StatusAvailable
  }

  /** True when some entry of `list` carries `bookID`. */
  predicate HoldsBook(list: seq<Book>, bookID: int) {
    exists j :: 0 <= j < |list| && list[j].id == bookID
  }

  /** `after` is `before` without its first entry for `bookID`, all others in their order. */
  ghost predicate RemovedFirst(before: seq<Book>, after: seq<Book>, bookID: int) {
    exists i ::
      && 0 <= i < |before| && before[i].id == bookID
      && (forall j :: 0 <= j < i ==> before[j].id != bookID)
      && after == before[..i] + before[i + 1..]
  }
}
