# A2SV internship exercises — a Dafny model of their cores

This project models the logic of the Go exercises in the A2SV internship
repository. It covers four groups.

- **Library services.** Three generations of an in-memory library:
  - task3 (`BasicLibrary`);
  - the golang/task3 variant with status-based returns (`LenientLibrary`);
  - task4 with reservations and reservation expiry (`ReservingLibrary`, `ReservationLemmas`).
- **Task manager back ends.**
  - The task5/task7 task service and the task7 user service (`TaskService`, `UserService`).
  - task9's in-memory user repository and task8's in-memory task repository (`UserRepository`, `TaskRepository`).
  - The task8/task9 use cases over abstract repositories, password hashing and token services (`TaskUsecases`, `UserUsecases`).
- **Pure helpers of the web layer.**
  - The task8 controller's error-to-status and task-to-response mappings (`HttpMapping`).
  - task9's `Authorization` header parsing and admin gate (`AuthMiddleware`).
- **Two string exercises.**
  - task2's two-pointer palindrome check (`Palindrome`).
  - golang/task2's word extractor and frequency counter (`WordFrequency`).

Every operation is a pure function or a method on immutable values. A
mutating Go method becomes a function from the old state to the new state
and the error it returned. For example, `Step(lib, err)` is the library
after the call together with `None` for a nil error.

- **Statuses and roles** are kept as strings, as in the source. This makes
  "every stored status is one of Available, Reserved, Borrowed" a real
  invariant rather than a fact of the types.
- **Go map iteration order** is unspecified. The listing operations
  (`ListAvailableBooks`, `FindAll`, `GetAll`) are methods that collect the
  values in an order of their choosing (`Maps.CollectValues`). Their
  contracts say which values come out, and nothing about the order.
- **Collaborators of the use cases** are function-valued fields of a ports
  record: repositories, bcrypt and JWT. Each use case returns its result,
  its error and the trace of collaborator calls it made. This lets the
  contracts say "before any repository call" and "without calling
  `UpdateRole`".
  - `Domain.Error.Foreign` stands for any error value that is not one of
    the domain's sentinel errors.
  - `InMemory` plugs the concrete repository models into the ports.
- **Hashing, password comparison and token validation** are uninterpreted
  function parameters.
- **Go strings** in the string exercises are byte sequences (`Bytes.Byte`),
  since the Go code indexes bytes.

Some details of the source that shape the model:
- task4's `BorrowBook` marks a borrowable book Borrowed *before* it looks up
  the member. An unknown member therefore gets "member not found" while the
  book stays Borrowed (`ReservationLemmas.StrandedBookCannotBeReturned`).
- task4's `AddMember` and its two listings read like task3's, but task4's
  `Book` also carries `ReservedBy`. They are therefore stated again over
  task4's records in `ReservingLibrary`.
- task5 and task7 have the same task service. It is modelled once, in
  `TaskService`. The rows below cite task5's file; task7's functions are at
  the same lines, except `Update` (61-76) and `Delete` (79-88).
- golang/task3's model files are not part of this model. Its `Book` and
  `Member` are assumed to have task3's fields (ID, title, author, status;
  ID, name, borrowed books), which is what its `main.go` uses. Its borrow
  and listing (lines 41-60 and 90-98 of its library_service.go) follow the
  same logic as task3's, so `LenientLibrary` reuses `BasicLibrary.BorrowBook`
  and `BasicLibrary.ListAvailableBooks`, whose rows below cover both. The
  one difference is that its listing is nil, not an empty slice, when no
  book is Available; that is not modelled (see "Left out").

## Model

| member | source | states |
|---|---|---|
| ReservingLibrary.AddBook | task4/library_management/services/library_service.go:39-45 | the book is stored under its ID as Available with no reservation, whatever status it came with, replacing any book with that ID; other books and all members are unchanged |
| ReservingLibrary.RemoveBook | task4/library_management/services/library_service.go:48-52 | exactly the given ID disappears from the books; a missing ID is not an error; members are untouched |
| ReservingLibrary.AddMember | task4/library_management/services/library_service.go:201-205 | the member is stored under its ID, replacing any previous one; books and other members are unchanged |
| ReservingLibrary.BorrowBook | task4/library_management/services/library_service.go:55-90 | fails with no change for a missing book, a book reserved by someone else, or a book that is neither Available nor Reserved; succeeds exactly when the book is Available or reserved by this member and the member exists, appending one Borrowed snapshot to the end of that member's list; with an unknown member it reports "member not found" but still leaves the book Borrowed |
| ReservingLibrary.ReturnBook | task4/library_management/services/library_service.go:93-126 | fails with no change for an unknown book ("book not found"), an unknown member ("member not found") or a member whose list has no entry with that ID ("not borrowed by member"); otherwise removes only the first matching entry, keeps the rest in order and the member's other fields, and sets the book Available, leaving its reservation field as it was |
| ReservingLibrary.ReturnBookFixed | task4/library_management/services/library_service.go:93-126 | the corrected return: same errors and same member lists as the return as written, but the returned book also has its reservation cleared |
| ReservingLibrary.ReserveBook | task4/library_management/services/library_service.go:156-177 | succeeds exactly on an existing Available book, making it Reserved for the member (known or not); a missing book gives "book not found" and any other status gives "not available for reservation", both with no change |
| ReservingLibrary.Expire | task4/library_management/services/library_service.go:180-198 | the expiry after the timer changes the library exactly when the book still exists and is still reserved by that member, and then it only turns that book Available with the reservation cleared |
| ReservingLibrary.ListBorrowedBooks | task4/library_management/services/library_service.go:143-152 | the member's borrowed list, or the empty list for an unknown member |
| ReservingLibrary.ListAvailableBooks | task4/library_management/services/library_service.go:129-140 | every element is a stored Available book, every stored Available book occurs, and there is one element per Available book |
| ReservationLemmas.RunKeepsWellFormed | task4/library_management/services/library_service.go:39-205 | whatever sequence of adds, removals, borrows, returns, reservations and expiries runs, every book stays keyed by its own ID with a status among Available, Reserved and Borrowed |
| ReservationLemmas.FixedRunKeepsReservationsCleared | task4/library_management/services/library_service.go:39-205 | with the corrected return, no sequence of calls leaves a non-Reserved book with a reservation |
| ReservationLemmas.ReturnLeavesStaleReservation | task4/library_management/services/library_service.go:121-124 | the return as written breaks that invariant: from a state with no stale reservation, a reservation by member 2 followed by member 1's return of a copy still in their list leaves the book Available yet reserved by member 2 |
| ReservationLemmas.ReservedBookRefusesOthers | task4/library_management/services/library_service.go:64-68 | after a successful reservation, any other member's borrow fails with "reserved by another member" and changes nothing |
| ReservationLemmas.BorrowNeutralisesExpiry | task4/library_management/services/library_service.go:64-79 | the reserving member can borrow the reserved book, and the later expiry of that reservation leaves the library unchanged |
| ReservationLemmas.ExpiryRevertsUnclaimed | task4/library_management/services/library_service.go:190-195 | an unclaimed reservation expires back to Available with no reservation and the members untouched |
| ReservationLemmas.StaleExpiryKeepsNewReservation | task4/library_management/services/library_service.go:190-195 | the expiry of an older reservation by another member does not touch a newer reservation |
| ReservationLemmas.SecondBorrowFails | task4/library_management/services/library_service.go:72-74 | after a successful borrow, any second borrow of that book fails with "already borrowed" |
| ReservationLemmas.StrandedBookCannotBeReturned | task4/library_management/services/library_service.go:76-84 | a borrow by an unknown member leaves the book Borrowed and in no member's list, so every later return of it fails |
| ReservationLemmas.BorrowReturnRoundTrip | task4/library_management/services/library_service.go:76-124 | borrowing an Available, unreserved book and returning it restores the library exactly, with the return as written and with the corrected one |
| ReservationLemmas.ReservationScenario | task4/library_management/services/library_service.go:55-198 | book 101 reserved by member 7 is refused to member 9, borrowed by member 7, untouched by the expiry, and Available again after member 7 returns it, with their list empty |
| ReservationLemmas.ListingFollowsBorrowAndReturn | task4/library_management/services/library_service.go:55-152 | the member's listing gains the lent copy at its end after a successful borrow and loses its first entry for the book after a successful return; other members' listings do not change |
| BasicLibrary.AddBook | task3/library_management/services/library_service.go:34-37 | the book is stored under its ID as Available, replacing any previous book; nothing else changes |
| BasicLibrary.RemoveBook | task3/library_management/services/library_service.go:40-42 | exactly the given ID disappears; removing a missing ID leaves the library as it was |
| BasicLibrary.AddMember | task3/library_management/services/library_service.go:117-119 | the member is stored under its ID; books and other members are unchanged |
| BasicLibrary.BorrowBook | task3/library_management/services/library_service.go:45-64 | "book not found", "already borrowed" (any non-Available status) and "member not found" in that order, each with no change; success exactly for an Available book and a known member, marking it Borrowed and appending its snapshot to the member's list |
| BasicLibrary.ReturnBook | task3/library_management/services/library_service.go:67-94 | fails with no change for an unknown book or member or a book not in the member's list; otherwise removes the first matching entry, keeping the rest in order, and sets the book Available |
| BasicLibrary.ListBorrowedBooks | task3/library_management/services/library_service.go:108-114 | the member's list, or empty for an unknown member |
| BasicLibrary.ListAvailableBooks | task3/library_management/services/library_service.go:97-105 | exactly the Available books, one element each |
| BasicLibrary.BorrowReturnRoundTrip | task3/library_management/services/library_service.go:45-94 | borrowing then returning a book the member did not already hold restores the library exactly |
| BasicLibrary.RoundTripNeedsFreshList | task3/library_management/services/library_service.go:80-90 | when the member already holds an older copy, the return removes that first copy instead of the new one, so the library is not restored |
| BasicLibrary.RunKeepsWellFormed | task3/library_management/services/library_service.go:34-119 | whatever sequence of adds, removals, borrows and returns runs, books and members stay stored under their own IDs and every book stays Available or Borrowed |
| BasicLibrary.RemoveUndoesAdd | task3/library_management/services/library_service.go:34-42 | removing a book just added under a new ID gives back the library exactly |
| BasicLibrary.ListingFollowsBorrowAndReturn | task3/library_management/services/library_service.go:45-114 | the member's listing gains the lent copy at its end after a successful borrow and loses its first entry for the book after a successful return; other members' listings do not change |
| LenientLibrary.AddBook | golang/task3/library_management/services/library_service.go:29-31 | the book is stored as given, status included, replacing any previous book |
| LenientLibrary.RemoveBook | golang/task3/library_management/services/library_service.go:33-39 | reports "book not found" exactly when the ID is absent, and otherwise removes exactly that book |
| LenientLibrary.ReturnBook | golang/task3/library_management/services/library_service.go:62-88 | succeeds exactly for a Borrowed book and a known member, whether or not the member holds it; the book becomes Available, and the member's list loses its first matching entry if there is one and is unchanged otherwise |
| LenientLibrary.ListBorrowedBooks | golang/task3/library_management/services/library_service.go:100-106 | the member's list, or no list at all (nil) for an unknown member |
| LenientLibrary.ReturnByBystander | golang/task3/library_management/services/library_service.go:62-88 | a member who does not hold a Borrowed book can return it: the book becomes Available while the real borrower still lists it |
| LenientLibrary.ForeignStatusBlocksBorrow | golang/task3/library_management/services/library_service.go:29-31 | the borrow right after adding a book with a status other than Available fails with "already borrowed"; unless that status is Borrowed, the return fails too, so neither call changes it |
| LenientLibrary.BorrowedStatusReopens | golang/task3/library_management/services/library_service.go:29-88 | a book added as Borrowed is made Available by the return of any known member and can then be borrowed |
| LenientLibrary.RunKeepsKeyed | golang/task3/library_management/services/library_service.go:29-88 | whatever sequence of adds, removals, borrows and returns runs, books and members stay stored under their own IDs and the set of members never changes |
| LenientLibrary.RemoveUndoesAdd | golang/task3/library_management/services/library_service.go:29-39 | removing a book just added under a new ID gives back the library with no error, and a second removal reports "book not found" |
| LenientLibrary.ListingFollowsBorrowAndReturn | golang/task3/library_management/services/library_service.go:41-106 | a known member's listing gains the lent copy after a successful borrow and, for the holder, loses its first entry for the book after a return; an unknown member's listing stays nil |
| UserRepository.New | task9/task-manager/Repositories/user_repository.go:35-41 | a fresh repository is consistent, counts no users and hands out ID 1 next |
| UserRepository.Save | task9/task-manager/Repositories/user_repository.go:44-68 | a taken username gives "username already exists" with no change; otherwise the user is stored under the next ID, which the result carries, and the counter advances; consistency of the two indexes is kept |
| UserRepository.FindByUsername | task9/task-manager/Repositories/user_repository.go:71-81 | the stored user and hash exactly when the username is known, otherwise "user not found" |
| UserRepository.FindByID | task9/task-manager/Repositories/user_repository.go:84-101 | an unknown ID gives "user not found"; on a consistent repository every stored ID is found, giving exactly the user stored under it, and the inconsistency error cannot occur |
| UserRepository.UpdateRole | task9/task-manager/Repositories/user_repository.go:105-127 | an unknown ID gives "user not found" with no change; otherwise only that user's role changes, and consistency is kept |
| UserRepository.CountUsers | task9/task-manager/Repositories/user_repository.go:130-135 | the number of stored users, which on a consistent repository is one less than the next ID |
| UserRepository.SaveThenFind | task9/task-manager/Repositories/user_repository.go:44-101 | a saved user is found again both by username, with its hash, and by the ID it was given |
| UserRepository.ReplayAssignsConsecutiveIds | task9/task-manager/Repositories/user_repository.go:44-68 | over any sequence of saves and role updates, the successful saves receive consecutive IDs and the count grows by one per success |
| UserRepository.FreshRepositoryCountsSaves | task9/task-manager/Repositories/user_repository.go:35-68 | from a fresh repository the saved users get IDs 1, 2, 3, … and the count equals the number of successful saves |
| TaskRepository.New | task8/task-manager/Repositories/task_repository.go:27-32 | a fresh repository is empty and consistent |
| TaskRepository.Save | task8/task-manager/Repositories/task_repository.go:35-43 | the task is stored under the next ID, which the result carries, and the counter advances; on a consistent repository that ID was free |
| TaskRepository.FindByID | task8/task-manager/Repositories/task_repository.go:46-55 | the stored task exactly when the ID is present, otherwise "task not found" |
| TaskRepository.FindAll | task8/task-manager/Repositories/task_repository.go:58-68 | every stored task exactly once, with distinct IDs on a consistent repository |
| TaskRepository.Update | task8/task-manager/Repositories/task_repository.go:71-84 | replaces the task with the same ID and returns it, or reports "task not found" with no change |
| TaskRepository.Delete | task8/task-manager/Repositories/task_repository.go:87-97 | removes exactly that ID, or reports "task not found" with no change; the counter never moves back |
| TaskRepository.DeleteIsFinal | task8/task-manager/Repositories/task_repository.go:87-97 | after a delete, finding or deleting that ID again fails with "task not found" |
| TaskRepository.SaveThenFind | task8/task-manager/Repositories/task_repository.go:35-55 | a saved task is found under the ID it was given |
| TaskRepository.RunKeepsCounter | task8/task-manager/Repositories/task_repository.go:35-97 | no sequence of saves, updates and deletes breaks consistency or lowers the ID counter |
| TaskRepository.DeletedIdNeverReused | task8/task-manager/Repositories/task_repository.go:35-43 | once a task is deleted, no later save, after any calls, hands out its ID again |
| TaskService.New | task5/task_manager/data/task_service.go:18-23 | a fresh service is empty, consistent and numbers from 1 |
| TaskService.GetAll | task5/task_manager/data/task_service.go:26-35 | every stored task exactly once |
| TaskService.GetByID | task5/task_manager/data/task_service.go:38-47 | the stored task exactly when present, otherwise the "task not found" message |
| TaskService.Create | task5/task_manager/data/task_service.go:50-58 | the task is stored under the next ID, whatever ID it came with, and returned; the counter advances |
| TaskService.Update | task5/task_manager/data/task_service.go:61-77 | for a present ID, the new fields are stored under the old ID and returned; otherwise "task not found" with no change |
| TaskService.Delete | task5/task_manager/data/task_service.go:80-89 | removes exactly that ID or reports "task not found" with no change |
| TaskService.UpdateThenGet | task5/task_manager/data/task_service.go:38-77 | after an update, a read returns the new fields under the same ID, and repeating the update changes nothing |
| TaskService.DeleteUndoesCreate | task5/task_manager/data/task_service.go:50-89 | deleting the task just created gives back the stored tasks exactly, the ID is then not found and a second delete reports "task not found", while the counter stays advanced |
| TaskService.CreateAllNumbersFrom | task5/task_manager/data/task_service.go:50-58 | a run of creations numbers the tasks consecutively from the current counter |
| UserService.New | task7/task_manager/data/user_service.go:20-25 | a fresh service has no users, is consistent and numbers from 1 |
| UserService.Register | task7/task_manager/data/user_service.go:29-57 | a taken username or a hashing failure gives an error with no change; otherwise the user gets the next ID and the hash, and is admin exactly when no user existed before |
| UserService.Login | task7/task_manager/data/user_service.go:60-75 | the stored user exactly when the username is known and the password matches its hash; otherwise the single "invalid credentials" message |
| UserService.Promote | task7/task_manager/data/user_service.go:78-89 | an unknown user gives "user not found" with no change; otherwise only that user's role becomes admin |
| UserService.PromoteIdempotent | task7/task_manager/data/user_service.go:78-89 | promoting twice is the same as promoting once |
| UserService.RegisterThenLogin | task7/task_manager/data/user_service.go:29-89 | a newly registered user logs in exactly with the passwords that match the stored hash and gets back the user as registered, and after a promotion the same login reports the admin role |
| UserService.RegisterAllFromFresh | task7/task_manager/data/user_service.go:29-57 | across any sequence of registrations the new users get consecutive IDs, and only the user with ID 1 is an admin |
| TaskUsecases.CreateTask | task9/task-manager/Usecases/task_usecases.go:30-54 | an empty title gives "bad request" before any repository call; otherwise exactly one save of the new task, whose result is returned on success, and any save error becomes "internal server error" with the zero task |
| TaskUsecases.GetTaskByID | task9/task-manager/Usecases/task_usecases.go:57-67 | one lookup; "task not found" passes through, any other error becomes "internal server error", and no foreign error escapes |
| TaskUsecases.GetAllTasks | task9/task-manager/Usecases/task_usecases.go:70-77 | the repository's list, or no list with "internal server error" when the repository fails |
| TaskUsecases.UpdateTask | task9/task-manager/Usecases/task_usecases.go:80-119 | an empty title gives "bad request" with no call; a failed lookup gives its translated error; after a successful lookup the update is sent with the path ID and the new fields, its result is returned when it succeeds, and its error is translated ("task not found" kept, anything else "internal server error") |
| TaskUsecases.DeleteTask | task9/task-manager/Usecases/task_usecases.go:122-132 | one delete; "task not found" passes through and any other error becomes "internal server error" |
| TaskUsecases.InMemoryNeverInternal | task9/task-manager/Usecases/task_usecases.go:30-132 | over the in-memory task repository, creation always succeeds with the next ID, and read, update and delete fail only with "task not found", exactly when the ID is absent |
| UserUsecases.RoleFor | task8/task-manager/Usecases/user_usecases.go:68-71 | admin exactly when the user count is 0, user otherwise |
| UserUsecases.Register | task8/task-manager/Usecases/user_usecases.go:38-93 | an empty username or password gives "bad request" before any call; an existing username gives "username already exists" after the lookup alone; any other lookup error, a hash error or a count error gives "internal server error" right after that call; with all of those answering, the save's result decides: its user is returned, "username already exists" is passed on and any other save error becomes "internal server error"; the role is chosen by the count, every error returns the zero user and no foreign error escapes |
| UserUsecases.Login | task8/task-manager/Usecases/user_usecases.go:96-124 | an unknown user or a failed compare gives "invalid credentials" and any other lookup error "internal server error"; after a successful compare, a generated token is returned exactly, with no error, and a token error gives "internal server error"; the token is generated for the stored user's ID, name and role |
| UserUsecases.Promote | task8/task-manager/Usecases/user_usecases.go:128-156 | an admin is left alone without an update call; otherwise one role update to admin; "user not found" passes through and any other error becomes "internal server error" |
| UserUsecases.RegisterOverInMemory | task8/task-manager/Usecases/user_usecases.go:38-93 | over the in-memory user repository, a new username is registered with the next ID and is admin exactly when it is the first user; a taken one is refused |
| UserUsecases.PromoteOverInMemory | task8/task-manager/Usecases/user_usecases.go:128-156 | over the in-memory user repository, promotion succeeds exactly for known usernames and otherwise reports "user not found" |
| UserUsecases.LoginOverInMemory | task8/task-manager/Usecases/user_usecases.go:96-124 | over the in-memory user repository, an unknown username or a failed compare gives "invalid credentials", and a stored user whose password matches gets exactly the token generated for their ID, name and role |
| HttpMapping.MapDomainErrorToHttp | task8/task-manager/Delivery/controllers/controller.go:83-105 | 401 exactly for invalid credentials, 409 for an existing username, 404 for a missing user or task, 403 for forbidden, 400 for a bad request and 500 for everything else; below 500 the error's own message is shown, at 500 only a fixed message |
| HttpMapping.ServerErrorsHideDetails | task8/task-manager/Delivery/controllers/controller.go:97-104 | all unexpected errors produce the same reply, so no detail of the underlying error reaches the client |
| HttpMapping.MapDomainTaskToResponse | task8/task-manager/Delivery/controllers/controller.go:179-187 | every field of the response is the task's field of the same name, the ID included; nothing is renamed, dropped or defaulted |
| HttpMapping.ResponseRoundTrip | task8/task-manager/Delivery/controllers/controller.go:179-187 | the response record carries every field of the task: converting there and back is the identity both ways |
| HttpMapping.MapDomainTasksToResponse | task8/task-manager/Delivery/controllers/controller.go:190-196 | one response per task, in the same order, each converting back to its task |
| AuthMiddleware.Split | task9/task-manager/Infrastructure/auth_middleWare.go:39-40 | the pieces of the header between single spaces, none containing a space, joining back to the header |
| AuthMiddleware.Authenticate | task9/task-manager/Infrastructure/auth_middleWare.go:30-63 | a missing header and a header that is not exactly "bearer" (any case), one space and a token are refused with 401; the request continues exactly when the token validates, with the claims and the verified flag in the context; a rejected token gives 401 carrying exactly the validator's error message |
| AuthMiddleware.AuthorizeAdmin | task9/task-manager/Infrastructure/auth_middleWare.go:67-104 | continues, with the context untouched, exactly when the verified flag is true and the role is the string "admin"; a missing or false flag gives 500 "Authentication context missing"; a flag that is not a boolean makes the handler panic; with the flag true, a missing role gives 500 "User role not found in context", a role that is not a string gives 500 "Invalid user role type in context", and a string role other than "admin" gives 403 with the forbidden error's text |
| AuthMiddleware.BearerHeaderAccepted | task9/task-manager/Infrastructure/auth_middleWare.go:39-62 | "Bearer" in any case, one space and a space-free valid token is accepted with that token's claims |
| AuthMiddleware.SchemeAloneRefused | task9/task-manager/Infrastructure/auth_middleWare.go:39-44 | a scheme without a token is refused as badly formatted |
| AuthMiddleware.DoubleSpaceRefused | task9/task-manager/Infrastructure/auth_middleWare.go:39-44 | a scheme followed by two spaces and a token splits into three parts and is refused as badly formatted |
| AuthMiddleware.AuthenticatedAdminOnly | task9/task-manager/Infrastructure/auth_middleWare.go:30-104 | after authentication, the admin gate lets the request through exactly when the validated claims carry the admin role |
| Palindrome.IsPalindrome | task2/task2B.go:9-41 | true exactly when the sentence's letter bytes read the same backwards; non-letters are skipped at either end and the loop ends because the gap between the indices shrinks |
| Palindrome.ShortSentencesArePalindromes | task2/task2B.go:11-19 | the empty and one-byte sentences are palindromes |
| Palindrome.CaseSensitive | task2/task2B.go:23-28 | the comparison is byte-exact, so "Ab" is not a palindrome |
| Palindrome.NonLettersIgnored | task2/task2B.go:32-38 | inserting a non-letter byte anywhere never changes the answer |
| Palindrome.PunctuatedPalindrome | task2/task2B.go:9-41 | "a, b-a" is a palindrome |
| WordFrequency.ExtractWords | golang/task2/task2A.go:51-93 | the words are the space-separated pieces with everything but ASCII letters removed and empty pieces dropped; no word is empty, each is ASCII letters only, and together they spell the sentence's letters in order |
| WordFrequency.ReadPiece | golang/task2/task2A.go:64-81 | one pass of the inner loop reads up to the next space, which it consumes, or the end, keeping that piece's ASCII letters |
| WordFrequency.WordsAtSpace | golang/task2/task2A.go:67-71 | a space splits the sentence: the words of the whole are the words of the left part followed by those of the right |
| WordFrequency.FlattenWords | golang/task2/task2A.go:51-93 | the words concatenated are the sentence's ASCII letters in order |
| WordFrequency.WordsAreLetterWords | golang/task2/task2A.go:73-85 | no word is empty and each is ASCII letters only |
| WordFrequency.OnlySpaceSeparates | golang/task2/task2A.go:67-76 | a tab does not separate words and a digit is dropped without splitting: "a\tb c1d" gives "ab" and "cd" |
| WordFrequency.SpacesAddNoWords | golang/task2/task2A.go:83-85 | runs of spaces add no empty words |
| WordFrequency.FrequencyCounter | golang/task2/task2A.go:36-48 | the words are those of the sentence; the count of each word is its number of occurrences, missing words count 0, the keys are exactly the words that occur, and the counts summed over the keys, in any order, equal the number of words |
| WordFrequency.CountWords | golang/task2/task2A.go:41-43 | the counting loop: each word's count is its number of occurrences in the list, and a word has an entry exactly when it occurs |

## Left out

- The `sync.Mutex`/`RWMutex` locking of every service and repository. Each operation is modelled as atomic.
- task4's goroutine and five-second timer in `ReserveBook`, and the channel-based reservation worker. The expiry is the explicit step `ReservingLibrary.Expire`, which a call sequence may place anywhere.
- All printing: `ListAllBooks`, the message in the expiry, the prints in `isPalindorme` and `frequencyCounter`. The `main.go` files and task2's reading of standard input are left out too.
- The Gin handlers, routers and request binding of the controllers and the middleware. Only the pure mapping and parsing logic is modelled.
- bcrypt and JWT. Hashing, password comparison, token generation and token validation are function parameters with arbitrary behaviour.
- The MongoDB task service of task6, because it is database I/O.
- golang/task1, because it is not part of the core.
- ReservingLibrary.AddMember: as in the source, the member is stored as given. A member added with a non-empty borrowed list is not checked against the books.
- UserRepository.Save: the ID counter is an unbounded integer. Go's `int` overflow after 2^63 saves is not modelled. The same holds for TaskRepository.Save, TaskService.Create and UserService.Register.
- ReservingLibrary.ListBorrowedBooks: it returns the member's list by value. The Go slice shares its backing array with the stored member, so a caller could mutate the library through it; that aliasing is not modelled. The same holds for the in-place `append` that removes an entry in the returns.
- AuthMiddleware.Lower: lower-cases ASCII letters only, while `strings.ToLower` also folds non-ASCII letters. For the one use, the comparison with "bearer", this is exact. The only non-ASCII letters Go lower-cases into ASCII are the Kelvin sign (to 'k') and the capital I with dot (to 'i'), and neither letter occurs in "bearer".
- ReservingLibrary.ListAvailableBooks: the order of the result is not stated, because Go map iteration order is unspecified. The same holds for TaskRepository.FindAll, TaskService.GetAll and task3's `ListAvailableBooks`.
- Go's nil and empty slices are distinguished only where a caller can tell them apart: `GetAllTasks` on error and golang/task3's `ListBorrowedBooks` for an unknown member. Elsewhere both are the empty sequence.
- BasicLibrary.ListAvailableBooks: for golang/task3 it does not separate the nil slice that version returns when no book is Available from task3's empty slice; both have no elements, and callers only range over them.

## Findings

| source | as written | input that shows it | evidently intended | confidence | as-written member | corrected member |
|---|---|---|---|---|---|---|
| task4/library_management/services/library_service.go:121-124 | the return sets the book Available but never clears its `ReservedBy` field, and it does so whatever the book's current status | member 1 borrows book 1; book 1 is added again (back to Available); member 2 reserves it; member 1 returns it: the book is Available yet reserved by member 2, and member 2's reservation is silently cancelled | a returned book is Available with no reservation, as `AddBook`, `BorrowBook` and the expiry all keep `ReservedBy` at 0 unless the book is Reserved | low to medium; not executed | ReservationLemmas.ReturnLeavesStaleReservation | ReservingLibrary.ReturnBookFixed (invariant proved by ReservationLemmas.FixedRunKeepsReservationsCleared) |
