/**
 * The user use cases of task8: registration, login and promotion as
 * decisions over the answers of the user repository, the password service
 * (bcrypt) and the token service (JWT). Each collaborator is a function
 * giving its answer to a call, and every use case reports the calls it
 * made, in order.
 */
module UserUsecases {
  import opened Wrappers
  import opened Domain
  import UserRepository

  /** The collaborators' answer to each call they may receive. */
  datatype Ports = Ports(
    findByUsername: string -> Result<(User, string), Error>,
    hash: string -> Result<string, Error>,
    countUsers: Result<int, Error>,
    save: (User, string) -> Result<User, Error>,
    updateRole: (int, string) -> Option<Error>,
    compare: (string, string) -> Option<Error>,
    generateToken: (int, string, string) -> Result<string, Error>)

  datatype Call =
    | FindByUsernameCall(username: string)
    | HashCall(password: string)
    | CountUsersCall
    | SaveCall(user: User, passwordHash: string)
    | UpdateRoleCall(userID: int, role: string)
    | CompareCall(passwordHash: string, password: string)
    | GenerateTokenCall(userID: int, username: string, role: string)

  /** A use case's returned value and error, and the collaborator calls it made, in order. */
  datatype Outcome<T> = Outcome(value: T, err: Option<Error>, calls: seq<Call>)

  /** Only sentinel errors reach the caller; a collaborator's own error value never does. */
  predicate Sanitised(err: Option<Error>) {
    err.Some? ==> !err.value.Foreign?
  }

  /** The role a new user gets from the user count: admin for the very first. */
  function RoleFor(count: int): (role: string)
    ensures role == RoleAdmin <==> count == 0
    ensures role == RoleUser <==> count != 0
  {
    if count == 0 then RoleAdmin else RoleUser
  }

  function Register(p: Ports, username: string, password: string): (r: Outcome<User>)
    ensures username == "" || password == "" ==> r == Outcome(ZeroUser, Some(BadRequest), [])
    ensures username != "" && password != "" && p.findByUsername(username).Ok? ==>
              r == Outcome(ZeroUser, Some(UsernameExists), [FindByUsernameCall(username)])
    ensures username != "" && password != "" && p.findByUsername(username).Err? && p.findByUsername(username).error != UserNotFound ==>
              r == Outcome(ZeroUser, Some(InternalServer), [FindByUsernameCall(username)])
    ensures username != "" && password != "" && p.findByUsername(username) == Err(UserNotFound) && p.hash(password).Err? ==>
              r == Outcome(ZeroUser, Some(InternalServer), [FindByUsernameCall(username), HashCall(password)])
    ensures username != "" && password != "" && p.findByUsername(username) == Err(UserNotFound) && p.hash(password).Ok? && p.countUsers.Err? ==>
              r == Outcome(ZeroUser, Some(InternalServer), [FindByUsernameCall(username), HashCall(password), CountUsersCall])
    ensures username != "" && password != "" && p.findByUsername(username) == Err(UserNotFound) && p.hash(password).Ok? && p.countUsers.Ok? ==>
              var toSave := User(0, username, RoleFor(p.countUsers.value));
              var saved := p.save(toSave, p.hash(password).value);
              && (saved.Ok? ==> r.err.None? && r.value == saved.value)
              && (saved.Err? ==> r.err == Some(if saved.error == UsernameExists then UsernameExists else InternalServer))
    ensures r.err.Some? ==> r.value == ZeroUser
    ensures Sanitised(r.err)
    ensures r.err == Some(UsernameExists) ==>
              p.findByUsername(username).Ok? || (|r.calls| == 4 && r.calls[3].SaveCall? && p.save(r.calls[3].user, r.calls[3].passwordHash) == Err(UsernameExists))
    ensures r.err.None? ==>
              && p.findByUsername(username) == Err(UserNotFound)
              && p.hash(password).Ok? && p.countUsers.Ok?
              && var toSave := User(0, username, RoleFor(p.countUsers.value));
                 && r.calls == [FindByUsernameCall(username), HashCall(password), CountUsersCall, SaveCall(toSave, p.hash(password).value)]
                 && p.save(toSave, p.hash(password).value) == Ok(r.value)
    ensures forall u, h :: SaveCall(u, h) in r.calls ==>
              u.username == username && u.id == 0 && (u.role == RoleAdmin <==> p.countUsers == Ok(0))
  {
    if username == "" || password == "" then Outcome(ZeroUser, Some(BadRequest), [])
    else
      var calls := [FindByUsernameCall(username)];
      match p.findByUsername(username)
      case Ok(_) => Outcome(ZeroUser, Some(UsernameExists), calls)
      case Err(e) =>
        if e != UserNotFound then Outcome(ZeroUser, Some(InternalServer), calls)
        else
          var calls := calls + [HashCall(password)];
          match p.hash(password)
          case Err(_) => Outcome(ZeroUser, Some(InternalServer), calls)
          case Ok(hashed) =>
            var calls := calls + [CountUsersCall];
            match p.countUsers
            case Err(_) => Outcome(ZeroUser, Some(InternalServer), calls)
            case Ok(count) =>
              var toSave := User(0, username, RoleFor(count));
              var calls := calls + [SaveCall(toSave, hashed)];
              match p.save(toSave, hashed)
              case Err(e) => Outcome(ZeroUser, Some(if e == UsernameExists then e else InternalServer), calls)
              case Ok(saved) => Outcome(saved, None, calls)
  }

  /** Logs in and returns the token; "" beside every error. */
  function Login(p: Ports, username: string, password: string): (r: Outcome<string>)
    ensures p.findByUsername(username) == Err(UserNotFound) ==>
              r == Outcome("", Some(InvalidCredentials), [FindByUsernameCall(username)])
    ensures p.findByUsername(username).Err? && p.findByUsername(username).error != UserNotFound ==>
              r == Outcome("", Some(InternalServer), [FindByUsernameCall(username)])
    ensures p.findByUsername(username).Ok? ==>
              var (user, hashed) := p.findByUsername(username).value;
              && |r.calls| >= 2
              && r.calls[..2] == [FindByUsernameCall(username), CompareCall(hashed, password)]
              && (p.compare(hashed, password).Some? ==> r == Outcome("", Some(InvalidCredentials), r.calls[..2]))
              && (p.compare(hashed, password).None? ==>
                    var calls := [FindByUsernameCall(username), CompareCall(hashed, password), GenerateTokenCall(user.id, user.username, user.role)];
                    var token := p.generateToken(user.id, user.username, user.role);
                    && (token.Ok? ==> r == Outcome(token.value, None, calls))
                    && (token.Err? ==> r == Outcome("", Some(InternalServer), calls)))
    ensures r.err.None? ==>
              && p.findByUsername(username).Ok?
              && var user := p.findByUsername(username).value.0;
                 && p.compare(p.findByUsername(username).value.1, password).None?
                 && GenerateTokenCall(user.id, user.username, user.role) in r.calls
                 && p.generateToken(user.id, user.username, user.role) == Ok(r.value)
    ensures r.err.Some? ==> r.value == "" && r.err.value in {InvalidCredentials, InternalServer}
  {
    var calls := [FindByUsernameCall(username)];
    match p.findByUsername(username)
    case Err(e) => Outcome("", Some(if e == UserNotFound then InvalidCredentials else InternalServer), calls)
    case Ok((user, hashed)) =>
      var calls := calls + [CompareCall(hashed, password)];
      if p.compare(hashed, password).Some? then Outcome("", Some(InvalidCredentials), calls)
      else
        var calls := calls + [GenerateTokenCall(user.id, user.username, user.role)];
        match p.generateToken(user.id, user.username, user.role)
        case Err(_) => Outcome("", Some(InternalServer), calls)
        case Ok(token) => Outcome(token, None, calls)
  }

  /** Promotes a user to admin; an existing admin is left alone without a role update. */
  function Promote(p: Ports, username: string): (r: Outcome<()>)
    ensures p.findByUsername(username).Err? ==>
              && r.calls == [FindByUsernameCall(username)]
              && r.err == Some(if p.findByUsername(username).error == UserNotFound then UserNotFound else InternalServer)
    ensures p.findByUsername(username).Ok? && p.findByUsername(username).value.0.role == RoleAdmin ==>
              r == Outcome((), None, [FindByUsernameCall(username)])
    ensures p.findByUsername(username).Ok? && p.findByUsername(username).value.0.role != RoleAdmin ==>
              var id := p.findByUsername(username).value.0.id;
              && r.calls == [FindByUsernameCall(username), UpdateRoleCall(id, RoleAdmin)]
              && (r.err.None? <==> p.updateRole(id, RoleAdmin).None?)
              && (r.err == Some(UserNotFound) <==> p.updateRole(id, RoleAdmin) == Some(UserNotFound))
    ensures r.err.Some? ==> r.err.value in {UserNotFound, InternalServer}
  {
    var calls := [FindByUsernameCall(username)];
    match p.findByUsername(username)
    case Err(e) => Outcome((), Some(if e == UserNotFound then e else InternalServer), calls)
    case Ok((user, _)) =>
      if user.role == RoleAdmin then Outcome((), None, calls)
      else
        var calls := calls + [UpdateRoleCall(user.id, RoleAdmin)];
        match p.updateRole(user.id, RoleAdmin)
        case Some(e) => Outcome((), Some(if e == UserNotFound then e else InternalServer), calls)
        case None => Outcome((), None, calls)
  }

  /**
   * The answers of task9's in-memory user repository in state `repo`,
   * together with a password service and a token service.
   */
  function InMemory(repo: UserRepository.Repo, hash: string -> Result<string, Error>,
                    compare: (string, string) -> Option<Error>,
                    generateToken: (int, string, string) -> Result<string, Error>): Ports
  {
    Ports(
      name => UserRepository.FindByUsername(repo, name),
      hash,
      Ok(UserRepository.CountUsers(repo)),
      (u, h) => UserRepository.Save(repo, u, h).result,
      (id, role) => UserRepository.UpdateRole(repo, id, role).err,
      compare,
      generateToken)
  }

  /**
   * Registering on the in-memory repository: the first user of an empty
   * repository becomes admin with ID 1, a user added later becomes a plain
   * user with the next ID, and the username check answers UsernameExists.
   */
  lemma RegisterOverInMemory(repo: UserRepository.Repo, username: string, password: string,
                             hash: string -> Result<string, Error>,
                             compare: (string, string) -> Option<Error>,
                             generateToken: (int, string, string) -> Result<string, Error>)
    requires UserRepository.Valid(repo)
    requires username != "" && password != "" && hash(password).Ok?
    ensures
      var r := Register(InMemory(repo, hash, compare, generateToken), username, password);
      && (username in repo.users ==> r.err == Some(UsernameExists))
      && (username !in repo.users ==>
            && r.err.None?
            && r.value == User(repo.nextUserID, username, if repo.nextUserID == 1 then RoleAdmin else RoleUser))
  {
  }

  /** Promoting a user through the in-memory repository succeeds exactly when the username is stored. */
  lemma PromoteOverInMemory(repo: UserRepository.Repo, username: string,
                            hash: string -> Result<string, Error>,
                            compare: (string, string) -> Option<Error>,
                            generateToken: (int, string, string) -> Result<string, Error>)
    requires UserRepository.Valid(repo)
    ensures
      var r := Promote(InMemory(repo, hash, compare, generateToken), username);
      && (r.err.None? <==> username in repo.users)
      && (r.err.Some? ==> r.err == Some(UserNotFound))
  {
    if username in repo.users {
      var id := repo.users[username].user.id;
      assert id in repo.usersByID;
    }
  }

  /**
   * Logging in through the in-memory repository: a stored user whose
   * password matches gets exactly the token generated for their ID,
   * username and role; an unknown user or a mismatch is refused with the
   * same "invalid credentials" error.
   */
  lemma LoginOverInMemory(repo: UserRepository.Repo, username: string, password: string,
                          hash: string -> Result<string, Error>,
                          compare: (string, string) -> Option<Error>,
                          generateToken: (int, string, string) -> Result<string, Error>)
    ensures
      var r := Login(InMemory(repo, hash, compare, generateToken), username, password);
      && (username !in repo.users ==> r.err == Some(InvalidCredentials))
      && (username in repo.users ==>
            var stored := repo.users[username];
            && (compare(stored.passwordHash, password).Some? ==> r.err == Some(InvalidCredentials))
            && (compare(stored.passwordHash, password).None? && generateToken(stored.user.id, stored.user.username, stored.user.role).Ok? ==>
                  r.err.None? && r.value == generateToken(stored.user.id, stored.user.username, stored.user.role).value))
  {
  }
}
