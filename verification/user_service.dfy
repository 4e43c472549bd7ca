/**
 * The in-memory user service of task7: users keyed by username and an ID
 * counter starting at 1. Hashing and comparing passwords are bcrypt calls
 * in the source; here the hashing outcome is a parameter and the comparison
 * an uninterpreted function.
 */
module UserService {
  import opened Wrappers

  const RoleAdmin: string := "admin"
  const RoleUser: string := "user"

  const UsernameTakenMessage: string := "username already exists"
  const InvalidCredentialsMessage: string := "invalid credentials"
  const UserNotFoundMessage: string := "user not found"

  datatype User = User(id: int, username: string, passwordHash: string, role: string)

  datatype Service = Service(users: map<string, User>, nextUserID: int)

  /** Users are keyed by their usernames and numbered 1 .. nextUserID - 1, one ID each. */
  ghost predicate Valid(s: Service) {
    && s.nextUserID >= 1
    && |s.users| == s.nextUserID - 1
    && forall name :: name in s.users ==> s.users[name].username == name && 1 <= s.users[name].id < s.nextUserID
  }

  function New(): (s: Service)
    ensures Valid(s) && s.users == map[] && s.nextUserID == 1
  {
    Service(map[], 1)
  }

  /** The service after a registration together with the call's result. */
  datatype Registered = Registered(service: Service, result: Result<User, string>)

  /**
   * Registers `username`. `hashed` is the outcome of hashing the password:
   * the hash, or the hashing library's error, which is returned as is.
   */
  function Register(s: Service, username: string, hashed: Result<string, string>): (r: Registered)
    ensures username in s.users ==> r == Registered(s, Err(UsernameTakenMessage))
    ensures username !in s.users && hashed.Err? ==> r == Registered(s, Err(hashed.error))
    ensures r.result.Err? ==> r.service == s
    ensures r.result.Ok? <==> username !in s.users && hashed.Ok?
    ensures r.result.Ok? ==>
              && r.result.value.id == s.nextUserID
              && r.result.value.username == username
              && r.result.value.passwordHash == hashed.value
              && (r.result.value.role == RoleAdmin <==> |s.users| == 0)
              && (r.result.value.role == RoleUser <==> |s.users| != 0)
              && r.service == Service(s.users[username := r.result.value], s.nextUserID + 1)
    ensures Valid(s) ==> Valid(r.service)
  {
    if username in s.users then Registered(s, Err(UsernameTakenMessage))
    else if hashed.Err? then Registered(s, Err(hashed.error))
    else
      var role := if |s.users| == 0 then RoleAdmin else RoleUser;
      var user := User(s.nextUserID, username, hashed.value, role);
      Registered(Service(s.users[username := user], s.nextUserID + 1), Ok(user))
  }

  /**
   * Logs in. `matches(hash, password)` stands for the bcrypt comparison; an
   * unknown user and a wrong password give the same error.
   */
  function Login(s: Service, username: string, password: string, matches: (string, string) -> bool): (r: Result<User, string>)
    ensures r.Ok? <==> username in s.users && matches(s.users[username].passwordHash, password)
    ensures r.Ok? ==> r.value == s.users[username]
    ensures r.Err? ==> r.error == InvalidCredentialsMessage
  {
    if username !in s.users then Err(InvalidCredentialsMessage)
    else if !matches(s.users[username].passwordHash, password) then Err(InvalidCredentialsMessage)
    else Ok(s.users[username])
  }

  /** The service after a promotion together with the error it returned (None for nil). */
  datatype Promoted = Promoted(service: Service, err: Option<string>)

  function Promote(s: Service, username: string): (p: Promoted)
    ensures username !in s.users ==> p == Promoted(s, Some(UserNotFoundMessage))
    ensures username in s.users ==>
              && p.err.None?
              && p.service == s.(users := s.users[username := s.users[username].(role := RoleAdmin)])
    ensures Valid(s) ==> Valid(p.service)
  {
    if username !in s.users then Promoted(s, Some(UserNotFoundMessage))
    else
      var user := s.users[username];
      Promoted(s.(users := s.users[username := user.(role := RoleAdmin)]), None)
  }

  /** Promoting twice is promoting once. */
  lemma PromoteIdempotent(s: Service, username: string)
    ensures Promote(Promote(s, username).service, username) == Promote(s, username)
  {
  }

  /**
   * A freshly registered user can log in with exactly the passwords that
   * match the stored hash, and gets back the user as registered; a later
   * promotion changes only the role the login reports.
   */
  lemma RegisterThenLogin(s: Service, username: string, hash: string, password: string, matches: (string, string) -> bool)
    requires username !in s.users
    ensures
      var reg := Register(s, username, Ok(hash));
      var login := Login(reg.service, username, password, matches);
      && (login.Ok? <==> matches(hash, password))
      && (login.Ok? ==> login.value == reg.result.value)
    ensures
      var reg := Register(s, username, Ok(hash));
      var login := Login(Promote(reg.service, username).service, username, password, matches);
      && (login.Ok? <==> matches(hash, password))
      && (login.Ok? ==> login.value == reg.result.value.(role := RoleAdmin))
  {
  }

  /** A registration attempt: the username and the outcome of hashing its password. */
  datatype Attempt = Attempt(username: string, hashed: Result<string, string>)

  /** The service after `attempts` together with the users registered successfully, in order. */
  function RegisterAll(s: Service, attempts: seq<Attempt>): (Service, seq<User>)
    decreases |attempts|
  {
    if |attempts| == 0 then (s, [])
    else
      var r := Register(s, attempts[0].username, attempts[0].hashed);
      var (end, users) := RegisterAll(r.service, attempts[1..]);
      (end, if r.result.Ok? then [r.result.value] + users else users)
  }

  /**
   * From a fresh service the registered users get IDs 1, 2, 3, ... (failed
   * attempts use up no ID), the first is the only admin, and the rest are
   * plain users.
   */
  lemma {:induction false} RegisterAllFromFresh(s: Service, attempts: seq<Attempt>)
    requires Valid(s)
    ensures
      var (end, users) := RegisterAll(s, attempts);
      && Valid(end)
      && end.nextUserID == s.nextUserID + |users|
      && (forall i :: 0 <= i < |users| ==> users[i].id == s.nextUserID + i)
      && (forall i :: 0 <= i < |users| ==> (users[i].role == RoleAdmin <==> s.nextUserID + i == 1))
    decreases |attempts|
  {
    if |attempts| > 0 {
      var r := Register(s, attempts[0].username, attempts[0].hashed);
      RegisterAllFromFresh(r.service, attempts[1..]);
    }
  }
}
