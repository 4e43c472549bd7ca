/**
 * The in-memory user repository of task9: users keyed by username, a second
 * map from ID to username, and the next ID to hand out. The two maps must
 * agree; when they do, the "data inconsistency" branches never fire.
 */
module UserRepository {
  import opened Wrappers
  import opened Domain

  /** A user together with its password hash, as the repository keeps it. */
  datatype Stored = Stored(user: User, passwordHash: string)

  datatype Repo = Repo(users: map<string, Stored>, usersByID: map<int, string>, nextUserID: int)

  /** The two maps describe the same users, and IDs below `nextUserID` are handed out one per user. */
  ghost predicate Valid(r: Repo) {
    && r.nextUserID >= 1
    && |r.users| == r.nextUserID - 1
    && (forall name :: name in r.users ==> r.users[name].user.username == name)
    && (forall name :: name in r.users ==> r.users[name].user.id in r.usersByID && r.usersByID[r.users[name].user.id] == name)
    && (forall id :: id in r.usersByID ==> r.usersByID[id] in r.users && r.users[r.usersByID[id]].user.id == id)
    && (forall id :: id in r.usersByID ==> 1 <= id < r.nextUserID)
  }

  function New(): (r: Repo)
    ensures Valid(r) && CountUsers(r) == 0 && r.nextUserID == 1
  {
    Repo(map[], map[], 1)
  }

  /** The repository after a call together with the call's result. */
  datatype Saved = Saved(repo: Repo, result: Result<User, Error>)

  /**
   * Stores a new user under the next ID; a taken username is refused with
   * nothing changed, the ID counter included.
   */
  function Save(r: Repo, user: User, passwordHash: string): (s: Saved)
    ensures user.username in r.users ==> s == Saved(r, Err(UsernameExists))
    ensures user.username !in r.users ==>
              && s.result == Ok(user.(id := r.nextUserID))
              && s.repo.nextUserID == r.nextUserID + 1
              && s.repo.users == r.users[user.username := Stored(s.result.value, passwordHash)]
    ensures Valid(r) ==> Valid(s.repo)
  {
    if user.username in r.users then Saved(r, Err(UsernameExists))
    else
      var saved := user.(id := r.nextUserID);
      var r' := Repo(r.users[saved.username := Stored(saved, passwordHash)], r.usersByID[saved.id := saved.username], r.nextUserID + 1);
      assert Valid(r) ==> saved.id !in r.usersByID;
      Saved(r', Ok(saved))
  }

  function FindByUsername(r: Repo, username: string): (res: Result<(User, string), Error>)
    ensures res.Err? <==> username !in r.users
    ensures res.Err? ==> res.error == UserNotFound
    ensures res.Ok? ==> res.value == (r.users[username].user, r.users[username].passwordHash)
  {
    if username !in r.users then Err(UserNotFound)
    else Ok((r.users[username].user, r.users[username].passwordHash))
  }

  function FindByID(r: Repo, id: int): (res: Result<User, Error>)
    ensures id !in r.usersByID ==> res == Err(UserNotFound)
    ensures Valid(r) ==> res.Err? ==> res.error == UserNotFound
    ensures Valid(r) && id in r.usersByID ==> res == Ok(r.users[r.usersByID[id]].user)
    ensures Valid(r) ==> res.Ok? ==> res.value.id == id && res.value.username in r.users && r.users[res.value.username].user == res.value
  {
    if id !in r.usersByID then Err(UserNotFound)
    else
      var name := r.usersByID[id];
      if name !in r.users then Err(InternalServer)
      else Ok(r.users[name].user)
  }

  /** The repository after a role change together with the error it returned (None for nil). */
  datatype Updated = Updated(repo: Repo, err: Option<Error>)

  /** Changes the role of the user with `userID`; ID, username and hash stay as they were. */
  function UpdateRole(r: Repo, userID: int, newRole: string): (u: Updated)
    ensures userID !in r.usersByID ==> u == Updated(r, Some(UserNotFound))
    ensures Valid(r) ==> u.err.Some? ==> u.err == Some(UserNotFound) && u.repo == r
    ensures Valid(r) && userID in r.usersByID ==>
              && u.err.None?
              && u.repo.usersByID == r.usersByID && u.repo.nextUserID == r.nextUserID
              && u.repo.users.Keys == r.users.Keys
              && (forall name :: name in r.users && name != r.usersByID[userID] ==> u.repo.users[name] == r.users[name])
              && var before := r.users[r.usersByID[userID]];
                 u.repo.users[r.usersByID[userID]] == before.(user := before.user.(role := newRole))
    ensures Valid(r) ==> Valid(u.repo)
  {
    if userID !in r.usersByID then Updated(r, Some(UserNotFound))
    else
      var name := r.usersByID[userID];
      if name !in r.users then Updated(r, Some(InternalServer))
      else
        var stored := r.users[name];
        Updated(r.(users := r.users[name := stored.(user := stored.user.(role := newRole))]), None)
  }

  function CountUsers(r: Repo): (n: nat)
    ensures n == |r.users|
    ensures Valid(r) ==> n == r.nextUserID - 1
  {
    |r.users|
  }

  /** After a successful save both lookups find the new user, with exactly the hash given. */
  lemma SaveThenFind(r: Repo, user: User, passwordHash: string)
    requires Valid(r)
    requires user.username !in r.users
    ensures
      var s := Save(r, user, passwordHash);
      && FindByUsername(s.repo, user.username) == Ok((s.result.value, passwordHash))
      && FindByID(s.repo, s.result.value.id) == Ok(s.result.value)
  {
  }

  /** A repository call: a save (with its hash) or a role update. */
  datatype Call = SaveCall(user: User, passwordHash: string) | UpdateRoleCall(userID: int, role: string)

  /** One call: the repository after it and the ID it handed out, if it saved a user. */
  function Perform(r: Repo, c: Call): (Repo, seq<int>) {
    match c
    case SaveCall(u, h) =>
      var s := Save(r, u, h);
      (s.repo, if s.result.Ok? then [s.result.value.id] else [])
    case UpdateRoleCall(id, role) => (UpdateRole(r, id, role).repo, [])
  }

  /** The repository after `calls` together with the IDs of the users saved successfully, in order. */
  function Replay(r: Repo, calls: seq<Call>): (Repo, seq<int>)
    decreases |calls|
  {
    if |calls| == 0 then (r, [])
    else
      var step := Perform(r, calls[0]);
      var rest := Replay(step.0, calls[1..]);
      (rest.0, step.1 + rest.1)
  }

  /** One call keeps the repository consistent and hands out at most the next ID. */
  lemma PerformStep(r: Repo, c: Call)
    requires Valid(r)
    ensures
      var step := Perform(r, c);
      && Valid(step.0)
      && |step.1| <= 1
      && (|step.1| == 1 ==> step.1[0] == r.nextUserID)
      && step.0.nextUserID == r.nextUserID + |step.1|
      && CountUsers(step.0) == CountUsers(r) + |step.1|
  {
  }

  /**
   * Successful saves receive consecutive IDs starting at the current counter,
   * and the user count grows by exactly the number of successful saves.
   */
  lemma {:induction false} ReplayAssignsConsecutiveIds(r: Repo, calls: seq<Call>)
    requires Valid(r)
    ensures
      var result := Replay(r, calls);
      && Valid(result.0)
      && (forall i :: 0 <= i < |result.1| ==> result.1[i] == r.nextUserID + i)
      && CountUsers(result.0) == CountUsers(r) + |result.1|
    decreases |calls|
  {
    if |calls| > 0 {
      var step := Perform(r, calls[0]);
      PerformStep(r, calls[0]);
      ReplayAssignsConsecutiveIds(step.0, calls[1..]);
      var rest := Replay(step.0, calls[1..]);
      var ids := step.1 + rest.1;
      assert Replay(r, calls) == (rest.0, ids);
      forall i | 0 <= i < |ids| ensures ids[i] == r.nextUserID + i {
        if i >= |step.1| {
          assert ids[i] == rest.1[i - |step.1|];
        }
      }
    }
  }

  /** From an empty repository the saved users get IDs 1, 2, 3, ... and the count equals the number of saves. */
  lemma FreshRepositoryCountsSaves(calls: seq<Call>)
    ensures
      var result := Replay(New(), calls);
      && (forall i :: 0 <= i < |result.1| ==> result.1[i] == i + 1)
      && CountUsers(result.0) == |result.1|
  {
    ReplayAssignsConsecutiveIds(New(), calls);
  }
}
