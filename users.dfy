/**
 * The user table and the two ways it is used: the basic-auth check every
 * request passes through, and the `user add` / `user update` commands that
 * write it.
 *
 * The table is a map from username (its primary key) to the row. bcrypt is
 * not modelled: comparing a password with a stored hash and producing a
 * hash from a password are parameters (`Matcher`, `Hasher`).
 */
module Users {
  import opened Wrappers

  newtype byte = x: int | 0 <= x < 256

  /** A row of the `users` table; `lastUsedAt` is None while it holds Go's zero time. */
  datatype User = User(username: string, hash: seq<byte>, lastUsedAt: Option<int>, createdAt: int)

  /** What `r.BasicAuth()` extracts from a request that carries basic-auth credentials. */
  datatype Credentials = Credentials(username: string, password: seq<byte>)

  /** The `WWW-Authenticate` header every rejected request gets. */
  const Challenge: string := "Basic realm=\"restricted\", charset=\"UTF-8\""

  /** Rejected with 401 and a challenge, or passed on with the username attached. */
  datatype AuthResult = Unauthorized(challenge: string) | Authorized(username: string)

  /** `bcrypt.CompareHashAndPassword(hash, password) == nil`. */
  type Matcher = (seq<byte>, seq<byte>) -> bool

  /** `bcrypt.GenerateFromPassword(password, -1)`: a hash, or None when it returns an error. */
  type Hasher = seq<byte> -> Option<seq<byte>>

  /** Every row is stored under its own username. */
  predicate Keyed(users: map<string, User>) {
    forall u :: u in users ==> users[u].username == u
  }

  // Authentication

  /**
   * The decision of the authentication middleware: missing credentials,
   * an unknown username and a wrong password are all rejected, with one and
   * the same response.
   */
  function Decide(users: map<string, User>, auth: Option<Credentials>, matches: Matcher): (r: AuthResult)
    ensures r.Authorized? <==>
              && auth.Some?
              && auth.value.username in users
              && matches(users[auth.value.username].hash, auth.value.password)
    ensures r.Authorized? ==> r.username == auth.value.username
    ensures r.Unauthorized? ==> r == Unauthorized(Challenge)
  {
    match auth
    case None => Unauthorized(Challenge)
    case Some(c) =>
      if c.username !in users then Unauthorized(Challenge)
      else if !matches(users[c.username].hash, c.password) then Unauthorized(Challenge)
      else Authorized(c.username)
  }

  /** The three failure paths are indistinguishable to the caller. */
  lemma FailuresAlike(users: map<string, User>, matches: Matcher, unknown: string, known: string, password: seq<byte>)
    requires unknown !in users
    requires known in users && !matches(users[known].hash, password)
    ensures Decide(users, None, matches) == Unauthorized(Challenge)
    ensures Decide(users, Some(Credentials(unknown, password)), matches) == Decide(users, None, matches)
    ensures Decide(users, Some(Credentials(known, password)), matches) == Decide(users, None, matches)
  {
  }

  /** The table after `username` authenticated at `now`: only that row's `lastUsedAt` changes. */
  function Touch(users: map<string, User>, username: string, now: int): (r: map<string, User>)
    requires username in users
    ensures r.Keys == users.Keys
    ensures r[username].lastUsedAt == Some(now)
    ensures r[username] == users[username].(lastUsedAt := r[username].lastUsedAt)
    ensures forall u :: u in users && u != username ==> r[u] == users[u]
    ensures Keyed(users) ==> Keyed(r)
  {
    users[username := users[username].(lastUsedAt := Some(now))]
  }

  // The user commands

  /** The errors `user add` and `user update` report. */
  datatype CmdError =
    | NoUserName | TooManyUserNames | PasswordTooShort
    | HashFailed          // GenerateFromPassword returned an error
    | AlreadyExists       // Create: the username is already a primary key
    | MissingWhereClause  // Updates: an empty username leaves gorm no primary key to select by

  /**
   * The message the commands themselves print for an error; None where the
   * text comes from bcrypt or the database. `user update` reuses the text
   * of `user add` for a missing name.
   */
  function Message(e: CmdError): (text: Option<string>)
    ensures text.Some? <==> e.NoUserName? || e.TooManyUserNames? || e.PasswordTooShort?
    ensures text.Some? ==> |text.value| > 0
  {
    match e
    case NoUserName => Some("which user do you want to add?")
    case TooManyUserNames => Some("please only enter a single user name")
    case PasswordTooShort => Some("password must be at least 8 characters long")
    case HashFailed => None
    case AlreadyExists => None
    case MissingWhereClause => None
  }

  /** The three texts the commands print themselves are pairwise different. */
  lemma MessagesDistinct(e1: CmdError, e2: CmdError)
    requires Message(e1).Some? && Message(e2).Some? && e1 != e2
    ensures Message(e1) != Message(e2)
  {
  }

  const MinPasswordLength: nat := 8

  /** The single positional argument both commands require. */
  function UserNameArg(args: seq<string>): (r: Result<string, CmdError>)
    ensures r.Ok? <==> |args| == 1
    ensures r.Ok? ==> r.value == args[0]
    ensures r.Err? ==> r.error == (if |args| == 0 then NoUserName else TooManyUserNames)
  {
    if |args| < 1 then Err(NoUserName)
    else if |args| > 1 then Err(TooManyUserNames)
    else Ok(args[0])
  }

  /**
   * `user add`: the table with the new row, or the first check that failed.
   * The checks run in order: argument count, password length, hashing, and
   * the primary key (creating a row whose username exists fails).
   */
  function AddUser(users: map<string, User>, args: seq<string>, password: seq<byte>, hasher: Hasher, now: int)
    : (r: Result<map<string, User>, CmdError>)
    ensures r.Ok? <==>
              |args| == 1 && |password| >= MinPasswordLength && hasher(password).Some? && args[0] !in users
    ensures |args| != 1 ==> r == Err(UserNameArg(args).error)
    ensures |args| == 1 && |password| < MinPasswordLength ==> r == Err(PasswordTooShort)
    ensures r.Ok? ==>
              && r.value.Keys == users.Keys + {args[0]}
              && r.value[args[0]] == User(args[0], hasher(password).value, None, now)
              && (forall u :: u in users ==> r.value[u] == users[u])
    ensures r.Ok? && Keyed(users) ==> Keyed(r.value)
  {
    match UserNameArg(args)
    case Err(e) => Err(e)
    case Ok(name) =>
      if |password| < MinPasswordLength then Err(PasswordTooShort)
      else
        match hasher(password)
        case None => Err(HashFailed)
        case Some(hash) =>
          if name in users then Err(AlreadyExists)
          else Ok(users[name := User(name, hash, None, now)])
  }

  /**
   * `user update`: the same argument and password checks, then a new hash
   * for the named row. An empty name gives gorm no primary key to build the
   * WHERE clause from, so `Updates` fails. A non-empty name that has no row
   * matches no row and still succeeds, leaving the table as it was.
   */
  function UpdateUser(users: map<string, User>, args: seq<string>, password: seq<byte>, hasher: Hasher)
    : (r: Result<map<string, User>, CmdError>)
    ensures r.Ok? <==>
              |args| == 1 && |password| >= MinPasswordLength && hasher(password).Some? && args[0] != ""
    ensures |args| != 1 ==> r == Err(UserNameArg(args).error)
    ensures |args| == 1 && |password| < MinPasswordLength ==> r == Err(PasswordTooShort)
    ensures |args| == 1 && args[0] == "" && |password| >= MinPasswordLength && hasher(password).Some? ==>
              r == Err(MissingWhereClause)
    ensures r.Ok? ==> r.value.Keys == users.Keys
    ensures r.Ok? && args[0] in users ==>
              r.value[args[0]] == users[args[0]].(hash := hasher(password).value)
    ensures r.Ok? ==> forall u :: u in users && u != args[0] ==> r.value[u] == users[u]
    ensures r.Ok? && args[0] !in users ==> r.value == users
    ensures r.Ok? && Keyed(users) ==> Keyed(r.value)
  {
    match UserNameArg(args)
    case Err(e) => Err(e)
    case Ok(name) =>
      if |password| < MinPasswordLength then Err(PasswordTooShort)
      else
        match hasher(password)
        case None => Err(HashFailed)
        case Some(hash) =>
          if name == "" then Err(MissingWhereClause)
          else if name in users then Ok(users[name := users[name].(hash := hash)])
          else Ok(users)
  }

  /**
   * A user just added can log in with the password they gave, as long as
   * bcrypt accepts a password against its own hash.
   */
  lemma AddThenAuthenticate(users: map<string, User>, name: string, password: seq<byte>,
                            hasher: Hasher, matches: Matcher, now: int)
    requires AddUser(users, [name], password, hasher, now).Ok?
    requires matches(hasher(password).value, password)
    ensures Decide(AddUser(users, [name], password, hasher, now).value, Some(Credentials(name, password)), matches)
            == Authorized(name)
  {
  }

  /** After an update of an existing user the new password is the one that logs in. */
  lemma UpdateThenAuthenticate(users: map<string, User>, name: string, password: seq<byte>,
                               hasher: Hasher, matches: Matcher, other: seq<byte>)
    requires name in users && UpdateUser(users, [name], password, hasher).Ok?
    requires matches(hasher(password).value, password)
    requires !matches(hasher(password).value, other)
    ensures Decide(UpdateUser(users, [name], password, hasher).value, Some(Credentials(name, password)), matches)
            == Authorized(name)
    ensures Decide(UpdateUser(users, [name], password, hasher).value, Some(Credentials(name, other)), matches)
            == Unauthorized(Challenge)
  {
  }

  /** The `users` table, shared by the server and the user commands. */
  class UserDb {
    var users: map<string, User>

    ghost predicate Valid()
      reads this
    {
      Keyed(users)
    }

    constructor ()
      ensures users == map[] && Valid()
    {
      users := map[];
    }

    /**
     * The authentication middleware for one request at `now`: reject, or
     * save the matched row with its new `lastUsedAt` and pass the request on.
     */
    method Authenticate(auth: Option<Credentials>, now: int, matches: Matcher) returns (r: AuthResult)
      requires Valid()
      modifies this
      ensures Valid()
      ensures r == Decide(old(users), auth, matches)
      ensures r.Unauthorized? ==> users == old(users)
      ensures r.Authorized? ==> users == Touch(old(users), r.username, now)
    {
      if auth.None? {
        return Unauthorized(Challenge);
      }
      var c := auth.value;
      if c.username !in users {
        return Unauthorized(Challenge);
      }
      var user := users[c.username];
      if !matches(user.hash, c.password) {
        return Unauthorized(Challenge);
      }
      user := user.(lastUsedAt := Some(now));
      users := users[c.username := user];
      r := Authorized(c.username);
    }

    /** `user add <username>` with the password read from the terminal. */
    method Add(args: seq<string>, password: seq<byte>, hasher: Hasher, now: int) returns (err: Option<CmdError>)
      requires Valid()
      modifies this
      ensures Valid()
      ensures AddUser(old(users), args, password, hasher, now).Ok? ==>
                err == None && users == AddUser(old(users), args, password, hasher, now).value
      ensures AddUser(old(users), args, password, hasher, now).Err? ==>
                err == Some(AddUser(old(users), args, password, hasher, now).error) && users == old(users)
    {
      if |args| < 1 {
        return Some(NoUserName);
      }
      if |args| > 1 {
        return Some(TooManyUserNames);
      }
      var name := args[0];
      if |password| < MinPasswordLength {
        return Some(PasswordTooShort);
      }
      var hashed := hasher(password);
      if hashed.None? {
        return Some(HashFailed);
      }
      if name in users {
        return Some(AlreadyExists);
      }
      users := users[name := User(name, hashed.value, None, now)];
      err := None;
    }

    /** `user update <user>` with the password read from the terminal. */
    method Update(args: seq<string>, password: seq<byte>, hasher: Hasher) returns (err: Option<CmdError>)
      requires Valid()
      modifies this
      ensures Valid()
      ensures UpdateUser(old(users), args, password, hasher).Ok? ==>
                err == None && users == UpdateUser(old(users), args, password, hasher).value
      ensures UpdateUser(old(users), args, password, hasher).Err? ==>
                err == Some(UpdateUser(old(users), args, password, hasher).error) && users == old(users)
    {
      if |args| < 1 {
        return Some(NoUserName);
      }
      if |args| > 1 {
        return Some(TooManyUserNames);
      }
      var name := args[0];
      if |password| < MinPasswordLength {
        return Some(PasswordTooShort);
      }
      var hashed := hasher(password);
      if hashed.None? {
        return Some(HashFailed);
      }
      if name == "" {
        return Some(MissingWhereClause);
      }
      if name in users {
        users := users[name := users[name].(hash := hashed.value)];
      }
      err := None;
    }
  }
}
