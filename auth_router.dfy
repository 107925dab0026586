/**
 * Registration and login (backend/app/routers/auth.py) over the `users` table.
 * Password hashing and verification are opaque functions passed in (`hash`, `verify`);
 * the access token is reduced to its subject claim, the user id in decimal.
 */
module AuthRouter {
  import opened Wrappers
  import opened Http
  import opened Queries
  import opened Storage
  import opened Models
  import opened UserSchemas

  const USERNAME_TAKEN := HttpError(400, "Username already registered")
  const EMAIL_TAKEN := HttpError(400, "Email already registered")
  const BAD_CREDENTIALS := HttpError(401, "Incorrect username or password")
  const BEARER := "bearer"

  predicate UsernameTaken(users: seq<UserRow>, username: string)
  {
    exists i :: 0 <= i < |users| && users[i].username == username
  }

  predicate EmailTaken(users: seq<UserRow>, email: string)
  {
    exists i :: 0 <= i < |users| && users[i].email == email
  }

  // ---------------------------------------------------------------------------
  // register
  // ---------------------------------------------------------------------------

  /**
   * `register` as written: one query for the username OR the e-mail through
   * `scalar_one_or_none`, which raises when two users match; a single match is reported
   * as a username clash when its username is the requested one, else as an e-mail clash.
   * On success the new user has the next id, `hash(password)` and no admin rights.
   */
  function RegisterOutcome(users: seq<UserRow>, nextId: nat, data: UserCreate,
                           hash: string -> string, now: int): (r: Result<UserRow>)
    ensures r.Ok? ==> r.value == UserRow(nextId, data.username, data.email, hash(data.password), now, false)
    ensures r.Err? ==> r.error in {USERNAME_TAKEN, EMAIL_TAKEN, MultipleResultsFound}
  {
    match ScalarOneOrNone(Filter(users, NameOrEmail(data.username, data.email)))
    case MultipleRows => Err(MultipleResultsFound)
    case OneRow(existing) =>
      if existing.username == data.username then Err(USERNAME_TAKEN) else Err(EMAIL_TAKEN)
    case NoRow => Ok(UserRow(nextId, data.username, data.email, hash(data.password), now, false))
  }

  /**
   * Registration succeeds exactly when neither the username nor the e-mail is taken, and
   * then stores the password's hash, grants no admin rights, takes an id above every
   * existing one, and keeps the table's uniqueness constraints.
   */
  lemma RegisterSucceedsOnlyWhenFree(users: seq<UserRow>, nextId: nat, data: UserCreate,
                                     hash: string -> string, now: int)
    requires UserTableOk(users, nextId)
    ensures var r := RegisterOutcome(users, nextId, data, hash, now);
      && (r.Ok? <==> !UsernameTaken(users, data.username) && !EmailTaken(users, data.email))
      && (r.Ok? ==>
            && r.value.passwordHash == hash(data.password)
            && !r.value.isAdmin
            && r.value.username == data.username && r.value.email == data.email
            && (forall i :: 0 <= i < |users| ==> users[i].id < r.value.id)
            && UserTableOk(users + [r.value], nextId + 1))
  {
    var f := Filter(users, NameOrEmail(data.username, data.email));
    if !UsernameTaken(users, data.username) && !EmailTaken(users, data.email) {
      FilterEmpty(users, NameOrEmail(data.username, data.email));
      var r := RegisterOutcome(users, nextId, data, hash, now);
      var users' := users + [r.value];
      forall i, j | 0 <= i < j < |users'| ensures UsersDistinct(users'[i], users'[j]) {
        if j < |users| {
          assert users'[i] == users[i] && users'[j] == users[j];
        } else {
          assert users'[i] == users[i] && users'[j] == r.value;
        }
      }
    } else if f == [] {
      FilterEmpty(users, NameOrEmail(data.username, data.email));
    }
  }

  /**
   * A username clash is reported as such, ahead of any e-mail clash, whenever the user
   * holding that username is the only match.
   */
  lemma RegisterReportsUsernameFirst(users: seq<UserRow>, nextId: nat, data: UserCreate,
                                     hash: string -> string, now: int, i: nat)
    requires UserTableOk(users, nextId)
    requires i < |users| && users[i].username == data.username
    requires forall j :: 0 <= j < |users| && j != i ==> users[j].email != data.email
    ensures RegisterOutcome(users, nextId, data, hash, now) == Err(USERNAME_TAKEN)
  {
    forall j | 0 <= j < |users| && j != i ensures !NameOrEmail(data.username, data.email)(users[j]) {
      if j < i { assert UsersDistinct(users[j], users[i]); } else { assert UsersDistinct(users[i], users[j]); }
    }
    FilterOnly(users, NameOrEmail(data.username, data.email), i);
  }

  /** An e-mail clash with a free username is reported as an e-mail clash. */
  lemma RegisterReportsEmailClash(users: seq<UserRow>, nextId: nat, data: UserCreate,
                                  hash: string -> string, now: int, i: nat)
    requires UserTableOk(users, nextId)
    requires i < |users| && users[i].email == data.email
    requires !UsernameTaken(users, data.username)
    ensures RegisterOutcome(users, nextId, data, hash, now) == Err(EMAIL_TAKEN)
  {
    forall j | 0 <= j < |users| && j != i ensures !NameOrEmail(data.username, data.email)(users[j]) {
      if j < i { assert UsersDistinct(users[j], users[i]); } else { assert UsersDistinct(users[i], users[j]); }
    }
    FilterOnly(users, NameOrEmail(data.username, data.email), i);
  }

  /**
   * As written, a username held by one user and an e-mail held by another make the
   * query return two rows, and `scalar_one_or_none` raises instead of answering 400.
   */
  lemma RegisterRaisesOnCrossCollision(users: seq<UserRow>, nextId: nat, data: UserCreate,
                                       hash: string -> string, now: int, i: nat, j: nat)
    requires i < |users| && j < |users| && i != j
    requires users[i].username == data.username && users[j].email == data.email
    ensures RegisterOutcome(users, nextId, data, hash, now) == Err(MultipleResultsFound)
  {
    if i < j {
      FilterAtLeastTwo(users, NameOrEmail(data.username, data.email), i, j);
    } else {
      FilterAtLeastTwo(users, NameOrEmail(data.username, data.email), j, i);
    }
  }

  /** The concrete case: alice's username with bob's e-mail. */
  lemma RegisterCrossCollisionExample(hash: string -> string, now: int)
    ensures var users := [UserRow(1, "alice", "alice@example.com", "h1", 0, false),
                          UserRow(2, "bob", "bob@example.com", "h2", 0, false)];
      && UserTableOk(users, 3)
      && RegisterOutcome(users, 3, UserCreate("alice", "bob@example.com", "password123"), hash, now)
         == Err(MultipleResultsFound)
  {
    var users := [UserRow(1, "alice", "alice@example.com", "h1", 0, false),
                  UserRow(2, "bob", "bob@example.com", "h2", 0, false)];
    RegisterRaisesOnCrossCollision(users, 3, UserCreate("alice", "bob@example.com", "password123"), hash, now, 0, 1);
  }

  /**
   * The evidently intended check: a taken username is reported first, then a taken
   * e-mail, and only a request clashing with neither creates the user.
   */
  function IntendedRegisterOutcome(users: seq<UserRow>, nextId: nat, data: UserCreate,
                                   hash: string -> string, now: int): (r: Result<UserRow>)
    ensures r.Ok? ==> r.value == UserRow(nextId, data.username, data.email, hash(data.password), now, false)
    ensures r.Err? ==> r.error in {USERNAME_TAKEN, EMAIL_TAKEN}
  {
    if UsernameTaken(users, data.username) then Err(USERNAME_TAKEN)
    else if EmailTaken(users, data.email) then Err(EMAIL_TAKEN)
    else Ok(UserRow(nextId, data.username, data.email, hash(data.password), now, false))
  }

  /**
   * The intended check always answers with a 400 or a new user, agrees with the code
   * whenever the code does not raise, and where the code raises it reports the
   * username clash.
   */
  lemma IntendedRegisterMatchesCode(users: seq<UserRow>, nextId: nat, data: UserCreate,
                                    hash: string -> string, now: int)
    requires UserTableOk(users, nextId)
    ensures var r := IntendedRegisterOutcome(users, nextId, data, hash, now);
      r.Err? ==> r.error.HttpError? && r.error.status == 400
    ensures var code := RegisterOutcome(users, nextId, data, hash, now);
      code != Err(MultipleResultsFound) ==> code == IntendedRegisterOutcome(users, nextId, data, hash, now)
    ensures RegisterOutcome(users, nextId, data, hash, now) == Err(MultipleResultsFound) ==>
      IntendedRegisterOutcome(users, nextId, data, hash, now) == Err(USERNAME_TAKEN)
  {
    var f := Filter(users, NameOrEmail(data.username, data.email));
    if |f| == 0 {
      FilterEmpty(users, NameOrEmail(data.username, data.email));
    } else if |f| == 1 {
      var i := SingleMatchAlone(users, nextId, data.username, data.email);
      if users[i].username == data.username {
        assert UsernameTaken(users, data.username);
      } else {
        assert EmailTaken(users, data.email);
      }
    } else {
      TwoMatchesMeanUsernameTaken(users, nextId, data.username, data.email);
    }
  }

  /**
   * The corrected check creates a user exactly when neither the name nor the e-mail is
   * taken, and the new row keeps usernames and e-mails unique.
   */
  lemma IntendedRegisterKeepsUsersUnique(users: seq<UserRow>, nextId: nat, data: UserCreate,
                                         hash: string -> string, now: int)
    requires UserTableOk(users, nextId)
    ensures var r := IntendedRegisterOutcome(users, nextId, data, hash, now);
      && (r.Ok? <==> !UsernameTaken(users, data.username) && !EmailTaken(users, data.email))
      && (r.Ok? ==> r.value.passwordHash == hash(data.password) && UserTableOk(users + [r.value], nextId + 1))
  {
    IntendedRegisterMatchesCode(users, nextId, data, hash, now);
    RegisterSucceedsOnlyWhenFree(users, nextId, data, hash, now);
  }

  /** A single match is the only user holding the name or the e-mail. */
  lemma SingleMatchAlone(users: seq<UserRow>, nextId: nat, name: string, email: string) returns (i: nat)
    requires UserTableOk(users, nextId)
    requires |Filter(users, NameOrEmail(name, email))| == 1
    ensures i < |users| && users[i] == Filter(users, NameOrEmail(name, email))[0]
    ensures users[i].username == name || users[i].email == email
    ensures forall j :: 0 <= j < |users| && j != i ==> users[j].username != name && users[j].email != email
  {
    var p := NameOrEmail(name, email);
    var f := Filter(users, p);
    assert f[0] in f;
    assert f == [f[0]];
    i := IndexOf(users, f[0]);
    forall j | 0 <= j < |users| && j != i ensures !p(users[j]) {
      if j < i { assert UsersDistinct(users[j], users[i]); } else { assert UsersDistinct(users[i], users[j]); }
      assert users[j] != f[0];
      assert users[j] !in f;
    }
  }

  /** Two matches in a table of unique names and e-mails: one of them holds the name. */
  lemma TwoMatchesMeanUsernameTaken(users: seq<UserRow>, nextId: nat, name: string, email: string)
    requires UserTableOk(users, nextId)
    requires |Filter(users, NameOrEmail(name, email))| >= 2
    ensures UsernameTaken(users, name)
  {
    var p := NameOrEmail(name, email);
    var f := Filter(users, p);
    FilterPairwise(users, p, UsersDistinct);
    assert UsersDistinct(f[0], f[1]);
    assert f[0] in f && f[1] in f;
    var a := IndexOf(users, f[0]);
    var b := IndexOf(users, f[1]);
    assert users[a].username == name || users[b].username == name;
  }

  /** `register` as the handler runs it: query, branch, then `session.add` and `flush`. */
  method Register(table: UserTable, data: UserCreate, hash: string -> string, now: int) returns (r: Result<UserRow>)
    requires table.Valid()
    modifies table
    ensures table.Valid()
    ensures r == RegisterOutcome(old(table.users), old(table.nextId), data, hash, now)
    ensures r.Ok? ==> table.users == old(table.users) + [r.value] && table.nextId == old(table.nextId) + 1
    ensures r.Err? ==> table.users == old(table.users) && table.nextId == old(table.nextId)
  {
    var existing := ScalarOneOrNone(Filter(table.users, NameOrEmail(data.username, data.email)));
    match existing {
      case MultipleRows =>
        return Err(MultipleResultsFound);
      case OneRow(user) =>
        if user.username == data.username {
          return Err(USERNAME_TAKEN);
        }
        return Err(EMAIL_TAKEN);
      case NoRow =>
        FilterEmpty(table.users, NameOrEmail(data.username, data.email));
        var user := table.Add(data.username, data.email, hash(data.password), now);
        return Ok(user);
    }
  }

  // ---------------------------------------------------------------------------
  // Access tokens
  // ---------------------------------------------------------------------------

  /** A signed JWT, reduced to its `sub` claim; expiry and signature are not modelled. */
  datatype AccessToken = AccessToken(sub: string)

  /** `TokenResponse`. */
  datatype TokenResponse = TokenResponse(accessToken: AccessToken, tokenType: string)

  /** `create_access_token`: the subject is `str(user_id)`. */
  function CreateAccessToken(userId: nat): (token: AccessToken)
    ensures token.sub != "" && AllDigits(token.sub)
  {
    AccessToken(Dec(userId))
  }

  /** `get_user_id_from_token` on a token that decodes: `int(sub)`, or nothing. */
  function UserIdFromToken(token: AccessToken): (r: Option<nat>)
    ensures r.Some? <==> token.sub != "" && AllDigits(token.sub)
  {
    if token.sub != "" && AllDigits(token.sub) then Some(ParseDec(token.sub)) else None
  }

  /** A token names the user it was made for, and different users get different tokens. */
  lemma TokenNamesItsUser(userId: nat, other: nat)
    ensures UserIdFromToken(CreateAccessToken(userId)) == Some(userId)
    ensures other != userId ==> CreateAccessToken(other) != CreateAccessToken(userId)
  {
    ParseDecOfDec(userId);
    DecInjective(userId, other);
  }

  // ---------------------------------------------------------------------------
  // login
  // ---------------------------------------------------------------------------

  /**
   * `login`: the identifier is looked up as a username OR an e-mail; an unknown
   * identifier and a failed `verify` give the same 401.
   */
  function Login(users: seq<UserRow>, identifier: string, password: string,
                 verify: (string, string) -> bool): (r: Result<TokenResponse>)
    ensures r.Ok? ==> r.value.tokenType == BEARER && UserIdFromToken(r.value.accessToken).Some?
    ensures r.Err? ==> r.error in {BAD_CREDENTIALS, MultipleResultsFound}
  {
    match ScalarOneOrNone(Filter(users, NameOrEmail(identifier, identifier)))
    case MultipleRows => Err(MultipleResultsFound)
    case NoRow => Err(BAD_CREDENTIALS)
    case OneRow(user) =>
      if !verify(password, user.passwordHash) then Err(BAD_CREDENTIALS)
      else Ok(TokenResponse(CreateAccessToken(user.id), BEARER))
  }

  /** `user` is the one the identifier names and the password verifies against. */
  predicate Authenticates(user: UserRow, identifier: string, password: string, verify: (string, string) -> bool)
  {
    (user.username == identifier || user.email == identifier) && verify(password, user.passwordHash)
  }

  /** Rows written by `register` from validated requests: usernames have no '@', e-mails do. */
  predicate RegisteredShapes(users: seq<UserRow>)
  {
    forall i :: 0 <= i < |users| ==> ValidUsername(users[i].username) && '@' in users[i].email
  }

  /**
   * With such rows an identifier can match at most one user: as a username if it has no
   * '@', as an e-mail if it has one.
   */
  lemma LoginMatchesAtMostOne(users: seq<UserRow>, nextId: nat, identifier: string)
    requires UserTableOk(users, nextId) && RegisteredShapes(users)
    ensures |Filter(users, NameOrEmail(identifier, identifier))| <= 1
  {
    var p := NameOrEmail(identifier, identifier);
    forall i, j | 0 <= i < j < |users| && p(users[i]) ensures !p(users[j]) {
      assert UsersDistinct(users[i], users[j]);
      ValidUsernameHasNoAt(users[i].username);
      ValidUsernameHasNoAt(users[j].username);
    }
    FilterAtMostOne(users, p);
  }

  /**
   * The identifier may be user `i`'s username or e-mail: with the right password the
   * answer is a bearer token naming user `i`, with a wrong one the 401.
   */
  lemma LoginByUsernameOrEmail(users: seq<UserRow>, nextId: nat, identifier: string, password: string,
                               verify: (string, string) -> bool, i: nat)
    requires UserTableOk(users, nextId) && RegisteredShapes(users)
    requires i < |users| && (identifier == users[i].username || identifier == users[i].email)
    ensures Login(users, identifier, password, verify) ==
      if verify(password, users[i].passwordHash) then Ok(TokenResponse(CreateAccessToken(users[i].id), BEARER))
      else Err(BAD_CREDENTIALS)
    ensures Login(users, identifier, password, verify).Ok? ==>
      UserIdFromToken(Login(users, identifier, password, verify).value.accessToken) == Some(users[i].id)
  {
    var p := NameOrEmail(identifier, identifier);
    var f := Filter(users, p);
    assert users[i] in f;
    LoginMatchesAtMostOne(users, nextId, identifier);
    assert f[0] in f;
    assert f == [users[i]];
    TokenNamesItsUser(users[i].id, users[i].id);
  }

  /**
   * Failures look alike: whatever went wrong, the answer is the one 401; and a token is
   * only issued to a user whose username or e-mail is the identifier and whose password
   * verifies.
   */
  lemma LoginFailuresLookAlike(users: seq<UserRow>, nextId: nat, identifier: string, password: string,
                               verify: (string, string) -> bool)
    requires UserTableOk(users, nextId) && RegisteredShapes(users)
    ensures var r := Login(users, identifier, password, verify);
      r.Err? ==> r == Err(BAD_CREDENTIALS)
    ensures !UsernameTaken(users, identifier) && !EmailTaken(users, identifier) ==>
      Login(users, identifier, password, verify) == Err(BAD_CREDENTIALS)
    ensures var r := Login(users, identifier, password, verify);
      r.Ok? ==> exists i :: 0 <= i < |users| && Authenticates(users[i], identifier, password, verify) &&
                             r.value == TokenResponse(CreateAccessToken(users[i].id), BEARER)
  {
    LoginMatchesAtMostOne(users, nextId, identifier);
    var f := Filter(users, NameOrEmail(identifier, identifier));
    if !UsernameTaken(users, identifier) && !EmailTaken(users, identifier) {
      FilterEmpty(users, NameOrEmail(identifier, identifier));
    }
    if |f| == 1 {
      assert f[0] in f;
      var i := IndexOf(users, f[0]);
    }
  }
}
