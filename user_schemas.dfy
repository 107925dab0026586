/**
 * Request validation and response shape for users (backend/app/schemas/user.py).
 * `EmailStr` validation is a foreign library and is not part of this model.
 */
module UserSchemas {
  import opened Wrappers
  import opened Models

  /** The character class `[a-zA-Z0-9_-]`. */
  predicate UsernameChar(c: char)
  {
    'a' <= c <= 'z' || 'A' <= c <= 'Z' || '0' <= c <= '9' || c == '_' || c == '-'
  }

  /** `min_length=3, max_length=50, pattern=r"^[a-zA-Z0-9_-]+$"` */
  predicate ValidUsername(username: string)
  {
    3 <= |username| <= 50 && forall i :: 0 <= i < |username| ==> UsernameChar(username[i])
  }

  /** `min_length=8, max_length=128` */
  predicate ValidPassword(password: string)
  {
    8 <= |password| <= 128
  }

  /** `UserCreate`; the e-mail is any string here. */
  datatype UserCreate = UserCreate(username: string, email: string, password: string)

  predicate ValidUserCreate(data: UserCreate)
    ensures ValidUserCreate(data) ==> '@' !in data.username && 8 <= |data.password| <= 128
    ensures ValidUserCreate(data) ==> 3 <= |data.username| <= 50
  {
    ValidUsername(data.username) && ValidPassword(data.password)
  }

  /** `UserUpdate`: both fields optional. */
  datatype UserUpdate = UserUpdate(email: Option<string>, password: Option<string>)

  predicate ValidUserUpdate(update: UserUpdate)
    ensures update.password.None? ==> ValidUserUpdate(update)
    ensures ValidUserUpdate(update) ==> update.password.None? || 8 <= |update.password.value| <= 128
  {
    update.password.Some? ==> ValidPassword(update.password.value)
  }

  /** No valid username contains '@'. */
  lemma {:induction false} ValidUsernameHasNoAt(username: string)
    requires ValidUsername(username)
    ensures '@' !in username
  {
    forall i | 0 <= i < |username| ensures username[i] != '@' {
      assert UsernameChar(username[i]);
    }
  }

  lemma PasswordBoundExamples()
    ensures !ValidPassword("short") && ValidPassword("password123")
    ensures ValidUserUpdate(UserUpdate(None, None)) && !ValidUserUpdate(UserUpdate(None, Some("short")))
  {
  }

  /** `UserResponse`: the only fields of a user row a client sees. */
  datatype UserResponse = UserResponse(id: nat, username: string, email: string, createdAt: int)

  function ToUserResponse(u: UserRow): (r: UserResponse)
    ensures r.id == u.id && r.username == u.username && r.email == u.email && r.createdAt == u.createdAt
  {
    UserResponse(u.id, u.username, u.email, u.createdAt)
  }

  function ToUserResponses(users: seq<UserRow>): (r: seq<UserResponse>)
    ensures |r| == |users|
  {
    seq(|users|, i requires 0 <= i < |users| => ToUserResponse(users[i]))
  }

  /** The response never reveals `password_hash` or `is_admin`. */
  lemma UserResponseHidesSecrets(a: UserRow, b: UserRow)
    requires a.id == b.id && a.username == b.username && a.email == b.email && a.createdAt == b.createdAt
    ensures ToUserResponse(a) == ToUserResponse(b)
    ensures ToUserResponse(a).username == a.username && ToUserResponse(a).email == a.email
  {
  }
}
