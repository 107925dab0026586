/**
 * The two database tables (backend/app/models/image.py, backend/app/models/user.py)
 * as sequences of rows with their primary-key and unique constraints, and the
 * session operations the handlers use on them (insert with a fresh id, delete by id).
 */
module Models {
  import opened Queries

  /** A row of `images`. `created_at` is the database's `func.now()`, taken as given. */
  datatype ImageRow = ImageRow(
    id: nat,
    userId: nat,
    filename: string,
    r2Key: string,
    contentType: string,
    sizeBytes: int,
    publicUrl: string,
    createdAt: int)

  /** A row of `users`. */
  datatype UserRow = UserRow(
    id: nat,
    username: string,
    email: string,
    passwordHash: string,
    createdAt: int,
    isAdmin: bool)

  function ImageCreatedAt(r: ImageRow): int { r.createdAt }

  function UserCreatedAt(u: UserRow): int { u.createdAt }

  // ---------------------------------------------------------------------------
  // Constraints
  // ---------------------------------------------------------------------------

  /** Two image rows may share neither the primary key nor the unique `r2_key`. */
  function ImagesDistinct(a: ImageRow, b: ImageRow): bool
  {
    a.id != b.id && a.r2Key != b.r2Key
  }

  /** Two user rows may share neither the primary key, nor `username`, nor `email`. */
  function UsersDistinct(a: UserRow, b: UserRow): bool
  {
    a.id != b.id && a.username != b.username && a.email != b.email
  }

  /** The constraints of `images`; `nextId` is the id sequence's next value. */
  predicate ImageTableOk(rows: seq<ImageRow>, nextId: nat)
  {
    && Pairwise(rows, ImagesDistinct)
    && forall i :: 0 <= i < |rows| ==> rows[i].id < nextId
  }

  /** The constraints of `users`. */
  predicate UserTableOk(users: seq<UserRow>, nextId: nat)
  {
    && Pairwise(users, UsersDistinct)
    && forall i :: 0 <= i < |users| ==> users[i].id < nextId
  }

  // ---------------------------------------------------------------------------
  // WHERE clauses
  // ---------------------------------------------------------------------------

  /** `Image.id == id` */
  function HasId(id: int): ImageRow -> bool { (r: ImageRow) => r.id == id }

  /** `Image.id != id`: the rows that survive deleting image `id`. */
  function NotId(id: int): ImageRow -> bool { (r: ImageRow) => r.id != id }

  /** `Image.id == id, Image.user_id == userId` */
  function HasIdAndOwner(id: int, userId: nat): ImageRow -> bool { (r: ImageRow) => r.id == id && r.userId == userId }

  /** `Image.r2_key == key` */
  function HasKey(key: string): ImageRow -> bool { (r: ImageRow) => r.r2Key == key }

  /** `Image.user_id == userId` */
  function OwnedBy(userId: nat): ImageRow -> bool { (r: ImageRow) => r.userId == userId }

  /** `or_(User.username == name, User.email == email)` */
  function NameOrEmail(name: string, email: string): UserRow -> bool
  {
    (u: UserRow) => u.username == name || u.email == email
  }

  /** A query by primary key matches at most one row. */
  lemma AtMostOneWithId(rows: seq<ImageRow>, id: int, p: ImageRow -> bool)
    requires Pairwise(rows, ImagesDistinct)
    requires forall r :: p(r) ==> r.id == id
    ensures |Filter(rows, p)| <= 1
  {
    FilterAtMostOne(rows, p);
  }

  /** A query by `r2_key` matches at most one row. */
  lemma AtMostOneWithKey(rows: seq<ImageRow>, key: string)
    requires Pairwise(rows, ImagesDistinct)
    ensures |Filter(rows, HasKey(key))| <= 1
  {
    FilterAtMostOne(rows, HasKey(key));
  }

  /** Deleting a row keeps the table's constraints. */
  lemma DeleteKeepsImageTableOk(rows: seq<ImageRow>, nextId: nat, id: int)
    requires ImageTableOk(rows, nextId)
    ensures ImageTableOk(Filter(rows, NotId(id)), nextId)
    ensures forall r :: r in Filter(rows, NotId(id)) <==> r in rows && r.id != id
  {
    FilterPairwise(rows, NotId(id), ImagesDistinct);
    var f := Filter(rows, NotId(id));
    forall i | 0 <= i < |f| ensures f[i].id < nextId {
      assert f[i] in rows;
    }
  }

  /** Appending a row with a fresh id and an unused key keeps the table's constraints. */
  lemma AppendKeepsImageTableOk(rows: seq<ImageRow>, nextId: nat, row: ImageRow)
    requires ImageTableOk(rows, nextId)
    requires row.id == nextId
    requires forall i :: 0 <= i < |rows| ==> rows[i].r2Key != row.r2Key
    ensures ImageTableOk(rows + [row], nextId + 1)
  {
  }

  // ---------------------------------------------------------------------------
  // The tables as the session sees them
  // ---------------------------------------------------------------------------

  class ImageTable {
    var rows: seq<ImageRow>
    var nextId: nat

    ghost predicate Valid()
      reads this
    {
      ImageTableOk(rows, nextId)
    }

    constructor ()
      ensures Valid() && rows == [] && nextId == 1
    {
      rows := [];
      nextId := 1;
    }

    /** `session.add(Image(...))` then `flush()`: the row gets the next id; `r2_key` must be unused. */
    method Add(userId: nat, filename: string, r2Key: string, contentType: string,
               sizeBytes: int, publicUrl: string, createdAt: int) returns (row: ImageRow)
      requires Valid()
      requires forall i :: 0 <= i < |rows| ==> rows[i].r2Key != r2Key
      modifies this
      ensures Valid()
      ensures row == ImageRow(old(nextId), userId, filename, r2Key, contentType, sizeBytes, publicUrl, createdAt)
      ensures rows == old(rows) + [row] && nextId == old(nextId) + 1
    {
      row := ImageRow(nextId, userId, filename, r2Key, contentType, sizeBytes, publicUrl, createdAt);
      AppendKeepsImageTableOk(rows, nextId, row);
      rows := rows + [row];
      nextId := nextId + 1;
    }

    /** `session.delete(image)` then `flush()`/`commit()`. */
    method Delete(id: int)
      requires Valid()
      modifies this
      ensures Valid()
      ensures rows == Filter(old(rows), NotId(id)) && nextId == old(nextId)
    {
      DeleteKeepsImageTableOk(rows, nextId, id);
      rows := Filter(rows, NotId(id));
    }
  }

  class UserTable {
    var users: seq<UserRow>
    var nextId: nat

    ghost predicate Valid()
      reads this
    {
      UserTableOk(users, nextId)
    }

    constructor ()
      ensures Valid() && users == [] && nextId == 1
    {
      users := [];
      nextId := 1;
    }

    /** `session.add(User(...))` then `flush()`: the row gets the next id; username and email must be unused. */
    method Add(username: string, email: string, passwordHash: string, createdAt: int) returns (user: UserRow)
      requires Valid()
      requires forall i :: 0 <= i < |users| ==> users[i].username != username && users[i].email != email
      modifies this
      ensures Valid()
      ensures user == UserRow(old(nextId), username, email, passwordHash, createdAt, false)
      ensures users == old(users) + [user] && nextId == old(nextId) + 1
    {
      user := UserRow(nextId, username, email, passwordHash, createdAt, false);
      users := users + [user];
      nextId := nextId + 1;
    }
  }
}
