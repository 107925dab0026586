# Image hosting: the upload, confirm and delete protocol

This project models the back end of a small image-hosting service in Dafny. The service is
a FastAPI application that keeps image files in an S3-compatible bucket (Cloudflare R2) and
their metadata in a SQL database. The model covers its core:

- **Key allocation and public URLs.** `generate_key` builds `"<user id>/<uuid hex><ext>"`,
  where `ext` is the lower-cased `Path.suffix` of the file name, or `.bin`. `get_public_url`
  joins the configured base, without its trailing slashes, to the key.
- **The bucket.** A class holding a map from key to the stored object's size and content
  type. It has the head operation (`verify_object_exists`), the delete operation
  (`delete_object`) and the client's PUT through the presigned URL.
- **The two tables.** `images` and `users` are classes holding a sequence of rows and the id
  sequence's next value. The primary keys and the unique columns (`r2_key`; `username` and
  `email`) are an invariant of these tables.
- **The handlers.**
  - Users: `get_upload_url`, `confirm_upload`, `list_images`, `get_image` and `delete_image`.
  - Admin: `list_all_images`, `get_any_image`, `delete_any_image` and `list_all_users`.
  - Auth: `register` and `login`.

  Each handler that writes is a method on the bucket and table objects. Each such method is
  proved to produce exactly the state and result of a step function (`ConfirmStep`,
  `DeleteImageStep`, `DeleteAnyImageStep`, `RegisterOutcome`). The protocol's invariants are
  lemmas about those step functions. The central invariant, `ImagesRouter.Consistent`, says
  that `r2_key` is unique and that every row's object is in the bucket. Read-only handlers are
  functions built from the query combinators in `Queries`: WHERE is `Filter`,
  `scalar_one_or_none` is `ScalarOneOrNone`, ORDER BY ... DESC is `SortDesc`, and
  OFFSET/LIMIT is `Page`.
- **Request validation.** The Pydantic field constraints of the request schemas are
  predicates. The response schemas are projections of the rows.

The id of the authenticated caller is an input of every handler. Things the model cannot
see are parameters:

- the uuid4 token of a new key;
- the presigning function;
- the password hash and verify functions;
- the database clock (`now`);
- whether the bucket reports an error on delete (`storageError`).

## Behaviour a reader might not expect

The model follows the handlers as written, including three behaviours a reader of the route
names might not expect:

- A reader might expect `confirm_upload` to compare the declared `size_bytes` with the size the
  bucket reports and to reject a mismatch. It does not: it stores the bucket's size, and a
  mismatch is not an error. See `ConfirmIgnoresDeclaredSize` and `ConfirmStoresUnboundedSize`.
- A reader might expect a repeated confirm of the same key to return the existing row. It
  answers 409 "Image already confirmed". See `ConfirmTwiceConflicts`.
- A reader might expect `delete_image` to fail when the bucket cannot delete the object. It
  ignores the result of `delete_object`: the row is deleted and the object stays behind,
  unreferenced. Only the admin delete answers 500 and keeps both. See
  `StorageFailureSplitsTheDeletes`.

## Model

| member | source | states |
|---|---|---|
| Storage.Dec | backend/app/services/storage.py:64 | `str(user_id)` is a non-empty string of decimal digits |
| Storage.ParseDecOfDec | backend/app/services/auth.py:70 | `int(str(n)) == n`: the decimal form of an id reads back as the same id |
| Storage.DecInjective | backend/app/services/storage.py:64 | distinct ids have distinct decimal forms |
| Storage.Name | backend/app/services/storage.py:62 | the last path component never contains '/' |
| Storage.Extension | backend/app/services/storage.py:62 | the extension starts with '.', has at least one more character, holds no '/' and no upper-case ASCII letter |
| Storage.ExtensionIsLastSuffix | backend/app/services/storage.py:62 | for `stem.suf` with no dot in `suf`, the extension is `"." + lower(suf)`: only the last suffix counts, lower-cased |
| Storage.ExtensionOfLastComponent | backend/app/services/storage.py:62 | directories in the file name play no part: `dir/name` has the extension of `name` |
| Storage.ExtensionWithoutSuffix | backend/app/services/storage.py:62 | a name with no dot, or whose only dot is its first character, gets `.bin` |
| Storage.GenerateKey | backend/app/services/storage.py:60-64 | `generate_key`: the key starts with the owner's `str(user_id) + "/"`, ends with the file name's extension, and its length is prefix + token + extension |
| Storage.GeneratedKeyShape | backend/app/services/storage.py:60-64 | the key starts with `str(u) + "/"`, ends with the extension and carries the token in between; its only '/' is the one after the id |
| Storage.OwnerPrefixExclusive | backend/app/routers/images.py:50 | no key starts with the prefixes of two different users |
| Storage.GeneratedKeyOwnedOnlyByCreator | backend/app/services/storage.py:64 | a key generated for `u` passes `startswith(f"{v}/")` if and only if `v == u` |
| Storage.RStripSlash | backend/app/services/storage.py:35-37 | the result is a prefix of the input, does not end in '/', and everything removed was '/' |
| Storage.RStripSlashAppended | backend/app/services/storage.py:37 | adding trailing slashes to the base does not change the stripped base |
| Storage.GetPublicUrl | backend/app/services/storage.py:66-68 | `get_public_url`: the URL ends with "/" + key, and what precedes that "/" is a prefix of the configured base |
| Storage.PublicUrlSingleSeparator | backend/app/services/storage.py:66-68 | the public URL is the stripped base, exactly one '/', then the key, however many slashes the configured base ends with |
| Storage.Bucket.VerifyObjectExists | backend/app/services/storage.py:84-96 | returns the stored metadata exactly when the key is present, None otherwise, and changes nothing |
| Storage.Bucket.DeleteObject | backend/app/services/storage.py:98-104 | returns True exactly when the store reports no error; then the key is absent and nothing else changes (an absent key also succeeds); on False the bucket is unchanged |
| Storage.Bucket.Put | backend/app/services/storage.py:70-82 | the client's upload to the presigned URL stores the object at the key and changes no other key |
| Queries.Filter | backend/app/routers/images.py:109 | a WHERE clause keeps exactly the rows satisfying the condition, each at most as often as before |
| Queries.FilterEmpty | backend/app/routers/images.py:65-68 | a WHERE clause matches nothing if and only if no row satisfies its condition |
| Queries.FilterOnly | backend/app/routers/images.py:152-155 | when exactly one row satisfies the condition, `scalar_one_or_none` sees that row alone |
| Queries.ScalarOneOrNone | backend/app/routers/images.py:134 | `scalar_one_or_none()`: no row for an empty result, the row itself for exactly one, a raise for two or more |
| Queries.FilterCount | backend/app/routers/images.py:101-104 | COUNT over a condition equals the number of rows the WHERE clause with that condition returns |
| Queries.FilterAtMostOne | backend/app/models/image.py:33-37 | a condition that at most one row can satisfy matches at most one row |
| Queries.FilterPairwise | backend/app/models/image.py:33-37 | a WHERE clause keeps any pairwise property (such as uniqueness) of the table |
| Queries.InsertDescSorted | backend/app/routers/images.py:110 | inserting into a sequence sorted by descending key keeps it sorted |
| Queries.SortDesc | backend/app/routers/images.py:110 | ORDER BY ... DESC gives a permutation of the rows, sorted by descending key |
| Queries.Page | backend/app/routers/images.py:111-112 | OFFSET/LIMIT gives at most `limit` rows, exactly `min(limit, n - offset)` of them, each the row at `offset + k`; nothing past the end |
| Queries.PageOfSorted | backend/app/routers/images.py:110-112 | a window of a sorted sequence is sorted and holds only its rows |
| Queries.PageCovers | backend/app/routers/images.py:98 | with `offset = (page-1)*limit`, every row appears on some page at some position below `limit` |
| Models.AtMostOneWithId | backend/app/models/image.py:23 | a lookup by primary key matches at most one row |
| Models.AtMostOneWithKey | backend/app/models/image.py:33-37 | a lookup by `r2_key` matches at most one row |
| Models.DeleteKeepsImageTableOk | backend/app/routers/images.py:167 | deleting by id keeps the table's constraints and removes exactly the rows with that id |
| Models.ImageTable.Add | backend/app/routers/images.py:83-85 | `session.add` + `flush` appends one row with the next id and keeps the constraints |
| Models.ImageTable.Delete | backend/app/routers/images.py:167-168 | `session.delete` removes the row with that id and keeps the constraints |
| Models.UserTable.Add | backend/app/routers/auth.py:42-49 | appends one non-admin user with the next id and keeps username and e-mail unique |
| ImageSchemas.ValidUploadRequest | backend/app/schemas/image.py:10-26 | `ImageUploadRequest` validation holds exactly for a file name of 1..255 characters, one of the four image types, and a size in (0, 10 MiB] |
| ImageSchemas.ValidConfirmRequest | backend/app/schemas/image.py:37-43 | `ImageConfirmRequest` validation holds exactly when the same fields pass `ImageUploadRequest` validation; the key is not checked, and a valid size is at most 10 MiB |
| ImageSchemas.ToImageResponse | backend/app/schemas/image.py:46-56 | `ImageResponse` copies id, filename, public URL, content type, size and creation time from the row (it drops the key and owner: `ImageResponseHidesKeyAndOwner`) |
| ImageSchemas.ContentTypeAllowList | backend/app/schemas/image.py:18-21 | the pattern accepts exactly `image/jpeg`, `image/png`, `image/gif`, `image/webp` |
| ImageSchemas.SizeBoundExamples | backend/app/schemas/image.py:22-26 | 10 MiB and 1 are accepted; 10 MiB + 1, 11,000,000 and 0 are rejected |
| ImageSchemas.ConfirmBoundsMatchUpload | backend/app/schemas/image.py:37-43 | the confirm request has the upload request's bounds field for field: filename 1..255, the four types, size in (0, 10 MiB]; `r2_key` is unconstrained |
| ImageSchemas.ImageResponseHidesKeyAndOwner | backend/app/schemas/image.py:46-56 | rows differing only in `r2_key` and `user_id` give the same response |
| UserSchemas.ValidUserCreate | backend/app/schemas/user.py:10-24 | `UserCreate` validation: a valid request has a 3..50 character username without '@' and an 8..128 character password |
| UserSchemas.ValidUserUpdate | backend/app/schemas/user.py:38-42 | `UserUpdate` validation: an update without a password is always valid; one with a password needs 8..128 characters |
| UserSchemas.ToUserResponse | backend/app/schemas/user.py:27-35 | `UserResponse` copies id, username, e-mail and creation time from the row (it drops the hash and the admin flag: `UserResponseHidesSecrets`) |
| UserSchemas.ValidUsernameHasNoAt | backend/app/schemas/user.py:13-18 | no valid username contains '@' |
| UserSchemas.PasswordBoundExamples | backend/app/schemas/user.py:20-24 | "short" is rejected, "password123" accepted; an update without a password is valid, one with "short" is not |
| UserSchemas.UserResponseHidesSecrets | backend/app/schemas/user.py:27-35 | rows differing only in `password_hash` and `is_admin` give the same response |
| ImagesRouter.GetUploadUrl | backend/app/routers/images.py:22-36 | `get_upload_url`: the returned key has the caller's prefix, the public URL ends with "/" + key, and the upload URL is presigned for that key and the declared content type |
| ImagesRouter.UploadSlotIsNamespaced | backend/app/routers/images.py:28-36 | the key has the caller's prefix and no other user's; `public_url` is the public URL of that key; the upload URL is presigned for that key and content type; the declared size plays no part |
| ImagesRouter.ConfirmStep | backend/app/routers/images.py:39-87 | `confirm_upload`: 403 unless the key has the caller's prefix, then 400 if the object is missing, then 409 if the key has a row (a raise if several), otherwise one appended row for the caller and key; every error leaves the world unchanged and the bucket is never written |
| ImagesRouter.ConfirmChecksInOrder | backend/app/routers/images.py:50-72 | 403 without the owner prefix, then 400 without the object, then 409 if the key has a row; success exactly when all three pass; every error writes nothing |
| ImagesRouter.ConfirmInsertsVerifiedRow | backend/app/routers/images.py:57-85 | a success appends one row, owned by the caller, whose object is in the bucket, with the bucket's size, the request's filename and type, and the key's public URL |
| ImagesRouter.ConfirmIgnoresDeclaredSize | backend/app/routers/images.py:75-82 | changing the declared size changes neither the result nor the new state |
| ImagesRouter.ConfirmStoresUnboundedSize | backend/app/routers/images.py:80 | a valid request declaring 500 bytes for an 11,000,000-byte object succeeds and stores a size the schema would reject |
| ImagesRouter.ConfirmKeepsConsistency | backend/app/routers/images.py:50-85 | confirm keeps `r2_key` unique and every row backed by an object |
| ImagesRouter.ConfirmTwiceConflicts | backend/app/routers/images.py:64-72 | a second confirm of a confirmed key answers 409, writes nothing, and the key has exactly one row |
| ImagesRouter.ConfirmedRowPassedValidation | backend/app/routers/images.py:75-82 | a stored row's content type and filename satisfy the schema |
| ImagesRouter.ConfirmUpload | backend/app/routers/images.py:39-87 | the handler's result and new table are exactly those of `ConfirmStep`; the bucket is only read |
| ImagesRouter.UploadStep | backend/app/services/storage.py:70-82 | the client's PUT through the presigned URL sets that one object to the uploaded metadata, keeps every other key, and touches no row and not the id sequence |
| ImagesRouter.UploadKeepsConsistency | backend/app/routers/images.py:29 | an upload to the presigned URL keeps the invariant |
| ImagesRouter.ClientUpload | backend/app/services/storage.py:70-82 | the client's PUT through the presigned URL, done with `Bucket.Put`, ends exactly as `UploadStep` says: one object set, no row touched |
| ImagesRouter.UploadConfirmListDelete | backend/app/routers/images.py:22-168 | from an empty service: the slot's key, once uploaded, confirms into one row with the stored size; the first page lists exactly that row; deleting it removes the object and empties the list |
| ImagesRouter.ListImagesRows | backend/app/routers/images.py:106-114 | the paged query returns at most `per_page` rows |
| ImagesRouter.ListImages | backend/app/routers/images.py:90-121 | `list_images`: the response echoes `page` and `per_page` and lists at most `per_page` images |
| ImagesRouter.CallersRowsSorted | backend/app/routers/images.py:107-114 | the ordered query holds exactly the caller's rows, sorted by `created_at` descending |
| ImagesRouter.ListImagesIsCallersPage | backend/app/routers/images.py:98-114 | a page has at most `per_page` rows, all the caller's, with `created_at` non-increasing |
| ImagesRouter.ListImagesTotalIsPageIndependent | backend/app/routers/images.py:100-121 | `total`, the COUNT over the caller's rows, equals the number of rows the paged query filters and sorts, and so is the same on every page; `page` and `per_page` are echoed |
| ImagesRouter.ListImagesCoversAll | backend/app/routers/images.py:98 | every row of the caller's ordered list appears on page `k / per_page + 1` |
| ImagesRouter.GetImage | backend/app/routers/images.py:124-142 | `get_image`: a success carries the requested id; the only failures are 404 and the raise of `scalar_one_or_none` |
| ImagesRouter.GetImageFindsOwn | backend/app/routers/images.py:131-142 | an id the caller owns returns that row's response |
| ImagesRouter.GetImageHidesOthers | backend/app/routers/images.py:131-140 | a missing id and another user's id both give the same 404 |
| ImagesRouter.DeleteImageStep | backend/app/routers/images.py:145-168 | `delete_image`: an error changes nothing; otherwise rows and objects only shrink, no row appears, and the id sequence is untouched |
| ImagesRouter.DeleteImageRemovesOwnRow | backend/app/routers/images.py:152-168 | for an owned id the row goes, the object goes unless the bucket errs, the id sequence is untouched, and the result is success either way; otherwise 404 and nothing changes |
| ImagesRouter.DeleteImageKeepsConsistency | backend/app/routers/images.py:163-168 | the owner's delete keeps the invariant whether or not the bucket reports an error |
| ImagesRouter.DeleteImage | backend/app/routers/images.py:145-168 | the handler deletes from the bucket, then from the table, and ends exactly as `DeleteImageStep` says |
| AdminRouter.ListAllImagesRows | backend/app/routers/admin.py:43-50 | the admin's window query returns at most `limit` rows, and none when `skip` is past the end |
| AdminRouter.ListAllImages | backend/app/routers/admin.py:28-52 | `list_all_images`: `total` is the number of all images, and at most `limit` are listed |
| AdminRouter.ListAllImagesIsWindow | backend/app/routers/admin.py:43-50 | at most `limit` rows across all users, exactly `min(limit, n - skip)` when `skip < n`, none past the end, sorted by `created_at` descending |
| AdminRouter.ListAllImagesReportsDefaults | backend/app/routers/admin.py:52 | `total` counts every row, and the response always says page 1, per page 20 |
| AdminRouter.ListAllImagesReachesEveryRow | backend/app/routers/admin.py:43-50 | every image is on the window at some `skip` |
| AdminRouter.GetAnyImage | backend/app/routers/admin.py:55-73 | `get_any_image`: a success carries the requested id; the only failures are 404 and the raise of `scalar_one_or_none` |
| AdminRouter.GetAnyImageIgnoresOwner | backend/app/routers/admin.py:64-75 | any existing id returns its row, whoever owns it, and agrees with the owner's own read |
| AdminRouter.GetAnyImageMissing | backend/app/routers/admin.py:64-73 | an id no row has gives 404 |
| AdminRouter.DeleteAnyImageStep | backend/app/routers/admin.py:76-105 | `delete_any_image`: an error changes nothing, a success implies the bucket reported no error, and rows and objects only shrink with the id sequence untouched |
| AdminRouter.DeleteAnyImageOutcomes | backend/app/routers/admin.py:87-105 | 404 only when no row has the id; on a storage error 500 with nothing changed; otherwise the row and its object both go |
| AdminRouter.DeleteAnyImageKeepsConsistency | backend/app/routers/admin.py:96-105 | the admin delete keeps the invariant |
| AdminRouter.StorageFailureSplitsTheDeletes | backend/app/routers/admin.py:97-101 | under a storage error the owner's delete succeeds and strands the object, while the admin delete answers 500 and changes nothing |
| AdminRouter.NegativeIdIsNotFound | backend/app/routers/images.py:124-161 | `image_id: int` admits a negative id; it matches no row, so `get_image`, `get_any_image`, `delete_image` and `delete_any_image` all answer the 404 of a missing id and change nothing |
| AdminRouter.DeleteAnyImage | backend/app/routers/admin.py:76-105 | the handler, called by an admin, ends exactly as `DeleteAnyImageStep` says |
| AdminRouter.ListAllUsers | backend/app/routers/admin.py:108-127 | `list_all_users`: at most `limit` users, none when `skip` is past the end |
| AdminRouter.ListAllUsersIsWindow | backend/app/routers/admin.py:119-127 | at most `limit` users, exactly `min(limit, n - skip)` when `skip < n`, `created_at` non-increasing |
| AdminRouter.ListAllUsersEntryIsAUser | backend/app/routers/admin.py:119-127 | every entry is the projection of a stored user |
| AuthRouter.RegisterOutcome | backend/app/routers/auth.py:19-51 | `register` as written: a success is the new non-admin user with the next id, the request's username and e-mail and the password's hash; a failure is one of the two 400s or the raise of `scalar_one_or_none` |
| AuthRouter.RegisterSucceedsOnlyWhenFree | backend/app/routers/auth.py:23-49 | success exactly when neither username nor e-mail is taken; the new user stores `hash(password)`, is not an admin, has a fresh id and keeps the table unique |
| AuthRouter.RegisterReportsUsernameFirst | backend/app/routers/auth.py:30-35 | a single match on the username gives "Username already registered", even if it also matches the e-mail |
| AuthRouter.RegisterReportsEmailClash | backend/app/routers/auth.py:36-39 | a match only on the e-mail gives "Email already registered" |
| AuthRouter.RegisterRaisesOnCrossCollision | backend/app/routers/auth.py:23-28 | one user holding the username and another the e-mail makes `scalar_one_or_none` raise |
| AuthRouter.RegisterCrossCollisionExample | backend/app/routers/auth.py:23-28 | with alice and bob registered, registering "alice" with bob's e-mail raises |
| AuthRouter.IntendedRegisterOutcome | backend/app/routers/auth.py:22-39 | the corrected duplicate check: the same new user on success, and only the two 400s on failure, never a raise |
| AuthRouter.IntendedRegisterMatchesCode | backend/app/routers/auth.py:22-39 | the corrected check gives only 400s and agrees with the code wherever the code does not raise; where it raises, the corrected check reports the username |
| AuthRouter.IntendedRegisterKeepsUsersUnique | backend/app/routers/auth.py:22-49 | the corrected check succeeds exactly when the username and the e-mail are free, and keeps both unique |
| AuthRouter.Register | backend/app/routers/auth.py:19-51 | the handler's result is `RegisterOutcome`; on success exactly one user is appended, otherwise the table is unchanged |
| AuthRouter.CreateAccessToken | backend/app/services/auth.py:31-43 | `create_access_token`: the subject is a non-empty string of decimal digits |
| AuthRouter.UserIdFromToken | backend/app/services/auth.py:63-72 | `get_user_id_from_token`: a subject yields an id exactly when it is a non-empty string of decimal digits |
| AuthRouter.TokenNamesItsUser | backend/app/services/auth.py:36-38 | the token's subject reads back as the user's id, and different users get different tokens |
| AuthRouter.Login | backend/app/routers/auth.py:54-79 | `login`: a success is a bearer token whose subject reads back as an id; the only failures are 401 and the raise of `scalar_one_or_none` |
| AuthRouter.LoginMatchesAtMostOne | backend/app/routers/auth.py:64-69 | with valid usernames and e-mails containing '@', the identifier lookup matches at most one user |
| AuthRouter.LoginByUsernameOrEmail | backend/app/routers/auth.py:63-79 | a user is found by username or by e-mail; the result is a bearer token for that user exactly when the password verifies |
| AuthRouter.LoginFailuresLookAlike | backend/app/routers/auth.py:71-76 | every failure is the same 401; an unknown identifier gives it; a success names a user who authenticates |

## Findings

| source | as written | input that shows it | evidently intended | confidence | as-written member | corrected member |
|---|---|---|---|---|---|---|
| backend/app/routers/auth.py:23-28 | the duplicate check selects users matching the username OR the e-mail and calls `scalar_one_or_none`, which raises `MultipleResultsFound` (a 500) when two different users match | users alice/alice@example.com and bob/bob@example.com; register username "alice" with e-mail "bob@example.com" | 400 "Username already registered" | not executed | AuthRouter.RegisterRaisesOnCrossCollision | AuthRouter.IntendedRegisterMatchesCode |

`AuthRouter.RegisterCrossCollisionExample` is the concrete instance.
`AuthRouter.IntendedRegisterOutcome` is the corrected check.
`AuthRouter.IntendedRegisterKeepsUsersUnique` proves the corrected check's uniqueness property.
`AuthRouter.Register` models the handler as written.

## Left out

- Presigned URL generation (`generate_upload_url`, SigV4 signing with an expiry) is an opaque `presign(key, content_type)` parameter.
- The lazy boto3 client, the endpoint choice and settings loading are configuration, not behaviour.
- `verify_object_exists` turns every `ClientError` into None. The model has only "absent", so errors other than not-found, which it cannot tell apart from not-found, are not modelled separately.
- `get_storage_stats` and the `/api/admin/stats` route are left out. They are a database aggregate with floating-point rounding. The route also calls the method without a session and without `await`.
- Password hashing and verification (bcrypt) are the parameters `hash` and `verify`.
- A JWT is reduced to its `sub` claim. Signing, expiry, `iat` and decoding failures are not modelled.
- UserIdFromToken: models `int(sub)` only on the decimal strings the service itself issues, not Python's leniency about signs, whitespace or underscores.
- The current-user and admin dependencies are not modelled. The caller's id is an input, and `DeleteAnyImage` requires an admin caller. The other admin routes are modelled as plain queries.
- uuid4 randomness is not modelled. The token is a parameter, so uniqueness of generated keys across calls is not claimed.
- `EmailStr` validation is a foreign library. E-mails are arbitrary strings, except where a lemma assumes stored e-mails contain '@'.
- `str.lower()` is modelled for ASCII only.
- `Path.suffix` follows the Python 3.12/3.13 rule. The other Python versions' rules are not modelled.
- The race between the duplicate check and the insert in `confirm_upload` is not modelled. It is concurrency, and the database's unique constraint catches it.
- Timestamps from `func.now()` are the parameter `now`. Nothing is assumed about their order.
- Session commit and rollback, logging, CORS, router mounting and the `/api/auth/me` route are not modelled.
- ORM relationships, `ondelete="CASCADE"` and `delete-orphan` are not modelled. No operation in the model deletes users.
- Column lengths (`String(255)`, `String(500)`, `String(100)`) and the 64-bit `BigInteger` size column are not modelled. Integers are unbounded.
- The `ImageResponse` and `UserResponse` timestamps are integers, not datetimes.
- Storage.Bucket.DeleteObject: a `ClientError` from the store is the parameter `clientError`, and the handlers pass it in as `storageError`.
- The query bounds on `page`, `per_page`, `skip` and `limit` (`ge`, `le`) are preconditions of the listing functions, because FastAPI answers 422 before the handler runs.
- ImagesRouter.ListImagesCoversAll: rows with equal `created_at` are ordered in one fixed way (table order), the same on every request. The database promises no order among ties, and `func.now()` values can tie, so two page queries may split ties differently and a tied row at a page boundary may be skipped or listed twice. Coverage holds in the model only because of the fixed tie order.
- AdminRouter.ListAllImagesReachesEveryRow: relies on the same fixed order among rows with equal `created_at`. The database does not promise it, so with tied timestamps a row may be missed across `skip` windows.
- Storage.Bucket.DeleteObject: storage exceptions other than `ClientError` (connection errors, read timeouts) are not modelled. They propagate as a 500 before any table write. A reported error is taken to leave the object in place, though a timeout after the store has already deleted it would leave the admin delete keeping a row with no object.
- Storage.Bucket.VerifyObjectExists: storage exceptions other than `ClientError` are not modelled. In `confirm_upload` they would give a 500, not the 400 "File not found in storage".
