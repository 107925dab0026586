/**
 * The admin routes (backend/app/routers/admin.py): listing, reading and deleting any
 * user's images, and listing users. Admin rights are checked before these handlers
 * run; beyond that none of them looks at the caller.
 */
module AdminRouter {
  import opened Http
  import opened Queries
  import opened Storage
  import opened Models
  import opened ImageSchemas
  import opened UserSchemas
  import opened ImagesRouter

  const STORAGE_DELETE_FAILED := HttpError(500, "Failed to delete image from storage")

  // ---------------------------------------------------------------------------
  // list_all_images and get_any_image
  // ---------------------------------------------------------------------------

  /** The rows `list_all_images` returns: every user's rows, newest first, from `skip`, at most `limit`. */
  function ListAllImagesRows(rows: seq<ImageRow>, skip: nat, limit: nat): (r: seq<ImageRow>)
    requires 1 <= limit <= 100
    ensures |r| <= limit
    ensures skip >= |rows| ==> r == []
  {
    Page(SortDesc(rows, ImageCreatedAt), skip, limit)
  }

  /** The handler answers `{"images", "total"}`, so `page` and `per_page` keep the schema defaults. */
  function ListAllImages(rows: seq<ImageRow>, skip: nat, limit: nat): (resp: ImageListResponse)
    requires 1 <= limit <= 100
    ensures resp.total == |rows|
    ensures |resp.images| <= limit
  {
    ImageListResponse(ToImageResponses(ListAllImagesRows(rows, skip, limit)), |rows|)
  }

  /**
   * A window of at most `limit` rows from the whole table, newest first, full whenever
   * enough rows lie past `skip`; `total` counts every row.
   */
  lemma ListAllImagesIsWindow(rows: seq<ImageRow>, skip: nat, limit: nat)
    requires 1 <= limit <= 100
    ensures var out := ListAllImagesRows(rows, skip, limit);
      && |out| <= limit
      && (skip < |rows| ==> |out| == Min(limit, |rows| - skip))
      && (skip >= |rows| ==> out == [])
      && (forall x :: x in out ==> x in rows)
      && SortedDesc(out, ImageCreatedAt)
  {
    var sorted := SortDesc(rows, ImageCreatedAt);
    PageOfSorted(sorted, skip, limit, ImageCreatedAt);
    forall x | x in Page(sorted, skip, limit) ensures x in rows {
      assert x in multiset(sorted);
    }
  }

  /** `total` is the table's size, whatever the window; `page` and `per_page` are always 1 and 20. */
  lemma ListAllImagesReportsDefaults(rows: seq<ImageRow>, skip: nat, limit: nat)
    requires 1 <= limit <= 100
    ensures var resp := ListAllImages(rows, skip, limit);
      && resp.total == |rows|
      && |resp.images| <= limit
      && resp.page == 1 && resp.perPage == 20
  {
    assert |ListAllImagesRows(rows, skip, limit)| <= limit;
  }

  /** Every row of every user can be reached by some `skip`. */
  lemma ListAllImagesReachesEveryRow(rows: seq<ImageRow>, limit: nat, x: ImageRow) returns (skip: nat)
    requires 1 <= limit <= 100
    requires x in rows
    ensures x in ListAllImagesRows(rows, skip, limit)
  {
    var sorted := SortDesc(rows, ImageCreatedAt);
    assert x in multiset(rows);
    assert x in sorted;
    var k :| 0 <= k < |sorted| && sorted[k] == x;
    var page, j;
    page, skip, j := PageCovers(sorted, limit, k);
    var out := Page(sorted, skip, limit);
    assert out[j] == x;
    assert out == ListAllImagesRows(rows, skip, limit);
  }

  /** `get_any_image`: the image with that id, whoever owns it, or 404. */
  function GetAnyImage(rows: seq<ImageRow>, id: int): (r: Result<ImageResponse>)
    ensures r.Ok? ==> r.value.id == id
    ensures r.Err? ==> r == Err(IMAGE_NOT_FOUND) || r == Err(MultipleResultsFound)
  {
    match ScalarOneOrNone(Filter(rows, HasId(id)))
    case NoRow => Err(IMAGE_NOT_FOUND)
    case MultipleRows => Err(MultipleResultsFound)
    case OneRow(image) =>
      assert image in Filter(rows, HasId(id));
      Ok(ToImageResponse(image))
  }

  lemma LookupById(rows: seq<ImageRow>, id: int, i: nat)
    requires Pairwise(rows, ImagesDistinct)
    requires i < |rows| && rows[i].id == id
    ensures Filter(rows, HasId(id)) == [rows[i]]
  {
    var f := Filter(rows, HasId(id));
    assert rows[i] in f;
    AtMostOneWithId(rows, id, HasId(id));
    assert f[0] in f;
  }

  lemma GetAnyImageIgnoresOwner(rows: seq<ImageRow>, nextId: nat, id: int, i: nat)
    requires ImageTableOk(rows, nextId)
    requires i < |rows| && rows[i].id == id
    ensures GetAnyImage(rows, id) == Ok(ToImageResponse(rows[i]))
    ensures forall caller :: GetImage(rows, caller, id).Ok? ==> GetAnyImage(rows, id) == GetImage(rows, caller, id)
  {
    LookupById(rows, id, i);
    forall caller | GetImage(rows, caller, id).Ok?
      ensures GetAnyImage(rows, id) == GetImage(rows, caller, id)
    {
      if rows[i].userId == caller {
        GetImageFindsOwn(rows, nextId, caller, id, i);
      } else {
        forall j | 0 <= j < |rows| ensures rows[j].id != id || rows[j].userId != caller {
          if j < i { assert ImagesDistinct(rows[j], rows[i]); }
          else if j > i { assert ImagesDistinct(rows[i], rows[j]); }
        }
        GetImageHidesOthers(rows, caller, id);
      }
    }
  }

  /** Only a missing id gives the admin a 404. */
  lemma GetAnyImageMissing(rows: seq<ImageRow>, id: int)
    requires forall i :: 0 <= i < |rows| ==> rows[i].id != id
    ensures GetAnyImage(rows, id) == Err(IMAGE_NOT_FOUND)
  {
    FilterEmpty(rows, HasId(id));
  }

  // ---------------------------------------------------------------------------
  // delete_any_image
  // ---------------------------------------------------------------------------

  /**
   * `delete_any_image`: 404 for a missing id; delete the object first and answer 500,
   * keeping the row, when that fails; only then delete the row.
   */
  function DeleteAnyImageStep(w: World, id: int, storageError: bool): (t: Transition<Unit>)
    ensures t.result.Err? ==> t.after == w
    ensures t.result.Ok? ==> !storageError
    ensures t.after.nextId == w.nextId && |t.after.rows| <= |w.rows|
    ensures forall x :: x in t.after.rows ==> x in w.rows
    ensures t.after.objects.Keys <= w.objects.Keys
  {
    match ScalarOneOrNone(Filter(w.rows, HasId(id)))
    case NoRow => Transition(Err(IMAGE_NOT_FOUND), w)
    case MultipleRows => Transition(Err(MultipleResultsFound), w)
    case OneRow(image) =>
      if storageError then Transition(Err(STORAGE_DELETE_FAILED), w)
      else Transition(Ok(Unit), World(Filter(w.rows, NotId(image.id)), w.nextId, w.objects - {image.r2Key}))
  }

  /**
   * The three outcomes: a missing id is 404 and a failed storage delete is 500, both
   * changing nothing; otherwise the row and its object are both gone and every other
   * row stays.
   */
  lemma DeleteAnyImageOutcomes(w: World, id: int, storageError: bool)
    requires Consistent(w)
    ensures var t := DeleteAnyImageStep(w, id, storageError);
      (forall i :: 0 <= i < |w.rows| ==> w.rows[i].id != id) ==>
        t.result == Err(IMAGE_NOT_FOUND) && t.after == w
    ensures var t := DeleteAnyImageStep(w, id, storageError);
      forall i :: 0 <= i < |w.rows| && w.rows[i].id == id ==>
        if storageError then t.result == Err(STORAGE_DELETE_FAILED) && t.after == w
        else
          && t.result == Ok(Unit)
          && (forall r :: r in t.after.rows <==> r in w.rows && r.id != id)
          && t.after.objects == w.objects - {w.rows[i].r2Key}
          && t.after.nextId == w.nextId
  {
    var t := DeleteAnyImageStep(w, id, storageError);
    if forall i :: 0 <= i < |w.rows| ==> w.rows[i].id != id {
      FilterEmpty(w.rows, HasId(id));
    }
    forall i | 0 <= i < |w.rows| && w.rows[i].id == id
      ensures if storageError then t.result == Err(STORAGE_DELETE_FAILED) && t.after == w
        else
          && t.result == Ok(Unit)
          && (forall r :: r in t.after.rows <==> r in w.rows && r.id != id)
          && t.after.objects == w.objects - {w.rows[i].r2Key}
          && t.after.nextId == w.nextId
    {
      LookupById(w.rows, id, i);
      DeleteKeepsImageTableOk(w.rows, w.nextId, id);
    }
  }

  /** An admin delete keeps the invariant: no row is left pointing at a deleted object. */
  lemma DeleteAnyImageKeepsConsistency(w: World, id: int, storageError: bool)
    requires Consistent(w)
    ensures Consistent(DeleteAnyImageStep(w, id, storageError).after)
  {
    var f := Filter(w.rows, HasId(id));
    if |f| == 1 && !storageError {
      assert f[0] in f;
      RemoveRowKeepsConsistency(w, f[0], true);
    }
  }

  /**
   * The two delete routes part ways when the store fails: the owner's delete still drops
   * the row and reports success, leaving the object behind; the admin's delete reports
   * 500 and keeps both.
   */
  lemma StorageFailureSplitsTheDeletes(w: World, i: nat)
    requires Consistent(w) && i < |w.rows|
    ensures var image := w.rows[i];
      var own := DeleteImageStep(w, image.userId, image.id, true);
      var any := DeleteAnyImageStep(w, image.id, true);
      && own.result == Ok(Unit)
      && image.r2Key in own.after.objects
      && (forall r :: r in own.after.rows ==> r.id != image.id)
      && any.result == Err(STORAGE_DELETE_FAILED)
      && any.after == w
  {
    var image := w.rows[i];
    DeleteImageRemovesOwnRow(w, image.userId, image.id, true);
    DeleteAnyImageOutcomes(w, image.id, true);
  }

  /**
   * A negative path id (`image_id: int` accepts one) matches no row: every id route
   * answers the same 404 as for any missing id and changes nothing.
   */
  lemma NegativeIdIsNotFound(w: World, caller: nat, id: int, storageError: bool)
    requires Consistent(w) && id < 0
    ensures GetImage(w.rows, caller, id) == Err(IMAGE_NOT_FOUND)
    ensures GetAnyImage(w.rows, id) == Err(IMAGE_NOT_FOUND)
    ensures DeleteImageStep(w, caller, id, storageError) == Transition(Err(IMAGE_NOT_FOUND), w)
    ensures DeleteAnyImageStep(w, id, storageError) == Transition(Err(IMAGE_NOT_FOUND), w)
  {
    GetImageHidesOthers(w.rows, caller, id);
    GetAnyImageMissing(w.rows, id);
    DeleteImageRemovesOwnRow(w, caller, id, storageError);
    DeleteAnyImageOutcomes(w, id, storageError);
  }

  /**
   * `delete_any_image` as the handler runs it: bucket first, then the session. The
   * admin guard runs before the handler, so the caller is an admin.
   */
  method DeleteAnyImage(admin: UserRow, bucket: Bucket, table: ImageTable, id: int, storageError: bool)
    returns (r: Result<Unit>)
    requires admin.isAdmin
    requires table.Valid()
    modifies bucket, table
    ensures table.Valid()
    ensures Transition(r, Snapshot(table, bucket)) == DeleteAnyImageStep(old(Snapshot(table, bucket)), id, storageError)
  {
    var found := ScalarOneOrNone(Filter(table.rows, HasId(id)));
    match found {
      case NoRow =>
        return Err(IMAGE_NOT_FOUND);
      case MultipleRows =>
        return Err(MultipleResultsFound);
      case OneRow(image) =>
        var deleted := bucket.DeleteObject(image.r2Key, storageError);
        if !deleted {
          return Err(STORAGE_DELETE_FAILED);
        }
        table.Delete(image.id);
        return Ok(Unit);
    }
  }

  // ---------------------------------------------------------------------------
  // list_all_users
  // ---------------------------------------------------------------------------

  /** `list_all_users`: users newest first, from `skip`, at most `limit`, as `UserResponse`s. */
  function ListAllUsers(users: seq<UserRow>, skip: nat, limit: nat): (r: seq<UserResponse>)
    requires 1 <= limit <= 100
    ensures |r| <= limit
    ensures skip >= |users| ==> r == []
  {
    ToUserResponses(Page(SortDesc(users, UserCreatedAt), skip, limit))
  }

  /** At most `limit` entries, newest first, full whenever enough users lie past `skip`. */
  lemma ListAllUsersIsWindow(users: seq<UserRow>, skip: nat, limit: nat)
    requires 1 <= limit <= 100
    ensures var out := ListAllUsers(users, skip, limit);
      && |out| <= limit
      && (skip < |users| ==> |out| == Min(limit, |users| - skip))
      && (forall i, j :: 0 <= i < j < |out| ==> out[i].createdAt >= out[j].createdAt)
  {
    var sorted := SortDesc(users, UserCreatedAt);
    var page := Page(sorted, skip, limit);
    var out := ListAllUsers(users, skip, limit);
    assert out == ToUserResponses(page);
    PageOfSorted(sorted, skip, limit, UserCreatedAt);
    forall i, j | 0 <= i < j < |out| ensures out[i].createdAt >= out[j].createdAt {
      assert out[i] == ToUserResponse(page[i]) && out[j] == ToUserResponse(page[j]);
    }
  }

  /**
   * Each entry is the public projection of a user in the table: never a password hash
   * or the admin flag.
   */
  lemma ListAllUsersEntryIsAUser(users: seq<UserRow>, skip: nat, limit: nat, k: nat) returns (u: UserRow)
    requires 1 <= limit <= 100
    requires k < |ListAllUsers(users, skip, limit)|
    ensures u in users && ListAllUsers(users, skip, limit)[k] == ToUserResponse(u)
  {
    var sorted := SortDesc(users, UserCreatedAt);
    var page := Page(sorted, skip, limit);
    PageOfSorted(sorted, skip, limit, UserCreatedAt);
    u := page[k];
    assert u in page;
    assert u in multiset(sorted);
    assert u in multiset(users);
  }
}
