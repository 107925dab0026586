/**
 * The user-facing image routes (backend/app/routers/images.py): issuing an upload
 * slot, confirming an upload, listing, reading and deleting one's own images.
 *
 * Each handler that writes is a method over the bucket and the image table, proved
 * equal to a step function on a `World` value; the protocol's invariants are
 * lemmas about those step functions.
 */
module ImagesRouter {
  import opened Wrappers
  import opened Http
  import opened Queries
  import opened Storage
  import opened Models
  import opened ImageSchemas

  const FORBIDDEN_KEY := HttpError(403, "Invalid storage key")
  const FILE_NOT_FOUND := HttpError(400, "File not found in storage. Upload may have failed.")
  const ALREADY_CONFIRMED := HttpError(409, "Image already confirmed")
  const IMAGE_NOT_FOUND := HttpError(404, "Image not found")

  /** The two stores of the protocol: the image table and the bucket. */
  datatype World = World(rows: seq<ImageRow>, nextId: nat, objects: map<string, ObjectMeta>)

  /** A handler's outcome and the stores it leaves behind. */
  datatype Transition<T> = Transition(result: Result<T>, after: World)

  /**
   * The protocol's invariant: the table's constraints hold, and every row's key
   * names an object in the bucket (no dangling row).
   */
  predicate Consistent(w: World)
  {
    && ImageTableOk(w.rows, w.nextId)
    && forall i :: 0 <= i < |w.rows| ==> w.rows[i].r2Key in w.objects
  }

  predicate KeyInUse(rows: seq<ImageRow>, key: string)
  {
    exists i :: 0 <= i < |rows| && rows[i].r2Key == key
  }

  function Snapshot(table: ImageTable, bucket: Bucket): World
    reads table, bucket
  {
    World(table.rows, table.nextId, bucket.objects)
  }

  // ---------------------------------------------------------------------------
  // Lookup facts shared by the proofs
  // ---------------------------------------------------------------------------

  lemma KeyInUseMeansOneRow(rows: seq<ImageRow>, key: string)
    requires Pairwise(rows, ImagesDistinct)
    requires KeyInUse(rows, key)
    ensures |Filter(rows, HasKey(key))| == 1
  {
    var i :| 0 <= i < |rows| && rows[i].r2Key == key;
    assert rows[i] in Filter(rows, HasKey(key));
    AtMostOneWithKey(rows, key);
  }

  /** Rows with different ids in a constrained table have different keys. */
  lemma DistinctIdsDistinctKeys(rows: seq<ImageRow>, a: ImageRow, b: ImageRow)
    requires Pairwise(rows, ImagesDistinct)
    requires a in rows && b in rows && a.id != b.id
    ensures a.r2Key != b.r2Key
  {
    var i := IndexOf(rows, a);
    var j := IndexOf(rows, b);
    if i < j {
      assert ImagesDistinct(rows[i], rows[j]);
    } else {
      assert ImagesDistinct(rows[j], rows[i]);
    }
  }

  /** The single row a query by id and owner finds, when one exists. */
  lemma OwnedLookup(rows: seq<ImageRow>, id: int, caller: nat, i: nat)
    requires Pairwise(rows, ImagesDistinct)
    requires i < |rows| && rows[i].id == id && rows[i].userId == caller
    ensures Filter(rows, HasIdAndOwner(id, caller)) == [rows[i]]
  {
    var f := Filter(rows, HasIdAndOwner(id, caller));
    assert rows[i] in f;
    AtMostOneWithId(rows, id, HasIdAndOwner(id, caller));
    assert f[0] in f;
  }

  // ---------------------------------------------------------------------------
  // get_upload_url
  // ---------------------------------------------------------------------------

  /**
   * `get_upload_url`: a fresh key under the caller's prefix, the presigned PUT URL for it
   * (`presign`, an opaque value per key and content type) and its public URL.
   */
  function GetUploadUrl(caller: nat, req: UploadRequest, token: string, configuredBase: string,
                        presign: (string, string) -> string): (r: UploadResponse)
    ensures StartsWith(r.r2Key, OwnerPrefix(caller))
    ensures EndsWith(r.publicUrl, "/" + r.r2Key)
    ensures r.uploadUrl == presign(r.r2Key, req.contentType)
  {
    var key := GenerateKey(caller, req.filename, token);
    UploadResponse(presign(key, req.contentType), key, GetPublicUrl(configuredBase, key))
  }

  /**
   * The key handed out belongs to the caller and to nobody else, the public URL is the
   * key's, and the declared size plays no part in the answer.
   */
  lemma UploadSlotIsNamespaced(caller: nat, req: UploadRequest, token: string, configuredBase: string,
                               presign: (string, string) -> string, otherSize: int)
    requires IsHexToken(token)
    ensures var r := GetUploadUrl(caller, req, token, configuredBase, presign);
      && StartsWith(r.r2Key, OwnerPrefix(caller))
      && (forall v: nat :: StartsWith(r.r2Key, OwnerPrefix(v)) ==> v == caller)
      && r.publicUrl == GetPublicUrl(configuredBase, r.r2Key)
      && r.uploadUrl == presign(r.r2Key, req.contentType)
      && r == GetUploadUrl(caller, req.(sizeBytes := otherSize), token, configuredBase, presign)
  {
    var key := GenerateKey(caller, req.filename, token);
    GeneratedKeyShape(caller, req.filename, token);
    forall v: nat | StartsWith(key, OwnerPrefix(v)) ensures v == caller {
      OwnerPrefixExclusive(key, caller, v);
    }
  }

  // ---------------------------------------------------------------------------
  // confirm_upload
  // ---------------------------------------------------------------------------

  /**
   * `confirm_upload`: owner prefix (403), object in the bucket (400), key not yet in the
   * table (409), then insert. The row takes its size from the bucket; the declared size
   * is never looked at.
   */
  function ConfirmStep(w: World, caller: nat, req: ConfirmRequest, configuredBase: string, now: int): (t: Transition<ImageRow>)
    ensures t.result.Err? ==> t.after == w
    ensures t.result.Ok? ==>
      && StartsWith(req.r2Key, OwnerPrefix(caller))
      && req.r2Key in w.objects
      && t.result.value.r2Key == req.r2Key
      && t.result.value.userId == caller
      && t.after.rows == w.rows + [t.result.value]
      && t.after.objects == w.objects
  {
    if !StartsWith(req.r2Key, OwnerPrefix(caller)) then Transition(Err(FORBIDDEN_KEY), w)
    else if req.r2Key !in w.objects then Transition(Err(FILE_NOT_FOUND), w)
    else match ScalarOneOrNone(Filter(w.rows, HasKey(req.r2Key)))
      case MultipleRows => Transition(Err(MultipleResultsFound), w)
      case OneRow(_) => Transition(Err(ALREADY_CONFIRMED), w)
      case NoRow =>
        var row := ImageRow(w.nextId, caller, req.filename, req.r2Key, req.contentType,
                            w.objects[req.r2Key].sizeBytes, GetPublicUrl(configuredBase, req.r2Key), now);
        Transition(Ok(row), w.(rows := w.rows + [row], nextId := w.nextId + 1))
  }

  /**
   * The guards run in a fixed order, the first failing one decides the error, and a
   * failure writes nothing. Success happens exactly when all three guards pass.
   */
  lemma ConfirmChecksInOrder(w: World, caller: nat, req: ConfirmRequest, configuredBase: string, now: int)
    requires Consistent(w)
    ensures var t := ConfirmStep(w, caller, req, configuredBase, now);
      var owned := StartsWith(req.r2Key, OwnerPrefix(caller));
      && (t.result.Err? ==> t.after == w)
      && (!owned ==> t.result == Err(FORBIDDEN_KEY))
      && (owned && req.r2Key !in w.objects ==> t.result == Err(FILE_NOT_FOUND))
      && (owned && req.r2Key in w.objects && KeyInUse(w.rows, req.r2Key) ==> t.result == Err(ALREADY_CONFIRMED))
      && (t.result.Ok? <==> owned && req.r2Key in w.objects && !KeyInUse(w.rows, req.r2Key))
  {
    var f := Filter(w.rows, HasKey(req.r2Key));
    AtMostOneWithKey(w.rows, req.r2Key);
    if KeyInUse(w.rows, req.r2Key) {
      KeyInUseMeansOneRow(w.rows, req.r2Key);
    } else {
      FilterEmpty(w.rows, HasKey(req.r2Key));
    }
  }

  /**
   * No row without an object: a successful confirm requires the bucket to hold the key,
   * inserts one row owned by the caller with the bucket's size and the key's public
   * URL, and touches neither the bucket nor the existing rows.
   */
  lemma ConfirmInsertsVerifiedRow(w: World, caller: nat, req: ConfirmRequest, configuredBase: string, now: int)
    ensures var t := ConfirmStep(w, caller, req, configuredBase, now);
      t.result.Ok? ==>
        && req.r2Key in w.objects
        && StartsWith(req.r2Key, OwnerPrefix(caller))
        && t.after == World(w.rows + [t.result.value], w.nextId + 1, w.objects)
        && t.result.value.userId == caller
        && t.result.value.r2Key == req.r2Key
        && t.result.value.sizeBytes == w.objects[req.r2Key].sizeBytes
        && t.result.value.contentType == req.contentType
        && t.result.value.filename == req.filename
        && t.result.value.publicUrl == GetPublicUrl(configuredBase, req.r2Key)
  {
  }

  /** The declared size is never compared with the stored one: changing it changes nothing. */
  lemma ConfirmIgnoresDeclaredSize(w: World, caller: nat, req: ConfirmRequest, configuredBase: string, now: int, declared: int)
    ensures ConfirmStep(w, caller, req.(sizeBytes := declared), configuredBase, now)
         == ConfirmStep(w, caller, req, configuredBase, now)
  {
  }

  /** A confirm keeps the invariant: constraints hold and no row dangles. */
  lemma ConfirmKeepsConsistency(w: World, caller: nat, req: ConfirmRequest, configuredBase: string, now: int)
    requires Consistent(w)
    ensures Consistent(ConfirmStep(w, caller, req, configuredBase, now).after)
  {
    var t := ConfirmStep(w, caller, req, configuredBase, now);
    if t.result.Ok? {
      ConfirmChecksInOrder(w, caller, req, configuredBase, now);
      AppendKeepsImageTableOk(w.rows, w.nextId, t.result.value);
      var rows := t.after.rows;
      forall i | 0 <= i < |rows| ensures rows[i].r2Key in t.after.objects {
        if i < |w.rows| { assert rows[i] == w.rows[i]; }
      }
    }
  }

  /**
   * Confirming the same key twice: the second call answers 409, writes nothing, and the
   * table holds exactly one row with that key.
   */
  lemma ConfirmTwiceConflicts(w: World, caller: nat, req: ConfirmRequest, configuredBase: string, now1: int, now2: int)
    requires Consistent(w)
    requires ConfirmStep(w, caller, req, configuredBase, now1).result.Ok?
    ensures var w1 := ConfirmStep(w, caller, req, configuredBase, now1).after;
      var t2 := ConfirmStep(w1, caller, req, configuredBase, now2);
      && t2.result == Err(ALREADY_CONFIRMED)
      && t2.after == w1
      && |Filter(w1.rows, HasKey(req.r2Key))| == 1
  {
    var t1 := ConfirmStep(w, caller, req, configuredBase, now1);
    var w1 := t1.after;
    ConfirmKeepsConsistency(w, caller, req, configuredBase, now1);
    assert w1.rows[|w1.rows| - 1].r2Key == req.r2Key;
    assert KeyInUse(w1.rows, req.r2Key);
    assert req.r2Key in w1.objects;
    ConfirmChecksInOrder(w1, caller, req, configuredBase, now2);
    KeyInUseMeansOneRow(w1.rows, req.r2Key);
  }

  /** A confirm that passed request validation stores an allowed content type and a valid file name. */
  lemma ConfirmedRowPassedValidation(w: World, caller: nat, req: ConfirmRequest, configuredBase: string, now: int)
    requires ValidConfirmRequest(req)
    ensures var t := ConfirmStep(w, caller, req, configuredBase, now);
      t.result.Ok? ==> ValidContentType(t.result.value.contentType) && ValidFilename(t.result.value.filename)
  {
  }

  /**
   * Validation bounds the declared size only: a request declaring 500 bytes for an
   * object the bucket reports at 11,000,000 bytes is stored with 11,000,000.
   */
  lemma ConfirmStoresUnboundedSize(caller: nat, key: string, configuredBase: string, now: int)
    requires StartsWith(key, OwnerPrefix(caller))
    ensures var req := ConfirmRequest(key, "cat.png", "image/png", 500);
      var w := World([], 1, map[key := ObjectMeta(11_000_000, "image/png")]);
      var t := ConfirmStep(w, caller, req, configuredBase, now);
      && ValidConfirmRequest(req)
      && t.result.Ok?
      && !ValidSize(t.result.value.sizeBytes)
  {
    var req := ConfirmRequest(key, "cat.png", "image/png", 500);
    ContentTypeAllowList(req.contentType);
  }

  /** `confirm_upload` as the handler runs it against the bucket and the session. */
  method ConfirmUpload(bucket: Bucket, table: ImageTable, caller: nat, req: ConfirmRequest,
                       configuredBase: string, now: int) returns (r: Result<ImageRow>)
    requires table.Valid()
    modifies table
    ensures table.Valid()
    ensures Transition(r, Snapshot(table, bucket)) == ConfirmStep(old(Snapshot(table, bucket)), caller, req, configuredBase, now)
  {
    if !StartsWith(req.r2Key, OwnerPrefix(caller)) {
      return Err(FORBIDDEN_KEY);
    }
    var info := bucket.VerifyObjectExists(req.r2Key);
    if info.None? {
      return Err(FILE_NOT_FOUND);
    }
    var existing := ScalarOneOrNone(Filter(table.rows, HasKey(req.r2Key)));
    match existing {
      case MultipleRows =>
        return Err(MultipleResultsFound);
      case OneRow(_) =>
        return Err(ALREADY_CONFIRMED);
      case NoRow =>
        FilterEmpty(table.rows, HasKey(req.r2Key));
        var row := table.Add(caller, req.filename, req.r2Key, req.contentType, info.value.sizeBytes,
                             GetPublicUrl(configuredBase, req.r2Key), now);
        return Ok(row);
    }
  }

  // ---------------------------------------------------------------------------
  // The client's upload through the presigned URL
  // ---------------------------------------------------------------------------

  /** The out-of-band PUT: creates or overwrites one object, touches no row. */
  function UploadStep(w: World, key: string, meta: ObjectMeta): (w': World)
    ensures w'.rows == w.rows && w'.nextId == w.nextId
    ensures key in w'.objects && w'.objects[key] == meta
    ensures forall k :: k in w.objects ==> k in w'.objects
  {
    w.(objects := w.objects[key := meta])
  }

  lemma UploadKeepsConsistency(w: World, key: string, meta: ObjectMeta)
    requires Consistent(w)
    ensures Consistent(UploadStep(w, key, meta))
  {
  }

  /** The client's PUT on the bucket object ends exactly as `UploadStep` says; no row changes. */
  method ClientUpload(bucket: Bucket, table: ImageTable, key: string, meta: ObjectMeta)
    modifies bucket
    ensures Snapshot(table, bucket) == UploadStep(old(Snapshot(table, bucket)), key, meta)
  {
    bucket.Put(key, meta);
  }

  /**
   * The whole protocol from an empty table and bucket: the slot's key, once the client has
   * uploaded to it, confirms into one row with the stored size; the owner's first page
   * lists exactly that row; deleting it empties both the bucket entry and the listing.
   */
  lemma UploadConfirmListDelete(caller: nat, req: UploadRequest, token: string, configuredBase: string,
                                presign: (string, string) -> string, meta: ObjectMeta, now: int)
    requires IsHexToken(token)
    ensures var slot := GetUploadUrl(caller, req, token, configuredBase, presign);
      var w := UploadStep(World([], 1, map[]), slot.r2Key, meta);
      var c := ConfirmStep(w, caller, ConfirmRequest(slot.r2Key, req.filename, req.contentType, req.sizeBytes),
                           configuredBase, now);
      && c.result.Ok?
      && c.result.value.userId == caller && c.result.value.sizeBytes == meta.sizeBytes
      && c.result.value.publicUrl == slot.publicUrl
      && ListImagesRows(c.after.rows, caller, 1, 20) == [c.result.value]
      && var d := DeleteImageStep(c.after, caller, c.result.value.id, false);
         && d.result == Ok(Unit)
         && slot.r2Key !in d.after.objects
         && ListImagesRows(d.after.rows, caller, 1, 20) == []
  {
    var slot := GetUploadUrl(caller, req, token, configuredBase, presign);
    UploadSlotIsNamespaced(caller, req, token, configuredBase, presign, req.sizeBytes);
    var w := UploadStep(World([], 1, map[]), slot.r2Key, meta);
    var creq := ConfirmRequest(slot.r2Key, req.filename, req.contentType, req.sizeBytes);
    assert Filter(w.rows, HasKey(slot.r2Key)) == [];
    var c := ConfirmStep(w, caller, creq, configuredBase, now);
    var row := c.result.value;
    assert c.after.rows == [row];
    assert Filter([row], OwnedBy(caller)) == [row] by {
      assert Filter([row], OwnedBy(caller)) == [row] + Filter([row][1..], OwnedBy(caller));
    }
    assert SortDesc([row], ImageCreatedAt) == [row] by {
      assert [row][1..] == [];
    }
    assert Filter([row], HasIdAndOwner(row.id, caller)) == [row] by {
      assert Filter([row], HasIdAndOwner(row.id, caller)) == [row] + Filter([row][1..], HasIdAndOwner(row.id, caller));
    }
    var d := DeleteImageStep(c.after, caller, row.id, false);
    assert Filter([row], NotId(row.id)) == [] by {
      assert Filter([row], NotId(row.id)) == Filter([row][1..], NotId(row.id));
    }
    assert d.after.rows == [];
  }

  // ---------------------------------------------------------------------------
  // list_images and get_image
  // ---------------------------------------------------------------------------

  /** The rows `list_images` returns: the caller's rows, newest first, page `page` of size `perPage`. */
  function ListImagesRows(rows: seq<ImageRow>, caller: nat, page: nat, perPage: nat): (r: seq<ImageRow>)
    requires page >= 1 && 1 <= perPage <= 100
    ensures |r| <= perPage
  {
    Page(SortDesc(Filter(rows, OwnedBy(caller)), ImageCreatedAt), (page - 1) * perPage, perPage)
  }

  function ListImages(rows: seq<ImageRow>, caller: nat, page: nat, perPage: nat): (resp: ImageListResponse)
    requires page >= 1 && 1 <= perPage <= 100
    ensures resp.page == page && resp.perPage == perPage
    ensures |resp.images| <= perPage
  {
    ImageListResponse(ToImageResponses(ListImagesRows(rows, caller, page, perPage)),
                      CountWhere(rows, OwnedBy(caller)), page, perPage)
  }

  /** The sorted listing holds exactly the caller's rows. */
  lemma CallersRowsSorted(rows: seq<ImageRow>, caller: nat)
    ensures var sorted := SortDesc(Filter(rows, OwnedBy(caller)), ImageCreatedAt);
      && SortedDesc(sorted, ImageCreatedAt)
      && forall x :: x in sorted <==> x in rows && x.userId == caller
  {
    var owned := Filter(rows, OwnedBy(caller));
    var sorted := SortDesc(owned, ImageCreatedAt);
    forall x ensures x in sorted <==> x in owned {
      assert x in sorted <==> x in multiset(sorted);
      assert x in owned <==> x in multiset(owned);
    }
  }

  /**
   * A page holds at most `perPage` rows, all the caller's, newest first.
   */
  lemma ListImagesIsCallersPage(rows: seq<ImageRow>, caller: nat, page: nat, perPage: nat)
    requires page >= 1 && 1 <= perPage <= 100
    ensures var out := ListImagesRows(rows, caller, page, perPage);
      && |out| <= perPage
      && (forall x :: x in out ==> x in rows && x.userId == caller)
      && SortedDesc(out, ImageCreatedAt)
  {
    var sorted := SortDesc(Filter(rows, OwnedBy(caller)), ImageCreatedAt);
    var offset := (page - 1) * perPage;
    assert ListImagesRows(rows, caller, page, perPage) == Page(sorted, offset, perPage);
    CallersRowsSorted(rows, caller);
    PageOfSorted(sorted, offset, perPage, ImageCreatedAt);
  }

  /**
   * The response carries one entry per row of the page; `total` counts all of the
   * caller's rows, so it is the same on every page.
   */
  lemma ListImagesTotalIsPageIndependent(rows: seq<ImageRow>, caller: nat, page: nat, perPage: nat, otherPage: nat)
    requires page >= 1 && otherPage >= 1 && 1 <= perPage <= 100
    ensures var resp := ListImages(rows, caller, page, perPage);
      && resp.total == |Filter(rows, OwnedBy(caller))|
      && resp.total == |SortDesc(Filter(rows, OwnedBy(caller)), ImageCreatedAt)|
      && resp.total == ListImages(rows, caller, otherPage, perPage).total
      && |resp.images| <= perPage
      && resp.page == page && resp.perPage == perPage
  {
    FilterCount(rows, OwnedBy(caller));
    var out := ListImagesRows(rows, caller, page, perPage);
    assert |out| <= perPage;
  }

  /**
   * Every one of the caller's rows shows up: the k-th newest is entry `j` of page `page`,
   * where `k == (page - 1) * perPage + j` (so `page` is `k / perPage + 1`).
   */
  lemma ListImagesCoversAll(rows: seq<ImageRow>, caller: nat, perPage: nat, k: nat) returns (page: nat, j: nat)
    requires 1 <= perPage <= 100
    requires k < |Filter(rows, OwnedBy(caller))|
    ensures page >= 1 && j < perPage && (page - 1) * perPage + j == k
    ensures j < |ListImagesRows(rows, caller, page, perPage)|
    ensures ListImagesRows(rows, caller, page, perPage)[j] == SortDesc(Filter(rows, OwnedBy(caller)), ImageCreatedAt)[k]
  {
    var sorted := SortDesc(Filter(rows, OwnedBy(caller)), ImageCreatedAt);
    var offset;
    page, offset, j := PageCovers(sorted, perPage, k);
  }

  /** `get_image`: the caller's own image with that id, or 404. */
  function GetImage(rows: seq<ImageRow>, caller: nat, id: int): (r: Result<ImageResponse>)
    ensures r.Ok? ==> r.value.id == id
    ensures r.Err? ==> r == Err(IMAGE_NOT_FOUND) || r == Err(MultipleResultsFound)
  {
    match ScalarOneOrNone(Filter(rows, HasIdAndOwner(id, caller)))
    case NoRow => Err(IMAGE_NOT_FOUND)
    case MultipleRows => Err(MultipleResultsFound)
    case OneRow(image) =>
      assert image in Filter(rows, HasIdAndOwner(id, caller));
      Ok(ToImageResponse(image))
  }

  /** The caller gets their own image with that id. */
  lemma GetImageFindsOwn(rows: seq<ImageRow>, nextId: nat, caller: nat, id: int, i: nat)
    requires ImageTableOk(rows, nextId)
    requires i < |rows| && rows[i].id == id && rows[i].userId == caller
    ensures GetImage(rows, caller, id) == Ok(ToImageResponse(rows[i]))
  {
    OwnedLookup(rows, id, caller, i);
  }

  /**
   * A missing id and another user's image give the very same 404: the answer does not
   * reveal whether the id exists.
   */
  lemma GetImageHidesOthers(rows: seq<ImageRow>, caller: nat, id: int)
    requires forall i :: 0 <= i < |rows| ==> rows[i].id != id || rows[i].userId != caller
    ensures GetImage(rows, caller, id) == Err(IMAGE_NOT_FOUND)
  {
    FilterEmpty(rows, HasIdAndOwner(id, caller));
  }

  // ---------------------------------------------------------------------------
  // delete_image
  // ---------------------------------------------------------------------------

  /**
   * `delete_image`: find the caller's image (404 otherwise), delete the object, ignore
   * whether that worked, then delete the row. `storageError` stands for a ClientError
   * from the store.
   */
  function DeleteImageStep(w: World, caller: nat, id: int, storageError: bool): (t: Transition<Unit>)
    ensures t.result.Err? ==> t.after == w
    ensures t.after.nextId == w.nextId && |t.after.rows| <= |w.rows|
    ensures forall x :: x in t.after.rows ==> x in w.rows
    ensures t.after.objects.Keys <= w.objects.Keys
  {
    match ScalarOneOrNone(Filter(w.rows, HasIdAndOwner(id, caller)))
    case NoRow => Transition(Err(IMAGE_NOT_FOUND), w)
    case MultipleRows => Transition(Err(MultipleResultsFound), w)
    case OneRow(image) =>
      var objects := if storageError then w.objects else w.objects - {image.r2Key};
      Transition(Ok(Unit), World(Filter(w.rows, NotId(image.id)), w.nextId, objects))
  }

  /**
   * On the caller's own image the row always goes, even when the storage delete failed;
   * the object goes unless the store failed; every other row stays. Otherwise it is the
   * same 404 for a missing id and for another user's image, and nothing changes.
   */
  lemma DeleteImageRemovesOwnRow(w: World, caller: nat, id: int, storageError: bool)
    requires Consistent(w)
    ensures var t := DeleteImageStep(w, caller, id, storageError);
      (forall i :: 0 <= i < |w.rows| && w.rows[i].id == id && w.rows[i].userId == caller ==>
        && t.result == Ok(Unit)
        && (forall r :: r in t.after.rows <==> r in w.rows && r.id != id)
        && t.after.objects == (if storageError then w.objects else w.objects - {w.rows[i].r2Key})
        && t.after.nextId == w.nextId)
    ensures var t := DeleteImageStep(w, caller, id, storageError);
      (forall i :: 0 <= i < |w.rows| ==> w.rows[i].id != id || w.rows[i].userId != caller) ==>
        t.result == Err(IMAGE_NOT_FOUND) && t.after == w
  {
    var t := DeleteImageStep(w, caller, id, storageError);
    forall i | 0 <= i < |w.rows| && w.rows[i].id == id && w.rows[i].userId == caller
      ensures t.result == Ok(Unit)
      ensures forall r :: r in t.after.rows <==> r in w.rows && r.id != id
      ensures t.after.objects == (if storageError then w.objects else w.objects - {w.rows[i].r2Key})
    {
      OwnedLookup(w.rows, id, caller, i);
      DeleteKeepsImageTableOk(w.rows, w.nextId, id);
    }
    if forall i :: 0 <= i < |w.rows| ==> w.rows[i].id != id || w.rows[i].userId != caller {
      FilterEmpty(w.rows, HasIdAndOwner(id, caller));
    }
  }

  /** Removing one row together with (or without) its own object keeps the invariant. */
  lemma RemoveRowKeepsConsistency(w: World, image: ImageRow, removeObject: bool)
    requires Consistent(w) && image in w.rows
    ensures Consistent(World(Filter(w.rows, NotId(image.id)), w.nextId,
                             if removeObject then w.objects - {image.r2Key} else w.objects))
  {
    DeleteKeepsImageTableOk(w.rows, w.nextId, image.id);
    var rows := Filter(w.rows, NotId(image.id));
    forall i | 0 <= i < |rows|
      ensures rows[i].r2Key in (if removeObject then w.objects - {image.r2Key} else w.objects)
    {
      assert rows[i] in w.rows;
      var j := IndexOf(w.rows, rows[i]);
      DistinctIdsDistinctKeys(w.rows, rows[i], image);
    }
  }

  /** A user delete keeps the invariant, whether or not the storage delete worked. */
  lemma DeleteImageKeepsConsistency(w: World, caller: nat, id: int, storageError: bool)
    requires Consistent(w)
    ensures Consistent(DeleteImageStep(w, caller, id, storageError).after)
  {
    var f := Filter(w.rows, HasIdAndOwner(id, caller));
    if |f| == 1 {
      assert f[0] in f;
      RemoveRowKeepsConsistency(w, f[0], !storageError);
    }
  }

  /** `delete_image` as the handler runs it: bucket first, then the session. */
  method DeleteImage(bucket: Bucket, table: ImageTable, caller: nat, id: int, storageError: bool)
    returns (r: Result<Unit>)
    requires table.Valid()
    modifies bucket, table
    ensures table.Valid()
    ensures Transition(r, Snapshot(table, bucket)) == DeleteImageStep(old(Snapshot(table, bucket)), caller, id, storageError)
  {
    var found := ScalarOneOrNone(Filter(table.rows, HasIdAndOwner(id, caller)));
    match found {
      case NoRow =>
        return Err(IMAGE_NOT_FOUND);
      case MultipleRows =>
        return Err(MultipleResultsFound);
      case OneRow(image) =>
        var _ := bucket.DeleteObject(image.r2Key, storageError);
        table.Delete(image.id);
        return Ok(Unit);
    }
  }
}
