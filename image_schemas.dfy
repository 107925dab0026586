/**
 * Request validation and response shapes for images (backend/app/schemas/image.py).
 * FastAPI rejects a request that fails these checks with 422 before any handler runs.
 */
module ImageSchemas {
  import opened Models

  /** `le=10_485_760`: the largest declared size accepted (10 MiB). */
  const MAX_SIZE_BYTES := 10_485_760

  /** The subtypes allowed by `^image/(jpeg|png|gif|webp)$`. */
  const IMAGE_SUBTYPES: seq<string> := ["jpeg", "png", "gif", "webp"]

  /** The pattern `^image/(jpeg|png|gif|webp)$`, read as: the prefix "image/", then one alternative, then the end. */
  predicate ValidContentType(contentType: string)
  {
    |contentType| >= 6 && contentType[..6] == "image/" && contentType[6..] in IMAGE_SUBTYPES
  }

  /** `gt=0, le=10_485_760` */
  predicate ValidSize(sizeBytes: int)
  {
    0 < sizeBytes <= MAX_SIZE_BYTES
  }

  /** `min_length=1, max_length=255` */
  predicate ValidFilename(filename: string)
  {
    1 <= |filename| <= 255
  }

  datatype UploadRequest = UploadRequest(filename: string, contentType: string, sizeBytes: int)

  predicate ValidUploadRequest(req: UploadRequest)
    ensures ValidUploadRequest(req) <==>
      && 1 <= |req.filename| <= 255
      && req.contentType in ["image/jpeg", "image/png", "image/gif", "image/webp"]
      && 0 < req.sizeBytes <= 10_485_760
  {
    ContentTypeAllowList(req.contentType);
    ValidFilename(req.filename) && ValidContentType(req.contentType) && ValidSize(req.sizeBytes)
  }

  /** `r2_key` carries no constraint of its own: ownership is checked later, by the handler. */
  datatype ConfirmRequest = ConfirmRequest(r2Key: string, filename: string, contentType: string, sizeBytes: int)

  predicate ValidConfirmRequest(req: ConfirmRequest)
    ensures ValidConfirmRequest(req) <==> ValidUploadRequest(UploadRequest(req.filename, req.contentType, req.sizeBytes))
    ensures ValidConfirmRequest(req) ==> 0 < req.sizeBytes <= MAX_SIZE_BYTES
  {
    ValidFilename(req.filename) && ValidContentType(req.contentType) && ValidSize(req.sizeBytes)
  }

  /**
   * The confirm request repeats the upload request's bounds field for field and adds an
   * `r2_key` that any string satisfies.
   */
  lemma ConfirmBoundsMatchUpload(r2Key: string, filename: string, contentType: string, sizeBytes: int)
    ensures ValidConfirmRequest(ConfirmRequest(r2Key, filename, contentType, sizeBytes))
        <==> ValidUploadRequest(UploadRequest(filename, contentType, sizeBytes))
    ensures ValidConfirmRequest(ConfirmRequest(r2Key, filename, contentType, sizeBytes))
        <==> 1 <= |filename| <= 255 && ValidContentType(contentType) && 0 < sizeBytes <= 10_485_760
  {
  }

  /** The pattern accepts exactly the four image types of the allow-list. */
  lemma ContentTypeAllowList(contentType: string)
    ensures ValidContentType(contentType) <==>
      contentType in ["image/jpeg", "image/png", "image/gif", "image/webp"]
  {
    if ValidContentType(contentType) {
      var sub := contentType[6..];
      assert contentType == "image/" + sub;
      if sub == "jpeg" { assert contentType == "image/jpeg"; }
      else if sub == "png" { assert contentType == "image/png"; }
      else if sub == "gif" { assert contentType == "image/gif"; }
      else { assert contentType == "image/webp"; }
    }
    if contentType in ["image/jpeg", "image/png", "image/gif", "image/webp"] {
      assert contentType[..6] == "image/";
      assert contentType[6..] in IMAGE_SUBTYPES;
    }
  }

  /** The size bound is inclusive at 10 MiB and rejects 11,000,000 and 0. */
  lemma SizeBoundExamples()
    ensures ValidSize(MAX_SIZE_BYTES) && ValidSize(1)
    ensures !ValidSize(MAX_SIZE_BYTES + 1) && !ValidSize(11_000_000) && !ValidSize(0)
  {
  }

  /** `ImageUploadResponse` */
  datatype UploadResponse = UploadResponse(uploadUrl: string, r2Key: string, publicUrl: string)

  /** `ImageResponse`: the only fields of an image row a client sees. */
  datatype ImageResponse = ImageResponse(
    id: nat,
    filename: string,
    publicUrl: string,
    contentType: string,
    sizeBytes: int,
    createdAt: int)

  function ToImageResponse(row: ImageRow): (r: ImageResponse)
    ensures r.id == row.id && r.filename == row.filename && r.publicUrl == row.publicUrl
    ensures r.contentType == row.contentType && r.sizeBytes == row.sizeBytes && r.createdAt == row.createdAt
  {
    ImageResponse(row.id, row.filename, row.publicUrl, row.contentType, row.sizeBytes, row.createdAt)
  }

  /** `ImageListResponse`, with the schema defaults `page = 1` and `per_page = 20`. */
  datatype ImageListResponse = ImageListResponse(
    images: seq<ImageResponse>,
    total: nat,
    page: nat := 1,
    perPage: nat := 20)

  function ToImageResponses(rows: seq<ImageRow>): (r: seq<ImageResponse>)
    ensures |r| == |rows|
  {
    seq(|rows|, i requires 0 <= i < |rows| => ToImageResponse(rows[i]))
  }

  /**
   * The response never reveals `r2_key` or `user_id`: two rows that differ only there
   * give the same response, and every field it does show comes from the row.
   */
  lemma ImageResponseHidesKeyAndOwner(a: ImageRow, b: ImageRow)
    requires a.id == b.id && a.filename == b.filename && a.publicUrl == b.publicUrl
    requires a.contentType == b.contentType && a.sizeBytes == b.sizeBytes && a.createdAt == b.createdAt
    ensures ToImageResponse(a) == ToImageResponse(b)
    ensures ToImageResponse(a).id == a.id && ToImageResponse(a).publicUrl == a.publicUrl
  {
  }
}
