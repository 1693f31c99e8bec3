/** `ImageController`: the upload and retrieval endpoints, mapping the
    service's results and `IOException`s to HTTP responses. Exceptions the
    handler does not catch escape to the framework unchanged. */
module ImageController {
  import opened Common
  import opened Http
  import opened ImageService

  const UPLOAD_MESSAGE: string := "Image uploaded successfully"
  const IMAGE_JPEG: string := "image/jpeg"

  /** How `POST /api/images/upload` answers a service result: 200 with
      exactly the reference and a fixed message, 500 with no body on any
      `IOException`; any other exception escapes the handler. */
  function UploadResponse(saved: Result<string, JavaException>): (r: Handled<map<string, string>>)
    ensures r.Responded? && r.response.status == OK <==> saved.Ok?
    ensures saved.Ok? ==>
              && r.response.body.Some?
              && r.response.body.value.Keys == {"imageUrl", "message"}
              && r.response.body.value["imageUrl"] == saved.value
              && r.response.body.value["message"] == UPLOAD_MESSAGE
    ensures r == Responded(Response(SERVER_ERROR, None, None)) <==> saved.Err? && saved.error.IOException?
    ensures r.Escaped? <==> saved.Err? && !saved.error.IOException?
    ensures r.Escaped? ==> r.exception == saved.error
  {
    match saved
    case Ok(url) => Responded(Response(OK, Some(map["imageUrl" := url, "message" := UPLOAD_MESSAGE]), None))
    case Err(e) =>
      if e.IOException? then Responded(Response(SERVER_ERROR, None, None)) else Escaped(e)
  }

  /** `POST /api/images/upload`: the service call and its response. */
  function UploadImage(s: Store, file: Upload, productId: Long, env: Env): (Handled<map<string, string>>, Store)
    requires DiskValid(s.disk)
  {
    var o := SaveImage(s, file, productId, env);
    (UploadResponse(o.result), o.store)
  }

  /** The upload answers 200 exactly when the save succeeds; a failed
      directory creation, a taken name or a failed copy answers 500; a file
      without an extension, or an id outside `int` range once the file is
      written, is not answered at all: its exception escapes. */
  lemma UploadAnswers(s: Store, file: Upload, productId: Long, env: Env)
    requires DiskValid(s.disk)
    ensures var h := UploadImage(s, file, productId, env).0;
            h.Responded? && h.response.status == OK <==> SaveSucceeds(s, file, productId, env)
    ensures (s.disk.dirExists || env.mkdirFault.None?) && '.' !in file.originalFilename ==>
              UploadImage(s, file, productId, env).0 == Escaped(StringIndexOutOfBounds(-1))
    ensures && (s.disk.dirExists || env.mkdirFault.None?)
            && '.' in file.originalFilename
            && UniqueFilename(file.originalFilename, productId, env.millis).Ok?
            && UniqueFilename(file.originalFilename, productId, env.millis).value !in s.disk.files
            && env.copyFault.None?
            && !(INT_MIN <= productId <= INT_MAX) ==>
              UploadImage(s, file, productId, env).0 == Escaped(ArithmeticOverflow("integer overflow"))
    ensures !s.disk.dirExists && env.mkdirFault.Some? ==>
              UploadImage(s, file, productId, env).0 == Responded(Response(SERVER_ERROR, None, None))
    ensures && (s.disk.dirExists || env.mkdirFault.None?)
            && UniqueFilename(file.originalFilename, productId, env.millis).Ok?
            && (UniqueFilename(file.originalFilename, productId, env.millis).value in s.disk.files
                || env.copyFault.Some?) ==>
              UploadImage(s, file, productId, env).0 == Responded(Response(SERVER_ERROR, None, None))
  {
    SaveSucceedsExactly(s, file, productId, env);
  }

  /** `GET /api/images/{filename}`: 200 with the bytes, always labelled
      `image/jpeg`; 404 with no body when the service throws. */
  function GetImageEndpoint(d: Disk, filename: string): (r: Handled<seq<Byte>>)
    ensures r.Responded?
    ensures r.response.status == OK <==> GetImage(d, filename).Ok?
    ensures r.response.status == OK ==>
              r.response.body == Some(GetImage(d, filename).value) && r.response.contentType == Some(IMAGE_JPEG)
    ensures r.response.status != OK ==> r.response == Response(NOT_FOUND, None, None)
  {
    match GetImage(d, filename)
    case Ok(bytes) => Responded(Response(OK, Some(bytes), Some(IMAGE_JPEG)))
    case Err(_) => Responded(Response(NOT_FOUND, None, None))
  }

  /** `GET /api/images/{filename}` as written: the cast's exception is not
      an `IOException`, so it escapes the handler's `catch`; only a missing
      file is answered, with 404, and nothing is ever served. */
  function GetImageEndpointAsWritten(d: Disk, filename: string): (r: Handled<seq<Byte>>)
    ensures r.Escaped? <==> filename in d.files
    ensures r.Escaped? ==> r.exception == ClassCast(CAST_TARGET)
    ensures r.Responded? ==> r.response == Response(NOT_FOUND, None, None)
    ensures r.Responded? ==> r == GetImageEndpoint(d, filename)
  {
    match GetImageAsWritten(d, filename)
    case Ok(bytes) => Responded(Response(OK, Some(bytes), Some(IMAGE_JPEG)))
    case Err(e) =>
      if e.IOException? then Responded(Response(NOT_FOUND, None, None)) else Escaped(e)
  }

  /** End to end: when the save succeeds, the upload answers 200 with a
      reference to a stored name of this product, and fetching that name
      gives 200 with the uploaded bytes, labelled `image/jpeg` whatever the
      file's extension. */
  lemma UploadThenFetch(s: Store, file: Upload, productId: Long, env: Env)
    requires DiskValid(s.disk)
    requires SaveSucceeds(s, file, productId, env)
    ensures var (h, s') := UploadImage(s, file, productId, env);
            && h.Responded? && h.response.status == OK
            && var url := h.response.body.value["imageUrl"];
               && |url| >= |URL_PREFIX| && url[..|URL_PREFIX|] == URL_PREFIX
               && ParseStoredName(url[|URL_PREFIX|..]).Some?
               && ParseStoredName(url[|URL_PREFIX|..]).value.productId == productId
               && GetImageEndpoint(s'.disk, url[|URL_PREFIX|..])
                  == Responded(Response(OK, Some(file.content), Some(IMAGE_JPEG)))
  {
    SaveReference(s, file, productId, env);
    SaveThenGet(s, file, productId, env, "");
  }

  /** The as-written fetch of a freshly uploaded image: the upload answers
      200 with a reference, yet fetching the stored name it names escapes
      with the cast's exception, where the intended fetch serves the bytes. */
  lemma UploadThenFetchAsWritten(s: Store, file: Upload, productId: Long, env: Env)
    requires DiskValid(s.disk)
    requires SaveSucceeds(s, file, productId, env)
    ensures var (h, s') := UploadImage(s, file, productId, env);
            && h.Responded? && h.response.status == OK
            && var url := h.response.body.value["imageUrl"];
               && |url| >= |URL_PREFIX| && url[..|URL_PREFIX|] == URL_PREFIX
               && GetImageEndpointAsWritten(s'.disk, url[|URL_PREFIX|..]) == Escaped(ClassCast(CAST_TARGET))
               && GetImageEndpoint(s'.disk, url[|URL_PREFIX|..]).response.status == OK
  {
    UploadThenFetch(s, file, productId, env);
  }
}
