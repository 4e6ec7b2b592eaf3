/** `GET /api/files/image?fileName=…`: serve an object inline with an image
    content type and a one-year immutable cache policy. */
module ImageRoute {
  import opened Base
  import opened Text
  import opened ContentTypes
  import opened Retrieval
  import opened Http

  const CacheControl := "public, max-age=31536000, immutable"

  /** The route's own table, which knows image extensions only: it has an
      entry exactly for the eight image extensions, and every entry is an
      image type. */
  function ImageMimeTypeFor(ext: string): (r: Option<string>)
    ensures r.Some? <==> ext in ImageExtensions
    ensures r.Some? ==> IsImageMime(r.value)
  {
    match ext
    case "jpg" => Some("image/jpeg")
    case "jpeg" => Some("image/jpeg")
    case "png" => Some("image/png")
    case "gif" => Some("image/gif")
    case "webp" => Some("image/webp")
    case "svg" => Some("image/svg+xml")
    case "bmp" => Some("image/bmp")
    case "ico" => Some("image/x-icon")
    case _ => None
  }

  /** The route's table is the main table cut down to the eight image
      extensions. */
  lemma ImageTableIsMainTableRestricted(ext: string)
    ensures ImageMimeTypeFor(ext) == if ext in ImageExtensions then MimeTypeFor(ext) else None
  {
  }

  /** The type the route serves a name with: its table entry for the
      lower-case extension, else the generic binary type. */
  function ImageContentType(fileName: string): (t: string)
    ensures Extension(fileName) in ImageExtensions ==> t == ContentTypeFromFileName(fileName)
    ensures Extension(fileName) !in ImageExtensions ==> t == OctetStream
    ensures ImageMimeTypeFor(Extension(fileName)).Some? ==> t == ImageMimeTypeFor(Extension(fileName)).value
    ensures ImageMimeTypeFor(Extension(fileName)).None? ==> t == OctetStream
  {
    ImageTableIsMainTableRestricted(Extension(fileName));
    match ImageMimeTypeFor(Extension(fileName))
    case Some(t) => t
    case None => OctetStream
  }

  /** The route's type is an image type exactly when the name's extension is
      an image extension; so for a name with a dot, exactly when
      `isImageFile` holds. */
  lemma {:induction false} ImageContentTypeAgreesWithClassifier(fileName: string)
    ensures IsImageMime(ImageContentType(fileName)) <==> Extension(fileName) in ImageExtensions
    ensures '.' in fileName ==> (IsImageMime(ImageContentType(fileName)) <==> IsImageFile(fileName))
  {
    TableImageEntries(Extension(fileName));
    NotImageMime(OctetStream);
  }

  /** A PDF, which the main table knows, is served as generic binary here. */
  lemma PdfIsServedAsBinary()
    ensures ContentTypeFromFileName("a.pdf") == "application/pdf"
    ensures ImageContentType("a.pdf") == OctetStream
  {
    assert "a.pdf" == "a" + ['.'] + "pdf";
    ExtensionAfterDot("a", "pdf");
    assert Lower("pdf") == "pdf";
  }

  /** The route's headers are printable ASCII, so building the response
      never throws. */
  lemma {:induction false} ImageHeadersAreValid(fileName: string)
    ensures ValidHeaderValue(ImageContentType(fileName)) && ValidHeaderValue(CacheControl)
  {
    if ImageMimeTypeFor(Extension(fileName)).Some? {
      ImageTypesArePrintable(Extension(fileName));
    } else {
      OctetStreamIsValid();
    }
    CacheControlIsValid();
  }

  lemma CacheControlIsValid()
    ensures ValidHeaderValue(CacheControl)
  {
    PrintableAsciiIsValid(CacheControl);
  }

  lemma OctetStreamIsValid()
    ensures ValidHeaderValue(OctetStream)
  {
    PrintableAsciiIsValid(OctetStream);
  }

  lemma ImageTypesArePrintable(ext: string)
    requires ImageMimeTypeFor(ext).Some?
    ensures ValidHeaderValue(ImageMimeTypeFor(ext).value)
  {
    match ext
    case "jpg" => PrintableAsciiIsValid("image/jpeg");
    case "jpeg" => PrintableAsciiIsValid("image/jpeg");
    case "png" => PrintableAsciiIsValid("image/png");
    case "gif" => PrintableAsciiIsValid("image/gif");
    case "webp" => PrintableAsciiIsValid("image/webp");
    case "svg" => PrintableAsciiIsValid("image/svg+xml");
    case "bmp" => PrintableAsciiIsValid("image/bmp");
    case "ico" => PrintableAsciiIsValid("image/x-icon");
  }

  /** `GET`: 400 without a non-empty `fileName`, 404 when the object cannot
      be read, otherwise the bytes with the derived type and the cache
      policy. `read` is the store's stream for a key. */
  function Get(fileName: Option<string>, read: string -> ObjectStream): (r: Response)
    ensures fileName.None? || fileName == Some("") ==> r == JsonError(400, FileNameRequired)
    ensures fileName.Some? && fileName.value != "" ==>
      match FileStreamOf(read(fileName.value))
      case None => r == JsonError(404, FileNotFound)
      case Some(bytes) =>
        r == Bytes(200, bytes, ImageHeaders(fileName.value))
  {
    match fileName
    case None => JsonError(400, FileNameRequired)
    case Some(name) =>
      if name == "" then JsonError(400, FileNameRequired)
      else
        match FileStreamOf(read(name))
        case None => JsonError(404, FileNotFound)
        case Some(bytes) =>
          ImageHeadersAreValid(name);
          Bytes(200, bytes, ImageHeaders(name))
  }

  /** The route answers 200, 400 or 404 and never 500: nothing in it throws.
      A 200 carries the object's bytes in order, always with the cache
      policy, and with headers the runtime accepts. */
  lemma {:induction false} ImageRouteOutcomes(fileName: Option<string>, read: string -> ObjectStream)
    ensures Get(fileName, read).status in {200, 400, 404}
    ensures Get(fileName, read).Bytes? ==>
      && fileName.Some? && Get(fileName, read).body == Concat(read(fileName.value).chunks)
      && HeaderValue(Get(fileName, read).headers, "Cache-Control") == Some(CacheControl)
      && ValidHeaders(Get(fileName, read).headers)
  {
    if Get(fileName, read).Bytes? {
      var name := fileName.value;
      assert Get(fileName, read) == Bytes(200, FileStreamOf(read(name)).value, ImageHeaders(name));
      ImageHeadersFacts(name);
    }
  }

  /** The two headers a served image carries. */
  function ImageHeaders(name: string): seq<(string, string)>
  {
    [("Content-Type", ImageContentType(name)), ("Cache-Control", CacheControl)]
  }

  lemma {:induction false} ImageHeadersFacts(name: string)
    ensures HeaderValue(ImageHeaders(name), "Cache-Control") == Some(CacheControl)
    ensures ValidHeaders(ImageHeaders(name))
  {
    var hs := ImageHeaders(name);
    assert HeaderValue(hs[1..], "Cache-Control") == Some(CacheControl);
    ImageHeadersAreValid(name);
  }

  /** A request without a name is answered without reading the store. */
  lemma NoNameNoRead(read1: string -> ObjectStream, read2: string -> ObjectStream)
    ensures Get(None, read1) == Get(None, read2) == Get(Some(""), read1)
  {
  }
}
