/** The content-type resolver and the image classifier of the object gateway
    (`getContentTypeFromFileName` and `isImageFile`). */
module ContentTypes {
  import opened Base
  import opened Text

  /** The generic binary type every unknown extension resolves to. */
  const OctetStream := "application/octet-stream"

  /** The resolver's extension table (an object literal keyed by lower-case
      extension), as a lookup that answers `None` for a missing key. The
      literal is written in six commented groups with no key in two of them;
      the lookup tries the groups in that order, and it answers with the entry
      of whichever group has the key, so the order does not matter. */
  function MimeTypeFor(ext: string): (r: Option<string>)
    ensures ImageTypeFor(ext).Some? ==> r == ImageTypeFor(ext)
    ensures DocumentTypeFor(ext).Some? ==> r == DocumentTypeFor(ext)
    ensures ArchiveTypeFor(ext).Some? ==> r == ArchiveTypeFor(ext)
    ensures AudioTypeFor(ext).Some? ==> r == AudioTypeFor(ext)
    ensures VideoTypeFor(ext).Some? ==> r == VideoTypeFor(ext)
    ensures CodeTypeFor(ext).Some? ==> r == CodeTypeFor(ext)
    ensures r.None? <==> GroupsAnswering(ext) == 0
  {
    GroupsAreDisjoint(ext);
    if ImageTypeFor(ext).Some? then ImageTypeFor(ext)
    else if DocumentTypeFor(ext).Some? then DocumentTypeFor(ext)
    else if ArchiveTypeFor(ext).Some? then ArchiveTypeFor(ext)
    else if AudioTypeFor(ext).Some? then AudioTypeFor(ext)
    else if VideoTypeFor(ext).Some? then VideoTypeFor(ext)
    else CodeTypeFor(ext)
  }

  function ImageTypeFor(ext: string): (r: Option<string>)
    ensures r.Some? <==> ext in ImageExtensions
    ensures r.Some? ==> IsImageMime(r.value) && r.value != OctetStream && LetterLed(ext)
  {
    match ext
    case "jpg" => Some("image/jpeg")
    case "jpeg" => Some("image/jpeg")
    case "png" => Some("image/png")
    case "gif" => Some("image/gif")
    case "webp" => Some("image/webp")
    case "svg" => Some("image/svg+xml")
    case "bmp" => Some("image/bmp")
    case "ico" => Some("image/x-icon")
    case _ => None
  }

  /** The three Office Open XML types are spelled as `"application/" + …`
      so that the verifier reads their first characters cheaply; the strings
      are unchanged. */
  function DocumentTypeFor(ext: string): (r: Option<string>)
    ensures r.Some? ==> OtherEntry(ext, r.value)
  {
    match ext
    case "pdf" => Some("application/pdf")
    case "doc" => Some("application/msword")
    case "docx" => Some("application/" + "vnd.openxmlformats-officedocument.wordprocessingml.document")
    case "xls" => Some("application/vnd.ms-excel")
    case "xlsx" => Some("application/" + "vnd.openxmlformats-officedocument.spreadsheetml.sheet")
    case "ppt" => Some("application/vnd.ms-powerpoint")
    case "pptx" => Some("application/" + "vnd.openxmlformats-officedocument.presentationml.presentation")
    case "txt" => Some("text/plain")
    case "csv" => Some("text/csv")
    case _ => None
  }

  function ArchiveTypeFor(ext: string): (r: Option<string>)
    ensures r.Some? ==> OtherEntry(ext, r.value)
  {
    match ext
    case "zip" => Some("application/zip")
    case "rar" => Some("application/x-rar-compressed")
    case "7z" => Some("application/x-7z-compressed")
    case "tar" => Some("application/x-tar")
    case "gz" => Some("application/gzip")
    case _ => None
  }

  function AudioTypeFor(ext: string): (r: Option<string>)
    ensures r.Some? ==> OtherEntry(ext, r.value)
  {
    match ext
    case "mp3" => Some("audio/mpeg")
    case "wav" => Some("audio/wav")
    case "ogg" => Some("audio/ogg")
    case "m4a" => Some("audio/mp4")
    case _ => None
  }

  function VideoTypeFor(ext: string): (r: Option<string>)
    ensures r.Some? ==> OtherEntry(ext, r.value)
  {
    match ext
    case "mp4" => Some("video/mp4")
    case "avi" => Some("video/x-msvideo")
    case "mov" => Some("video/quicktime")
    case "wmv" => Some("video/x-ms-wmv")
    case "mkv" => Some("video/x-matroska")
    case "webm" => Some("video/webm")
    case _ => None
  }

  function CodeTypeFor(ext: string): (r: Option<string>)
    ensures r.Some? ==> OtherEntry(ext, r.value)
  {
    match ext
    case "js" => Some("text/javascript")
    case "json" => Some("application/json")
    case "html" => Some("text/html")
    case "css" => Some("text/css")
    case "xml" => Some("application/xml")
    case _ => None
  }

  /** The dotted suffixes `isImageFile` tests for. */
  const ImageSuffixes: seq<string> := [".jpg", ".jpeg", ".png", ".gif", ".webp", ".svg", ".bmp", ".ico"]

  /** The same eight image extensions, without their dot. */
  const ImageExtensions: set<string> := {"jpg", "jpeg", "png", "gif", "webp", "svg", "bmp", "ico"}

  predicate IsImageMime(contentType: string)
  {
    StartsWith(contentType, "image/")
  }

  /** A type whose first character is not `i` is not an image type. */
  lemma NotImageMime(t: string)
    requires |t| > 0 && t[0] != 'i'
    ensures !IsImageMime(t)
  {
  }

  /** A key starts with a lower-case letter, or is `7z`. */
  predicate LetterLed(ext: string)
  {
    ext == "7z" || (|ext| > 0 && 'a' <= ext[0] <= 'z')
  }

  /** An entry of a group other than images: a real type that is neither an
      image type nor the fallback. */
  predicate OtherEntry(ext: string, t: string)
  {
    t != "" && t[0] != 'i' && t != OctetStream && LetterLed(ext)
  }

  /** How many of the six groups have an entry for `ext`. */
  function GroupsAnswering(ext: string): nat
  {
    (if ImageTypeFor(ext).Some? then 1 else 0) + (if DocumentTypeFor(ext).Some? then 1 else 0) +
    (if ArchiveTypeFor(ext).Some? then 1 else 0) + (if AudioTypeFor(ext).Some? then 1 else 0) +
    (if VideoTypeFor(ext).Some? then 1 else 0) + (if CodeTypeFor(ext).Some? then 1 else 0)
  }

  /** No key is in two groups: at most one group has an entry for any
      extension. */
  lemma {:induction false} GroupsAreDisjoint(ext: string)
    ensures GroupsAnswering(ext) <= 1
  {
    ImageAndDocumentKeysDiffer(ext);
    ImageAndArchiveKeysDiffer(ext);
    ImageAndAudioKeysDiffer(ext);
    ImageAndVideoKeysDiffer(ext);
    ImageAndCodeKeysDiffer(ext);
    DocumentAndArchiveKeysDiffer(ext);
    DocumentAndAudioKeysDiffer(ext);
    DocumentAndVideoKeysDiffer(ext);
    DocumentAndCodeKeysDiffer(ext);
    ArchiveAndAudioKeysDiffer(ext);
    ArchiveAndVideoKeysDiffer(ext);
    ArchiveAndCodeKeysDiffer(ext);
    AudioAndVideoKeysDiffer(ext);
    AudioAndCodeKeysDiffer(ext);
    VideoAndCodeKeysDiffer(ext);
  }

  lemma ImageAndDocumentKeysDiffer(ext: string)
    ensures ImageTypeFor(ext).None? || DocumentTypeFor(ext).None?
  {
  }

  lemma ImageAndArchiveKeysDiffer(ext: string)
    ensures ImageTypeFor(ext).None? || ArchiveTypeFor(ext).None?
  {
  }

  lemma ImageAndAudioKeysDiffer(ext: string)
    ensures ImageTypeFor(ext).None? || AudioTypeFor(ext).None?
  {
  }

  lemma ImageAndVideoKeysDiffer(ext: string)
    ensures ImageTypeFor(ext).None? || VideoTypeFor(ext).None?
  {
  }

  lemma ImageAndCodeKeysDiffer(ext: string)
    ensures ImageTypeFor(ext).None? || CodeTypeFor(ext).None?
  {
  }

  lemma DocumentAndArchiveKeysDiffer(ext: string)
    ensures DocumentTypeFor(ext).None? || ArchiveTypeFor(ext).None?
  {
  }

  lemma DocumentAndAudioKeysDiffer(ext: string)
    ensures DocumentTypeFor(ext).None? || AudioTypeFor(ext).None?
  {
  }

  lemma DocumentAndVideoKeysDiffer(ext: string)
    ensures DocumentTypeFor(ext).None? || VideoTypeFor(ext).None?
  {
  }

  lemma DocumentAndCodeKeysDiffer(ext: string)
    ensures DocumentTypeFor(ext).None? || CodeTypeFor(ext).None?
  {
  }

  lemma ArchiveAndAudioKeysDiffer(ext: string)
    ensures ArchiveTypeFor(ext).None? || AudioTypeFor(ext).None?
  {
  }

  lemma ArchiveAndVideoKeysDiffer(ext: string)
    ensures ArchiveTypeFor(ext).None? || VideoTypeFor(ext).None?
  {
  }

  lemma ArchiveAndCodeKeysDiffer(ext: string)
    ensures ArchiveTypeFor(ext).None? || CodeTypeFor(ext).None?
  {
  }

  lemma AudioAndVideoKeysDiffer(ext: string)
    ensures AudioTypeFor(ext).None? || VideoTypeFor(ext).None?
  {
  }

  lemma AudioAndCodeKeysDiffer(ext: string)
    ensures AudioTypeFor(ext).None? || CodeTypeFor(ext).None?
  {
  }

  lemma VideoAndCodeKeysDiffer(ext: string)
    ensures VideoTypeFor(ext).None? || CodeTypeFor(ext).None?
  {
  }

  /** Every table entry is a real type, never the fallback; it is an image
      type exactly for the eight image extensions; and its key starts with a
      lower-case letter unless it is `7z`. */
  lemma {:induction false} TableEntryShape(ext: string)
    requires MimeTypeFor(ext).Some?
    ensures MimeTypeFor(ext).value != "" && MimeTypeFor(ext).value != OctetStream
    ensures IsImageMime(MimeTypeFor(ext).value) <==> ext in ImageExtensions
    ensures LetterLed(ext)
  {
    if ImageTypeFor(ext).None? {
      var t := MimeTypeFor(ext).value;
      assert OtherEntry(ext, t);
      NotImageMime(t);
    }
  }

  /** Every table entry is a real type, never the fallback. */
  lemma {:induction false} TableEntryNotFallback(ext: string)
    requires MimeTypeFor(ext).Some?
    ensures MimeTypeFor(ext).value != "" && MimeTypeFor(ext).value != OctetStream
  {
    TableEntryShape(ext);
  }

  /** The table's image types are exactly the entries of the eight image
      extensions, and each of those has an entry. */
  lemma {:induction false} TableImageEntries(ext: string)
    ensures ext in ImageExtensions ==> MimeTypeFor(ext).Some?
    ensures MimeTypeFor(ext).Some? ==> (IsImageMime(MimeTypeFor(ext).value) <==> ext in ImageExtensions)
  {
    if MimeTypeFor(ext).Some? {
      TableEntryShape(ext);
    }
  }

  /** The only extension in the table that starts with a digit is `7z`. */
  lemma {:induction false} DigitLedTableKey(ext: string)
    requires MimeTypeFor(ext).Some? && |ext| > 0 && '0' <= ext[0] <= '9'
    ensures ext == "7z"
  {
    TableEntryShape(ext);
  }

  lemma SuffixToExtension(e: string)
    requires e in ImageSuffixes
    ensures |e| > 1 && e[0] == '.' && '.' !in e[1..] && e[1..] in ImageExtensions
  {
  }

  lemma ExtensionToSuffix(x: string)
    requires x in ImageExtensions
    ensures ['.'] + x in ImageSuffixes
  {
    if x == "jpg" { assert ['.'] + x == ImageSuffixes[0]; }
    else if x == "jpeg" { assert ['.'] + x == ImageSuffixes[1]; }
    else if x == "png" { assert ['.'] + x == ImageSuffixes[2]; }
    else if x == "gif" { assert ['.'] + x == ImageSuffixes[3]; }
    else if x == "webp" { assert ['.'] + x == ImageSuffixes[4]; }
    else if x == "svg" { assert ['.'] + x == ImageSuffixes[5]; }
    else if x == "bmp" { assert ['.'] + x == ImageSuffixes[6]; }
    else { assert ['.'] + x == ImageSuffixes[7]; }
  }

  /** `getContentTypeFromFileName`: the table entry for the name's lower-case
      extension, else the generic binary type. It never yields the empty
      string, and it yields the fallback exactly when the table has no entry. */
  function ContentTypeFromFileName(fileName: string): (r: string)
    ensures r != ""
    ensures r == OctetStream <==> MimeTypeFor(Extension(fileName)).None?
    ensures MimeTypeFor(Extension(fileName)).Some? ==> r == MimeTypeFor(Extension(fileName)).value
  {
    match MimeTypeFor(Extension(fileName))
    case Some(contentType) =>
      TableEntryNotFallback(Extension(fileName));
      contentType
    case None => OctetStream
  }

  /** `isImageFile`: the lower-cased name ends with one of the dotted image
      suffixes. Equivalently, the name has a dot and its extension is one of
      the eight image extensions. */
  function IsImageFile(fileName: string): (r: bool)
    ensures r <==> '.' in fileName && Extension(fileName) in ImageExtensions
  {
    var low := Lower(fileName);
    var r := exists e :: e in ImageSuffixes && EndsWith(low, e);
    ImageFileByExtension(fileName);
    r
  }

  lemma {:induction false} ImageFileByExtension(fileName: string)
    ensures (exists e :: e in ImageSuffixes && EndsWith(Lower(fileName), e))
        <==> '.' in fileName && Extension(fileName) in ImageExtensions
  {
    if e :| e in ImageSuffixes && EndsWith(Lower(fileName), e) {
      ImageSuffixGivesExtension(fileName, e);
    }
    if '.' in fileName && Extension(fileName) in ImageExtensions {
      ImageExtensionGivesSuffix(fileName);
    }
  }

  lemma {:induction false} ImageSuffixGivesExtension(fileName: string, e: string)
    requires e in ImageSuffixes && EndsWith(Lower(fileName), e)
    ensures '.' in fileName && Extension(fileName) in ImageExtensions
  {
    SuffixToExtension(e);
    assert e == ['.'] + e[1..];
    DotSuffixGivesExtension(fileName, e[1..]);
  }

  lemma {:induction false} ImageExtensionGivesSuffix(fileName: string)
    requires '.' in fileName && Extension(fileName) in ImageExtensions
    ensures exists e :: e in ImageSuffixes && EndsWith(Lower(fileName), e)
  {
    ExtensionGivesDotSuffix(fileName);
    ExtensionToSuffix(Extension(fileName));
  }

  /** Resolution ignores case: `"a.PNG"` and `"a.png"` resolve alike. */
  lemma {:induction false} ContentTypeIgnoresCase(fileName: string)
    ensures ContentTypeFromFileName(Lower(fileName)) == ContentTypeFromFileName(fileName)
  {
    ExtensionIgnoresCase(fileName);
  }

  lemma ContentTypeOfUpperCasePng()
    ensures ContentTypeFromFileName("a.PNG") == ContentTypeFromFileName("a.png") == "image/png"
  {
    PngExtension("a.PNG", "PNG");
    PngExtension("a.png", "png");
    assert MimeTypeFor("png") == Some("image/png");
  }

  lemma PngExtension(name: string, png: string)
    requires png in {"PNG", "png"} && name == "a." + png
    ensures Extension(name) == "png"
  {
    assert name == "a" + ['.'] + png;
    ExtensionAfterDot("a", png);
    assert Lower(png) == "png";
  }

  /** Whenever `isImageFile` holds, the resolver yields an image type. */
  lemma {:induction false} ImageFileHasImageType(fileName: string)
    requires IsImageFile(fileName)
    ensures IsImageMime(ContentTypeFromFileName(fileName))
  {
    TableImageEntries(Extension(fileName));
  }

  /** Conversely, a name with a dot whose resolved type is an image type is an
      image file: the two classifications agree on every dotted name. */
  lemma {:induction false} ImageTypeMeansImageFile(fileName: string)
    ensures IsImageFile(fileName) <==> '.' in fileName && IsImageMime(ContentTypeFromFileName(fileName))
  {
    TableImageEntries(Extension(fileName));
    if '.' in fileName && IsImageMime(ContentTypeFromFileName(fileName)) {
      NotImageMime(OctetStream);
    }
  }

  /** The converse fails without a dot: `"png"` resolves to `image/png` but is
      not an image file. */
  lemma DotlessNameIsNotImage()
    ensures ContentTypeFromFileName("png") == "image/png"
    ensures !IsImageFile("png")
  {
    assert LastSegment("png") == "png";
    assert Lower("png") == "png";
  }
}
