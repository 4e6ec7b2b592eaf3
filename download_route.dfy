/** `GET /api/files/download?fileName=…`: serve an object as an attachment
    named after its key. */
module DownloadRoute {
  import opened Base
  import opened ContentTypes
  import opened Retrieval
  import opened Disposition
  import opened Http

  /** The route's headers: the unescaped attachment disposition and the
      generic binary type. A reader of the disposition recovers the name
      whenever it has no quote or backslash. */
  function DownloadHeaders(fileName: string): (headers: seq<(string, string)>)
    ensures HeaderValue(headers, "Content-Type") == Some(OctetStream)
    ensures HeaderValue(headers, "Content-Disposition").Some?
    ensures PlainName(fileName) ==>
      FilenameParameter(HeaderValue(headers, "Content-Disposition").value) == Some(fileName)
  {
    var headers := [("Content-Disposition", AttachmentHeader(fileName)), ("Content-Type", OctetStream)];
    assert HeaderValue(headers, "Content-Disposition") == Some(AttachmentHeader(fileName));
    assert HeaderValue(headers, "Content-Type") == Some(OctetStream) by {
      assert HeaderValue(headers[1..], "Content-Type") == Some(OctetStream);
    }
    if PlainName(fileName) then
      PlainNameSurvives(fileName);
      headers
    else
      headers
  }

  /** The runtime accepts the headers exactly when it accepts the name
      itself as header text. */
  lemma {:induction false} DownloadHeadersValid(fileName: string)
    ensures ValidHeaders(DownloadHeaders(fileName)) <==> ValidHeaderValue(fileName)
  {
    var h := AttachmentHeader(fileName);
    var p := |AttachmentPrefix| + 1;
    assert h == AttachmentPrefix + "\"" + fileName + "\"";
    assert h[p..p + |fileName|] == fileName;
    PrintableAsciiIsValid(AttachmentPrefix + "\"");
    PrintableAsciiIsValid(OctetStream);
    if ValidHeaderValue(fileName) {
      forall i | 0 <= i < |h|
        ensures h[i] as int < 256 && h[i] != '\0' && h[i] != '\r' && h[i] != '\n'
      {
        if i < p {
          assert h[i] == (AttachmentPrefix + "\"")[i];
        } else if i < p + |fileName| {
          assert h[i] == fileName[i - p];
        }
      }
    }
    if ValidHeaderValue(h) {
      forall i | 0 <= i < |fileName|
        ensures fileName[i] as int < 256 && fileName[i] != '\0' && fileName[i] != '\r' && fileName[i] != '\n'
      {
        assert fileName[i] == h[p + i];
      }
    }
    var hs := DownloadHeaders(fileName);
    assert |hs| == 2 && hs[0].1 == h && hs[1].1 == OctetStream;
    assert ValidHeaders(hs) <==> ValidHeaderValue(h) && ValidHeaderValue(OctetStream);
  }

  /** `GET`: 400 without a non-empty `fileName`, 404 when the object cannot
      be read, 500 when the name cannot be written into a header (the
      response constructor throws), otherwise the bytes as an attachment. */
  function Get(fileName: Option<string>, read: string -> ObjectStream): (r: Response)
    ensures fileName.None? || fileName == Some("") ==> r == JsonError(400, FileNameRequired)
    ensures fileName.Some? && fileName.value != "" ==>
      match FileStreamOf(read(fileName.value))
      case None => r == JsonError(404, FileNotFound)
      case Some(bytes) =>
        if ValidHeaderValue(fileName.value) then r == Bytes(200, bytes, DownloadHeaders(fileName.value))
        else r == JsonError(500, InvalidHeaderValue)
  {
    match fileName
    case None => JsonError(400, FileNameRequired)
    case Some(name) =>
      if name == "" then JsonError(400, FileNameRequired)
      else
        match FileStreamOf(read(name))
        case None => JsonError(404, FileNotFound)
        case Some(bytes) =>
          DownloadHeadersValid(name);
          if ValidHeaders(DownloadHeaders(name)) then Bytes(200, bytes, DownloadHeaders(name))
          else JsonError(500, InvalidHeaderValue)
  }

  /** A served download always carries the generic binary type, and a
      reader of its disposition recovers the key whenever the key has no
      quote or backslash. */
  lemma {:induction false} ServedDownloadHeaders(fileName: Option<string>, read: string -> ObjectStream)
    requires Get(fileName, read).Bytes?
    ensures HeaderValue(Get(fileName, read).headers, "Content-Type") == Some(OctetStream)
    ensures HeaderValue(Get(fileName, read).headers, "Content-Disposition") == Some(AttachmentHeader(fileName.value))
    ensures PlainName(fileName.value) ==> FilenameParameter(AttachmentHeader(fileName.value)) == Some(fileName.value)
    ensures ValidHeaders(Get(fileName, read).headers)
  {
    DownloadHeadersValid(fileName.value);
    if PlainName(fileName.value) {
      PlainNameSurvives(fileName.value);
    }
  }

  /** An object of zero bytes is not "not found": it is served, empty. */
  lemma EmptyObjectIsServed(name: string, read: string -> ObjectStream)
    requires name != "" && ValidHeaderValue(name)
    requires read(name) == ObjectStream([], Pass)
    ensures Get(Some(name), read) == Bytes(200, [], DownloadHeaders(name))
  {
  }

  /** A key with a character outside Latin-1 reads fine from the store but
      cannot be served: `写.txt` gets a 500. */
  lemma NonLatin1NameFails(read: string -> ObjectStream)
    requires read("写.txt").end.Pass?
    ensures Get(Some("写.txt"), read) == JsonError(500, InvalidHeaderValue)
  {
    assert !ValidHeaderValue("写.txt") by {
      assert "写.txt"[0] as int == 0x5199;
    }
  }
}
