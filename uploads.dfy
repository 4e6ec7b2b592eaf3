/** The two upload paths (`uploadFile`, `getPresignedUploadUrl`) and
    `deleteFile`. Both upload paths mint the object key
    `<decimal clock reading>-<original name>`; the clock reading is a
    parameter, and every store call is a function parameter that answers with
    its outcome. */
module Uploads {
  import opened Base
  import opened Text
  import opened ContentTypes

  predicate IsDigit(c: char)
  {
    '0' <= c <= '9'
  }

  function DigitChar(d: nat): (c: char)
    requires d < 10
    ensures IsDigit(c)
  {
    ('0' as int + d) as char
  }

  /** The decimal rendering of a millisecond count (`${Date.now()}`): digits
      only, never empty, no leading zero. */
  function Decimal(n: nat): (r: string)
    ensures |r| > 0
    ensures forall i :: 0 <= i < |r| ==> IsDigit(r[i])
    ensures |r| > 1 ==> r[0] != '0'
    ensures n < 10 <==> |r| == 1
  {
    if n < 10 then [DigitChar(n)] else Decimal(n / 10) + [DigitChar(n % 10)]
  }

  function DigitValue(c: char): (d: nat)
    requires IsDigit(c)
    ensures d < 10 && DigitChar(d) == c
  {
    c as int - '0' as int
  }

  /** The number a string of digits denotes. */
  function DecimalValue(s: string): nat
    requires forall i :: 0 <= i < |s| ==> IsDigit(s[i])
  {
    if s == [] then 0
    else DecimalValue(s[..|s| - 1]) * 10 + DigitValue(s[|s| - 1])
  }

  /** Reading back a rendered count gives the count. */
  lemma {:induction false} DecimalRoundTrip(n: nat)
    ensures DecimalValue(Decimal(n)) == n
  {
    if n >= 10 {
      var r := Decimal(n);
      assert r[..|r| - 1] == Decimal(n / 10);
      DecimalRoundTrip(n / 10);
    }
  }

  /** The object key both upload paths mint. */
  function MintKey(now: nat, originalName: string): (key: string)
    ensures EndsWith(key, originalName)
    ensures '.' in key <==> '.' in originalName
  {
    var key := Decimal(now) + "-" + originalName;
    assert key[|key| - |originalName|..] == originalName;
    assert '.' !in Decimal(now) + "-";
    assert key == (Decimal(now) + "-") + originalName;
    key
  }

  /** The length of the run of digits a string starts with. */
  function DigitRun(s: string): (n: nat)
    ensures n <= |s|
    ensures forall i :: 0 <= i < n ==> IsDigit(s[i])
    ensures n < |s| ==> !IsDigit(s[n])
  {
    if s == [] || !IsDigit(s[0]) then 0 else 1 + DigitRun(s[1..])
  }

  lemma {:induction false} DigitRunOfDigitsThenOther(a: string, b: string)
    requires forall i :: 0 <= i < |a| ==> IsDigit(a[i])
    requires |b| > 0 && !IsDigit(b[0])
    ensures DigitRun(a + b) == |a|
  {
    if a != [] {
      assert (a + b)[1..] == a[1..] + b;
      DigitRunOfDigitsThenOther(a[1..], b);
    }
  }

  /** The two parts of a minted key. */
  datatype KeyParts = KeyParts(time: nat, originalName: string)

  /** Split a key into the clock reading and the original name, if it has the
      minted shape: a canonical decimal, a dash, then anything. */
  function ParseKey(key: string): Option<KeyParts>
  {
    var n := DigitRun(key);
    if 0 < n < |key| && key[n] == '-' && (n == 1 || key[0] != '0') then
      Some(KeyParts(DecimalValue(key[..n]), key[n + 1..]))
    else
      None
  }

  /** A minted key parses back to the clock reading and the name it was made
      from; so minting is injective, and the name can always be recovered. */
  lemma {:induction false} ParseMintedKey(now: nat, originalName: string)
    ensures ParseKey(MintKey(now, originalName)) == Some(KeyParts(now, originalName))
  {
    var d := Decimal(now);
    var key := MintKey(now, originalName);
    assert key == d + ("-" + originalName);
    DigitRunOfDigitsThenOther(d, "-" + originalName);
    assert key[..|d|] == d;
    assert key[|d| + 1..] == originalName;
    DecimalRoundTrip(now);
  }

  /** Conversely, every key of the minted shape is the minting of its parts. */
  lemma {:induction false} MintParsedKey(key: string)
    requires ParseKey(key).Some?
    ensures MintKey(ParseKey(key).value.time, ParseKey(key).value.originalName) == key
  {
    var n := DigitRun(key);
    var d := key[..n];
    var v := DecimalValue(d);
    DecimalCanonical(d);
    assert Decimal(v) == d;
    assert key == d + "-" + key[n + 1..];
  }

  /** A canonical string of digits is the rendering of its value. */
  lemma {:induction false} DecimalCanonical(s: string)
    requires |s| > 0 && forall i :: 0 <= i < |s| ==> IsDigit(s[i])
    requires |s| == 1 || s[0] != '0'
    ensures Decimal(DecimalValue(s)) == s
  {
    var init := s[..|s| - 1];
    var d := DigitValue(s[|s| - 1]);
    if |s| == 1 {
      assert DecimalValue(s) == d;
      assert init == [];
    } else {
      assert init[0] == s[0];
      DecimalCanonical(init);
      DecimalPositive(init);
      var v := DecimalValue(s);
      assert v == DecimalValue(init) * 10 + d;
      assert v / 10 == DecimalValue(init) && v % 10 == d;
      assert s == init + [s[|s| - 1]];
    }
  }

  /** A canonical string of two or more digits denotes at least 10. */
  lemma {:induction false} DecimalPositive(s: string)
    requires |s| > 0 && forall i :: 0 <= i < |s| ==> IsDigit(s[i])
    requires s[0] != '0'
    ensures DecimalValue(s) > 0
  {
    if |s| > 1 {
      assert s[..|s| - 1][0] == s[0];
      DecimalPositive(s[..|s| - 1]);
    }
  }

  lemma MintKeyInjective(t1: nat, n1: string, t2: nat, n2: string)
    requires MintKey(t1, n1) == MintKey(t2, n2)
    ensures t1 == t2 && n1 == n2
  {
    ParseMintedKey(t1, n1);
    ParseMintedKey(t2, n2);
  }

  /** The minted key resolves to the same content type as the original name
      whenever the name has a dot. */
  lemma {:induction false} MintedKeyKeepsContentType(now: nat, originalName: string)
    requires '.' in originalName
    ensures ContentTypeFromFileName(MintKey(now, originalName)) == ContentTypeFromFileName(originalName)
  {
    var key := MintKey(now, originalName);
    assert key == (Decimal(now) + "-") + originalName;
    LastSegmentOfDottedSuffix(Decimal(now) + "-", originalName);
  }

  /** Without a dot the whole key is the "extension", and a key with a dash is
      in no table entry: the derived type is the generic binary type even
      when the bare name, such as `png`, would resolve to an image type. */
  lemma {:induction false} DotlessNameGetsOctetStream(now: nat, originalName: string)
    requires '.' !in originalName
    ensures ContentTypeFromFileName(MintKey(now, originalName)) == OctetStream
  {
    var key := MintKey(now, originalName);
    var d := Decimal(now);
    assert key == d + "-" + originalName;
    assert key[|d|] == '-';
    LastSegmentUnique(key, key);
    var ext := Extension(key);
    assert ext == Lower(key);
    assert ext[|d|] == '-' && IsDigit(ext[0]);
    NoDashInTable(ext, |d|);
  }

  /** No extension in the table starts with a run of digits and a dash. */
  lemma {:induction false} NoDashInTable(ext: string, n: nat)
    requires 0 < n < |ext| && IsDigit(ext[0]) && ext[n] == '-'
    ensures MimeTypeFor(ext).None?
  {
    if MimeTypeFor(ext).Some? {
      DigitLedTableKey(ext);
    }
  }

  lemma MintedPngIsOctetStream(now: nat)
    ensures ContentTypeFromFileName("png") == "image/png"
    ensures ContentTypeFromFileName(MintKey(now, "png")) == OctetStream
  {
    DotlessNameIsNotImage();
    DotlessNameGetsOctetStream(now, "png");
  }

  /** What `formData.get("file")` holds: nothing, a text field, or a file
      with its name, declared type (empty when the browser gave none) and
      bytes. */
  datatype FormEntry = Missing | TextField(text: string) | UploadedFile(file: FormFile)
  datatype FormFile = FormFile(name: string, declaredType: string, bytes: seq<byte>)

  /** One `putObject` call: key, body, length and the Content-Type
      metadata. */
  datatype PutRequest = PutRequest(bucket: string, key: string, body: seq<byte>, size: nat, contentType: string)

  /** The structured result of the upload action. */
  datatype UploadResult = Succeeded(fileName: string, message: string) | Failed(error: string)

  const NoFileError := "No file provided"
  const UploadMessage := "File uploaded successfully"
  /** The TypeError a text field raises when `uploadFile` calls
      `file.arrayBuffer()` on it (the engine's wording). */
  const NotAFileError := "file.arrayBuffer is not a function"

  /** The content type `uploadFile` stores: the declared type when it is not
      empty, else the type derived from the minted key. */
  function StoredContentType(file: FormFile, key: string): (t: string)
    ensures t != ""
    ensures file.declaredType != "" ==> t == file.declaredType
    ensures file.declaredType == "" ==> t == ContentTypeFromFileName(key)
  {
    if file.declaredType != "" then file.declaredType else ContentTypeFromFileName(key)
  }

  /** The `putObject` call `uploadFile` makes, if it gets that far: none for
      a missing entry or a text field. */
  function UploadRequest(bucket: string, entry: FormEntry, now: nat): (req: Option<PutRequest>)
    ensures req.Some? <==> entry.UploadedFile?
    ensures req.Some? ==>
      && req.value.bucket == bucket
      && req.value.key == MintKey(now, entry.file.name)
      && req.value.body == entry.file.bytes
      && req.value.size == |entry.file.bytes|
      && req.value.contentType == StoredContentType(entry.file, req.value.key)
  {
    match entry
    case UploadedFile(file) =>
      var key := MintKey(now, file.name);
      Some(PutRequest(bucket, key, file.bytes, |file.bytes|, StoredContentType(file, key)))
    case _ => None
  }

  /** `uploadFile`. A missing entry or an empty text field (both falsy)
      fails with "No file provided"; a non-empty text field fails when it is
      read as a file; a file is stored under its minted key, and the store's
      error, if any, becomes the result's error. */
  function UploadFile(bucket: string, entry: FormEntry, now: nat, put: PutRequest -> Outcome): (r: UploadResult)
    ensures entry.Missing? || entry == TextField("") ==> r == Failed(NoFileError)
    ensures entry.TextField? && entry.text != "" ==> r == Failed(NotAFileError)
    ensures entry.UploadedFile? ==>
      var req := UploadRequest(bucket, entry, now).value;
      match put(req)
      case Pass => r == Succeeded(req.key, UploadMessage)
      case Fail(message) => r == Failed(message)
  {
    match entry
    case Missing => Failed(NoFileError)
    case TextField(text) => if text == "" then Failed(NoFileError) else Failed(NotAFileError)
    case UploadedFile(file) =>
      var req := UploadRequest(bucket, entry, now).value;
      match put(req)
      case Pass => Succeeded(req.key, UploadMessage)
      case Fail(message) => Failed(message)
  }

  /** An upload without a file never reaches the store: its result does not
      depend on what the store would answer. */
  lemma NoFileNoStoreCall(bucket: string, entry: FormEntry, now: nat, put1: PutRequest -> Outcome, put2: PutRequest -> Outcome)
    requires !entry.UploadedFile?
    ensures UploadFile(bucket, entry, now, put1) == UploadFile(bucket, entry, now, put2)
    ensures UploadFile(bucket, entry, now, put1).Failed?
  {
  }

  /** A successful upload reports the key it stored, and that key parses back
      to the clock reading and the file's own name. */
  lemma {:induction false} UploadReportsMintedKey(bucket: string, entry: FormEntry, now: nat, put: PutRequest -> Outcome)
    requires UploadFile(bucket, entry, now, put).Succeeded?
    ensures entry.UploadedFile?
    ensures ParseKey(UploadFile(bucket, entry, now, put).fileName) == Some(KeyParts(now, entry.file.name))
  {
    ParseMintedKey(now, entry.file.name);
  }

  /** Without a declared type, a dotted file name is stored with the type its
      own name resolves to. */
  lemma {:induction false} UndeclaredTypeFollowsName(bucket: string, file: FormFile, now: nat)
    requires file.declaredType == "" && '.' in file.name
    ensures UploadRequest(bucket, UploadedFile(file), now).value.contentType == ContentTypeFromFileName(file.name)
  {
    MintedKeyKeepsContentType(now, file.name);
  }

  /** The expiry of a presigned upload URL: five minutes. */
  const UploadUrlExpiry := 60 * 5

  /** One `presignedPutObject` call. */
  datatype PresignPutRequest = PresignPutRequest(bucket: string, key: string, expirySeconds: nat)

  datatype PresignResult = Presigned(url: string, fileName: string) | PresignFailed(error: string)

  /** `getPresignedUploadUrl`: presign a PUT for the minted key, always with
      the five-minute expiry. The requested content type is accepted and
      not used. */
  function GetPresignedUploadUrl(bucket: string, fileName: string, contentType: string, now: nat,
                                 presignPut: PresignPutRequest -> Result<string>): (r: PresignResult)
    ensures var req := PresignPutRequest(bucket, MintKey(now, fileName), UploadUrlExpiry);
      match presignPut(req)
      case Ok(url) => r == Presigned(url, req.key)
      case Err(message) => r == PresignFailed(message)
  {
    var key := MintKey(now, fileName);
    match presignPut(PresignPutRequest(bucket, key, UploadUrlExpiry))
    case Ok(url) => Presigned(url, key)
    case Err(message) => PresignFailed(message)
  }

  /** The requested content type has no effect on the presigned upload. */
  lemma PresignIgnoresContentType(bucket: string, fileName: string, c1: string, c2: string, now: nat,
                                  presignPut: PresignPutRequest -> Result<string>)
    ensures GetPresignedUploadUrl(bucket, fileName, c1, now, presignPut)
         == GetPresignedUploadUrl(bucket, fileName, c2, now, presignPut)
  {
  }

  /** Both upload paths, given the same clock reading and name, target the
      same key. */
  lemma {:induction false} UploadPathsAgreeOnKey(bucket: string, file: FormFile, contentType: string, now: nat,
                                                 put: PutRequest -> Outcome,
                                                 presignPut: PresignPutRequest -> Result<string>)
    requires UploadFile(bucket, UploadedFile(file), now, put).Succeeded?
    requires GetPresignedUploadUrl(bucket, file.name, contentType, now, presignPut).Presigned?
    ensures UploadFile(bucket, UploadedFile(file), now, put).fileName
         == GetPresignedUploadUrl(bucket, file.name, contentType, now, presignPut).fileName
  {
  }

  const DeleteMessage := "File deleted successfully"

  datatype DeleteResult = Deleted(message: string) | DeleteFailed(error: string)

  /** `deleteFile`: remove the key; the store's error, if any, becomes the
      result's error. */
  function DeleteFile(bucket: string, fileName: string, remove: (string, string) -> Outcome): (r: DeleteResult)
    ensures r.Deleted? <==> remove(bucket, fileName).Pass?
    ensures r.Deleted? ==> r.message == DeleteMessage
    ensures r.DeleteFailed? ==> r.error == remove(bucket, fileName).message
  {
    match remove(bucket, fileName)
    case Pass => Deleted(DeleteMessage)
    case Fail(message) => DeleteFailed(message)
  }
}
