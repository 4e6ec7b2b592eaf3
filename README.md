# MinIO file gateway: a verified model of its server actions and routes

This project models the object-gateway core of a small Next.js application that stores
files in a MinIO bucket. It covers the following pieces:

- the content-type resolver and the image classifier;
- the listing action, which enriches every stored object and sorts the list with images
  first and the newest first;
- key minting and the two upload paths;
- view and download URL building;
- the chunk-collecting object reader;
- the image and download routes;
- two pure UI helpers: the images / other-files split and the file icon.

The MinIO client is not modelled. Each store call becomes a function parameter that
answers with its outcome (`putObject`, `presignedPutObject`, `presignedGetObject`,
`removeObject`), or data handed in (the listing enumeration and the object byte stream).
The clock is a natural-number parameter counting milliseconds.

The modules are listed below.

- `Base`: bytes and `Option` / `Result` / `Outcome`.
- `Text`: `toLowerCase`, `endsWith` / `startsWith`, and `name.split(".").pop()`. That last
  one is characterised as the longest dot-free suffix.
- `ContentTypes`: `getContentTypeFromFileName` and `isImageFile`. The extension table is
  split into the six groups its literal is written in (images, documents, archives, audio,
  video, code). No key is in two groups, so trying the groups in order is the same lookup.
- `Listing`: `listFiles`. Its loop is a method; `Array.prototype.sort` is a stable
  insertion sort, proved to be the unique stable sorted permutation.
- `Retrieval`: `getFileStream`. Its loop is a method; `Buffer.concat` is a function.
- `Uploads`: key minting with its parser, `uploadFile`, `getPresignedUploadUrl` and
  `deleteFile`.
- `UriComponent`: `encodeURIComponent` over Unicode scalar values, with a
  `decodeURIComponent` that inverts it.
- `Disposition`: the RFC 6266 `attachment; filename="…"` header and a reader for the
  quoted-string of section 3.2.6 of RFC 7230.
- `AccessUrls`: `getFileUrl`.
- `Http`: responses and the runtime's header-value check.
- `ImageRoute` and `DownloadRoute`: the two `GET` handlers.
- `FileList` and `FileCard`: the UI helpers.

A few behaviours of the code are easy to misread. The model keeps them as written:

- Keys are `<clock>-<name>` and nothing else. Two uploads of one name in the same
  millisecond get the same key, and the second overwrites the first (`Uploads.MintKey` is
  a function of those two values only).
- `listFiles` always derives the content type from the name (actions/files.ts:118-119).
  The comment there calls it a fallback, but the type stored with the object is never
  read, so `Listing.ToFileItem` uses the name alone.
- `deleteFile` reports whatever the store answers (actions/files.ts:145-159). A removal
  error, including one for a missing key, becomes a failure, and a removal the store
  accepts becomes a success whether or not the key existed.
- The presigned download asks for `filename="<percent-encoded name>"`, not for the
  original name (actions/files.ts:188-190).
- Timestamps are compared as integers. The source formats them with `toISOString` and
  parses them back, which loses nothing at millisecond precision.

## Model

| member | source | states |
|---|---|---|
| Text.LastSegment | actions/files.ts:33 | the text after the last dot, or the whole name: a dot-free suffix that is either the whole string or preceded by a dot |
| Text.LastSegmentUnique | actions/files.ts:33 | those three properties determine the segment uniquely |
| Text.Extension | actions/files.ts:33 | the lower-cased last segment has no dot and is no longer than the name |
| Text.ExtensionIgnoresCase | actions/files.ts:33 | lower-casing the name first does not change its extension |
| Text.ExtensionAfterDot | actions/files.ts:33 | `a + "." + b` with a dot-free `b` has extension `lower(b)` |
| Text.DotSuffixGivesExtension | actions/files.ts:28 | a lower-cased name ending in `.x` (x dot-free) has a dot and extension `x` |
| Text.ExtensionGivesDotSuffix | actions/files.ts:28 | a dotted name, lower-cased, ends with `.` plus its extension |
| Text.LowerChar | actions/files.ts:28 | lower-casing keeps dots, removes every upper-case ASCII letter and the Kelvin sign, and produces a lower-case letter only from itself, its capital or the Kelvin sign |
| ContentTypes.ContentTypeFromFileName | actions/files.ts:32-80 | never empty; the table entry for the lower-case extension, and the generic binary type exactly when the table has none |
| ContentTypes.MimeTypeFor | actions/files.ts:34-79 | whichever of the six groups has an entry for the key gives the answer, so the order the groups are tried in does not matter; no answer exactly when no group has an entry |
| ContentTypes.ImageTypeFor | actions/files.ts:35-43 | an entry exactly for the eight image extensions; each one an `image/` type other than the fallback, under a letter-led key |
| ContentTypes.DocumentTypeFor | actions/files.ts:44-53 | every entry is a non-empty type that is neither an `image/` type nor the fallback, under a letter-led key |
| ContentTypes.ArchiveTypeFor | actions/files.ts:54-59 | every entry is a non-empty type that is neither an `image/` type nor the fallback, and its key is letter-led or `7z` |
| ContentTypes.AudioTypeFor | actions/files.ts:60-64 | every entry is a non-empty type that is neither an `image/` type nor the fallback, under a letter-led key |
| ContentTypes.VideoTypeFor | actions/files.ts:65-71 | every entry is a non-empty type that is neither an `image/` type nor the fallback, under a letter-led key |
| ContentTypes.CodeTypeFor | actions/files.ts:72-77 | every entry is a non-empty type that is neither an `image/` type nor the fallback, under a letter-led key |
| ContentTypes.GroupsAreDisjoint | actions/files.ts:34-79 | no key is in two groups: at most one group has an entry for any extension |
| ContentTypes.TableEntryShape | actions/files.ts:34-79 | every entry is a non-empty type other than the fallback; it is an `image/` type exactly for the eight image extensions; every key starts with a lower-case letter except `7z` |
| ContentTypes.TableEntryNotFallback | actions/files.ts:34-79 | no table entry is empty or the fallback type |
| ContentTypes.TableImageEntries | actions/files.ts:36-43 | a table entry is an `image/` type exactly for the eight image extensions, which all have entries |
| ContentTypes.DigitLedTableKey | actions/files.ts:57 | `7z` is the only table key that starts with a digit |
| ContentTypes.IsImageFile | actions/files.ts:17-29 | the lower-cased name ends with one of the eight dotted suffixes iff the name has a dot and its extension is an image extension |
| ContentTypes.ImageFileByExtension | actions/files.ts:17-29 | the suffix test and the extension test agree on every name, in both directions |
| ContentTypes.ContentTypeIgnoresCase | actions/files.ts:33 | resolution ignores the case of the name |
| ContentTypes.ContentTypeOfUpperCasePng | actions/files.ts:33 | `a.PNG` and `a.png` both resolve to `image/png` |
| ContentTypes.ImageFileHasImageType | actions/files.ts:17-43 | every image file resolves to an `image/` type |
| ContentTypes.ImageTypeMeansImageFile | actions/files.ts:17-43 | a name is an image file iff it has a dot and resolves to an `image/` type |
| ContentTypes.DotlessNameIsNotImage | actions/files.ts:17-43 | `png` resolves to `image/png` but is not an image file, so the converse needs the dot |
| Listing.ToFileItem | actions/files.ts:116-128 | name, size, timestamp and etag are copied; the type is `getContentTypeFromFileName` of the name and the image flag is `isImageFile` of the name, both always set; so the type is never empty, and when the flag is true it is an `image/` type |
| Listing.Enriched | actions/files.ts:115-129 | one record per enumerated entry, in enumeration order |
| Listing.Compare | actions/files.ts:132-138 | negative exactly when `a` is an image and `b` is not, or both are in one group and `a` is newer; positive exactly in the mirrored cases |
| Listing.CompareIsConsistent | actions/files.ts:132-138 | the comparator is antisymmetric and transitive, and ties exactly the records with equal image flag and timestamp |
| Listing.SortFiles | actions/files.ts:132-138 | the sorted list is a permutation of its input, sorted by the comparator, and keeps input order among ties |
| Listing.StableSortIsUnique | actions/files.ts:132-138 | any stable sorted permutation equals this one, so the model pins down the JavaScript sort's result |
| Listing.SortIsIdempotent | actions/files.ts:132-138 | sorting an already sorted listing changes nothing |
| Listing.SortedMeansImagesFirstNewestFirst | actions/files.ts:131-138 | sorted means every image precedes every non-image and timestamps do not increase within each group, in both directions |
| Listing.ListFiles | actions/files.ts:110-143 | an enumeration error gives the empty list; otherwise the enriched records are a stable sorted permutation of the enumeration; every record comes from an enumerated entry |
| Listing.ListedRecordsComeFromEnumeration | actions/files.ts:115-138 | every listed record is the record of some enumerated entry |
| Retrieval.Concat | actions/files.ts:209 | the concatenation's length is the sum of the chunk lengths |
| Retrieval.ConcatAppend | actions/files.ts:209 | concatenation distributes over joining chunk lists |
| Retrieval.ConcatKeepsOrder | actions/files.ts:205-209 | byte `j` of chunk `i` sits at its offset in the result: nothing is lost, repeated or reordered |
| Retrieval.FileStreamOf | actions/files.ts:200-214 | `null` exactly on a stream error, otherwise the concatenation; an empty object is present and empty |
| Retrieval.GetFileStream | actions/files.ts:200-214 | the chunk loop returns the concatenation of all chunks, or none on error |
| Uploads.Decimal | actions/files.ts:91 | the clock's decimal text is non-empty digits without a leading zero |
| Uploads.DecimalRoundTrip | actions/files.ts:91 | reading the decimal text back gives the clock reading |
| Uploads.MintKey | actions/files.ts:91 | the minted key ends with the original name and has a dot iff the name has one |
| Uploads.ParseMintedKey | actions/files.ts:91 | a minted key splits back into the clock reading and the original name |
| Uploads.MintParsedKey | actions/files.ts:91 | every key of the minted shape is the minting of its parts |
| Uploads.MintKeyInjective | actions/files.ts:220 | different clock readings or different names give different keys |
| Uploads.MintedKeyKeepsContentType | actions/files.ts:94 | for a dotted name the key resolves to the name's own type |
| Uploads.DotlessNameGetsOctetStream | actions/files.ts:94 | for a dotless name the key resolves to the generic binary type |
| Uploads.MintedPngIsOctetStream | actions/files.ts:94 | an upload named `png` is typed generic binary, though `png` alone resolves to `image/png` |
| Uploads.StoredContentType | actions/files.ts:94 | the declared type when it is non-empty, otherwise the type of the minted key; never empty |
| Uploads.UploadRequest | actions/files.ts:84-95 | a store write happens exactly for a file entry, with the minted key, the bytes, their length and the chosen type |
| Uploads.UploadFile | actions/files.ts:82-108 | no entry or an empty text field gives "No file provided"; a non-empty text field fails when read as a file; otherwise a success with the key, or the store's error message |
| Uploads.NoFileNoStoreCall | actions/files.ts:86-88 | without a file the result does not depend on the store, and it is a failure |
| Uploads.UploadReportsMintedKey | actions/files.ts:91-103 | a successful upload reports a key that parses back to the clock reading and the file's name |
| Uploads.UndeclaredTypeFollowsName | actions/files.ts:94 | with no declared type, a dotted name is stored with the type its own name resolves to |
| Uploads.GetPresignedUploadUrl | actions/files.ts:215-231 | presigns the minted key with a 300-second expiry; reports the URL and key, or the error message |
| Uploads.PresignIgnoresContentType | actions/files.ts:217-225 | the requested content type has no effect |
| Uploads.UploadPathsAgreeOnKey | actions/files.ts:220 | with the same clock reading and name both upload paths target the same key |
| Uploads.DeleteFile | actions/files.ts:145-159 | success exactly when the removal succeeds, with the fixed message; otherwise the store's error |
| UriComponent.EncodeUriComponent | actions/files.ts:188-190 | the encoding has only unreserved characters and `%` |
| UriComponent.EncodeUnreservedIsIdentity | actions/files.ts:188-190 | a name of unreserved characters is its own encoding |
| UriComponent.DecodeEncode | actions/files.ts:188-190 | decoding the encoding never fails and gives the name back |
| UriComponent.EncodeInjective | actions/files.ts:188-190 | distinct names have distinct encodings |
| Disposition.AttachmentHeader | app/api/files/download/route.ts:22 | the header begins with `attachment; filename=` |
| Disposition.PlainNameSurvives | app/api/files/download/route.ts:22 | for a name without quote or backslash, a reader of the header recovers the name exactly |
| Disposition.BackslashIsLost | app/api/files/download/route.ts:22 | the header for `a\b` names `ab` |
| Disposition.QuoteBreaksHeader | app/api/files/download/route.ts:22 | the header for `a"b` names no file |
| Disposition.EscapeKeepsPlainName | app/api/files/download/route.ts:22 | escaping leaves a name without quote or backslash unchanged |
| Disposition.EscapedAttachmentHeader | app/api/files/download/route.ts:22 | the escaped header is the written header for every name that needs no escaping |
| Disposition.EscapedNameSurvives | app/api/files/download/route.ts:22 | with escaping, every name is recovered from the header |
| AccessUrls.Protocol | actions/files.ts:170-171 | `https` exactly when the SSL flag is the string `true`, else `http` |
| AccessUrls.EffectivePort | actions/files.ts:169 | an unset or empty port means `443`; otherwise the port as given |
| AccessUrls.PortSuffix | actions/files.ts:172-175 | empty exactly for HTTPS on 443 or HTTP on 80, otherwise `:` and the port |
| AccessUrls.ViewUrl | actions/files.ts:178-180 | starts with the protocol and `://`; the key follows the bucket prefix verbatim |
| AccessUrls.ViewUrlDeterminesKey | actions/files.ts:179 | two view URLs of one configuration are equal iff their keys are |
| AccessUrls.DefaultPortsAreOmitted | actions/files.ts:169-179 | HTTPS with an unset port and HTTP on 80 give URLs without a port |
| AccessUrls.NonTrueFlagMeansHttp | actions/files.ts:169-175 | any other SSL flag gives HTTP with `:443` written out when the port is unset |
| AccessUrls.DownloadDisposition | actions/files.ts:188-190 | a reader of the requested disposition recovers exactly the percent-encoded name |
| AccessUrls.EncodedNameIsPlain | actions/files.ts:188-190 | the encoded name needs no escaping inside the quoted-string |
| AccessUrls.GetFileUrl | actions/files.ts:161-197 | view mode gives the view URL with no store call; download mode gives the presigned URL for the key, expiry and disposition, or none when presigning fails |
| AccessUrls.DownloadRequestCarriesName | actions/files.ts:163 | the default expiry is one hour, and the disposition's filename decodes back to the key |
| AccessUrls.FragmentTruncatesViewUrl | actions/files.ts:179 | the view URL of `a#b.png` reaches the store as the request for `a` |
| AccessUrls.EncodedViewUrlKeepsKey | actions/files.ts:179 | with the key encoded, the whole URL reaches the store and its key part decodes to the key |
| ImageRoute.ImageMimeTypeFor | app/api/files/image/route.ts:22-31 | the route's table has an entry exactly for the eight image extensions, and each entry is an `image/` type |
| ImageRoute.ImageTableIsMainTableRestricted | app/api/files/image/route.ts:22-31 | the route's table is the main table restricted to the eight image extensions |
| ImageRoute.ImageContentType | app/api/files/image/route.ts:21-33 | the main table's type for an image extension, otherwise the generic binary type |
| ImageRoute.ImageContentTypeAgreesWithClassifier | app/api/files/image/route.ts:21-33 | the served type is an image type iff the extension is an image extension, and for dotted names iff `isImageFile` holds |
| ImageRoute.PdfIsServedAsBinary | app/api/files/image/route.ts:33 | `a.pdf` is `application/pdf` in the main table but served as generic binary here |
| ImageRoute.ImageHeadersAreValid | app/api/files/image/route.ts:35-40 | the route's header values are always accepted by the runtime |
| ImageRoute.Get | app/api/files/image/route.ts:5-44 | 400 "fileName required" for a missing or empty name, 404 "File not found" when the read fails, otherwise 200 with the bytes, the type and the cache policy |
| ImageRoute.ImageRouteOutcomes | app/api/files/image/route.ts:5-44 | the status is 200, 400 or 404, never 500; a 200 carries the object's bytes in order and the immutable cache policy |
| ImageRoute.NoNameNoRead | app/api/files/image/route.ts:10-12 | a request without a name does not depend on the store |
| DownloadRoute.DownloadHeaders | app/api/files/download/route.ts:20-25 | the content type is the generic binary type; a disposition is present, and a reader of it recovers the name whenever the name has no quote or backslash |
| DownloadRoute.DownloadHeadersValid | app/api/files/download/route.ts:20-25 | the headers are accepted iff the name is acceptable header text |
| DownloadRoute.Get | app/api/files/download/route.ts:5-29 | 400 for a missing or empty name, 404 when the read fails, 500 when the name cannot go in a header, otherwise 200 with the bytes as an attachment |
| DownloadRoute.ServedDownloadHeaders | app/api/files/download/route.ts:20-25 | a served download is generic binary, and its disposition names the key when the key has no quote or backslash |
| DownloadRoute.EmptyObjectIsServed | app/api/files/download/route.ts:14-18 | a zero-byte object is served with status 200, not 404 |
| DownloadRoute.NonLatin1NameFails | app/api/files/download/route.ts:20-28 | a readable key with a character outside Latin-1 gets a 500 |
| FileList.Images | app/files/file-list.tsx:12 | every kept record is an image, and there are no more of them than records |
| FileList.OtherFiles | app/files/file-list.tsx:13 | every kept record is a non-image, and there are no more of them than records |
| FileList.PartitionIsPermutation | app/files/file-list.tsx:12-13 | together the two lists are a permutation of the listing, so their lengths add up |
| FileList.ImagesDistribute | app/files/file-list.tsx:12 | the image filter keeps order: it distributes over concatenation |
| FileList.OtherFilesDistribute | app/files/file-list.tsx:13 | the other-files filter keeps order: it distributes over concatenation |
| FileList.UnsetFlagIsOther | app/files/file-list.tsx:12-13 | a record without an image flag goes to the other files |
| FileList.ImagesFirstSplits | app/files/file-list.tsx:12-13 | when no non-image precedes an image, the listing is its images followed by its other files |
| FileList.SortedListingSplitsAtImages | app/files/file-list.tsx:12-13 | a listing sorted by `listFiles` is exactly its images followed by its other files |
| FileList.ViewOf | app/files/file-list.tsx:15-60 | the empty state iff the listing is empty; each section shows iff its list is non-empty, with the list's length as its badge |
| FileList.SectionsCoverListing | app/files/file-list.tsx:30-53 | a non-empty listing shows a section, and the badges add up to the number of records |
| FileCard.IconForExtension | app/files/file-card.tsx:48-85 | each icon goes exactly with its group of extensions (page: pdf; memo: doc, docx; chart: xls, xlsx; projector: ppt, pptx; clamp: zip, rar, 7z; camera: mp4, avi, mov, mkv; music: mp3, wav, flac; curled page: txt; clipboard: json, xml; laptop: html, css, js, ts); the paperclip iff the extension is none of these 24 |
| FileCard.GetFileIcon | app/files/file-card.tsx:46-86 | the icon is not the paperclip iff the name's lower-cased last segment is one of the 24 listed; a dotless name is its own extension, lower-cased |
| FileCard.IconOfDottedName | app/files/file-card.tsx:47 | `a.b` with a dot-free `b` gets the icon of `b` lower-cased, whatever `a` is |
| FileCard.IconIgnoresCase | app/files/file-card.tsx:47 | the icon ignores the case of the name |
| FileCard.IconExtensionsInTable | app/files/file-card.tsx:48-82 | of the listed extensions all but `flac` and `ts` have content-table entries |
| FileCard.FlacHasIconButNoType | app/files/file-card.tsx:71 | `song.flac` gets the music icon but resolves to generic binary |
| FileCard.TsHasIconButNoType | app/files/file-card.tsx:81 | `app.ts` gets the code icon but resolves to generic binary |
| FileCard.DotlessNameGetsDefaultIcon | app/files/file-card.tsx:83-85 | `README` gets the paperclip |
| FileCard.DotlessPdfGetsPageIcon | app/files/file-card.tsx:47-50 | a name `pdf` with no dot is its own extension and gets the page icon |

## Left out

- The MinIO client, the AWS Signature V4 signing behind presigned URLs, and `lib/minio.ts`
  (environment parsing, client construction, `ensureBucket`) are not part of this model.
  Store answers are parameters.
- `Date.now()` is a parameter. `toISOString` and `new Date(…).getTime()` are left out:
  timestamps are integer milliseconds.
- `revalidatePath` and `console` logging are side effects with no bearing on results.
- Async iteration, streams as such, and concurrency between requests are left out.
  Enumerations and byte streams are finite sequences with an end outcome.
- The React UI is not part of this model: rendering, `image-card.tsx`, `file-upload.tsx`,
  the pages, and the size display. `FileList` is reduced to which parts it shows and the
  badge counts. `FileCard` is reduced to `getFileIcon`.
- Text.LowerChar: lower-cases only ASCII A-Z and the Kelvin sign (U+212A, which becomes
  `k`). Every other character is kept. All the tables here are lower-case ASCII, and no
  other character lower-cases to a string of ASCII letters and digits, so this changes no
  lookup. The lengths of full Unicode lower-casing are not modelled.
- ContentTypes.ContentTypeFromFileName: keys that hit `Object.prototype` are not modelled
  (for example `constructor` or `__proto__`, where the source returns a non-string).
  ImageRoute.ImageContentType leaves the same quirk out.
- UriComponent.EncodeUriComponent: strings are sequences of Unicode scalar values. A lone
  UTF-16 surrogate, on which `encodeURIComponent` throws, cannot be written. So
  download-mode `getFileUrl` never fails on the name here.
- Http.InvalidHeaderValue: the runtime's exact error text is not modelled, only that one
  fixed message comes back with status 500.
- Uploads.UploadFile: the message of a non-empty text field is the engine's wording of the
  `TypeError`. An `arrayBuffer()` read failure is not modelled.
- AccessUrls.GetFileUrl: the endpoint is a string. An unset `MINIO_ENDPOINT` (which the
  source would render as `undefined`) is not distinguished. Presigning failures, including
  an expiry the client rejects, all come back as `Err`.
- Listing.ListFiles: an error thrown during enumeration discards everything enumerated so
  far. The model expresses this through the enumeration's end outcome.
- The catch branch of the image route (status 500) is not modelled as a separate path:
  nothing inside that route's `try` can throw here, and `ImageRoute.ImageRouteOutcomes`
  proves it never answers 500. `getFileStream` catches its own errors.

## Findings

| source | as written | input that shows it | evidently intended | confidence | as-written member | corrected member |
|---|---|---|---|---|---|---|
| app/api/files/download/route.ts:22 | the key is put between quotes without escaping `"` or `\` | key `a"b` gives a header that names no file; key `a\b` gives a header that names `ab` | the filename parameter is a valid quoted-string that names the key | medium, not executed | Disposition.QuoteBreaksHeader | Disposition.EscapedAttachmentHeader |
| actions/files.ts:179 | the key is appended to the view URL without percent-encoding | key `a#b.png`: everything from `#` on is a fragment, so the store is asked for `a` | the URL addresses the object whose key it was built from | medium, not executed | AccessUrls.FragmentTruncatesViewUrl | AccessUrls.EncodedViewUrlKeepsKey |

Each corrected definition comes with its proof. `Disposition.EscapedNameSurvives` shows
that every name is recovered from the escaped header. `AccessUrls.EncodedViewUrlKeepsKey`
shows that the encoded URL is delivered whole and decodes to the key. Each corrected
definition agrees with the code on the names the code already handles
(`Disposition.EscapedAttachmentHeader`, and the last clause of
`AccessUrls.EncodedViewUrlKeepsKey`). `DownloadRoute.Get` and `AccessUrls.GetFileUrl`
keep the behaviour as written, since they model the source.
