/** `getFileUrl`: a direct public URL for viewing, or a presigned URL whose
    response carries an attachment disposition for downloading. The store's
    connection settings are a parameter; the presigning call is a function
    parameter that answers with the URL or the error it threw. */
module AccessUrls {
  import opened Base
  import opened Text
  import opened UriComponent
  import opened Disposition

  /** The environment settings `getFileUrl` reads (`MINIO_ENDPOINT`,
      `MINIO_PORT`, `MINIO_USE_SSL`; `None` for an unset variable) and the
      bucket name. */
  datatype StoreConfig = StoreConfig(endpoint: string, port: Option<string>, useSsl: Option<string>, bucket: string)

  /** SSL is on only when the flag is exactly `"true"`. */
  predicate UseSsl(config: StoreConfig)
  {
    config.useSsl == Some("true")
  }

  function Protocol(config: StoreConfig): (p: string)
    ensures p == "https" <==> UseSsl(config)
    ensures p == "http" <==> !UseSsl(config)
  {
    if UseSsl(config) then "https" else "http"
  }

  /** `MINIO_PORT || "443"`: an unset or empty port means 443. */
  function EffectivePort(config: StoreConfig): (port: string)
    ensures port != ""
    ensures config.port.Some? && config.port.value != "" ==> port == config.port.value
    ensures config.port.None? || config.port == Some("") ==> port == "443"
  {
    match config.port
    case Some(p) => if p != "" then p else "443"
    case None => "443"
  }

  /** The port is left out of the URL exactly when it is the default port of
      the protocol; otherwise it follows a colon. */
  function PortSuffix(config: StoreConfig): (suffix: string)
    ensures suffix == "" <==>
      (UseSsl(config) && EffectivePort(config) == "443") || (!UseSsl(config) && EffectivePort(config) == "80")
    ensures suffix != "" ==> suffix == ":" + EffectivePort(config)
  {
    var port := EffectivePort(config);
    if (UseSsl(config) && port == "443") || (!UseSsl(config) && port == "80") then "" else ":" + port
  }

  /** Everything of a view URL before the key. */
  function ViewPrefix(config: StoreConfig): (prefix: string)
    ensures StartsWith(prefix, Protocol(config) + "://")
  {
    var scheme := Protocol(config) + "://";
    var prefix := scheme + (config.endpoint + PortSuffix(config) + "/" + config.bucket + "/");
    assert prefix[..|scheme|] == scheme;
    prefix
  }

  lemma StartsWithAppend(a: string, b: string, p: string)
    requires StartsWith(a, p)
    ensures StartsWith(a + b, p)
  {
    assert (a + b)[..|p|] == a[..|p|];
  }

  /** The view URL: the key is appended as it is, not percent-encoded. */
  function ViewUrl(config: StoreConfig, fileName: string): (url: string)
    ensures StartsWith(url, Protocol(config) + "://")
    ensures |url| == |ViewPrefix(config)| + |fileName|
    ensures url[..|ViewPrefix(config)|] == ViewPrefix(config)
    ensures url[|ViewPrefix(config)|..] == fileName
  {
    StartsWithAppend(ViewPrefix(config), fileName, Protocol(config) + "://");
    ViewPrefix(config) + fileName
  }

  /** The default lifetime of a download URL: one hour. */
  const DefaultUrlExpiry := 60 * 60

  /** One `presignedGetObject` call with its response-header override. */
  datatype PresignGetRequest = PresignGetRequest(bucket: string, key: string, expirySeconds: int, contentDisposition: string)

  /** The disposition download URLs ask for: the percent-encoded name as a
      quoted-string filename. */
  function DownloadDisposition(fileName: string): (h: string)
    ensures FilenameParameter(h) == Some(EncodeUriComponent(fileName))
  {
    var encoded := EncodeUriComponent(fileName);
    EncodedNameIsPlain(fileName);
    PlainNameSurvives(encoded);
    AttachmentHeader(encoded)
  }

  /** An encoded name has no quote and no backslash, so it needs no escaping
      inside a quoted-string. */
  lemma EncodedNameIsPlain(fileName: string)
    ensures PlainName(EncodeUriComponent(fileName))
  {
    var e := EncodeUriComponent(fileName);
    forall i | 0 <= i < |e|
      ensures e[i] != '"' && e[i] != '\\'
    {
      assert Unreserved(e[i]) || e[i] == '%';
    }
  }

  /** `getFileUrl`. In view mode the public URL, which needs no store call
      and cannot fail; in download mode the presigned URL for the key with
      the given lifetime and the attachment disposition, or `None` when
      presigning fails. */
  function GetFileUrl(config: StoreConfig, presignGet: PresignGetRequest -> Result<string>, fileName: string,
                      expirySeconds: int := DefaultUrlExpiry, forceDownload: bool := false): (r: Option<string>)
    ensures !forceDownload ==> r == Some(ViewUrl(config, fileName))
    ensures forceDownload ==>
      var req := PresignGetRequest(config.bucket, fileName, expirySeconds, DownloadDisposition(fileName));
      (r.Some? <==> presignGet(req).Ok?) && (r.Some? ==> r.value == presignGet(req).value)
  {
    if !forceDownload then
      Some(ViewUrl(config, fileName))
    else
      match presignGet(PresignGetRequest(config.bucket, fileName, expirySeconds, DownloadDisposition(fileName)))
      case Ok(url) => Some(url)
      case Err(_) => None
  }

  /** The two ways a configuration can omit the port: HTTPS on 443 (also
      when the port is unset) and plain HTTP on 80. */
  lemma DefaultPortsAreOmitted(endpoint: string, bucket: string, fileName: string)
    ensures ViewUrl(StoreConfig(endpoint, None, Some("true"), bucket), fileName)
         == "https://" + endpoint + "/" + bucket + "/" + fileName
    ensures ViewUrl(StoreConfig(endpoint, Some("80"), Some("false"), bucket), fileName)
         == "http://" + endpoint + "/" + bucket + "/" + fileName
  {
    var https := StoreConfig(endpoint, None, Some("true"), bucket);
    var http := StoreConfig(endpoint, Some("80"), Some("false"), bucket);
    assert Protocol(https) == "https" && PortSuffix(https) == "";
    assert Protocol(http) == "http" && PortSuffix(http) == "";
  }

  /** Any flag other than exactly `"true"` means plain HTTP, and then an
      unset port still defaults to 443 and is written out. */
  lemma NonTrueFlagMeansHttp(endpoint: string, flag: Option<string>, bucket: string, fileName: string)
    requires flag != Some("true")
    ensures ViewUrl(StoreConfig(endpoint, None, flag, bucket), fileName)
         == "http://" + endpoint + ":443/" + bucket + "/" + fileName
  {
    var config := StoreConfig(endpoint, None, flag, bucket);
    assert Protocol(config) == "http" && PortSuffix(config) == ":443";
  }

  /** Two view URLs for one configuration are equal exactly when the keys
      are: the URL determines the key. */
  lemma ViewUrlDeterminesKey(config: StoreConfig, a: string, b: string)
    ensures ViewUrl(config, a) == ViewUrl(config, b) <==> a == b
  {
    if ViewUrl(config, a) == ViewUrl(config, b) {
      assert ViewUrl(config, a)[|ViewPrefix(config)|..] == a;
    }
  }

  /** Download mode asks for the default hour unless told otherwise, and the
      disposition's file name decodes back to the key. */
  lemma {:induction false} DownloadRequestCarriesName(config: StoreConfig, presignGet: PresignGetRequest -> Result<string>,
                                                      fileName: string)
    ensures GetFileUrl(config, presignGet, fileName, forceDownload := true)
         == GetFileUrl(config, presignGet, fileName, DefaultUrlExpiry, true)
    ensures DecodeUriComponent(FilenameParameter(DownloadDisposition(fileName)).value) == Some(fileName)
  {
    DecodeEncode(fileName);
  }

  /** The part of a URL a server receives as the path: everything before the
      first `?` or `#`. */
  function RequestPath(url: string): (r: string)
    ensures |r| <= |url| && r == url[..|r|]
    ensures '?' !in r && '#' !in r
    ensures |r| < |url| ==> url[|r|] == '?' || url[|r|] == '#'
  {
    if url == [] || url[0] == '?' || url[0] == '#' then []
    else [url[0]] + RequestPath(url[1..])
  }

  lemma {:induction false} RequestPathOfPlain(url: string)
    requires '?' !in url && '#' !in url
    ensures RequestPath(url) == url
  {
    if url != [] {
      RequestPathOfPlain(url[1..]);
    }
  }

  lemma {:induction false} RequestPathAppend(a: string, b: string)
    requires '?' !in a && '#' !in a
    ensures RequestPath(a + b) == a + RequestPath(b)
  {
    if a != [] {
      assert (a + b)[1..] == a[1..] + b;
      assert (a + b)[0] == a[0] && a[0] != '?' && a[0] != '#';
      RequestPathAppend(a[1..], b);
      assert RequestPath(a + b) == [a[0]] + RequestPath(a[1..] + b);
      assert a == [a[0]] + a[1..];
    } else {
      assert a + b == b;
    }
  }

  /** A configuration whose endpoint, port and bucket have no `?` or `#`. */
  predicate PlainConfig(config: StoreConfig)
  {
    && '?' !in config.endpoint && '#' !in config.endpoint
    && '?' !in EffectivePort(config) && '#' !in EffectivePort(config)
    && '?' !in config.bucket && '#' !in config.bucket
  }

  lemma PlainPrefix(config: StoreConfig)
    requires PlainConfig(config)
    ensures '?' !in ViewPrefix(config) && '#' !in ViewPrefix(config)
  {
    var port := PortSuffix(config);
    assert '?' !in port && '#' !in port by {
      if port != "" {
        assert port == ":" + EffectivePort(config);
      }
    }
    var rest := config.endpoint + port + "/" + config.bucket + "/";
    assert '?' !in rest && '#' !in rest;
    assert ViewPrefix(config) == Protocol(config) + "://" + rest;
  }

  /** As written, a key with a `#` is cut short: the view URL of `a#b.png`
      reaches the store as a request for the key `a`. */
  lemma {:induction false} FragmentTruncatesViewUrl(config: StoreConfig)
    requires PlainConfig(config)
    ensures RequestPath(ViewUrl(config, "a#b.png")) == ViewUrl(config, "a")
  {
    PlainPrefix(config);
    RequestPathAppend(ViewPrefix(config), "a#b.png");
    assert RequestPath("#b.png") == [];
    assert RequestPath("a#b.png") == "a";
  }

  /** The view URL with its key percent-encoded. */
  function EncodedViewUrl(config: StoreConfig, fileName: string): string
  {
    ViewPrefix(config) + EncodeUriComponent(fileName)
  }

  /** With the key encoded, the whole URL reaches the store and its last
      part decodes to the key, whatever the key contains; for keys of
      unreserved characters it is the URL the gateway writes. */
  lemma {:induction false} EncodedViewUrlKeepsKey(config: StoreConfig, fileName: string)
    requires PlainConfig(config)
    ensures RequestPath(EncodedViewUrl(config, fileName)) == EncodedViewUrl(config, fileName)
    ensures DecodeUriComponent(EncodedViewUrl(config, fileName)[|ViewPrefix(config)|..]) == Some(fileName)
    ensures (forall i :: 0 <= i < |fileName| ==> Unreserved(fileName[i])) ==>
      EncodedViewUrl(config, fileName) == ViewUrl(config, fileName)
  {
    var url := EncodedViewUrl(config, fileName);
    var e := EncodeUriComponent(fileName);
    PlainPrefix(config);
    assert '?' !in e && '#' !in e by {
      forall i | 0 <= i < |e|
        ensures e[i] != '?' && e[i] != '#'
      {
        assert Unreserved(e[i]) || e[i] == '%';
      }
    }
    RequestPathOfPlain(url);
    assert url[|ViewPrefix(config)|..] == e;
    DecodeEncode(fileName);
    if forall i :: 0 <= i < |fileName| ==> Unreserved(fileName[i]) {
      EncodeUnreservedIsIdentity(fileName);
    }
  }
}
