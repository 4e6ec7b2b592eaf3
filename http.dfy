/** The responses the two file routes send, and the checks the runtime's
    `Headers` applies to a header value before a response is built. */
module Http {
  import opened Base

  /** A JSON error body `{ error }` with its status, or raw bytes served with
      status 200 and a list of headers. */
  datatype Response =
    | JsonError(status: nat, error: string)
    | Bytes(status: nat, body: seq<byte>, headers: seq<(string, string)>)

  const FileNameRequired := "fileName required"
  const FileNotFound := "File not found"

  /** The `TypeError` the runtime throws for a header value it refuses (the
      engine's wording is not modelled, only that it is this one message). */
  const InvalidHeaderValue := "Invalid header value"

  /** What the runtime accepts as a header value: every character fits in a
      byte, and none is NUL, CR or LF. */
  predicate ValidHeaderValue(v: string)
  {
    forall i :: 0 <= i < |v| ==> v[i] as int < 256 && v[i] != '\0' && v[i] != '\r' && v[i] != '\n'
  }

  predicate ValidHeaders(headers: seq<(string, string)>)
  {
    forall i :: 0 <= i < |headers| ==> ValidHeaderValue(headers[i].1)
  }

  /** A header value of printable ASCII is always accepted. */
  lemma PrintableAsciiIsValid(v: string)
    requires forall i :: 0 <= i < |v| ==> ' ' <= v[i] <= '~'
    ensures ValidHeaderValue(v)
  {
  }

  /** The value of the first header with a given name. */
  function HeaderValue(headers: seq<(string, string)>, name: string): (r: Option<string>)
    ensures r.Some? ==> exists i :: 0 <= i < |headers| && headers[i] == (name, r.value)
    ensures r.None? ==> forall i :: 0 <= i < |headers| ==> headers[i].0 != name
  {
    if headers == [] then None
    else if headers[0].0 == name then Some(headers[0].1)
    else
      var r := HeaderValue(headers[1..], name);
      if r.Some? then
        var i :| 0 <= i < |headers[1..]| && headers[1..][i] == (name, r.value);
        assert headers[i + 1] == (name, r.value);
        r
      else r
  }
}
