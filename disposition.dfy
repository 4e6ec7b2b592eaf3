/** The `Content-Disposition: attachment; filename="…"` header value of
    section 4.1 of RFC 6266, whose `filename` parameter is a quoted-string
    in the sense of section 3.2.6 of RFC 7230: a double quote, then
    characters other than `"` and `\` or a backslash followed by any
    character, then a closing double quote. */
module Disposition {
  import opened Base
  import opened Text

  const AttachmentPrefix := "attachment; filename="

  /** Read a quoted-string at the front of `s`: its unescaped content and
      the text after the closing quote, or `None` when `s` does not start
      with a quote or the string is never closed. */
  function ReadQuoted(s: string): Option<(string, string)>
  {
    if s == [] || s[0] != '"' then None else ReadQuotedBody(s[1..])
  }

  function ReadQuotedBody(s: string): (r: Option<(string, string)>)
    ensures r.Some? ==> |r.value.1| < |s|
  {
    if s == [] then None
    else if s[0] == '"' then Some(([], s[1..]))
    else if s[0] == '\\' then
      if |s| < 2 then None
      else match ReadQuotedBody(s[2..])
        case Some((content, rest)) => Some(([s[1]] + content, rest))
        case None => None
    else
      match ReadQuotedBody(s[1..])
      case Some((content, rest)) => Some(([s[0]] + content, rest))
      case None => None
  }

  /** The file name a reader of the header recovers: the quoted-string after
      the prefix, provided the header ends with it. */
  function FilenameParameter(header: string): Option<string>
  {
    if StartsWith(header, AttachmentPrefix) then
      match ReadQuoted(header[|AttachmentPrefix|..])
      case Some((name, "")) => Some(name)
      case _ => None
    else None
  }

  /** A name that needs no escaping: no quote and no backslash. */
  predicate PlainName(name: string)
  {
    forall i :: 0 <= i < |name| ==> name[i] != '"' && name[i] != '\\'
  }

  /** The header as the gateway writes it: the name between two quotes,
      unescaped. */
  function AttachmentHeader(name: string): (h: string)
    ensures StartsWith(h, AttachmentPrefix)
  {
    var h := AttachmentPrefix + "\"" + name + "\"";
    assert h[..|AttachmentPrefix|] == AttachmentPrefix;
    h
  }

  lemma {:induction false} ReadPlainBody(name: string, rest: string)
    requires PlainName(name)
    ensures ReadQuotedBody(name + "\"" + rest) == Some((name, rest))
  {
    if name != [] {
      assert (name + "\"" + rest)[1..] == name[1..] + "\"" + rest;
      ReadPlainBody(name[1..], rest);
      assert name == [name[0]] + name[1..];
    } else {
      assert name + "\"" + rest == "\"" + rest;
    }
  }

  /** For a plain name the header carries the name exactly. */
  lemma {:induction false} PlainNameSurvives(name: string)
    requires PlainName(name)
    ensures FilenameParameter(AttachmentHeader(name)) == Some(name)
  {
    var h := AttachmentHeader(name);
    assert h[|AttachmentPrefix|..] == "\"" + (name + "\"" + "");
    assert (name + "\"" + "") == name + "\"";
    ReadPlainBody(name, "");
  }

  /** A backslash in the name is read as an escape: `a\b` comes back as
      `ab`. */
  lemma BackslashIsLost()
    ensures FilenameParameter(AttachmentHeader(['a', '\\', 'b'])) == Some(['a', 'b'])
  {
    var h := AttachmentHeader(['a', '\\', 'b']);
    var body: string := ['a', '\\', 'b', '"'];
    assert h[|AttachmentPrefix|..] == ['"'] + body;
    var t := body[1..];
    assert t[0] == '\\' && t[1] == 'b' && t[2..] == ['"'];
    assert ['"'][1..] == [];
    assert ReadQuotedBody(t[2..]) == Some(([], []));
    assert [t[1]] + [] == ['b'];
    assert ReadQuotedBody(t) == Some((['b'], []));
    assert [body[0]] + ['b'] == ['a', 'b'];
  }

  /** A quote in the name closes the string early: the header for `a"b`
      has text after its quoted-string, so it names no file. */
  lemma QuoteBreaksHeader()
    ensures FilenameParameter(AttachmentHeader(['a', '"', 'b'])) == None
  {
    var h := AttachmentHeader(['a', '"', 'b']);
    var body: string := ['a', '"', 'b', '"'];
    assert h[|AttachmentPrefix|..] == ['"'] + body;
    var t := body[1..];
    assert t[0] == '"' && t[1..] == ['b', '"'];
    assert ReadQuotedBody(t) == Some(([], ['b', '"']));
    assert [body[0]] + [] == ['a'];
  }

  /** Backslash-escape every quote and backslash of the name. */
  function Escape(name: string): string
  {
    if name == [] then []
    else if name[0] == '"' || name[0] == '\\' then ['\\', name[0]] + Escape(name[1..])
    else [name[0]] + Escape(name[1..])
  }

  /** A name that needs no escaping is left as it is. */
  lemma {:induction false} EscapeKeepsPlainName(name: string)
    requires PlainName(name)
    ensures Escape(name) == name
  {
    if name != [] {
      EscapeKeepsPlainName(name[1..]);
      assert name == [name[0]] + name[1..];
    }
  }

  /** The header with the name escaped as a quoted-string requires. */
  function EscapedAttachmentHeader(name: string): (h: string)
    ensures PlainName(name) ==> h == AttachmentHeader(name)
  {
    var h := AttachmentPrefix + "\"" + Escape(name) + "\"";
    if PlainName(name) then EscapeKeepsPlainName(name); h else h
  }

  lemma {:induction false} ReadEscapedBody(name: string, rest: string)
    ensures ReadQuotedBody(Escape(name) + "\"" + rest) == Some((name, rest))
  {
    if name != [] {
      var c := name[0];
      var tail := Escape(name[1..]) + "\"" + rest;
      ReadEscapedBody(name[1..], rest);
      if c == '"' || c == '\\' {
        assert Escape(name) == ['\\', c] + Escape(name[1..]);
        assert Escape(name) + "\"" + rest == ['\\', c] + tail;
        ReadEscapedChar(c, tail);
      } else {
        assert Escape(name) == [c] + Escape(name[1..]);
        assert Escape(name) + "\"" + rest == [c] + tail;
        ReadPlainChar(c, tail);
      }
      assert name == [c] + name[1..];
    } else {
      assert Escape(name) + "\"" + rest == "\"" + rest;
    }
  }

  /** A backslash pair inside a quoted-string stands for its second
      character. */
  lemma ReadEscapedChar(c: char, t: string)
    ensures ReadQuotedBody(['\\', c] + t)
         == if ReadQuotedBody(t).Some? then Some(([c] + ReadQuotedBody(t).value.0, ReadQuotedBody(t).value.1)) else None
  {
    assert (['\\', c] + t)[2..] == t;
  }

  /** Any other character but the closing quote stands for itself. */
  lemma ReadPlainChar(c: char, t: string)
    requires c != '"' && c != '\\'
    ensures ReadQuotedBody([c] + t)
         == if ReadQuotedBody(t).Some? then Some(([c] + ReadQuotedBody(t).value.0, ReadQuotedBody(t).value.1)) else None
  {
    assert ([c] + t)[1..] == t;
  }

  /** With escaping, every name survives the header. */
  lemma {:induction false} EscapedNameSurvives(name: string)
    ensures FilenameParameter(EscapedAttachmentHeader(name)) == Some(name)
  {
    var h := EscapedAttachmentHeader(name);
    assert h[..|AttachmentPrefix|] == AttachmentPrefix;
    assert h[|AttachmentPrefix|..] == "\"" + (Escape(name) + "\"" + "");
    assert (Escape(name) + "\"" + "") == Escape(name) + "\"";
    ReadEscapedBody(name, "");
  }
}
