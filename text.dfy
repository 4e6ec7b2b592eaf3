/** String helpers shared by every component that looks at a file name's
    extension: `toLowerCase`, `endsWith`, `startsWith`, and the
    `name.split(".").pop()` idiom that picks the text after the last dot. */
module Text {

  /** `String.prototype.toLowerCase` on one character, for every character
      whose lower-case form is made of ASCII letters: A-Z and the Kelvin sign
      U+212A (which lower-cases to `k`). Every other character is kept; the
      lookup tables of this system hold ASCII only, so no other case mapping
      can change whether a name matches them. */
  function LowerChar(c: char): (r: char)
    ensures r == '.' <==> c == '.'
    ensures !('A' <= r <= 'Z') && r != '\U{212A}'
    ensures 'a' <= r <= 'z' ==> c == r || 'A' <= c <= 'Z' || c == '\U{212A}'
  {
    if 'A' <= c <= 'Z' then (c as int + 32) as char
    else if c == '\U{212A}' then 'k'
    else c
  }

  function Lower(s: string): (r: string)
    ensures |r| == |s|
    ensures forall i :: 0 <= i < |s| ==> r[i] == LowerChar(s[i])
  {
    seq(|s|, i requires 0 <= i < |s| => LowerChar(s[i]))
  }

  lemma LowerAppend(a: string, b: string)
    ensures Lower(a + b) == Lower(a) + Lower(b)
  {
  }

  /** Lower-casing twice is lower-casing once. */
  lemma LowerIdempotent(s: string)
    ensures Lower(Lower(s)) == Lower(s)
  {
  }

  lemma LowerKeepsDots(s: string)
    ensures forall i :: 0 <= i < |s| ==> (Lower(s)[i] == '.' <==> s[i] == '.')
    ensures '.' in Lower(s) <==> '.' in s
  {
    if '.' in Lower(s) {
      var i :| 0 <= i < |s| && Lower(s)[i] == '.';
      assert s[i] == '.';
    }
    if '.' in s {
      var i :| 0 <= i < |s| && s[i] == '.';
      assert Lower(s)[i] == '.';
    }
  }

  predicate EndsWith(s: string, suffix: string)
  {
    |suffix| <= |s| && s[|s| - |suffix|..] == suffix
  }

  predicate StartsWith(s: string, prefix: string)
  {
    |prefix| <= |s| && s[..|prefix|] == prefix
  }

  /** The last element of `s.split(".")`: the text after the last dot, or all
      of `s` when it has no dot. The contract pins the result down: it is the
      longest dot-free suffix of `s`. */
  function LastSegment(s: string): (r: string)
    ensures '.' !in r
    ensures |r| <= |s| && r == s[|s| - |r|..]
    ensures |r| < |s| ==> s[|s| - |r| - 1] == '.'
  {
    if s == [] then []
    else if s[|s| - 1] == '.' then []
    else LastSegment(s[..|s| - 1]) + [s[|s| - 1]]
  }

  /** The three postconditions of `LastSegment` determine its result. */
  lemma LastSegmentUnique(s: string, r: string)
    requires '.' !in r
    requires |r| <= |s| && r == s[|s| - |r|..]
    requires |r| < |s| ==> s[|s| - |r| - 1] == '.'
    ensures LastSegment(s) == r
  {
    var t := LastSegment(s);
  }

  /** The segment after a dot that is followed by no other dot. */
  lemma {:induction false} LastSegmentAfterDot(a: string, b: string)
    requires '.' !in b
    ensures LastSegment(a + ['.'] + b) == b
  {
    var s := a + ['.'] + b;
    assert s[|s| - |b|..] == b;
    assert s[|s| - |b| - 1] == '.';
    LastSegmentUnique(s, b);
  }

  /** A prefix cannot change the segment when the rest already has a dot. */
  lemma {:induction false} LastSegmentOfDottedSuffix(a: string, b: string)
    requires '.' in b
    ensures LastSegment(a + b) == LastSegment(b)
  {
    var r := LastSegment(b);
    var s := a + b;
    assert s[|s| - |r|..] == b[|b| - |r|..];
    assert s[|s| - |r| - 1] == b[|b| - |r| - 1];
    LastSegmentUnique(s, r);
  }

  /** A name's extension as every component here computes it:
      `name.split(".").pop()?.toLowerCase()`. */
  function Extension(name: string): (r: string)
    ensures '.' !in r
    ensures |r| <= |name|
  {
    LowerKeepsDots(LastSegment(name));
    Lower(LastSegment(name))
  }

  /** Splitting and lower-casing commute, so the extension ignores case. */
  lemma {:induction false} ExtensionIgnoresCase(name: string)
    ensures Extension(Lower(name)) == Extension(name)
  {
    var seg := LastSegment(name);
    var low := Lower(name);
    var lowSeg := Lower(seg);
    LowerKeepsDots(seg);
    LowerKeepsDots(name);
    assert low[|low| - |lowSeg|..] == lowSeg;
    if |lowSeg| < |low| {
      assert low[|low| - |lowSeg| - 1] == '.';
    }
    LastSegmentUnique(low, lowSeg);
    LowerIdempotent(seg);
  }

  /** A name ending in a dot and a dot-free text has that text (lower-cased)
      as its extension. */
  lemma {:induction false} ExtensionAfterDot(a: string, b: string)
    requires '.' !in b
    ensures Extension(a + ['.'] + b) == Lower(b)
  {
    LastSegmentAfterDot(a, b);
  }

  /** When the name has a dot, it ends with a dot followed by its segment. */
  lemma {:induction false} DottedNameSplits(name: string)
    requires '.' in name
    ensures |LastSegment(name)| < |name|
    ensures name == name[..|name| - |LastSegment(name)| - 1] + ['.'] + LastSegment(name)
  {
  }

  /** A lower-cased name that ends with a dot and a dot-free text has that
      text as its extension. */
  lemma {:induction false} DotSuffixGivesExtension(name: string, x: string)
    requires '.' !in x && EndsWith(Lower(name), ['.'] + x)
    ensures '.' in name && Extension(name) == x
  {
    var low := Lower(name);
    var n := |name|;
    var k := |x|;
    var b := name[n - k..];
    var a := name[..n - k - 1];
    assert low[n - k - 1] == '.';
    assert name[n - k - 1] == '.';
    assert Lower(b) == x;
    LowerKeepsDots(b);
    assert name == a + ['.'] + b;
    ExtensionAfterDot(a, b);
  }

  /** A name with a dot, lower-cased, ends with a dot and its extension. */
  lemma {:induction false} ExtensionGivesDotSuffix(name: string)
    requires '.' in name
    ensures EndsWith(Lower(name), ['.'] + Extension(name))
  {
    DottedNameSplits(name);
    var seg := LastSegment(name);
    var a := name[..|name| - |seg| - 1];
    LowerAroundDot(a, seg);
    assert a + ['.'] + seg == name;
    assert Extension(name) == Lower(seg);
  }

  /** Lower-cased, `a.b` ends with `.` and `b` lower-cased. */
  lemma LowerAroundDot(a: string, b: string)
    ensures EndsWith(Lower(a + ['.'] + b), ['.'] + Lower(b))
  {
    LowerAppend(a + ['.'], b);
    LowerAppend(a, ['.']);
    assert Lower(['.']) == ['.'];
    assert Lower(a + ['.'] + b) == Lower(a) + (['.'] + Lower(b));
    EndsWithAppend(Lower(a), ['.'] + Lower(b));
  }

  lemma EndsWithAppend(a: string, b: string)
    ensures EndsWith(a + b, b)
  {
    assert (a + b)[|a + b| - |b|..] == b;
  }
}
