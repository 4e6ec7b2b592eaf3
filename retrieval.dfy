/** The object reader (`getFileStream`): it drains the store's byte stream
    for one key into a list of chunks and returns their concatenation, or
    `null` when opening or reading the stream fails. */
module Retrieval {
  import opened Base

  /** What the store's `getObject` delivers for one key: the chunks it
      yielded, in order, and whether the stream then ended normally or failed
      (a failure to open the stream is a failure with no chunks). */
  datatype ObjectStream = ObjectStream(chunks: seq<seq<byte>>, end: Outcome)

  /** The total number of bytes in a list of chunks. */
  function TotalLength(chunks: seq<seq<byte>>): nat
  {
    if chunks == [] then 0 else TotalLength(chunks[..|chunks| - 1]) + |chunks[|chunks| - 1]|
  }

  /** `Buffer.concat(chunks)`: the chunks' bytes, one chunk after another. */
  function Concat(chunks: seq<seq<byte>>): (r: seq<byte>)
    ensures |r| == TotalLength(chunks)
  {
    if chunks == [] then [] else Concat(chunks[..|chunks| - 1]) + chunks[|chunks| - 1]
  }

  /** Concatenation distributes over joining two lists of chunks. */
  lemma {:induction false} ConcatAppend(a: seq<seq<byte>>, b: seq<seq<byte>>)
    ensures Concat(a + b) == Concat(a) + Concat(b)
    ensures TotalLength(a + b) == TotalLength(a) + TotalLength(b)
    decreases |b|
  {
    if b == [] {
      assert a + b == a;
    } else {
      var b' := b[..|b| - 1];
      var last := b[|b| - 1];
      assert (a + b)[..|a + b| - 1] == a + b';
      assert (a + b)[|a + b| - 1] == last;
      ConcatAppend(a, b');
      assert Concat(a + b) == (Concat(a) + Concat(b')) + last;
      assert Concat(b) == Concat(b') + last;
    }
  }

  /** The byte at offset `j` of chunk `i` sits at offset
      `TotalLength(chunks[..i]) + j` of the concatenation: nothing is lost,
      duplicated or reordered. */
  lemma {:induction false} ConcatKeepsOrder(chunks: seq<seq<byte>>, i: nat, j: nat)
    requires i < |chunks| && j < |chunks[i]|
    ensures TotalLength(chunks[..i]) + j < |Concat(chunks)|
    ensures Concat(chunks)[TotalLength(chunks[..i]) + j] == chunks[i][j]
  {
    assert chunks == chunks[..i] + [chunks[i]] + chunks[i + 1..];
    ConcatAppend(chunks[..i] + [chunks[i]], chunks[i + 1..]);
    ConcatAppend(chunks[..i], [chunks[i]]);
    assert [chunks[i]][..0] == [];
  }

  /** What `getFileStream` returns for a stream: `null` on any error,
      otherwise everything the stream yielded, in order. An object of no
      bytes is present and empty, not absent. */
  function FileStreamOf(stream: ObjectStream): (r: Option<seq<byte>>)
    ensures r.None? <==> stream.end.Fail?
    ensures r.Some? ==> r.value == Concat(stream.chunks) && |r.value| == TotalLength(stream.chunks)
  {
    if stream.end.Fail? then None else Some(Concat(stream.chunks))
  }

  /** `getFileStream`: push every chunk, then concatenate. */
  method GetFileStream(stream: ObjectStream) returns (r: Option<seq<byte>>)
    ensures r == FileStreamOf(stream)
    ensures r.None? <==> stream.end.Fail?
    ensures r.Some? ==> r.value == Concat(stream.chunks)
  {
    var chunks: seq<seq<byte>> := [];
    var i := 0;
    while i < |stream.chunks|
      invariant 0 <= i <= |stream.chunks|
      invariant chunks == stream.chunks[..i]
    {
      chunks := chunks + [stream.chunks[i]];
      i := i + 1;
    }
    if stream.end.Fail? {
      return None;
    }
    assert chunks == stream.chunks;
    return Some(Concat(chunks));
  }
}
