/** A stream that puts the two zlib header bytes before raw deflate data (RFC 1950 section 2.2),
fed one chunk at a time. */
module Deflate {
  import opened Collections

  const HEADER: seq<Byte> := [0x78, 0x9C]

  /** The whole stream as it should come out. */
  function Normalized(stream: seq<Byte>): seq<Byte> {
    if stream != [] && stream[0] != 0x78 then HEADER + stream else stream
  }

  class NormalizeZlibDeflate {
    var hasCheckedHead: bool
    /** What has been written in and pushed out so far. */
    ghost var input: seq<Byte>
    var output: seq<Byte>

    ghost predicate Valid()
      reads this
    {
      && (hasCheckedHead <==> input != [])
      && output == Normalized(input)
    }

    constructor ()
      ensures Valid() && input == []
    {
      hasCheckedHead, input, output := false, [], [];
    }

    method Push(data: seq<Byte>)
      modifies this`output
      ensures output == old(output) + data
    {
      output := output + data;
    }

    method Transform(chunk: seq<Byte>)
      requires Valid()
      modifies this
      ensures Valid() && input == old(input) + chunk
    {
      if !hasCheckedHead && |chunk| != 0 {
        if chunk[0] != HEADER[0] {
          Push(HEADER);
        }
        hasCheckedHead := true;
      }
      Push(chunk);
      assert HEADER + input + chunk == HEADER + (input + chunk);
      input := input + chunk;
    }
  }

  /** However the stream is cut into chunks, empty ones included, the output is the normalised
      whole. */
  method TransformAll(chunks: seq<seq<Byte>>) returns (output: seq<Byte>)
    ensures output == Normalized(Concat(chunks))
  {
    var t := new NormalizeZlibDeflate();
    for i := 0 to |chunks|
      invariant t.Valid() && fresh(t) && t.input == Concat(chunks[..i])
    {
      assert chunks[..i + 1] == chunks[..i] + [chunks[i]];
      ConcatSnoc(chunks[..i], chunks[i]);
      t.Transform(chunks[i]);
    }
    assert chunks[..|chunks|] == chunks;
    output := t.output;
  }

  /** The output is the stream, or the stream behind the two header bytes: the latter exactly
      when the stream is not empty and does not begin with 78. Doing it again changes nothing. */
  lemma HeaderExactly(stream: seq<Byte>)
    ensures Normalized(stream) == stream <==> stream == [] || stream[0] == 0x78
    ensures Normalized(stream) != stream ==> Normalized(stream)[..2] == [0x78, 0x9C] && Normalized(stream)[2..] == stream
    ensures Normalized(Normalized(stream)) == Normalized(stream)
  {
    assert |HEADER + stream| == |stream| + 2;
  }
}
