/**
 * The chunk loop of `s3_download_large_file`: every chunk read from the
 * object is appended to the local file, and a counter prints one progress
 * dot each time it passes 1000, after which it starts again from zero.
 *
 * The file is modelled by the bytes written to it and the console by the
 * text printed to it.
 */
module LargeDownload {

  type Chunk = seq<bv8>

  /** The chunks laid end to end, in order. */
  function Concat(chunks: seq<Chunk>): seq<bv8>
  {
    if chunks == [] then [] else Concat(chunks[..|chunks| - 1]) + chunks[|chunks| - 1]
  }

  /**
   * Streams `chunks` into an empty file. `progress` is what the loop prints:
   * one dot per 1001 chunks, since the counter resets only once it exceeds
   * 1000.
   */
  method WriteChunks(chunks: seq<Chunk>) returns (written: seq<bv8>, progress: string)
    ensures written == Concat(chunks)
    ensures forall c :: c in progress ==> c == '.'
    ensures |progress| * 1001 <= |chunks| < (|progress| + 1) * 1001
  {
    written, progress := [], "";
    var count := 0;
    var i := 0;
    while i < |chunks|
      invariant 0 <= i <= |chunks|
      invariant written == Concat(chunks[..i])
      invariant forall c :: c in progress ==> c == '.'
      invariant 0 <= count <= 1000
      invariant |progress| * 1001 + count == i
    {
      assert chunks[..i + 1][..i] == chunks[..i];
      written := written + chunks[i];
      count := count + 1;
      if count > 1000 {
        count := 0;
        progress := progress + ".";
      }
      i := i + 1;
    }
    assert chunks[..i] == chunks;
  }
}
