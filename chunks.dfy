/**
 * The size-routing constants and `readFileInChunks` (src/FileUtils.ts):
 * a file read through `createReadStream(path, { highWaterMark })`, whose
 * chunks the generator yields one by one, in file order.
 */
module FileChunks {
  import opened Events

  /** Files strictly larger than this many bytes are streamed (5 MiB). */
  const STREAM_THRESHOLD: nat := 5 * 1024 * 1024

  /** The default `highWaterMark` of `readFileInChunks`. */
  const CHUNK_SIZE: nat := 1024

  /**
   * The chunks a read stream with the given high-water mark delivers for a
   * regular file: full chunks of `size` bytes, the last one possibly shorter,
   * and no chunk at all for an empty file.
   */
  function Chunks(data: Bytes, size: nat): seq<Bytes>
    requires size > 0
    decreases |data|
  {
    if data == [] then []
    else if |data| <= size then [data]
    else [data[..size]] + Chunks(data[size..], size)
  }

  /** The bytes of a chunk sequence, concatenated in order. */
  function Flatten(chunks: seq<Bytes>): Bytes
  {
    if chunks == [] then [] else chunks[0] + Flatten(chunks[1..])
  }

  /** Draining the chunks of a file gives back exactly the file's bytes. */
  lemma {:induction false} FlattenChunks(data: Bytes, size: nat)
    requires size > 0
    ensures Flatten(Chunks(data, size)) == data
    decreases |data|
  {
    if data == [] {
    } else if |data| <= size {
      assert Flatten([data]) == data + Flatten([]);
    } else {
      var rest := Chunks(data[size..], size);
      FlattenChunks(data[size..], size);
      assert ([data[..size]] + rest)[1..] == rest;
      assert data[..size] + data[size..] == data;
    }
  }

  /** Every chunk is non-empty and at most `size` bytes long. */
  lemma {:induction false} ChunkSizes(data: Bytes, size: nat)
    requires size > 0
    ensures forall i :: 0 <= i < |Chunks(data, size)| ==> 0 < |Chunks(data, size)[i]| <= size
    decreases |data|
  {
    if |data| > size {
      ChunkSizes(data[size..], size);
    }
  }

  /**
   * `readFileInChunks(filePath, highWaterMark)`: the read stream is pulled
   * chunk by chunk and every chunk is passed on as it arrives.
   */
  method ReadFileInChunks(data: Bytes, highWaterMark: nat) returns (chunks: seq<Bytes>)
    requires highWaterMark > 0
    ensures chunks == Chunks(data, highWaterMark)
  {
    chunks := [];
    var pos := 0;
    while pos < |data|
      invariant 0 <= pos <= |data|
      invariant chunks + Chunks(data[pos..], highWaterMark) == Chunks(data, highWaterMark)
      decreases |data| - pos
    {
      var end := if pos + highWaterMark < |data| then pos + highWaterMark else |data|;
      var chunk := data[pos..end];
      assert Chunks(data[pos..], highWaterMark) == [chunk] + Chunks(data[end..], highWaterMark) by {
        if end == |data| {
          assert data[pos..] == chunk;
          assert data[end..] == [];
        } else {
          assert data[pos..][..highWaterMark] == chunk;
          assert data[pos..][highWaterMark..] == data[end..];
        }
      }
      chunks := chunks + [chunk];
      pos := end;
    }
    assert data[pos..] == [];
  }
}
