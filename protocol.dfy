/** Constants shared by both sides of the download protocol, and the server's fixed-size
    chunking of an archive (server.py, the `for i in range(0, file_size, chunk_size)` loop). */
module Protocol {
  import opened Utf8

  const ListCommand := "LIST"
  const ExitCommand := "EXIT"
  const DownloadPrefix := "DOWNLOAD"
  const SuccessPrefix := "SUCCESS"
  const ErrorPrefix := "ERROR|"
  const Ready := "READY"
  const SizeReceived := "SIZE_RECEIVED"
  /** `b"FILE_END"`, sent as raw bytes after the payload. */
  const FileEndMarker: seq<byte> := [0x46, 0x49, 0x4C, 0x45, 0x5F, 0x45, 0x4E, 0x44]
  const ChunkSize: nat := 8192
  /** Every control message is read with `recv(1024)`; the file list with `recv(4096)`. */
  const ControlReadSize: nat := 1024
  const ListReadSize: nat := 4096

  function Flatten(chunks: seq<seq<byte>>): seq<byte> {
    if chunks == [] then [] else chunks[0] + Flatten(chunks[1..])
  }

  /** `file_data[i:i + 8192]` for `i` in `range(0, len(file_data), 8192)`. */
  function Chunks(data: seq<byte>): (chunks: seq<seq<byte>>)
    ensures forall k :: 0 <= k < |chunks| ==> 0 < |chunks[k]| <= ChunkSize
    ensures forall k :: 0 <= k < |chunks| - 1 ==> |chunks[k]| == ChunkSize
    ensures |chunks| * ChunkSize >= |data| > (|chunks| - 1) * ChunkSize
    decreases |data|
  {
    if |data| == 0 then []
    else if |data| <= ChunkSize then [data]
    else [data[..ChunkSize]] + Chunks(data[ChunkSize..])
  }

  /** Reassembling the chunks in order gives back the whole archive: no gap, no overlap. */
  lemma {:induction false} FlattenChunks(data: seq<byte>)
    ensures Flatten(Chunks(data)) == data
    decreases |data|
  {
    if |data| > ChunkSize {
      FlattenChunks(data[ChunkSize..]);
      var c := Chunks(data);
      assert c[1..] == Chunks(data[ChunkSize..]);
      assert data[..ChunkSize] + data[ChunkSize..] == data;
    }
  }

  /** There are ceil(size / 8192) chunks. */
  lemma ChunkCount(data: seq<byte>)
    ensures |Chunks(data)| == (|data| + ChunkSize - 1) / ChunkSize
  {
    var n := |Chunks(data)|;
    assert n * ChunkSize >= |data| > (n - 1) * ChunkSize;
  }

  /** The k-th chunk starts at offset k * 8192. */
  lemma {:induction false} ChunkAt(data: seq<byte>, k: nat)
    requires k < |Chunks(data)|
    ensures k * ChunkSize < |data|
    ensures Chunks(data)[k] == data[k * ChunkSize .. if (k + 1) * ChunkSize <= |data| then (k + 1) * ChunkSize else |data|]
    decreases k
  {
    if k > 0 {
      var rest := data[ChunkSize..];
      assert Chunks(data)[k] == Chunks(rest)[k - 1];
      ChunkAt(rest, k - 1);
      assert rest[(k - 1) * ChunkSize ..] == data[k * ChunkSize ..];
    }
  }

  /** The worked case: 20000 bytes travel as 8192, 8192 and 3616 bytes, in that order. */
  lemma TwentyThousandBytes(data: seq<byte>)
    requires |data| == 20000
    ensures |Chunks(data)| == 3
    ensures |Chunks(data)[0]| == 8192 && |Chunks(data)[1]| == 8192 && |Chunks(data)[2]| == 3616
  {
    ChunkCount(data);
    ChunkAt(data, 2);
  }
}
