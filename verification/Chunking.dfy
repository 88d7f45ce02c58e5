/** Files cut into fixed-size chunks, the manifest that describes them, and their reassembly. */
module Chunking {
  import opened Machine

  const DEFAULT_CHUNK_SIZE: ChunkSize := 4194304

  type ChunkSize = n: nat | n > 0 witness 1

  type Hash = h: seq<byte> | |h| == 32 witness seq(32, _ => 0)

  type HashFn = Bytes -> Hash

  datatype ChunkMeta = ChunkMeta(hash: Hash, index: u32, offset: nat, size: nat)

  datatype Manifest = Manifest(fileHash: Hash, fileSize: nat, chunks: seq<ChunkMeta>, chunkSize: nat)

  /** The hash does not confuse `a` with a different `b`. */
  ghost predicate NoCollision(h: HashFn, a: Bytes, b: Bytes) {
    h(a) == h(b) ==> a == b
  }

  // ---- blocks of a file ----

  function NumBlocks(len: nat, size: ChunkSize): nat {
    if len == 0 then 0 else (len + size - 1) / size
  }

  lemma BlockCount(len: nat, size: ChunkSize, i: nat)
    ensures i < NumBlocks(len, size) <==> i * size < len
  {
    if len > 0 {
      var n := NumBlocks(len, size);
      assert n * size <= len + size - 1 < n * size + size;
      if i < n {
        assert i * size <= (n - 1) * size;
      } else {
        assert i * size >= n * size;
      }
    }
  }

  function BlockEnd(len: nat, size: ChunkSize, i: nat): nat {
    if i * size + size < len then i * size + size else len
  }

  function Block(data: Bytes, size: ChunkSize, i: nat): Bytes
    requires i < NumBlocks(|data|, size)
  {
    BlockCount(|data|, size, i);
    data[i * size..BlockEnd(|data|, size, i)]
  }

  function Blocks(data: Bytes, size: ChunkSize): seq<Bytes> {
    seq(NumBlocks(|data|, size), i requires 0 <= i < NumBlocks(|data|, size) => Block(data, size, i))
  }

  function Join(blocks: seq<Bytes>): Bytes {
    if blocks == [] then [] else Join(blocks[..|blocks| - 1]) + blocks[|blocks| - 1]
  }

  /** Where the first `k` blocks of a file end. */
  function Cut(len: nat, size: ChunkSize, k: nat): nat {
    if k * size < len then k * size else len
  }

  lemma CutStep(len: nat, size: ChunkSize, k: nat)
    requires k < NumBlocks(len, size)
    ensures Cut(len, size, k) == k * size < BlockEnd(len, size, k) == Cut(len, size, k + 1)
    ensures BlockEnd(len, size, k) <= k * size + size
  {
    BlockCount(len, size, k);
    assert (k + 1) * size == k * size + size;
  }

  lemma CutLast(len: nat, size: ChunkSize)
    ensures Cut(len, size, NumBlocks(len, size)) == len
  {
    BlockCount(len, size, NumBlocks(len, size));
  }

  lemma {:induction false} JoinPrefix(data: Bytes, size: ChunkSize, k: nat)
    requires k <= NumBlocks(|data|, size)
    ensures Join(Blocks(data, size)[..k]) == data[..Cut(|data|, size, k)]
  {
    hide NumBlocks, BlockEnd;
    var bs := Blocks(data, size)[..k];
    if k == 0 {
      assert Cut(|data|, size, 0) == 0;
    } else {
      hide Cut;
      JoinPrefix(data, size, k - 1);
      CutStep(|data|, size, k - 1);
      assert bs[..k - 1] == Blocks(data, size)[..k - 1];
      assert bs[k - 1] == Block(data, size, k - 1);
    }
  }

  lemma JoinBlocks(data: Bytes, size: ChunkSize)
    ensures Join(Blocks(data, size)) == data
  {
    var n := NumBlocks(|data|, size);
    JoinPrefix(data, size, n);
    CutLast(|data|, size);
    assert Blocks(data, size)[..n] == Blocks(data, size);
  }

  function MetaOf(h: HashFn, data: Bytes, size: ChunkSize, i: nat): ChunkMeta
    requires i < NumBlocks(|data|, size)
  {
    ChunkMeta(h(Block(data, size, i)), Truncate32(i), i * size, |Block(data, size, i)|)
  }

  function ManifestOf(h: HashFn, data: Bytes, size: ChunkSize): Manifest {
    Manifest(h(data), |data|,
             seq(NumBlocks(|data|, size), i requires 0 <= i < NumBlocks(|data|, size) => MetaOf(h, data, size, i)),
             size)
  }

  function SizesMatch(manifest: Manifest, chunks: seq<Bytes>): bool {
    |chunks| == |manifest.chunks|
    && forall i :: 0 <= i < |chunks| ==> |chunks[i]| == manifest.chunks[i].size
  }

  /** What reassembly answers: the joined chunks, if their number, sizes and joint hash fit the manifest. */
  function Reassembled(h: HashFn, manifest: Manifest, chunks: seq<Bytes>): Option<Bytes> {
    if SizesMatch(manifest, chunks) && h(Join(chunks)) == manifest.fileHash then Some(Join(chunks)) else None
  }

  datatype Chunker = Chunker(chunkSize: ChunkSize) {

    static function WithChunkSize(size: nat): (chunker: Chunker)
      ensures size > 0 ==> chunker.chunkSize == size
      ensures size == 0 ==> chunker.chunkSize == 4 * 1024 * 1024
    {
      Chunker(if size == 0 then DEFAULT_CHUNK_SIZE else size)
    }

    method ChunkData(h: HashFn, data: Bytes) returns (manifest: Manifest, chunkData: seq<Bytes>)
      ensures manifest == ManifestOf(h, data, chunkSize)
      ensures chunkData == Blocks(data, chunkSize)
    {
      var numChunks := if |data| == 0 then 0 else (|data| + chunkSize - 1) / chunkSize;
      var chunks := [];
      chunkData := [];
      for i := 0 to numChunks
        invariant |chunks| == |chunkData| == i
        invariant forall k :: 0 <= k < i ==> chunks[k] == MetaOf(h, data, chunkSize, k)
        invariant forall k :: 0 <= k < i ==> chunkData[k] == Block(data, chunkSize, k)
      {
        BlockCount(|data|, chunkSize, i);
        var start := i * chunkSize;
        var end := if start + chunkSize < |data| then start + chunkSize else |data|;
        var slice := data[start..end];
        chunks := chunks + [ChunkMeta(h(slice), Truncate32(i), start, |slice|)];
        chunkData := chunkData + [slice];
      }
      manifest := Manifest(h(data), |data|, chunks, chunkSize);
    }

    method Reassemble(h: HashFn, manifest: Manifest, chunks: seq<Bytes>) returns (r: Result<Bytes>)
      ensures r.Ok? <==> && |chunks| == |manifest.chunks|
                         && (forall i :: 0 <= i < |chunks| ==> |chunks[i]| == manifest.chunks[i].size)
                         && h(Join(chunks)) == manifest.fileHash
      ensures r.Ok? ==> r.value == Join(chunks)
      ensures Reassembled(h, manifest, chunks) == match r case Ok(data) => Some(data) case Err(_) => None
    {
      if |chunks| != |manifest.chunks| {
        return Err("chunk count mismatch");
      }
      for i := 0 to |chunks|
        invariant forall k :: 0 <= k < i ==> |chunks[k]| == manifest.chunks[k].size
      {
        if |chunks[i]| != manifest.chunks[i].size {
          return Err("chunk size mismatch");
        }
      }
      var joined := [];
      for i := 0 to |chunks|
        invariant joined == Join(chunks[..i])
      {
        assert chunks[..i + 1][..i] == chunks[..i];
        joined := joined + chunks[i];
      }
      assert chunks[..|chunks|] == chunks;
      if h(joined) != manifest.fileHash {
        return Err("file hash mismatch");
      }
      return Ok(joined);
    }
  }

  // ---- what chunking promises ----

  lemma RoundTrip(h: HashFn, data: Bytes, size: ChunkSize)
    ensures Reassembled(h, ManifestOf(h, data, size), Blocks(data, size)) == Some(data)
  {
    JoinBlocks(data, size);
  }

  function SizeSum(chunks: seq<ChunkMeta>): nat {
    if chunks == [] then 0 else SizeSum(chunks[..|chunks| - 1]) + chunks[|chunks| - 1].size
  }

  lemma {:induction false} SizeSumPrefix(h: HashFn, data: Bytes, size: ChunkSize, k: nat)
    requires k <= NumBlocks(|data|, size)
    ensures SizeSum(ManifestOf(h, data, size).chunks[..k]) == Cut(|data|, size, k)
  {
    hide NumBlocks, BlockEnd;
    var cs := ManifestOf(h, data, size).chunks[..k];
    if k == 0 {
      assert Cut(|data|, size, 0) == 0;
    } else {
      hide Cut;
      SizeSumPrefix(h, data, size, k - 1);
      CutStep(|data|, size, k - 1);
      assert cs[..k - 1] == ManifestOf(h, data, size).chunks[..k - 1];
      assert cs[k - 1] == MetaOf(h, data, size, k - 1);
    }
  }

  /** Every chunk starts where the sizes before it end; only the last may be short; together they make the file. */
  lemma Layout(h: HashFn, data: Bytes, size: ChunkSize, i: nat)
    requires i < |ManifestOf(h, data, size).chunks|
    ensures var cs := ManifestOf(h, data, size).chunks;
            && cs[i].offset == SizeSum(cs[..i])
            && 0 < cs[i].size <= size && (i < |cs| - 1 ==> cs[i].size == size)
            && SizeSum(cs) == |data|
  {
    var cs := ManifestOf(h, data, size).chunks;
    SizeSumPrefix(h, data, size, i);
    SizeSumPrefix(h, data, size, |cs|);
    assert cs[..|cs|] == cs;
    CutStep(|data|, size, i);
    CutLast(|data|, size);
    if i + 1 < |cs| {
      CutStep(|data|, size, i + 1);
    }
    assert (i + 1) * size == i * size + size;
  }

  /** Every chunk of the manifest names its place in the file, and the hash of the bytes that lie there. */
  lemma ManifestDescribes(h: HashFn, data: Bytes, size: ChunkSize, i: nat)
    requires i < |ManifestOf(h, data, size).chunks|
    ensures var m := ManifestOf(h, data, size);
            var c := m.chunks[i];
            && m.fileHash == h(data) && m.fileSize == |data| && m.chunkSize == size
            && c.index == i % 0x1_0000_0000
            && c.offset + c.size <= |data| && c.hash == h(data[c.offset..c.offset + c.size])
            && Blocks(data, size)[i] == data[c.offset..c.offset + c.size]
  {
    CutStep(|data|, size, i);
  }

  lemma {:induction false} JoinInjective(a: seq<Bytes>, b: seq<Bytes>)
    requires |a| == |b| && Join(a) == Join(b)
    requires forall i :: 0 <= i < |a| ==> |a[i]| == |b[i]|
    ensures a == b
  {
    if a != [] {
      var n := |a| - 1;
      assert Join(a)[|Join(a)| - |a[n]|..] == a[n] && Join(b)[|Join(b)| - |b[n]|..] == b[n];
      assert Join(a)[..|Join(a)| - |a[n]|] == Join(a[..n]) && Join(b)[..|Join(b)| - |b[n]|] == Join(b[..n]);
      JoinInjective(a[..n], b[..n]);
      assert a == a[..n] + [a[n]] && b == b[..n] + [b[n]];
    }
  }

  /** Whatever chunks reassembly accepts against a file's manifest are that file's own, one by one. */
  lemma Rigid(h: HashFn, data: Bytes, size: ChunkSize, chunks: seq<Bytes>)
    requires NoCollision(h, Join(chunks), data)
    requires Reassembled(h, ManifestOf(h, data, size), chunks).Some?
    ensures chunks == Blocks(data, size)
    ensures Reassembled(h, ManifestOf(h, data, size), chunks) == Some(data)
  {
    JoinBlocks(data, size);
    JoinInjective(chunks, Blocks(data, size));
  }
}
