/** Transfers that move only the blocks the other side lacks. */
module Incremental {
  import opened Machine
  import opened Chunking
  import opened Diffing

  /** What the peer answers when asked for a block. */
  type Peer = u32 -> Result<Bytes>

  /** The local copy, if any, already holds block `i` of the manifest. */
  predicate Has(h: HashFn, remote: Manifest, local: Option<Bytes>, size: ChunkSize, i: nat)
    requires i < |remote.chunks|
  {
    local.Some? && i < NumBlocks(|local.value|, size) && h(Block(local.value, size, i)) == remote.chunks[i].hash
  }

  /** The blocks of the manifest below `n` that the local copy does not hold, in ascending order. */
  function Missing(h: HashFn, remote: Manifest, local: Option<Bytes>, size: ChunkSize, n: nat): seq<u32>
    requires n <= |remote.chunks| && n < WORD
  {
    if n == 0 then []
    else
      var below := Missing(h, remote, local, size, n - 1);
      if Has(h, remote, local, size, n - 1) then below else below + [n - 1]
  }

  lemma {:induction false} MissingMeans(h: HashFn, remote: Manifest, local: Option<Bytes>, size: ChunkSize, n: nat)
    requires n <= |remote.chunks| && n < WORD
    ensures var need := Missing(h, remote, local, size, n);
            && (forall k: nat :: k in need <==> k < n && !Has(h, remote, local, size, k))
            && (forall i, j :: 0 <= i < j < |need| ==> need[i] < need[j])
  {
    hide Has;
    if n > 0 {
      MissingMeans(h, remote, local, size, n - 1);
      var below := Missing(h, remote, local, size, n - 1);
      assert forall i :: 0 <= i < |below| ==> below[i] in below;
    }
  }

  /** The chunks put together: held ones from the local copy, the others as the peer sent them. */
  function Gathered(h: HashFn, remote: Manifest, local: Option<Bytes>, size: ChunkSize, peer: Peer): seq<Bytes>
    requires |remote.chunks| < WORD
  {
    seq(|remote.chunks|, i requires 0 <= i < |remote.chunks| =>
      if Has(h, remote, local, size, i) then Block(local.value, size, i)
      else match peer(i) case Ok(b) => b case Err(_) => [])
  }

  /** The blocks of the manifest that the local copy holds, under their 32-bit numbers. */
  method HeldBlocks(h: HashFn, chunkSize: ChunkSize, remote: Manifest, local: Bytes) returns (blocks: map<u32, Bytes>)
    ensures |remote.chunks| < WORD ==>
              && (forall k :: k in blocks <==> 0 <= k < |remote.chunks| && Has(h, remote, Some(local), chunkSize, k))
              && (forall k :: k in blocks ==>
                    k < NumBlocks(|local|, chunkSize) && blocks[k] == Block(local, chunkSize, k))
  {
    hide NumBlocks;
    var chunker := Chunker(chunkSize);
    var _, localChunks := chunker.ChunkData(h, local);
    blocks := map[];
    for i := 0 to |localChunks|
      invariant |remote.chunks| < WORD ==>
                  forall k :: k in blocks <==>
                                0 <= k < i && k < |remote.chunks| && Has(h, remote, Some(local), chunkSize, k)
      invariant |remote.chunks| < WORD ==>
                  forall k :: k in blocks ==> k < |localChunks| && blocks[k] == localChunks[k]
    {
      assert localChunks[i] == Block(local, chunkSize, i);
      if i < |remote.chunks| {
        if remote.chunks[i].hash == h(localChunks[i]) {
          blocks := blocks[Truncate32(i) := localChunks[i]];
        }
      }
    }
  }

  /** The requests go up to the first refusal and stop there. */
  predicate StopsAtRefusal(peer: Peer, requested: seq<u32>) {
    && requested != [] && peer(requested[|requested| - 1]).Err?
    && forall i :: 0 <= i < |requested| - 1 ==> peer(requested[i]).Ok?
  }

  /** Ask the peer for each needed block in turn, stopping at the first refusal. */
  method FetchBlocks(needed: seq<u32>, held: map<u32, Bytes>, peer: Peer)
    returns (ok: bool, blocks: map<u32, Bytes>, requested: seq<u32>)
    ensures requested <= needed
    ensures ok <==> forall k :: k in needed ==> peer(k).Ok?
    ensures !ok ==> StopsAtRefusal(peer, requested)
    ensures ok ==> requested == needed
                   && forall k :: k in held || k in needed
                                  ==> k in blocks && blocks[k] == if k in needed then peer(k).value else held[k]
  {
    blocks, requested := held, [];
    for i := 0 to |needed|
      invariant requested == needed[..i]
      invariant forall k :: k in needed[..i] ==> peer(k).Ok?
      invariant forall k :: k in held || k in needed[..i]
                            ==> k in blocks && blocks[k] == if k in needed[..i] then peer(k).value else held[k]
    {
      var idx := needed[i];
      assert needed[..i + 1] == needed[..i] + [idx];
      requested := requested + [idx];
      var answer := peer(idx);
      if answer.Err? {
        assert forall j :: 0 <= j < i ==> requested[j] in needed[..i];
        return false, blocks, requested;
      }
      blocks := blocks[idx := answer.value];
    }
    assert needed[..|needed|] == needed;
    ok := true;
  }

  /** The block numbers below `n` that are not held, in ascending order. */
  function NotIn(n: u32, held: map<u32, Bytes>): seq<u32> {
    if n == 0 then [] else NotIn(n - 1, held) + if n - 1 in held then [] else [n - 1]
  }

  lemma {:induction false} NotInMeans(n: u32, held: map<u32, Bytes>)
    ensures forall k: u32 :: k in NotIn(n, held) <==> k < n && k !in held
  {
    if n > 0 {
      NotInMeans(n - 1, held);
    }
  }

  /** The held blocks, and for the others what the peer sent. */
  function Filled(n: u32, held: map<u32, Bytes>, peer: Peer): seq<Bytes> {
    seq(n, i requires 0 <= i < n =>
      if i in held then held[i] else match peer(i) case Ok(b) => b case Err(_) => [])
  }

  /** The second half of a download: request what is not held, and reassemble. */
  method Complete(h: HashFn, chunkSize: ChunkSize, remote: Manifest, held: map<u32, Bytes>, peer: Peer)
    returns (r: Result<Bytes>, requested: seq<u32>)
    ensures var total := Truncate32(|remote.chunks|);
            var need := NotIn(total, held);
            && requested <= need
            && if forall k :: k in need ==> peer(k).Ok? then
                 var answer := Reassembled(h, remote, Filled(total, held, peer));
                 && requested == need
                 && (r.Ok? <==> answer.Some?)
                 && (r.Ok? ==> answer == Some(r.value))
               else r.Err? && StopsAtRefusal(peer, requested)
  {
    hide Reassembled;
    var totalBlocks := Truncate32(|remote.chunks|);
    var needed: seq<u32> := [];
    for i := 0 to totalBlocks
      invariant needed == NotIn(i, held)
    {
      if i !in held {
        needed := needed + [i];
      }
    }
    NotInMeans(totalBlocks, held);
    hide NotIn;
    var ok, blocks;
    ok, blocks, requested := FetchBlocks(needed, held, peer);
    if !ok {
      return Err("block request failed"), requested;
    }
    var ordered := TakeInOrder(blocks, totalBlocks);
    assert ordered == Filled(totalBlocks, held, peer);
    r := Chunker(chunkSize).Reassemble(h, remote, ordered);
  }

  method DownloadFile(h: HashFn, chunkSize: ChunkSize, remote: Manifest, local: Option<Bytes>, peer: Peer)
    returns (r: Result<Bytes>, requested: seq<u32>)
    ensures local.Some? && remote.chunkSize != chunkSize ==> r.Err? && requested == []
    ensures |remote.chunks| >= WORD ==> r.Err?
    ensures |remote.chunks| < WORD && (local.None? || remote.chunkSize == chunkSize) ==>
              var need := Missing(h, remote, local, chunkSize, |remote.chunks|);
              && requested <= need
              && if forall k :: k in need ==> peer(k).Ok? then
                   var answer := Reassembled(h, remote, Gathered(h, remote, local, chunkSize, peer));
                   && requested == need
                   && (r.Ok? <==> answer.Some?)
                   && (r.Ok? ==> answer == Some(r.value))
                 else r.Err? && StopsAtRefusal(peer, requested)
  {
    hide NumBlocks, Reassembled, Has, NotIn, Missing, Filled, Gathered;
    var blocks: map<u32, Bytes> := map[];
    if local.Some? {
      var diff := BlockDiffEngine(chunkSize).DiffFiles(h, remote, local.value);
      if diff.Err? {
        return Err("diff computation failed"), [];
      }
      blocks := HeldBlocks(h, chunkSize, remote, local.value);
    } else {
      NothingHeld(h, remote, local, chunkSize);
    }
    if |remote.chunks| < WORD {
      HeldIsHas(h, remote, local, chunkSize, blocks, peer);
    } else {
      TooManyChunks(h, remote, blocks, peer);
    }
    r, requested := Complete(h, chunkSize, remote, blocks, peer);
  }

  /** With the right blocks held, what is requested and put together is what the manifest calls for. */
  lemma HeldIsHas(h: HashFn, remote: Manifest, local: Option<Bytes>, size: ChunkSize,
                  held: map<u32, Bytes>, peer: Peer)
    requires |remote.chunks| < WORD
    requires forall k: u32 :: k < |remote.chunks| ==> (k in held <==> Has(h, remote, local, size, k))
    requires forall k: u32 :: k < |remote.chunks| && k in held ==>
               && local.Some? && k < NumBlocks(|local.value|, size)
               && held[k] == Block(local.value, size, k)
    ensures NotIn(|remote.chunks|, held) == Missing(h, remote, local, size, |remote.chunks|)
    ensures Filled(|remote.chunks|, held, peer) == Gathered(h, remote, local, size, peer)
  {
    hide Has, Block, NumBlocks;
    NotInIsMissing(h, remote, local, size, held, |remote.chunks|);
  }

  lemma {:induction false} NotInIsMissing(
    h: HashFn, remote: Manifest, local: Option<Bytes>, size: ChunkSize, held: map<u32, Bytes>, n: u32)
    requires n <= |remote.chunks| && n < WORD
    requires forall k: u32 :: k < n ==> (k in held <==> Has(h, remote, local, size, k))
    ensures NotIn(n, held) == Missing(h, remote, local, size, n)
  {
    hide Has;
    if n > 0 {
      NotInIsMissing(h, remote, local, size, held, n - 1);
    }
  }

  /** A manifest of 2^32 chunks or more is never reassembled: the 32-bit count asks for too few. */
  lemma TooManyChunks(h: HashFn, remote: Manifest, held: map<u32, Bytes>, peer: Peer)
    requires |remote.chunks| >= WORD
    ensures Reassembled(h, remote, Filled(Truncate32(|remote.chunks|), held, peer)) == None
  {
  }

  lemma NothingHeld(h: HashFn, remote: Manifest, local: Option<Bytes>, size: ChunkSize)
    requires local.None?
    ensures forall k: nat :: k < |remote.chunks| ==> !Has(h, remote, local, size, k)
  {
  }

  /** Take the blocks out of the map in index order. */
  method TakeInOrder(blocks: map<u32, Bytes>, total: u32) returns (ordered: seq<Bytes>)
    requires forall k: nat :: k < total ==> k in blocks
    ensures |ordered| == total && forall k :: 0 <= k < total ==> ordered[k] == blocks[k]
  {
    var rest := blocks;
    ordered := [];
    for i := 0 to total
      invariant |ordered| == i && forall k :: 0 <= k < i ==> ordered[k] == blocks[k]
      invariant forall k: nat :: i <= k < total ==> k in rest && rest[k] == blocks[k]
    {
      ordered := ordered + [rest[i]];
      rest := rest - {i};
    }
  }

  /** Whatever bytes the peer sends, a file that comes out of a download is the remote file. */
  lemma DownloadIsExact(h: HashFn, data: Bytes, size: ChunkSize, local: Option<Bytes>, peer: Peer)
    requires NumBlocks(|data|, size) < WORD
    requires var m := ManifestOf(h, data, size);
             && (forall k :: k in Missing(h, m, local, size, |m.chunks|) ==> peer(k).Ok?)
             && NoCollision(h, Join(Gathered(h, m, local, size, peer)), data)
    ensures var m := ManifestOf(h, data, size);
            var answer := Reassembled(h, m, Gathered(h, m, local, size, peer));
            answer.Some? ==> answer.value == data && Gathered(h, m, local, size, peer) == Blocks(data, size)
  {
    var m := ManifestOf(h, data, size);
    var chunks := Gathered(h, m, local, size, peer);
    if Reassembled(h, m, chunks).Some? {
      Rigid(h, data, size, chunks);
    }
  }

  /** The peer answers truthfully for the blocks asked of it; it may refuse all others. */
  ghost predicate Honest(peer: Peer, data: Bytes, size: ChunkSize, need: seq<u32>) {
    forall i: u32 :: i < NumBlocks(|data|, size) && i in need ==> peer(i) == Ok(Block(data, size, i))
  }

  ghost predicate LocalTellsApart(h: HashFn, local: Option<Bytes>, data: Bytes, size: ChunkSize) {
    local.Some? ==>
      forall i :: 0 <= i < NumBlocks(|local.value|, size) && i < NumBlocks(|data|, size)
                  ==> NoCollision(h, Block(local.value, size, i), Block(data, size, i))
  }

  /** The download asks for exactly the absent or different blocks, and succeeds if the peer is honest about those. */
  lemma HonestDownload(h: HashFn, data: Bytes, size: ChunkSize, local: Option<Bytes>, peer: Peer, i: nat)
    requires NumBlocks(|data|, size) < WORD && LocalTellsApart(h, local, data, size)
    requires Honest(peer, data, size, Missing(h, ManifestOf(h, data, size), local, size, NumBlocks(|data|, size)))
    ensures var m := ManifestOf(h, data, size);
            var need := Missing(h, m, local, size, |m.chunks|);
            && (forall k :: k in need ==> peer(k).Ok?)
            && Reassembled(h, m, Gathered(h, m, local, size, peer)) == Some(data)
            && (i in need <==> i < NumBlocks(|data|, size)
                               && (local.None? || i >= NumBlocks(|local.value|, size)
                                   || Block(local.value, size, i) != Block(data, size, i)))
  {
    hide NumBlocks, Missing;
    var m := ManifestOf(h, data, size);
    MissingMeans(h, m, local, size, |m.chunks|);
    assert forall k :: 0 <= k < |m.chunks| && Has(h, m, local, size, k)
                       ==> NoCollision(h, Block(local.value, size, k), Block(data, size, k));
    assert Gathered(h, m, local, size, peer) == Blocks(data, size);
    RoundTrip(h, data, size);
  }

  // ---- upload ----

  function Sent(diffs: seq<BlockDiff>, chunks: seq<Bytes>): seq<(u32, Bytes)>
    requires forall d :: d in diffs && !d.status.Deleted? ==> d.index < |chunks|
  {
    if diffs == [] then []
    else
      var before, d := diffs[..|diffs| - 1], diffs[|diffs| - 1];
      if d.status.Deleted? then Sent(before, chunks) else Sent(before, chunks) + [(d.index, chunks[d.index])]
  }

  /** The upload loop: send the added and modified blocks, in order. */
  method SendChanges(diff: FileDiff, localChunks: seq<Bytes>) returns (sent: seq<(u32, Bytes)>, bytesSent: nat)
    requires forall d :: d in diff.changedBlocks && !d.status.Deleted? ==> d.index < |localChunks|
    ensures sent == Sent(diff.changedBlocks, localChunks)
    ensures bytesSent == |Join(Payloads(sent))|
  {
    sent, bytesSent := [], 0;
    for i := 0 to |diff.changedBlocks|
      invariant sent == Sent(diff.changedBlocks[..i], localChunks)
      invariant bytesSent == |Join(Payloads(sent))|
    {
      hide Join, Payloads;
      var d := diff.changedBlocks[i];
      assert diff.changedBlocks[..i + 1][..i] == diff.changedBlocks[..i];
      if !d.status.Deleted? {
        PayloadGrows(sent, (d.index, localChunks[d.index]));
        sent := sent + [(d.index, localChunks[d.index])];
        bytesSent := bytesSent + |localChunks[d.index]|;
      }
    }
    assert diff.changedBlocks[..|diff.changedBlocks|] == diff.changedBlocks;
  }

  lemma PayloadGrows(sent: seq<(u32, Bytes)>, e: (u32, Bytes))
    ensures |Join(Payloads(sent + [e]))| == |Join(Payloads(sent))| + |e.1|
  {
    assert Payloads(sent + [e])[..|sent|] == Payloads(sent);
  }

  function Payloads(sent: seq<(u32, Bytes)>): seq<Bytes> {
    seq(|sent|, i requires 0 <= i < |sent| => sent[i].1)
  }

  function Lookup(sent: seq<(u32, Bytes)>, i: nat): Option<Bytes> {
    if sent == [] then None
    else if sent[0].0 == i then Some(sent[0].1)
    else Lookup(sent[1..], i)
  }

  /** The remote's blocks once what was sent is stored and the new manifest of `count` blocks replaces the old. */
  function Stored(base: seq<Bytes>, sent: seq<(u32, Bytes)>, count: nat): seq<Bytes> {
    seq(count, i requires 0 <= i < count =>
      match Lookup(sent, i) case Some(b) => b case None => if i < |base| then base[i] else [])
  }

  lemma {:induction false} LookupAppend(sent: seq<(u32, Bytes)>, e: (u32, Bytes), i: nat)
    ensures Lookup(sent + [e], i) == if Lookup(sent, i).Some? then Lookup(sent, i)
                                     else if e.0 == i then Some(e.1) else None
  {
    if sent == [] {
      assert sent + [e] == [e];
      assert [e][1..] == [];
    } else {
      assert (sent + [e])[1..] == sent[1..] + [e];
      LookupAppend(sent[1..], e, i);
    }
  }

  lemma {:induction false} LookupSent(diffs: seq<BlockDiff>, chunks: seq<Bytes>, i: nat)
    requires forall d :: d in diffs ==> (d.status.Deleted? <==> d.index >= |chunks|)
    requires i < |chunks|
    ensures Lookup(Sent(diffs, chunks), i) == if Find(diffs, i).Some? then Some(chunks[i]) else None
  {
    if diffs != [] {
      var before, d := diffs[..|diffs| - 1], diffs[|diffs| - 1];
      assert diffs == before + [d];
      LookupSent(before, chunks, i);
      FindAppend(before, d, i);
      if !d.status.Deleted? {
        LookupAppend(Sent(before, chunks), (d.index, chunks[d.index]), i);
      }
    }
  }

  lemma {:induction false} ListedIndices(h: HashFn, remote: Manifest, local: Bytes, size: ChunkSize, n: u32)
    requires n <= Span(remote, local, size)
    ensures forall d :: d in Listed(h, remote, local, size, n)
                        ==> (d.status.Deleted? <==> d.index >= NumBlocks(|local|, size))
  {
    hide NumBlocks, Block, Span;
    if n > 0 {
      ListedIndices(h, remote, local, size, n - 1);
      SpanCovers(remote, local, size, n - 1);
    }
  }

  lemma DiffIndices(h: HashFn, remote: Manifest, local: Bytes, size: ChunkSize)
    ensures forall d :: d in DiffOf(h, remote, local, size).changedBlocks
                        ==> (d.status.Deleted? <==> d.index >= NumBlocks(|local|, size))
  {
    ListedIndices(h, remote, local, size, Span(remote, local, size));
  }

  /**
   * The upload sends exactly the blocks of the new file that differ and have a number among those
   * compared, and the remote's blocks then are the new file's if and only if no other block differs.
   */
  lemma UploadRebuildsIff(h: HashFn, base: Bytes, target: Bytes, size: ChunkSize, i: nat)
    requires TellsApart(h, base, target, size)
    ensures var diffs := DiffOf(h, ManifestOf(h, base, size), target, size).changedBlocks;
            var chunks := Blocks(target, size);
            && (forall d :: d in diffs && !d.status.Deleted? ==> d.index < |chunks|)
            && (i < |chunks| ==> (Lookup(Sent(diffs, chunks), i).Some?
                                  <==> Differ(base, target, size, i) && !Missed(h, base, target, size, i)))
            && (Stored(Blocks(base, size), Sent(diffs, chunks), |chunks|) == chunks
                <==> forall k: nat :: k < |chunks| ==> !Missed(h, base, target, size, k))
  {
    var m := ManifestOf(h, base, size);
    hide NumBlocks, DiffOf, Span, Find, Sent, Lookup, Block;
    DiffIndices(h, m, target, size);
    var diffs := DiffOf(h, m, target, size).changedBlocks;
    var chunks := Blocks(target, size);
    var stored := Stored(Blocks(base, size), Sent(diffs, chunks), |chunks|);
    forall k: nat | k < |chunks|
      ensures Lookup(Sent(diffs, chunks), k).Some?
              <==> Differ(base, target, size, k) && !Missed(h, base, target, size, k)
      ensures stored[k] == chunks[k] <==> !Missed(h, base, target, size, k)
    {
      ListedIffDiffers(h, base, target, size, k);
      LookupSent(diffs, chunks, k);
      BlockNotEmpty(target, size, k);
    }
  }

  /** What stands for a remote that has no version of the file. */
  predicate Absent(m: Manifest, size: ChunkSize) {
    m.fileHash == ZeroHash() && m.fileSize == 0 && m.chunks == [] && m.chunkSize == size
  }

  lemma FirstUploadAt(h: HashFn, m: Manifest, target: Bytes, size: ChunkSize, k: nat)
    requires Absent(m, size) && k < NumBlocks(|target|, size)
    ensures var diffs := DiffOf(h, m, target, size).changedBlocks;
            Find(diffs, k).Some? <==> h(target) != ZeroHash() && k < Truncate32(NumBlocks(|target|, size))
  {
    hide NumBlocks, Listed, Unlisted, Find, Block;
    FindListed(h, m, target, size, Span(m, target, size), k);
    FindNothing(k);
  }

  lemma StoredAt(diffs: seq<BlockDiff>, chunks: seq<Bytes>, k: nat)
    requires forall d :: d in diffs ==> (d.status.Deleted? <==> d.index >= |chunks|)
    requires k < |chunks| && chunks[k] != []
    ensures Stored([], Sent(diffs, chunks), |chunks|)[k] == chunks[k] <==> Find(diffs, k).Some?
  {
    hide Find, Sent, Lookup;
    LookupSent(diffs, chunks, k);
  }

  /**
   * To a remote without the file the upload sends all blocks, and so makes the new file there, if and
   * only if the file is empty or has fewer than 2^32 blocks and does not hash to zero.
   */
  lemma FirstUploadIff(h: HashFn, m: Manifest, target: Bytes, size: ChunkSize)
    requires Absent(m, size)
    ensures var diffs := DiffOf(h, m, target, size).changedBlocks;
            var chunks := Blocks(target, size);
            && (forall d :: d in diffs && !d.status.Deleted? ==> d.index < |chunks|)
            && (Stored([], Sent(diffs, chunks), |chunks|) == chunks
                <==> target == [] || (h(target) != ZeroHash() && |chunks| < WORD))
  {
    hide NumBlocks, DiffOf, Find, Sent, Lookup, Block, Blocks, Stored;
    DiffIndices(h, m, target, size);
    BlocksMean(target, size);
    var diffs := DiffOf(h, m, target, size).changedBlocks;
    var chunks := Blocks(target, size);
    var stored := Stored([], Sent(diffs, chunks), |chunks|);
    StoredLength([], Sent(diffs, chunks), |chunks|);
    forall k: nat | k < |chunks|
      ensures stored[k] == chunks[k] <==> h(target) != ZeroHash() && k < Truncate32(|chunks|)
    {
      FirstUploadAt(h, m, target, size, k);
      StoredAt(diffs, chunks, k);
    }
    AgreeIff(stored, chunks, h(target) != ZeroHash(), Truncate32(|chunks|));
  }

  lemma BlocksMean(data: Bytes, size: ChunkSize)
    ensures |Blocks(data, size)| == NumBlocks(|data|, size)
    ensures forall k :: 0 <= k < |Blocks(data, size)| ==> Blocks(data, size)[k] != []
    ensures |Blocks(data, size)| == 0 <==> data == []
  {
    forall k | 0 <= k < NumBlocks(|data|, size)
      ensures Blocks(data, size)[k] != []
    {
      BlockNotEmpty(data, size, k);
    }
    BlockCount(|data|, size, 0);
  }

  lemma AgreeIff(stored: seq<Bytes>, chunks: seq<Bytes>, sent: bool, limit: nat)
    requires |stored| == |chunks|
    requires forall k: nat :: k < |chunks| ==> (stored[k] == chunks[k] <==> sent && k < limit)
    ensures stored == chunks <==> |chunks| == 0 || (sent && |chunks| <= limit)
  {
    if |chunks| > 0 {
      var last: nat := |chunks| - 1;
      assert stored[last] == chunks[last] <==> sent && last < limit;
    }
  }

  lemma StoredLength(base: seq<Bytes>, sent: seq<(u32, Bytes)>, count: nat)
    ensures |Stored(base, sent, count)| == count
  {
  }

  lemma BlockNotEmpty(data: Bytes, size: ChunkSize, i: nat)
    requires i < NumBlocks(|data|, size)
    ensures Block(data, size, i) != []
  {
    BlockCount(|data|, size, i);
  }
}
