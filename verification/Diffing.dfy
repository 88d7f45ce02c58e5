/** Block-level differences between a manifest and local data, and the patch they make. */
module Diffing {
  import opened Machine
  import opened Chunking

  const MIN_DIFF_CHUNK_SIZE: nat := 4096

  function ZeroHash(): Hash {
    seq(32, _ => 0)
  }

  datatype Status = Modified | Added | Deleted

  datatype BlockDiff = BlockDiff(index: u32, offset: nat, size: nat, status: Status, newHash: Hash, oldHash: Hash)

  datatype FileDiff = FileDiff(
    oldSize: nat, newSize: nat, changedBlocks: seq<BlockDiff>, unchangedCount: u32, filesMatch: bool)

  /** How block `i` differs, or None when both sides have it with the same hash. */
  function DiffAt(h: HashFn, remote: Manifest, local: Bytes, size: ChunkSize, i: u32): Option<BlockDiff>
    requires i < |remote.chunks| || i < NumBlocks(|local|, size)
  {
    if i < |remote.chunks| && i < NumBlocks(|local|, size) then
      var block := Block(local, size, i);
      if h(block) == remote.chunks[i].hash then None
      else Some(BlockDiff(i, remote.chunks[i].offset, |block|, Modified, h(block), remote.chunks[i].hash))
    else if i < |remote.chunks| then
      Some(BlockDiff(i, remote.chunks[i].offset, 0, Deleted, ZeroHash(), remote.chunks[i].hash))
    else
      var block := Block(local, size, i);
      Some(BlockDiff(i, i * size, |block|, Added, h(block), ZeroHash()))
  }

  /** The number of indices compared; block numbers are 32 bits wide. */
  function Span(remote: Manifest, local: Bytes, size: ChunkSize): u32 {
    var r, l := Truncate32(|remote.chunks|), Truncate32(NumBlocks(|local|, size));
    if r > l then r else l
  }

  lemma SpanCovers(remote: Manifest, local: Bytes, size: ChunkSize, i: u32)
    requires i < Span(remote, local, size)
    ensures i < |remote.chunks| || i < NumBlocks(|local|, size)
  {
    hide NumBlocks;
  }

  function Entry(d: Option<BlockDiff>): seq<BlockDiff> {
    match d case Some(diff) => [diff] case None => []
  }

  function Listed(h: HashFn, remote: Manifest, local: Bytes, size: ChunkSize, n: u32): seq<BlockDiff>
    requires n <= Span(remote, local, size)
  {
    if n == 0 then []
    else
      Listed(h, remote, local, size, n - 1) + Entry(DiffAt(h, remote, local, size, n - 1))
  }

  function Unlisted(h: HashFn, remote: Manifest, local: Bytes, size: ChunkSize, n: u32): (count: nat)
    requires n <= Span(remote, local, size)
    ensures count + |Listed(h, remote, local, size, n)| == n
  {
    if n == 0 then 0
    else
      Unlisted(h, remote, local, size, n - 1) + if DiffAt(h, remote, local, size, n - 1).None? then 1 else 0
  }

  function SlowDiff(h: HashFn, remote: Manifest, local: Bytes, size: ChunkSize): FileDiff {
    var n := Span(remote, local, size);
    FileDiff(remote.fileSize, |local|, Listed(h, remote, local, size, n), Unlisted(h, remote, local, size, n), false)
  }

  function FastDiff(remote: Manifest, local: Bytes): FileDiff {
    FileDiff(remote.fileSize, |local|, [], Truncate32(|remote.chunks|), true)
  }

  function DiffOf(h: HashFn, remote: Manifest, local: Bytes, size: ChunkSize): FileDiff {
    if h(local) == remote.fileHash then FastDiff(remote, local) else SlowDiff(h, remote, local, size)
  }

  datatype BlockDiffEngine = BlockDiffEngine(chunkSize: ChunkSize) {

    static function New(chunkSize: nat): (engine: BlockDiffEngine)
      ensures engine.chunkSize >= 4096 && (chunkSize >= 4096 ==> engine.chunkSize == chunkSize)
      ensures chunkSize < 4096 ==> engine.chunkSize == 4096
    {
      BlockDiffEngine(if chunkSize > MIN_DIFF_CHUNK_SIZE then chunkSize else MIN_DIFF_CHUNK_SIZE)
    }

    method CompareBlock(h: HashFn, remote: Manifest, local: Bytes, localNumChunks: nat, i: u32)
      returns (d: Option<BlockDiff>)
      requires localNumChunks == NumBlocks(|local|, chunkSize)
      requires i < |remote.chunks| || i < localNumChunks
      ensures d == DiffAt(h, remote, local, chunkSize, i)
    {
      hide NumBlocks;
      var hasRemote := i < |remote.chunks|;
      var hasLocal := i < localNumChunks;
      BlockCount(|local|, chunkSize, i);
      if !hasLocal {
        return Some(BlockDiff(i, remote.chunks[i].offset, 0, Deleted, ZeroHash(), remote.chunks[i].hash));
      }
      var start := i * chunkSize;
      var end := if start + chunkSize < |local| then start + chunkSize else |local|;
      var slice := local[start..end];
      assert slice == Block(local, chunkSize, i);
      if !hasRemote {
        return Some(BlockDiff(i, start, |slice|, Added, h(slice), ZeroHash()));
      }
      if h(slice) == remote.chunks[i].hash {
        return None;
      }
      return Some(BlockDiff(i, remote.chunks[i].offset, |slice|, Modified, h(slice), remote.chunks[i].hash));
    }

    method DiffFiles(h: HashFn, remote: Manifest, local: Bytes) returns (r: Result<FileDiff>)
      ensures r.Ok? <==> remote.chunkSize == chunkSize
      ensures r.Ok? ==> r.value == DiffOf(h, remote, local, chunkSize)
    {
      if remote.chunkSize != chunkSize {
        return Err("chunk size mismatch");
      }
      if h(local) == remote.fileHash {
        return Ok(FileDiff(remote.fileSize, |local|, [], Truncate32(|remote.chunks|), true));
      }
      var localNumChunks := if |local| == 0 then 0 else (|local| + chunkSize - 1) / chunkSize;
      var r32, l32 := Truncate32(|remote.chunks|), Truncate32(localNumChunks);
      var maxIndex: u32 := if r32 > l32 then r32 else l32;
      var changedBlocks := [];
      var unchangedCount: u32 := 0;
      assert localNumChunks == NumBlocks(|local|, chunkSize) && maxIndex == Span(remote, local, chunkSize);
      hide NumBlocks, Span;
      for i := 0 to maxIndex
        invariant changedBlocks == Listed(h, remote, local, chunkSize, i)
        invariant unchangedCount == Unlisted(h, remote, local, chunkSize, i)
      {
        hide DiffAt;
        SpanCovers(remote, local, chunkSize, i);
        var compared := CompareBlock(h, remote, local, localNumChunks, i);
        if compared.Some? {
          changedBlocks := changedBlocks + [compared.value];
        } else {
          unchangedCount := unchangedCount + 1;
        }
      }
      return Ok(FileDiff(remote.fileSize, |local|, changedBlocks, unchangedCount, false));
    }
  }

  // ---- the diff as a patch ----

  /** The hash tells apart the two files and their blocks at equal positions. */
  ghost predicate TellsApart(h: HashFn, base: Bytes, target: Bytes, size: ChunkSize) {
    && NoCollision(h, base, target)
    && forall i :: 0 <= i < NumBlocks(|base|, size) && i < NumBlocks(|target|, size)
                   ==> NoCollision(h, Block(base, size, i), Block(target, size, i))
  }

  ghost predicate Differ(base: Bytes, target: Bytes, size: ChunkSize, i: nat) {
    if i < NumBlocks(|base|, size) && i < NumBlocks(|target|, size)
    then Block(base, size, i) != Block(target, size, i)
    else i < NumBlocks(|base|, size) || i < NumBlocks(|target|, size)
  }

  function Longer(base: Bytes, target: Bytes, size: ChunkSize): nat {
    var b, t := NumBlocks(|base|, size), NumBlocks(|target|, size);
    if b > t then b else t
  }

  function Find(diffs: seq<BlockDiff>, i: nat): Option<BlockDiff> {
    if diffs == [] then None
    else if diffs[0].index == i then Some(diffs[0])
    else Find(diffs[1..], i)
  }

  lemma {:induction false} FindAppend(diffs: seq<BlockDiff>, d: BlockDiff, i: nat)
    ensures Find(diffs + [d], i) == if Find(diffs, i).Some? then Find(diffs, i)
                                    else if d.index == i then Some(d) else None
  {
    if diffs == [] {
      assert diffs + [d] == [d];
      assert [d][1..] == [];
    } else {
      assert (diffs + [d])[1..] == diffs[1..] + [d];
      FindAppend(diffs[1..], d, i);
    }
  }

  lemma {:induction false} FindListed(h: HashFn, remote: Manifest, local: Bytes, size: ChunkSize, n: u32, i: nat)
    requires n <= Span(remote, local, size)
    ensures Find(Listed(h, remote, local, size, n), i)
         == if i < n then DiffAt(h, remote, local, size, i) else None
  {
    hide DiffAt, Entry, Find, NumBlocks, Span;
    FindNothing(i);
    if n > 0 {
      SpanCovers(remote, local, size, n - 1);
      FindListed(h, remote, local, size, n - 1, i);
      DiffAtIndex(h, remote, local, size, n - 1);
      FindEntry(Listed(h, remote, local, size, n - 1), DiffAt(h, remote, local, size, n - 1), n - 1, i);
    }
  }

  lemma FindNothing(i: nat)
    ensures Find([], i) == None
  {
  }

  lemma FindEntry(diffs: seq<BlockDiff>, d: Option<BlockDiff>, n: nat, i: nat)
    requires d.Some? ==> d.value.index == n
    ensures Find(diffs + Entry(d), i) == if Find(diffs, i).Some? then Find(diffs, i) else if i == n then d else None
  {
    hide Find;
    match d {
      case Some(diff) => FindAppend(diffs, diff, i);
      case None => assert diffs + [] == diffs;
    }
  }

  lemma DiffAtIndex(h: HashFn, remote: Manifest, local: Bytes, size: ChunkSize, i: u32)
    requires i < |remote.chunks| || i < NumBlocks(|local|, size)
    ensures DiffAt(h, remote, local, size, i).Some? ==> DiffAt(h, remote, local, size, i).value.index == i
  {
    hide NumBlocks, Block;
  }

  /**
   * A block is listed exactly when it differs and its number is among those compared, as added,
   * deleted or modified by where it exists.
   */
  lemma ListedIffDiffers(h: HashFn, base: Bytes, target: Bytes, size: ChunkSize, i: nat)
    requires TellsApart(h, base, target, size)
    ensures var m := ManifestOf(h, base, size);
            var d := Find(DiffOf(h, m, target, size).changedBlocks, i);
            && (d.Some? <==> Differ(base, target, size, i) && i < Span(m, target, size))
            && (d.Some? ==> d.value.status == if i >= NumBlocks(|base|, size) then Added
                                              else if i >= NumBlocks(|target|, size) then Deleted
                                              else Modified)
  {
    hide NumBlocks, Listed, Unlisted, Block;
    var m := ManifestOf(h, base, size);
    if h(target) != m.fileHash {
      FindListed(h, m, target, size, Span(m, target, size), i);
    }
    if i < NumBlocks(|base|, size) && i < NumBlocks(|target|, size) {
      assert NoCollision(h, Block(base, size, i), Block(target, size, i));
    }
  }

  /** Block numbers below `n`, in ascending order, each once. */
  ghost predicate Ascending(diffs: seq<BlockDiff>, n: nat) {
    && (forall i :: 0 <= i < |diffs| ==> diffs[i].index < n)
    && (forall i, j :: 0 <= i < j < |diffs| ==> diffs[i].index < diffs[j].index)
  }

  lemma {:induction false} ListedAscends(h: HashFn, remote: Manifest, local: Bytes, size: ChunkSize, n: u32)
    requires n <= Span(remote, local, size)
    ensures Ascending(Listed(h, remote, local, size, n), n)
  {
    hide DiffAt, NumBlocks, Span;
    if n > 0 {
      ListedAscends(h, remote, local, size, n - 1);
      SpanCovers(remote, local, size, n - 1);
      DiffAtIndex(h, remote, local, size, n - 1);
    }
  }

  /** The hash listed for a block a side does not have. */
  predicate AllZero(hash: Hash) {
    forall i :: 0 <= i < 32 ==> hash[i] == 0
  }

  /** The difference carries both sides' hashes, the new block's size and the old one's offset, as far as they exist. */
  ghost predicate Describes(h: HashFn, remote: Manifest, local: Bytes, size: ChunkSize, d: BlockDiff) {
    var i := d.index;
    && (i < |remote.chunks| || i < NumBlocks(|local|, size))
    && (if i < |remote.chunks| then d.oldHash == remote.chunks[i].hash && d.offset == remote.chunks[i].offset
        else AllZero(d.oldHash) && d.offset == i * size)
    && (if i < NumBlocks(|local|, size)
        then d.newHash == h(Block(local, size, i)) && d.size == |Block(local, size, i)|
        else AllZero(d.newHash) && d.size == 0)
  }

  lemma DiffAtDescribes(h: HashFn, remote: Manifest, local: Bytes, size: ChunkSize, i: u32)
    requires i < |remote.chunks| || i < NumBlocks(|local|, size)
    ensures var d := DiffAt(h, remote, local, size, i); d.Some? ==> Describes(h, remote, local, size, d.value)
  {
    hide NumBlocks, Block;
  }

  /** Against any manifest the differences are listed in order of their numbers, and each describes its block. */
  lemma ListedDescribes(h: HashFn, remote: Manifest, local: Bytes, size: ChunkSize)
    ensures var diffs := DiffOf(h, remote, local, size).changedBlocks;
            Ascending(diffs, 0x1_0000_0000) && forall d :: d in diffs ==> Describes(h, remote, local, size, d)
  {
    hide NumBlocks, DiffAt, Span, Listed, Unlisted, Describes;
    var n := Span(remote, local, size);
    ListedAscends(h, remote, local, size, n);
    forall d | d in DiffOf(h, remote, local, size).changedBlocks
      ensures Describes(h, remote, local, size, d)
    {
      var k := ListedFrom(h, remote, local, size, n, d);
      DiffAtDescribes(h, remote, local, size, k);
    }
  }

  lemma {:induction false} ListedFrom(
    h: HashFn, remote: Manifest, local: Bytes, size: ChunkSize, n: u32, d: BlockDiff) returns (k: u32)
    requires n <= Span(remote, local, size) && d in Listed(h, remote, local, size, n)
    ensures k < n && (k < |remote.chunks| || k < NumBlocks(|local|, size))
    ensures DiffAt(h, remote, local, size, k) == Some(d)
  {
    hide DiffAt, NumBlocks, Span;
    SpanCovers(remote, local, size, n - 1);
    if d in Listed(h, remote, local, size, n - 1) {
      k := ListedFrom(h, remote, local, size, n - 1, d);
    } else {
      k := n - 1;
    }
  }

  /** Below 2^32 blocks the numbers compared are all those of the longer file. */
  lemma SpanIsLonger(h: HashFn, base: Bytes, target: Bytes, size: ChunkSize)
    requires NumBlocks(|base|, size) < WORD && NumBlocks(|target|, size) < WORD
    ensures Span(ManifestOf(h, base, size), target, size) == Longer(base, target, size)
  {
    hide NumBlocks;
  }

  /** Unchanged and listed blocks together are all the blocks compared. */
  lemma DiffCounts(h: HashFn, base: Bytes, target: Bytes, size: ChunkSize)
    requires TellsApart(h, base, target, size)
    ensures var m := ManifestOf(h, base, size);
            var d := DiffOf(h, m, target, size);
            && d.oldSize == |base| && d.newSize == |target|
            && d.unchangedCount + |d.changedBlocks| == Span(m, target, size)
            && (d.filesMatch <==> base == target)
  {
    hide NumBlocks, Listed, Unlisted;
  }

  /** The file-hash shortcut answers what the block-by-block comparison would. */
  lemma FastPathAgrees(h: HashFn, base: Bytes, target: Bytes, size: ChunkSize)
    requires TellsApart(h, base, target, size)
    ensures var m := ManifestOf(h, base, size);
            h(target) == m.fileHash ==> FastDiff(m, target) == SlowDiff(h, m, target, size).(filesMatch := true)
  {
    var m := ManifestOf(h, base, size);
    if h(target) == m.fileHash {
      NothingListed(h, base, size, Span(m, target, size));
    }
  }

  lemma {:induction false} NothingListed(h: HashFn, data: Bytes, size: ChunkSize, n: u32)
    requires n <= Span(ManifestOf(h, data, size), data, size)
    ensures Listed(h, ManifestOf(h, data, size), data, size, n) == []
  {
    if n > 0 {
      hide NumBlocks, Block, Span;
      SpanCovers(ManifestOf(h, data, size), data, size, n - 1);
      NothingListed(h, data, size, n - 1);
      assert DiffAt(h, ManifestOf(h, data, size), data, size, n - 1) == None;
    }
  }

  /** Apply a diff: keep old blocks that are not listed, take new ones that are, drop deleted ones. */
  function Patch(base: seq<Bytes>, diffs: seq<BlockDiff>, newer: seq<Bytes>, n: nat): seq<Bytes> {
    if n == 0 then []
    else
      Patch(base, diffs, newer, n - 1)
      + match Find(diffs, n - 1)
        case None => if n - 1 < |base| then [base[n - 1]] else []
        case Some(d) => if d.status.Deleted? || n - 1 >= |newer| then [] else [newer[n - 1]]
  }

  /** Block `i` differs, but its number is beyond those compared. */
  ghost predicate Missed(h: HashFn, base: Bytes, target: Bytes, size: ChunkSize, i: nat) {
    Differ(base, target, size, i) && i >= Span(ManifestOf(h, base, size), target, size)
  }

  ghost predicate Reached(h: HashFn, base: Bytes, target: Bytes, size: ChunkSize) {
    forall i: nat :: !Missed(h, base, target, size, i)
  }

  /** The old blocks, patched below number `n` by their difference from the new ones. */
  function Patched(h: HashFn, base: Bytes, target: Bytes, size: ChunkSize, n: nat): seq<Bytes> {
    Patch(Blocks(base, size), DiffOf(h, ManifestOf(h, base, size), target, size).changedBlocks,
          Blocks(target, size), n)
  }

  /** What the patch puts at block `i`: the new block, if any, or the old one where the difference was missed. */
  ghost function Piece(h: HashFn, base: Bytes, target: Bytes, size: ChunkSize, i: nat): seq<Bytes> {
    if Missed(h, base, target, size, i)
    then if i < NumBlocks(|base|, size) then [Block(base, size, i)] else []
    else if i < NumBlocks(|target|, size) then [Block(target, size, i)] else []
  }

  lemma PatchStep(h: HashFn, base: Bytes, target: Bytes, size: ChunkSize, i: nat)
    requires TellsApart(h, base, target, size)
    ensures Patched(h, base, target, size, i + 1)
         == Patched(h, base, target, size, i) + Piece(h, base, target, size, i)
  {
    hide NumBlocks, DiffOf, Span, Find, Block;
    ListedIffDiffers(h, base, target, size, i);
  }

  /** The blocks of a file below number `n`. */
  function UpTo(all: seq<Bytes>, n: nat): seq<Bytes> {
    all[..if n < |all| then n else |all|]
  }

  function BlockAt(all: seq<Bytes>, i: nat): seq<Bytes> {
    if i < |all| then [all[i]] else []
  }

  lemma UpToStep(all: seq<Bytes>, i: nat)
    ensures UpTo(all, i + 1) == UpTo(all, i) + BlockAt(all, i)
  {
  }

  lemma PieceKept(h: HashFn, base: Bytes, target: Bytes, size: ChunkSize, i: nat)
    requires !Missed(h, base, target, size, i)
    ensures Piece(h, base, target, size, i) == BlockAt(Blocks(target, size), i)
  {
    hide NumBlocks, Block;
  }

  lemma PatchNone(h: HashFn, base: Bytes, target: Bytes, size: ChunkSize)
    ensures Patched(h, base, target, size, 0) == UpTo(Blocks(target, size), 0)
  {
    hide DiffOf, Blocks;
  }

  lemma {:induction false} PatchPrefix(h: HashFn, base: Bytes, target: Bytes, size: ChunkSize, n: nat)
    requires TellsApart(h, base, target, size)
    requires forall i: nat :: i < n ==> !Missed(h, base, target, size, i)
    ensures Patched(h, base, target, size, n) == UpTo(Blocks(target, size), n)
  {
    PatchNone(h, base, target, size);
    hide Missed, Patched, Blocks, Piece, TellsApart, UpTo, BlockAt;
    if n > 0 {
      PatchPrefix(h, base, target, size, n - 1);
      PatchStep(h, base, target, size, n - 1);
      PieceKept(h, base, target, size, n - 1);
      UpToStep(Blocks(target, size), n - 1);
    }
  }

  lemma {:induction false} PatchGrows(h: HashFn, base: Bytes, target: Bytes, size: ChunkSize, k: nat, n: nat)
    requires TellsApart(h, base, target, size) && k <= n
    ensures Patched(h, base, target, size, k) <= Patched(h, base, target, size, n)
  {
    hide Patched, Piece, TellsApart;
    if k < n {
      PatchGrows(h, base, target, size, k, n - 1);
      PatchStep(h, base, target, size, n - 1);
    }
  }

  lemma {:induction false} PatchStops(h: HashFn, base: Bytes, target: Bytes, size: ChunkSize, k: nat, n: nat)
    requires TellsApart(h, base, target, size) && k <= n
    requires forall i: nat :: k <= i ==> Piece(h, base, target, size, i) == []
    ensures Patched(h, base, target, size, n) == Patched(h, base, target, size, k)
  {
    hide Patched, Piece, TellsApart;
    if k < n {
      PatchStops(h, base, target, size, k, n - 1);
      PatchStep(h, base, target, size, n - 1);
    }
  }

  /** The first difference missed spoils the patch. */
  lemma PatchMisses(h: HashFn, base: Bytes, target: Bytes, size: ChunkSize, i: nat)
    requires TellsApart(h, base, target, size)
    requires Missed(h, base, target, size, i) && forall j: nat :: j < i ==> !Missed(h, base, target, size, j)
    ensures Patched(h, base, target, size, Longer(base, target, size)) != Blocks(target, size)
  {
    hide NumBlocks, Patched, Block, TellsApart;
    var patched := Patched(h, base, target, size, Longer(base, target, size));
    PatchPrefix(h, base, target, size, i);
    PatchStep(h, base, target, size, i);
    PatchGrows(h, base, target, size, i + 1, Longer(base, target, size));
    if i < NumBlocks(|base|, size) {
      assert patched[|Patched(h, base, target, size, i)|] == Block(base, size, i);
    } else {
      forall j: nat | i <= j
        ensures Piece(h, base, target, size, j) == []
      {
        assert j < NumBlocks(|target|, size) ==> Missed(h, base, target, size, j);
      }
      PatchStops(h, base, target, size, i, Longer(base, target, size));
    }
  }

  lemma {:induction false} FirstMissed(h: HashFn, base: Bytes, target: Bytes, size: ChunkSize, n: nat) returns (i: nat)
    requires exists j: nat :: j < n && Missed(h, base, target, size, j)
    ensures Missed(h, base, target, size, i) && forall j: nat :: j < i ==> !Missed(h, base, target, size, j)
  {
    hide Missed;
    if j: nat :| j < n - 1 && Missed(h, base, target, size, j) {
      i := FirstMissed(h, base, target, size, n - 1);
    } else {
      i := n - 1;
    }
  }

  /**
   * Applying the diff to the old blocks yields exactly the new file's blocks, and so the new file,
   * if and only if the 32-bit block numbers compared reach every difference; `SpanIsLonger` says
   * that they do for files below 2^32 blocks.
   */
  lemma PatchRebuildsIff(h: HashFn, base: Bytes, target: Bytes, size: ChunkSize)
    requires TellsApart(h, base, target, size)
    ensures var patched := Patched(h, base, target, size, Longer(base, target, size));
            && (patched == Blocks(target, size) <==> Reached(h, base, target, size))
            && (Reached(h, base, target, size) ==> Join(patched) == target)
  {
    hide NumBlocks, Missed, Patched, TellsApart;
    if Reached(h, base, target, size) {
      PatchPrefix(h, base, target, size, Longer(base, target, size));
      assert Blocks(target, size)[..NumBlocks(|target|, size)] == Blocks(target, size);
      JoinBlocks(target, size);
    } else {
      var j: nat :| Missed(h, base, target, size, j);
      var i := FirstMissed(h, base, target, size, j + 1);
      PatchMisses(h, base, target, size, i);
    }
  }

  /** Below 2^32 blocks the patch always rebuilds the new file. */
  lemma PatchRebuilds(h: HashFn, base: Bytes, target: Bytes, size: ChunkSize)
    requires TellsApart(h, base, target, size)
    requires NumBlocks(|base|, size) < WORD && NumBlocks(|target|, size) < WORD
    ensures Join(Patched(h, base, target, size, Longer(base, target, size))) == target
  {
    hide NumBlocks, Span, Patched, Block;
    SpanIsLonger(h, base, target, size);
    PatchRebuildsIff(h, base, target, size);
  }

  /** A file of exactly 2^32 blocks differs from an empty one in every block, and no difference is listed. */
  lemma PatchLost(h: HashFn, target: Bytes, size: ChunkSize)
    requires NumBlocks(|target|, size) == WORD && TellsApart(h, [], target, size)
    ensures DiffOf(h, ManifestOf(h, [], size), target, size).changedBlocks == []
    ensures !Reached(h, [], target, size)
  {
    hide Block;
    assert NumBlocks(0, size) == 0;
    assert Missed(h, [], target, size, 0);
  }
}
