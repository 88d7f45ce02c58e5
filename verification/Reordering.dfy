/** The buffer that turns blocks arriving in any order into an in-order stream. */
module Reordering {
  import opened Machine
  import opened Chunking

  datatype Buffer = Buffer(blocks: map<u32, Bytes>, expectedCount: u32, nextExpected: u32)

  function PushStep(b: Buffer, index: u32, data: Bytes): (Buffer, bool) {
    if index >= b.expectedCount || index in b.blocks then (b, false)
    else (b.(blocks := b.blocks[index := data]), true)
  }

  function DrainStep(b: Buffer): (Buffer, seq<(u32, Bytes)>)
    decreases |b.blocks|
  {
    if b.nextExpected in b.blocks then
      ShrinkMap(b.blocks, b.nextExpected);
      var (b', rest) :=
        DrainStep(b.(blocks := b.blocks - {b.nextExpected}, nextExpected := WrapAdd(b.nextExpected, 1)));
      (b', [(b.nextExpected, b.blocks[b.nextExpected])] + rest)
    else (b, [])
  }

  lemma ShrinkMap<K, V>(m: map<K, V>, k: K)
    requires k in m
    ensures |m - {k}| < |m|
  {
    assert (m - {k}).Keys == m.Keys - {k};
    assert |(m - {k}).Keys| == |m.Keys| - 1;
  }

  class ReorderBuffer {
    var blocks: map<u32, Bytes>
    const expectedCount: u32
    var nextExpected: u32

    ghost function State(): Buffer
      reads this
    {
      Buffer(blocks, expectedCount, nextExpected)
    }

    constructor (expectedCount: u32)
      ensures State() == Buffer(map[], expectedCount, 0)
    {
      this.expectedCount := expectedCount;
      blocks, nextExpected := map[], 0;
    }

    method Push(index: u32, data: Bytes) returns (ok: bool)
      modifies this
      ensures (State(), ok) == PushStep(old(State()), index, data)
    {
      if index >= expectedCount || index in blocks {
        return false;
      }
      blocks := blocks[index := data];
      return true;
    }

    method CanAssemble() returns (all: bool)
      ensures all <==> |blocks| == expectedCount
    {
      return |blocks| == expectedCount;
    }

    method DrainOrdered() returns (result: seq<(u32, Bytes)>)
      modifies this
      ensures (State(), result) == DrainStep(old(State()))
    {
      hide DrainStep;
      result := [];
      DrainFrom(State(), []);
      while nextExpected in blocks
        invariant DrainStep(old(State())) == (DrainStep(State()).0, result + DrainStep(State()).1)
        decreases |blocks|
      {
        ShrinkMap(blocks, nextExpected);
        DrainFrom(State(), result);
        result := result + [(nextExpected, blocks[nextExpected])];
        blocks := blocks - {nextExpected};
        nextExpected := WrapAdd(nextExpected, 1);
      }
      DrainFrom(State(), result);
    }
  }

  /** One round of the drain, after `done` has been taken out. */
  lemma DrainFrom(b: Buffer, done: seq<(u32, Bytes)>)
    ensures [] + DrainStep(b).1 == DrainStep(b).1
    ensures b.nextExpected !in b.blocks ==> DrainStep(b).0 == b && done + DrainStep(b).1 == done
    ensures b.nextExpected in b.blocks ==>
              var n := b.nextExpected;
              var next := b.(blocks := b.blocks - {n}, nextExpected := WrapAdd(n, 1));
              DrainStep(b).0 == DrainStep(next).0
              && done + DrainStep(b).1 == (done + [(n, b.blocks[n])]) + DrainStep(next).1
  {
    if b.nextExpected in b.blocks {
      var n := b.nextExpected;
      var tail := DrainStep(b.(blocks := b.blocks - {n}, nextExpected := WrapAdd(n, 1))).1;
      assert done + ([(n, b.blocks[n])] + tail) == (done + [(n, b.blocks[n])]) + tail;
    }
  }

  // ---- runs over a file ----

  /** Block `index` of the file arrives, or the consumer drains. Any block may arrive any number of times. */
  datatype Event = Arrive(index: u32) | Drain

  datatype Progress = Progress(buffer: Buffer, output: seq<(u32, Bytes)>)

  function Run(file: seq<Bytes>, events: seq<Event>): Progress
    requires |file| < WORD
  {
    if events == [] then Progress(Buffer(map[], |file|, 0), [])
    else
      var p := Run(file, events[..|events| - 1]);
      match events[|events| - 1]
      case Arrive(i) =>
        if i < |file| then p.(buffer := PushStep(p.buffer, i, file[i]).0)
        else p.(buffer := PushStep(p.buffer, i, []).0)
      case Drain =>
        var (b, more) := DrainStep(p.buffer);
        Progress(b, p.output + more)
  }

  function Arrived(events: seq<Event>): set<u32> {
    set e | e in events && e.Arrive? :: e.index
  }

  /** The first `n` blocks of the file, each with its index. */
  function Numbered(file: seq<Bytes>, n: nat): seq<(u32, Bytes)>
    requires n <= |file| < WORD
  {
    seq(n, i requires 0 <= i < n => (i, file[i]))
  }

  ghost predicate Inv(file: seq<Bytes>, arrived: set<u32>, p: Progress)
    requires |file| < WORD
  {
    && p.buffer.expectedCount == |file|
    && p.buffer.nextExpected <= |file|
    && p.output == Numbered(file, p.buffer.nextExpected)
    && (forall k :: k in p.buffer.blocks ==> k < |file| && k in arrived && p.buffer.blocks[k] == file[k])
    && (forall k :: k in arrived && k < |file| ==> k < p.buffer.nextExpected || k in p.buffer.blocks)
    && (forall k :: 0 <= k < p.buffer.nextExpected ==> k in arrived)
  }

  /** Handing out the next expected block. */
  function TakeNext(p: Progress): Progress
    requires p.buffer.nextExpected in p.buffer.blocks
  {
    var b := p.buffer;
    var n := b.nextExpected;
    Progress(b.(blocks := b.blocks - {n}, nextExpected := WrapAdd(n, 1)), p.output + [(n, b.blocks[n])])
  }

  lemma TakeNextKeeps(file: seq<Bytes>, arrived: set<u32>, p: Progress)
    requires |file| < WORD && Inv(file, arrived, p) && p.buffer.nextExpected in p.buffer.blocks
    ensures Inv(file, arrived, TakeNext(p))
  {
    var n := p.buffer.nextExpected;
    assert Numbered(file, n + 1) == Numbered(file, n) + [(n, file[n])];
  }

  lemma {:induction false} DrainKeeps(file: seq<Bytes>, arrived: set<u32>, p: Progress)
    requires |file| < WORD && Inv(file, arrived, p)
    ensures var (b, more) := DrainStep(p.buffer);
            Inv(file, arrived, Progress(b, p.output + more))
            && (b.nextExpected < |file| ==> b.nextExpected !in arrived)
    decreases |p.buffer.blocks|
  {
    if p.buffer.nextExpected in p.buffer.blocks {
      ShrinkMap(p.buffer.blocks, p.buffer.nextExpected);
      TakeNextKeeps(file, arrived, p);
      hide Inv;
      var next := TakeNext(p);
      DrainKeeps(file, arrived, next);
      assert next.output + DrainStep(next.buffer).1 == p.output + DrainStep(p.buffer).1;
    } else {
      assert p.output + [] == p.output;
    }
  }

  lemma {:induction false} RunKeeps(file: seq<Bytes>, events: seq<Event>)
    requires |file| < WORD
    ensures Inv(file, Arrived(events), Run(file, events))
  {
    if events != [] {
      var before := events[..|events| - 1];
      var last := events[|events| - 1];
      RunKeeps(file, before);
      assert events == before + [last];
      assert Arrived(events) == Arrived(before) + if last.Arrive? then {last.index} else {};
      if last.Drain? {
        DrainKeeps(file, Arrived(before), Run(file, before));
      }
    }
  }

  /** At every point the blocks handed out are 0, 1, 2, ... with the file's own data. */
  lemma OutputIsPrefix(file: seq<Bytes>, events: seq<Event>)
    requires |file| < WORD
    ensures var p := Run(file, events);
            |p.output| <= |file| && p.output == Numbered(file, |p.output|)
  {
    RunKeeps(file, events);
  }

  /** After a drain everything before the first absent block is out; with no block absent, the whole file. */
  lemma DrainIsComplete(file: seq<Bytes>, events: seq<Event>)
    requires |file| < WORD
    ensures var n := |Run(file, events + [Drain]).output|;
            && n <= |file|
            && (forall k :: 0 <= k < n ==> k in Arrived(events))
            && (n < |file| ==> n !in Arrived(events))
            && (Below(|file|) <= Arrived(events)
                ==> Run(file, events + [Drain]).output == Numbered(file, |file|))
  {
    RunKeeps(file, events);
    assert (events + [Drain])[..|events|] == events;
    DrainKeeps(file, Arrived(events), Run(file, events));
  }

  // ---- when the buffer says it can assemble ----

  /** The blocks that arrive once more after they have been handed out; the buffer keeps such a block for good. */
  function Again(file: seq<Bytes>, events: seq<Event>): set<u32>
    requires |file| < WORD
  {
    if events == [] then {}
    else
      var before, last := events[..|events| - 1], events[|events| - 1];
      Again(file, before)
      + if last.Arrive? && last.index < Run(file, before).buffer.nextExpected then {last.index} else {}
  }

  /** A drain takes out what lies between the old and the new next block, and touches nothing below. */
  lemma {:induction false} DrainTakesAhead(b: Buffer)
    requires forall k :: k in b.blocks ==> k < b.expectedCount
    requires b.nextExpected <= b.expectedCount
    ensures var b' := DrainStep(b).0;
            && b.nextExpected <= b'.nextExpected
            && (forall k: u32 :: k < b.nextExpected ==> (k in b'.blocks <==> k in b.blocks))
            && (forall k: u32 :: b.nextExpected <= k < b'.nextExpected ==> k !in b'.blocks)
    decreases |b.blocks|
  {
    if b.nextExpected in b.blocks {
      ShrinkMap(b.blocks, b.nextExpected);
      var next := b.(blocks := b.blocks - {b.nextExpected}, nextExpected := b.nextExpected + 1);
      DrainTakesAhead(next);
      assert DrainStep(b).0 == DrainStep(next).0;
    }
  }

  /** Below the next block, exactly the blocks that arrived again are in the buffer. */
  lemma {:induction false} StaleBlocks(file: seq<Bytes>, events: seq<Event>)
    requires |file| < WORD
    ensures var b := Run(file, events).buffer;
            && (forall k :: k in Again(file, events) ==> k < b.nextExpected)
            && (forall k: u32 :: k < b.nextExpected ==> (k in b.blocks <==> k in Again(file, events)))
  {
    if events != [] {
      var before := events[..|events| - 1];
      StaleBlocks(file, before);
      RunKeeps(file, before);
      if events[|events| - 1].Drain? {
        hide DrainStep;
        DrainTakesAhead(Run(file, before).buffer);
      }
    }
  }

  lemma FullWhenAllHeld(blocks: map<u32, Bytes>, n: nat)
    requires n < WORD && forall k :: k in blocks ==> k < n
    ensures |blocks| == n <==> forall k: u32 :: k < n ==> k in blocks
  {
    hide Below;
    assert |blocks.Keys| == |blocks|;
    assert blocks.Keys <= Below(n);
    if |blocks| == n {
      SameSize(blocks.Keys, Below(n));
    }
    if forall k: u32 :: k < n ==> k in blocks {
      assert blocks.Keys == Below(n);
    }
  }

  /** Which blocks are still in the buffer. */
  lemma HeldIff(file: seq<Bytes>, events: seq<Event>, k: u32)
    requires k < |file| < WORD
    ensures var p := Run(file, events);
            && |p.output| == p.buffer.nextExpected
            && (k in p.buffer.blocks <==> if k < |p.output| then k in Again(file, events) else k in Arrived(events))
            && (k < |p.output| ==> k in Arrived(events))
  {
    hide Run, Again, Arrived;
    RunKeeps(file, events);
    StaleBlocks(file, events);
  }

  /**
   * A push is refused exactly for a number past the file's end, a block that waits in the buffer, or one
   * that was handed out and has come again already; what is accepted is stored as it came.
   */
  lemma PushRefusedIff(file: seq<Bytes>, events: seq<Event>, k: u32, data: Bytes)
    requires |file| < WORD
    ensures var p := Run(file, events);
            var (after, ok) := PushStep(p.buffer, k, data);
            && (ok <==> k < |file| && (if k < |p.output| then k !in Again(file, events) else k !in Arrived(events)))
            && after == if ok then p.buffer.(blocks := p.buffer.blocks[k := data]) else p.buffer
  {
    RunKeeps(file, events);
    hide Run, Again, Arrived;
    if k < |file| {
      HeldIff(file, events, k);
    }
  }

  /**
   * "Can assemble" holds exactly when every block has arrived and every block already handed out has
   * arrived again.
   */
  lemma CanAssembleIff(file: seq<Bytes>, events: seq<Event>)
    requires |file| < WORD
    ensures var p := Run(file, events);
            |p.buffer.blocks| == |file|
            <==> Below(|file|) <= Arrived(events)
                 && forall k: u32 :: k < |p.output| ==> k in Again(file, events)
  {
    hide Run, Again, Arrived, Below;
    var p := Run(file, events);
    OutputIsPrefix(file, events);
    Held(file, events);
    FullWhenAllHeld(p.buffer.blocks, |file|);
    forall k: u32 | k < |file|
      ensures k in p.buffer.blocks <==>
                k in Arrived(events) && (k < |p.output| ==> k in Again(file, events))
    {
      HeldIff(file, events, k);
    }
    if |p.buffer.blocks| == |file| {
      assert forall k: u32 :: k in Below(|file|) ==> k in p.buffer.blocks;
      assert forall k: u32 :: k < |p.output| ==> k in p.buffer.blocks;
    } else {
      var k: u32 :| k < |file| && k !in p.buffer.blocks;
      HeldIff(file, events, k);
      assert k in Below(|file|);
    }
  }

  lemma Held(file: seq<Bytes>, events: seq<Event>)
    requires |file| < WORD
    ensures forall k :: k in Run(file, events).buffer.blocks ==> k < |file|
  {
    RunKeeps(file, events);
  }

  ghost predicate EachOnce(events: seq<Event>) {
    forall i, j :: 0 <= i < j < |events| && events[i].Arrive? && events[j].Arrive? ==> events[i] != events[j]
  }

  lemma {:induction false} NoneAgain(file: seq<Bytes>, events: seq<Event>)
    requires |file| < WORD && EachOnce(events)
    ensures Again(file, events) == {}
  {
    if events != [] {
      var before, last := events[..|events| - 1], events[|events| - 1];
      NoneAgain(file, before);
      RunKeeps(file, before);
      if last.Arrive? {
        assert forall j :: 0 <= j < |before| ==> before[j] == events[j];
        assert last !in before;
        assert last.index !in Arrived(before);
      }
    }
  }

  /** When no block arrives twice, it holds exactly while everything has arrived and nothing is handed out. */
  lemma CanAssembleOnce(file: seq<Bytes>, events: seq<Event>)
    requires |file| < WORD && EachOnce(events)
    ensures var p := Run(file, events);
            |p.buffer.blocks| == |file| <==> Below(|file|) <= Arrived(events) && p.output == []
  {
    hide Run, Arrived, Below;
    CanAssembleIff(file, events);
    NoneAgain(file, events);
    OutputIsPrefix(file, events);
    var n: u32 := |Run(file, events).output|;
    assert n > 0 ==> 0 < n && 0 !in Again(file, events);
  }

  /** Block 0 is drained and arrives again before block 1: the buffer is full although block 0 is out. */
  lemma AssemblesAfterDrain(file: seq<Bytes>, events: seq<Event>)
    requires file == [[1], [2]] && events == [Arrive(0), Drain, Arrive(0), Arrive(1)]
    ensures |Run(file, events).buffer.blocks| == |file| && Run(file, events).output == [(0, [1])]
  {
    RunStep(file, events, 0);
    RunStep(file, events, 1);
    RunStep(file, events, 2);
    RunStep(file, events, 3);
    assert events[..0] == [] && events[..4] == events;
    var one: map<u32, Bytes> := map[0 := [1]];
    assert one - {0} == map[];
    DrainOne(one);
    hide Run, DrainStep;
    assert Run(file, events[..1]) == Progress(Buffer(one, 2, 0), []);
    assert Run(file, events[..2]) == Progress(Buffer(map[], 2, 1), [(0, [1])]);
    assert Run(file, events[..3]) == Progress(Buffer(one, 2, 1), [(0, [1])]);
  }

  lemma DrainOne(blocks: map<u32, Bytes>)
    requires blocks == map[0 := [1]]
    ensures DrainStep(Buffer(blocks, 2, 0)) == (Buffer(map[], 2, 1), [(0, [1])])
  {
    var b := Buffer(blocks, 2, 0);
    var rest := b.(blocks := b.blocks - {b.nextExpected}, nextExpected := WrapAdd(b.nextExpected, 1));
    assert rest == Buffer(map[], 2, 1);
    assert DrainStep(rest) == (rest, []);
    var out: seq<(u32, Bytes)> := [(0, [1])];
    assert out + [] == out;
    assert DrainStep(b) == (rest, out + []);
  }

  /** What the `n`-th event does. */
  lemma RunStep(file: seq<Bytes>, events: seq<Event>, n: nat)
    requires |file| < WORD && n < |events|
    ensures Run(file, []) == Progress(Buffer(map[], |file|, 0), [])
    ensures var p := Run(file, events[..n]);
            Run(file, events[..n + 1]) ==
            match events[n]
            case Arrive(i) => p.(buffer := PushStep(p.buffer, i, if i < |file| then file[i] else []).0)
            case Drain => Progress(DrainStep(p.buffer).0, p.output + DrainStep(p.buffer).1)
  {
    hide DrainStep, PushStep;
    assert events[..n + 1][..n] == events[..n];
  }

  /** The indices of a file of `n` blocks. */
  function Below(n: nat): (indices: set<u32>)
    requires n <= WORD
    ensures forall k: u32 :: k in indices <==> k < n
    ensures |indices| == n
  {
    if n == 0 then {} else Below(n - 1) + {n - 1}
  }

  lemma SameSize<T>(a: set<T>, b: set<T>)
    requires a <= b && |a| == |b|
    ensures a == b
  {
    assert |b - a| == |b| - |a|;
  }

  /** Once every block has arrived and been drained, the pieces joined in order are the file. */
  lemma DrainedFile(data: Bytes, size: ChunkSize, events: seq<Event>)
    requires NumBlocks(|data|, size) < WORD
    requires Below(NumBlocks(|data|, size)) <= Arrived(events)
    ensures var out := Run(Blocks(data, size), events + [Drain]).output;
            Join(seq(|out|, i requires 0 <= i < |out| => out[i].1)) == data
  {
    hide NumBlocks;
    var file := Blocks(data, size);
    DrainIsComplete(file, events);
    var out := Run(file, events + [Drain]).output;
    assert seq(|out|, i requires 0 <= i < |out| => out[i].1) == file;
    JoinBlocks(data, size);
  }
}
