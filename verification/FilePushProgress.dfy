/** What the daemon does with each message of a push, on every run, and that a push can succeed. */
module FilePushProgress {
  import opened Machine
  import opened FilePush

  // ---- what a write leaves in a file ----

  /** The file `after` is `before` with `data` at `offset`, a gap before it being zeros. */
  ghost predicate Writes(before: Bytes, offset: nat, data: Bytes, after: Bytes) {
    && |after| == (if offset + |data| > |before| then offset + |data| else |before|)
    && (forall i :: 0 <= i < |after| ==>
          after[i] == if offset <= i < offset + |data| then data[i - offset]
                      else if i < |before| then before[i] else 0)
  }

  /** A write changes the bytes it covers, lengthens the file if it must, and does nothing for no bytes. */
  lemma WriteAtReads(file: Bytes, offset: nat, data: Bytes)
    ensures if data == [] then WriteAt(file, offset, data) == file
            else Writes(file, offset, data, WriteAt(file, offset, data))
  {
  }

  // ---- every message, on every run ----

  /** However often the request arrives: an open transfer is the one asked for, and a chunk is what its offset says. */
  ghost predicate Sound(p: Push, s: System) {
    && (p.id in s.daemon.transfers ==> s.daemon.transfers[p.id] == Transfer(p.path, |p.data|))
    && (forall c :: c in s.chunks ==> c.0 < |p.data| && c.1 == ChunkAt(p.data, c.0))
    && s.client.offset <= |p.data|
  }

  lemma StepSound(p: Push, s: System, step: Step)
    requires Sound(p, s)
    ensures Sound(p, Apply(p, s, step))
  {
    hide WriteAt, ChunkAt;
  }

  lemma {:induction false} RunSound(p: Push, files: map<Path, Bytes>, pushes: nat, steps: seq<Step>)
    ensures Sound(p, Run(p, files, pushes, steps))
  {
    if steps != [] {
      hide Apply, Sound;
      RunSound(p, files, pushes, steps[..|steps| - 1]);
      StepSound(p, Run(p, files, pushes, steps[..|steps| - 1]), steps[|steps| - 1]);
    }
    assert Sound(p, Start(files, pushes));
  }

  /** All of `d` but the file at `path` and transfer `id` is as in `c`. */
  ghost predicate OthersSame(c: DaemonState, d: DaemonState, path: Path, id: u32) {
    && (forall q :: q != path ==> (q in d.files <==> q in c.files) && (q in d.files ==> d.files[q] == c.files[q]))
    && d.transfers - {id} == c.transfers - {id}
  }

  lemma ChunkEffect(p: Push, s: System, offset: nat, chunk: Bytes)
    requires Sound(p, s) && (offset, chunk) in s.chunks && p.id in s.daemon.transfers
    ensures var t := Apply(p, s, ChunkArrives(offset, chunk, None));
            var end := if offset + 1024 < |p.data| then offset + 1024 else |p.data|;
            && t == s.(daemon := t.daemon, acks := s.acks + {(p.id, end)})
            && offset < end && chunk == p.data[offset..end]
            && Writes(Content(s.daemon, p.path), offset, p.data[offset..end], Content(t.daemon, p.path))
            && (p.id in t.daemon.transfers <==> end < |p.data|)
            && OthersSame(s.daemon, t.daemon, p.path, p.id)
  {
    hide WriteAt, Writes;
    WriteAtReads(Content(s.daemon, p.path), offset, chunk);
  }

  /**
   * While the transfer is open every chunk that arrives is written where it belongs and acknowledged up
   * to its end, whatever arrived before it; the transfer closes exactly with the end of the file.
   */
  lemma ChunkIsWritten(
    p: Push, files: map<Path, Bytes>, pushes: nat, steps: seq<Step>, offset: nat, chunk: Bytes)
    requires var s := Run(p, files, pushes, steps); (offset, chunk) in s.chunks && p.id in s.daemon.transfers
    ensures var s, t := Run(p, files, pushes, steps),
                        Run(p, files, pushes, steps + [ChunkArrives(offset, chunk, None)]);
            var end := if offset + 1024 < |p.data| then offset + 1024 else |p.data|;
            && t == s.(daemon := t.daemon, acks := s.acks + {(p.id, end)})
            && offset < end && chunk == p.data[offset..end]
            && Writes(Content(s.daemon, p.path), offset, p.data[offset..end], Content(t.daemon, p.path))
            && (p.id in t.daemon.transfers <==> end < |p.data|)
            && OthersSame(s.daemon, t.daemon, p.path, p.id)
  {
    hide Run, Apply, Sound, Writes, OthersSame;
    RunSound(p, files, pushes, steps);
    var longer := ExtendRun(p, files, pushes, steps, ChunkArrives(offset, chunk, None));
    ChunkEffect(p, Run(p, files, pushes, steps), offset, chunk);
  }

  /** A chunk whose write fails after `n` bytes leaves those bytes and is not acknowledged. */
  lemma FailedChunk(p: Push, files: map<Path, Bytes>, pushes: nat, steps: seq<Step>,
                    offset: nat, chunk: Bytes, n: nat)
    requires var s := Run(p, files, pushes, steps); (offset, chunk) in s.chunks && p.id in s.daemon.transfers
    requires n < |chunk|
    ensures var s, t := Run(p, files, pushes, steps),
                        Run(p, files, pushes, steps + [ChunkArrives(offset, chunk, Some(n))]);
            && t == s.(daemon := t.daemon) && t.daemon.transfers == s.daemon.transfers
            && (if n == 0 then Content(t.daemon, p.path) == Content(s.daemon, p.path)
                else Writes(Content(s.daemon, p.path), offset, chunk[..n], Content(t.daemon, p.path)))
            && OthersSame(s.daemon, t.daemon, p.path, p.id)
  {
    hide Run, WriteAt, Writes;
    RunSound(p, files, pushes, steps);
    var longer := ExtendRun(p, files, pushes, steps, ChunkArrives(offset, chunk, Some(n)));
    WriteAtReads(Content(Run(p, files, pushes, steps).daemon, p.path), offset, chunk[..n]);
  }

  /** A chunk that arrives while its transfer is not open changes nothing. */
  lemma ClosedChunk(p: Push, files: map<Path, Bytes>, pushes: nat, steps: seq<Step>,
                    offset: nat, chunk: Bytes, failAfter: Option<nat>)
    requires p.id !in Run(p, files, pushes, steps).daemon.transfers
    ensures Run(p, files, pushes, steps + [ChunkArrives(offset, chunk, failAfter)])
         == Run(p, files, pushes, steps)
  {
    hide Run;
    var longer := ExtendRun(p, files, pushes, steps, ChunkArrives(offset, chunk, failAfter));
  }

  /** The request empties the file, opens the transfer and is acknowledged at 0, unless the file does not open. */
  lemma RequestOpens(p: Push, files: map<Path, Bytes>, pushes: nat, steps: seq<Step>, openOk: bool)
    requires Run(p, files, pushes, steps).pushes > 0
    ensures var s, t := Run(p, files, pushes, steps), Run(p, files, pushes, steps + [PushArrives(openOk)]);
            if openOk
            then && t == s.(daemon := t.daemon, acks := s.acks + {(p.id, 0)}, pushes := s.pushes - 1)
                 && p.path in t.daemon.files && t.daemon.files[p.path] == []
                 && p.id in t.daemon.transfers && t.daemon.transfers[p.id] == Transfer(p.path, |p.data|)
                 && OthersSame(s.daemon, t.daemon, p.path, p.id)
            else t == s.(pushes := s.pushes - 1)
  {
    hide Run;
    var longer := ExtendRun(p, files, pushes, steps, PushArrives(openOk));
  }

  // ---- a push can succeed ----

  /** `offset` bytes are acknowledged, the client is about to send the chunk there, the transfer is open. */
  ghost predicate At(p: Push, s: System, offset: nat) {
    offset <= |p.data| && s.client == Client(offset, false) && (offset < |p.data| ==> p.id in s.daemon.transfers)
  }

  /** One chunk is sent, arrives and is acknowledged. */
  lemma PushChunk(p: Push, files: map<Path, Bytes>, steps: seq<Step>, offset: nat) returns (longer: seq<Step>)
    requires offset < |p.data| && At(p, Run(p, files, 1, steps), offset)
    ensures At(p, Run(p, files, 1, longer), ChunkEnd(p.data, offset))
  {
    var chunk := ChunkAt(p.data, offset);
    var sent := ExtendRun(p, files, 1, steps, ClientActs(Sent(offset, chunk)));
    var written := ExtendRun(p, files, 1, sent, ChunkArrives(offset, chunk, None));
    ChunkIsWritten(p, files, 1, sent, offset, chunk);
    longer := ExtendRun(p, files, 1, written, ClientActs(Got((p.id, ChunkEnd(p.data, offset)))));
    hide Run, OnChunk, Writes;
  }

  lemma {:induction false} PushRest(p: Push, files: map<Path, Bytes>, steps: seq<Step>, offset: nat)
    returns (longer: seq<Step>)
    requires offset <= |p.data| && At(p, Run(p, files, 1, steps), offset)
    ensures At(p, Run(p, files, 1, longer), |p.data|)
    decreases |p.data| - offset
  {
    hide Run, At;
    longer := steps;
    if offset < |p.data| {
      longer := PushChunk(p, files, steps, offset);
      longer := PushRest(p, files, longer, ChunkEnd(p.data, offset));
    }
  }

  /** For every non-empty file there is a run on which the one request arrives and the push succeeds. */
  lemma PushCanSucceed(p: Push, files: map<Path, Bytes>) returns (steps: seq<Step>)
    requires p.data != []
    ensures Succeeded(p, Run(p, files, 1, steps)) && Content(Run(p, files, 1, steps).daemon, p.path) == p.data
  {
    assert Run(p, files, 1, []) == Start(files, 1);
    RequestOpens(p, files, 1, [], true);
    steps := [] + [PushArrives(true)];
    assert At(p, Run(p, files, 1, steps), 0);
    hide Run;
    steps := PushRest(p, files, steps, 0);
    PushCorrect(files, 1);
    assert PushSafe(files, 1);
  }
}
