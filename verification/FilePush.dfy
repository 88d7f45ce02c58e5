/**
 * Stop-and-wait file push: the client sends a file chunk by chunk and retries until each is
 * acknowledged; the daemon writes chunks where they say and acknowledges how far they reach.
 */
module FilePush {
  import opened Machine

  const CHUNK_SIZE: nat := 1024
  const ATTEMPTS: nat := 4

  type Path = string

  /** An acknowledgement: transfer identifier and offset reached. */
  type Ack = (u32, nat)

  // ---- files ----

  /** Seek to `offset` and write: a gap is filled with zeros, nothing is written for no bytes. */
  function WriteAt(file: Bytes, offset: nat, data: Bytes): Bytes {
    if data == [] then file
    else
      var padded := if |file| < offset then file + seq(offset - |file|, _ => 0) else file;
      padded[..offset] + data + if offset + |data| < |padded| then padded[offset + |data|..] else []
  }

  // ---- the daemon ----

  datatype Transfer = Transfer(path: Path, size: nat)

  datatype DaemonState = DaemonState(transfers: map<u32, Transfer>, files: map<Path, Bytes>)

  function OnPush(d: DaemonState, id: u32, path: Path, size: nat, openOk: bool): (DaemonState, Option<Ack>) {
    if openOk then (DaemonState(d.transfers[id := Transfer(path, size)], d.files[path := []]), Some((id, 0)))
    else (d, None)
  }

  function Content(d: DaemonState, path: Path): Bytes {
    if path in d.files then d.files[path] else []
  }

  /** A chunk arrives; `failAfter` says after how many bytes the write fails, if it does. */
  function OnChunk(d: DaemonState, id: u32, offset: nat, chunk: Bytes, failAfter: Option<nat>)
    : (DaemonState, Option<Ack>)
  {
    if id !in d.transfers then (d, None)
    else
      var t := d.transfers[id];
      var file := Content(d, t.path);
      if failAfter.Some? && failAfter.value < |chunk| then
        (d.(files := d.files[t.path := WriteAt(file, offset, chunk[..failAfter.value])]), None)
      else
        var reached := offset + |chunk|;
        (DaemonState(if reached >= t.size then d.transfers - {id} else d.transfers,
                     d.files[t.path := WriteAt(file, offset, chunk)]),
         Some((id, reached)))
  }

  class Daemon {
    var transfers: map<u32, Transfer>
    var files: map<Path, Bytes>

    ghost function State(): DaemonState
      reads this
    {
      DaemonState(transfers, files)
    }

    constructor (files: map<Path, Bytes>)
      ensures State() == DaemonState(map[], files)
    {
      transfers, this.files := map[], files;
    }

    method HandleFilePush(id: u32, path: Path, size: nat, openOk: bool) returns (ack: Option<Ack>)
      modifies this
      ensures (State(), ack) == OnPush(old(State()), id, path, size, openOk)
    {
      if !openOk {
        return None;
      }
      files := files[path := []];
      transfers := transfers[id := Transfer(path, size)];
      return Some((id, 0));
    }

    method HandleFileChunk(id: u32, offset: nat, chunk: Bytes, failAfter: Option<nat>) returns (ack: Option<Ack>)
      modifies this
      ensures (State(), ack) == OnChunk(old(State()), id, offset, chunk, failAfter)
    {
      if id !in transfers {
        return None;
      }
      var t := transfers[id];
      var file := if t.path in files then files[t.path] else [];
      if failAfter.Some? && failAfter.value < |chunk| {
        files := files[t.path := WriteAt(file, offset, chunk[..failAfter.value])];
        return None;
      }
      files := files[t.path := WriteAt(file, offset, chunk)];
      var ackOff := offset + |chunk|;
      if ackOff >= t.size {
        transfers := transfers - {id};
      }
      return Some((id, ackOff));
    }
  }

  // ---- the client ----

  /** `offset` bytes are acknowledged; `waiting` once the chunk at `offset` has been sent. */
  datatype Client = Client(offset: nat, waiting: bool)

  function ChunkEnd(data: Bytes, offset: nat): nat {
    if offset + CHUNK_SIZE < |data| then offset + CHUNK_SIZE else |data|
  }

  function ChunkAt(data: Bytes, offset: nat): Bytes
    requires offset <= |data|
  {
    data[offset..ChunkEnd(data, offset)]
  }

  datatype ClientEvent =
    | Sent(offset: nat, chunk: Bytes)
    | Got(ack: Ack)

  /** What the client may do next: send the chunk it is at, or receive any acknowledgement. */
  predicate Legal(data: Bytes, c: Client, e: ClientEvent) {
    match e
    case Sent(offset, chunk) => c.offset == offset < |data| && chunk == ChunkAt(data, offset)
    case Got(_) => c.waiting
  }

  function Follow(id: u32, data: Bytes, c: Client, e: ClientEvent): Client {
    match e
    case Sent(_, _) => c.(waiting := true)
    case Got(ack) => if ack.0 == id && ack.1 >= ChunkEnd(data, c.offset)
                     then Client(ChunkEnd(data, c.offset), false) else c
  }

  function Replay(id: u32, data: Bytes, trace: seq<ClientEvent>): Client {
    if trace == [] then Client(0, false)
    else Follow(id, data, Replay(id, data, trace[..|trace| - 1]), trace[|trace| - 1])
  }

  predicate LegalTrace(id: u32, data: Bytes, trace: seq<ClientEvent>) {
    trace == []
    || (LegalTrace(id, data, trace[..|trace| - 1])
        && Legal(data, Replay(id, data, trace[..|trace| - 1]), trace[|trace| - 1]))
  }

  /** How often the chunk at `offset` was sent. */
  function Sends(trace: seq<ClientEvent>, offset: nat): nat {
    if trace == [] then 0
    else Sends(trace[..|trace| - 1], offset)
         + if trace[|trace| - 1].Sent? && trace[|trace| - 1].offset == offset then 1 else 0
  }

  /** The offsets sent, one for each transmission. */
  function Offsets(trace: seq<ClientEvent>): seq<nat> {
    if trace == [] then []
    else
      var before, last := trace[..|trace| - 1], trace[|trace| - 1];
      Offsets(before) + if last.Sent? then [last.offset] else []
  }

  /** What arrives before the deadline of each transmission: acknowledgements, or messages the client ignores. */
  type Inbox = nat -> seq<Option<Ack>>

  /** Every acknowledgement the client received did arrive during the transmission it was waiting on. */
  predicate Heard(inbox: Inbox, trace: seq<ClientEvent>) {
    trace == []
    || var before, last := trace[..|trace| - 1], trace[|trace| - 1];
       Heard(inbox, before)
       && (last.Got? ==> Offsets(before) != [] && Some(last.ack) in inbox(|Offsets(before)| - 1))
  }

  /** An acknowledgement of this transfer that reaches the end of the chunk at `offset`. */
  predicate Answers(id: u32, data: Bytes, offset: nat, arrived: Option<Ack>) {
    arrived.Some? && arrived.value.0 == id && arrived.value.1 >= ChunkEnd(data, offset)
  }

  predicate Answered(id: u32, data: Bytes, offset: nat, received: seq<Option<Ack>>) {
    exists j :: 0 <= j < |received| && Answers(id, data, offset, received[j])
  }

  /** Transmission `n` is answered exactly if the client goes on to another chunk, or ends well, after it. */
  predicate MovesAfter(id: u32, data: Bytes, inbox: Inbox, sent: seq<nat>, ends: bool, n: nat)
    requires n < |sent|
  {
    Answered(id, data, sent[n], inbox(n)) <==> if n + 1 < |sent| then sent[n + 1] != sent[n] else ends
  }

  predicate MovesWhenAnswered(id: u32, data: Bytes, inbox: Inbox, sent: seq<nat>, ends: bool) {
    forall n: nat :: n < |sent| ==> MovesAfter(id, data, inbox, sent, ends, n)
  }

  lemma Extend(id: u32, data: Bytes, inbox: Inbox, trace: seq<ClientEvent>, e: ClientEvent)
    requires LegalTrace(id, data, trace) && Legal(data, Replay(id, data, trace), e) && Heard(inbox, trace)
    requires e.Got? ==> Offsets(trace) != [] && Some(e.ack) in inbox(|Offsets(trace)| - 1)
    ensures LegalTrace(id, data, trace + [e]) && Heard(inbox, trace + [e])
    ensures Replay(id, data, trace + [e]) == Follow(id, data, Replay(id, data, trace), e)
    ensures Offsets(trace + [e]) == Offsets(trace) + if e.Sent? then [e.offset] else []
    ensures forall o: nat :: Sends(trace + [e], o) == Sends(trace, o) + if e.Sent? && e.offset == o then 1 else 0
  {
    assert (trace + [e])[..|trace|] == trace;
  }

  lemma EmptyTrace(id: u32, data: Bytes, inbox: Inbox)
    ensures LegalTrace(id, data, []) && Replay(id, data, []) == Client(0, false)
    ensures Heard(inbox, []) && Offsets([]) == []
    ensures forall o: nat :: Sends([], o) == 0
  {
  }

  /** What one more transmission, answered or not, makes of that. */
  lemma SendOnce(id: u32, data: Bytes, inbox: Inbox, sent: seq<nat>, offset: nat)
    requires MovesWhenAnswered(id, data, inbox, sent, sent == [] || sent[|sent| - 1] != offset)
    ensures MovesWhenAnswered(id, data, inbox, sent + [offset], Answered(id, data, offset, inbox(|sent|)))
  {
    hide Answered;
    var longer := sent + [offset];
    forall n: nat | n < |longer|
      ensures MovesAfter(id, data, inbox, longer, Answered(id, data, offset, inbox(|sent|)), n)
    {
      if n < |sent| {
        assert MovesAfter(id, data, inbox, sent, sent == [] || sent[|sent| - 1] != offset, n);
      }
    }
  }

  /** One transmission: send the chunk and listen until it is answered or the deadline passes. */
  method Transmit(id: u32, data: Bytes, inbox: Inbox, trace: seq<ClientEvent>, offset: nat, retried: bool)
    returns (acked: bool, longer: seq<ClientEvent>)
    requires offset < |data| && LegalTrace(id, data, trace) && Heard(inbox, trace)
    requires Replay(id, data, trace) == Client(offset, retried)
    ensures LegalTrace(id, data, longer) && Heard(inbox, longer)
    ensures Offsets(longer) == Offsets(trace) + [offset]
    ensures acked <==> Answered(id, data, offset, inbox(|Offsets(trace)|))
    ensures Replay(id, data, longer) == if acked then Client(ChunkEnd(data, offset), false) else Client(offset, true)
    ensures forall o: nat :: Sends(longer, o) == Sends(trace, o) + if o == offset then 1 else 0
  {
    hide LegalTrace, Replay, Sends, Offsets, Heard;
    var end := if offset + CHUNK_SIZE < |data| then offset + CHUNK_SIZE else |data|;
    acked := false;
    Extend(id, data, inbox, trace, Sent(offset, data[offset..end]));
    longer := trace + [Sent(offset, data[offset..end])];
    ghost var n := |Offsets(trace)|;
    var received := inbox(|Offsets(trace)|);
    var j := 0;
    while !acked && j < |received|
      invariant j <= |received|
      invariant LegalTrace(id, data, longer) && Heard(inbox, longer) && Offsets(longer) == Offsets(trace) + [offset]
      invariant Replay(id, data, longer) == if acked then Client(end, false) else Client(offset, true)
      invariant acked ==> Answered(id, data, offset, received)
      invariant !acked ==> forall i :: 0 <= i < j ==> !Answers(id, data, offset, received[i])
      invariant forall o: nat :: Sends(longer, o) == Sends(trace, o) + if o == offset then 1 else 0
      decreases |received| - j
    {
      if received[j].Some? {
        var ack := received[j].value;
        Extend(id, data, inbox, longer, Got(ack));
        longer := longer + [Got(ack)];
        if ack.0 == id && ack.1 >= end {
          assert Answers(id, data, offset, received[j]);
          acked := true;
        }
      }
      j := j + 1;
    }
  }

  /**
   * Push a file. `inbox(n)` is what arrives before the deadline of transmission `n`; the trace records
   * what the client did.
   */
  method CmdPush(id: u32, data: Bytes, inbox: Inbox) returns (ok: bool, trace: seq<ClientEvent>)
    ensures LegalTrace(id, data, trace) && Heard(inbox, trace)
    ensures MovesWhenAnswered(id, data, inbox, Offsets(trace), ok)
    ensures ok <==> Replay(id, data, trace).offset == |data|
    ensures forall o: nat :: Sends(trace, o) <= 4
    ensures !ok ==> Sends(trace, Replay(id, data, trace).offset) == 4
  {
    hide LegalTrace, Replay, Sends, Offsets, Heard, MovesWhenAnswered, Answered;
    trace := [];
    var total := |data|;
    var offset := 0;
    EmptyTrace(id, data, inbox);
    NothingSent(id, data, inbox);
    while offset < total
      invariant offset <= total
      invariant LegalTrace(id, data, trace) && Heard(inbox, trace) && Replay(id, data, trace) == Client(offset, false)
      invariant MovesWhenAnswered(id, data, inbox, Offsets(trace), true)
      invariant Offsets(trace) == [] || Offsets(trace)[|Offsets(trace)| - 1] < offset
      invariant forall o: nat :: Sends(trace, o) <= if o < offset then ATTEMPTS else 0
    {
      var end := if offset + CHUNK_SIZE < total then offset + CHUNK_SIZE else total;
      var acked := false;
      var retry := 0;
      while retry < ATTEMPTS && !acked
        invariant retry <= ATTEMPTS && (acked ==> retry > 0)
        invariant LegalTrace(id, data, trace) && Heard(inbox, trace)
        invariant Replay(id, data, trace) == if acked then Client(end, false) else Client(offset, retry > 0)
        invariant MovesWhenAnswered(id, data, inbox, Offsets(trace), acked || retry == 0)
        invariant Offsets(trace) == [] || Offsets(trace)[|Offsets(trace)| - 1] <= offset
        invariant retry > 0 <==> Offsets(trace) != [] && Offsets(trace)[|Offsets(trace)| - 1] == offset
        invariant Sends(trace, offset) == retry
        invariant forall o: nat :: Sends(trace, o) <= if o <= offset then ATTEMPTS else 0
        decreases ATTEMPTS - retry
      {
        ghost var sent := Offsets(trace);
        acked, trace := Transmit(id, data, inbox, trace, offset, retry > 0);
        SendOnce(id, data, inbox, sent, offset);
        retry := retry + 1;
      }
      if !acked {
        return false, trace;
      }
      offset := end;
    }
    ok := true;
  }

  lemma NothingSent(id: u32, data: Bytes, inbox: Inbox)
    ensures MovesWhenAnswered(id, data, inbox, [], true)
  {
  }

  // ---- both ends over a lossy network ----

  /** One push of `data` to `path`; the request may still be delivered `pushes` times. */
  datatype System = System(
    client: Client, daemon: DaemonState, pushes: nat, chunks: set<(nat, Bytes)>, acks: set<Ack>)

  datatype Step =
    | ClientActs(e: ClientEvent)
    | PushArrives(openOk: bool)
    | ChunkArrives(offset: nat, chunk: Bytes, failAfter: Option<nat>)

  datatype Push = Push(id: u32, path: Path, data: Bytes)

  function WithAck(acks: set<Ack>, ack: Option<Ack>): set<Ack> {
    if ack.Some? then acks + {ack.value} else acks
  }

  /** The client takes an event that is legal, an acknowledgement of this transfer only if it was sent. */
  predicate Takes(p: Push, s: System, e: ClientEvent) {
    Legal(p.data, s.client, e) && (e.Got? && e.ack.0 == p.id ==> e.ack in s.acks)
  }

  /** Chunks and acknowledgements may be lost, repeated, delayed and reordered at will. */
  function Apply(p: Push, s: System, step: Step): System {
    match step
    case ClientActs(e) =>
      if !Takes(p, s, e) then s
      else s.(client := Follow(p.id, p.data, s.client, e),
              chunks := s.chunks + if e.Sent? then {(e.offset, e.chunk)} else {})
    case PushArrives(openOk) =>
      if s.pushes == 0 then s
      else
        var (daemon, ack) := OnPush(s.daemon, p.id, p.path, |p.data|, openOk);
        s.(daemon := daemon, pushes := s.pushes - 1, acks := WithAck(s.acks, ack))
    case ChunkArrives(offset, chunk, failAfter) =>
      if (offset, chunk) !in s.chunks then s
      else
        var (daemon, ack) := OnChunk(s.daemon, p.id, offset, chunk, failAfter);
        s.(daemon := daemon, acks := WithAck(s.acks, ack))
  }

  function Start(files: map<Path, Bytes>, pushes: nat): System {
    System(Client(0, false), DaemonState(map[], files), pushes, {}, {})
  }

  function Run(p: Push, files: map<Path, Bytes>, pushes: nat, steps: seq<Step>): System {
    if steps == [] then Start(files, pushes)
    else Apply(p, Run(p, files, pushes, steps[..|steps| - 1]), steps[|steps| - 1])
  }

  /** The file holds the first `n` bytes of the data, and nothing past the data's length. */
  ghost predicate Agrees(file: Bytes, data: Bytes, n: nat) {
    n <= |file| <= |data| && file[..n] == data[..n]
  }

  /** A chunk of this transfer has been acknowledged. */
  ghost predicate ChunkAcked(p: Push, s: System) {
    exists a :: a in s.acks && a.0 == p.id && a.1 > 0
  }

  ghost predicate Inv(p: Push, s: System) {
    && s.client.offset <= |p.data|
    && (s.client.offset > 0 ==> ChunkAcked(p, s))
    && (p.id in s.daemon.transfers ==> s.daemon.transfers[p.id] == Transfer(p.path, |p.data|))
    && (s.client.offset > 0 || p.id in s.daemon.transfers
        ==> Agrees(Content(s.daemon, p.path), p.data, s.client.offset))
    && (forall c :: c in s.chunks ==> c.0 <= s.client.offset && c.0 < |p.data| && c.1 == ChunkAt(p.data, c.0))
    && (forall a :: a in s.acks && a.0 == p.id && a.1 > 0
                    ==> a.1 <= ChunkEnd(p.data, s.client.offset)
                        && Agrees(Content(s.daemon, p.path), p.data, a.1))
  }

  lemma WriteAgrees(file: Bytes, data: Bytes, n: nat, offset: nat, k: nat)
    requires Agrees(file, data, n) && offset + k <= |data|
    ensures Agrees(WriteAt(file, offset, data[offset..offset + k]), data, n)
    ensures offset <= n ==> Agrees(WriteAt(file, offset, data[offset..offset + k]), data, offset + k)
  {
  }

  lemma ClientKeeps(p: Push, s: System, e: ClientEvent)
    requires Inv(p, s)
    ensures Inv(p, Apply(p, s, ClientActs(e)))
  {
  }

  lemma PushKeeps(p: Push, s: System, openOk: bool)
    requires Inv(p, s) && !(openOk && s.pushes > 0 && ChunkAcked(p, s))
    ensures Inv(p, Apply(p, s, PushArrives(openOk)))
  {
  }

  lemma ChunkSlice(data: Bytes, offset: nat, k: nat)
    requires offset < |data| && k <= |ChunkAt(data, offset)|
    ensures ChunkAt(data, offset)[..k] == data[offset..offset + k]
    ensures offset + |ChunkAt(data, offset)| == ChunkEnd(data, offset) <= |data|
    ensures ChunkAt(data, offset)[..|ChunkAt(data, offset)|] == ChunkAt(data, offset)
  {
  }

  lemma ChunkKeeps(p: Push, s: System, offset: nat, chunk: Bytes, failAfter: Option<nat>)
    requires Inv(p, s)
    ensures Inv(p, Apply(p, s, ChunkArrives(offset, chunk, failAfter)))
  {
    if (offset, chunk) in s.chunks && p.id in s.daemon.transfers {
      var written := if failAfter.Some? && failAfter.value < |chunk| then failAfter.value else |chunk|;
      var file := Content(s.daemon, p.path);
      ChunkSlice(p.data, offset, written);
      assert chunk == ChunkAt(p.data, offset);
      var after := WriteAt(file, offset, p.data[offset..offset + written]);
      var d := Apply(p, s, ChunkArrives(offset, chunk, failAfter));
      assert Content(d.daemon, p.path) == after;
      assert offset < s.client.offset ==> ChunkEnd(p.data, offset) <= ChunkEnd(p.data, s.client.offset);
      MoreAcks(p, s, d);
      hide WriteAt, ChunkAt, ChunkEnd, Content, ChunkAcked;
      WriteAgrees(file, p.data, s.client.offset, offset, written);
      forall a | a in s.acks && a.0 == p.id && a.1 > 0
        ensures Agrees(after, p.data, a.1)
      {
        WriteAgrees(file, p.data, a.1, offset, written);
      }
    } else {
      assert Apply(p, s, ChunkArrives(offset, chunk, failAfter)) == s;
    }
  }

  lemma MoreAcks(p: Push, s: System, d: System)
    requires s.acks <= d.acks
    ensures ChunkAcked(p, s) ==> ChunkAcked(p, d)
  {
    if ChunkAcked(p, s) {
      var a :| a in s.acks && a.0 == p.id && a.1 > 0;
      assert a in d.acks;
    }
  }

  /** No request opens the file once a chunk of the transfer has been acknowledged. */
  ghost predicate Undisturbed(p: Push, files: map<Path, Bytes>, pushes: nat, steps: seq<Step>) {
    steps == []
    || var before := steps[..|steps| - 1];
       var s := Run(p, files, pushes, before);
       Undisturbed(p, files, pushes, before)
       && (steps[|steps| - 1] == PushArrives(true) && s.pushes > 0 ==> !ChunkAcked(p, s))
  }

  lemma {:induction false} RunKeeps(p: Push, files: map<Path, Bytes>, pushes: nat, steps: seq<Step>)
    requires Undisturbed(p, files, pushes, steps)
    ensures Inv(p, Run(p, files, pushes, steps))
  {
    if steps != [] {
      RunKeeps(p, files, pushes, steps[..|steps| - 1]);
      var s := Run(p, files, pushes, steps[..|steps| - 1]);
      hide Run, Inv;
      match steps[|steps| - 1]
      case ClientActs(e) => ClientKeeps(p, s, e);
      case PushArrives(openOk) => PushKeeps(p, s, openOk);
      case ChunkArrives(offset, chunk, failAfter) => ChunkKeeps(p, s, offset, chunk, failAfter);
    }
  }

  /** A request that is delivered at most once disturbs nothing: before it no chunk can be acknowledged. */
  lemma {:induction false} OneRequestIsUndisturbed(p: Push, files: map<Path, Bytes>, pushes: nat, steps: seq<Step>)
    requires pushes <= 1
    ensures Undisturbed(p, files, pushes, steps)
    ensures var s := Run(p, files, pushes, steps);
            s.pushes <= pushes && (s.pushes == 1 ==> s.acks == {} && p.id !in s.daemon.transfers)
  {
    if steps != [] {
      OneRequestIsUndisturbed(p, files, pushes, steps[..|steps| - 1]);
    }
  }

  /** The client has nothing left to send, so the push reports success. */
  predicate Succeeded(p: Push, s: System) {
    s.client.offset == |p.data|
  }

  /** At every moment the file agrees with the data on the prefix the client has had acknowledged. */
  lemma AckedPrefixWritten(p: Push, files: map<Path, Bytes>, steps: seq<Step>)
    ensures var s := Run(p, files, 1, steps);
            s.client.offset > 0 ==> Agrees(Content(s.daemon, p.path), p.data, s.client.offset)
  {
    OneRequestIsUndisturbed(p, files, 1, steps);
    RunKeeps(p, files, 1, steps);
  }

  /**
   * However often the request is delivered, a successful push of a non-empty file left it byte for byte
   * if no delivery opened the file once a chunk had been acknowledged.
   */
  lemma UndisturbedPushIsExact(p: Push, files: map<Path, Bytes>, pushes: nat, steps: seq<Step>)
    requires p.data != [] && Undisturbed(p, files, pushes, steps) && Succeeded(p, Run(p, files, pushes, steps))
    ensures Content(Run(p, files, pushes, steps).daemon, p.path) == p.data
  {
    RunKeeps(p, files, pushes, steps);
    hide Run, Undisturbed;
    var file := Content(Run(p, files, pushes, steps).daemon, p.path);
    assert file[..|p.data|] == file && p.data[..|p.data|] == p.data;
  }

  ghost predicate PushSafe(files: map<Path, Bytes>, pushes: nat) {
    forall p: Push, steps :: p.data != [] && Succeeded(p, Run(p, files, pushes, steps))
                             ==> Content(Run(p, files, pushes, steps).daemon, p.path) == p.data
  }

  /** A successful push of a non-empty file left it byte for byte, exactly if the request arrives at most once. */
  lemma PushCorrect(files: map<Path, Bytes>, pushes: nat)
    ensures PushSafe(files, pushes) <==> pushes <= 1
  {
    if pushes <= 1 {
      forall p: Push, steps | p.data != [] && Succeeded(p, Run(p, files, pushes, steps))
        ensures Content(Run(p, files, pushes, steps).daemon, p.path) == p.data
      {
        OneRequestIsUndisturbed(p, files, pushes, steps);
        UndisturbedPushIsExact(p, files, pushes, steps);
      }
    } else {
      var p, steps := LateRequestTruncates(files, pushes);
    }
  }

  lemma ExtendRun(p: Push, files: map<Path, Bytes>, pushes: nat, steps: seq<Step>, step: Step)
    returns (longer: seq<Step>)
    ensures longer == steps + [step]
    ensures Run(p, files, pushes, longer) == Apply(p, Run(p, files, pushes, steps), step)
  {
    longer := steps + [step];
    assert longer[..|steps|] == steps;
  }

  /** A second copy of the request truncates the finished file before the last acknowledgement is read. */
  lemma LateRequestTruncates(files: map<Path, Bytes>, pushes: nat) returns (p: Push, steps: seq<Step>)
    requires pushes >= 2
    ensures p.data != [] && Succeeded(p, Run(p, files, pushes, steps))
    ensures Content(Run(p, files, pushes, steps).daemon, p.path) == []
  {
    p := Push(0, "f", [7]);
    assert ChunkAt(p.data, 0) == [7];
    steps := [];
    steps := ExtendRun(p, files, pushes, steps, ClientActs(Sent(0, [7])));
    steps := ExtendRun(p, files, pushes, steps, PushArrives(true));
    steps := ExtendRun(p, files, pushes, steps, ChunkArrives(0, [7], None));
    assert (0, 1) in Run(p, files, pushes, steps).acks;
    steps := ExtendRun(p, files, pushes, steps, PushArrives(true));
    steps := ExtendRun(p, files, pushes, steps, ClientActs(Got((0, 1))));
  }

  /** With nothing to send, the file can only change by being opened and truncated. */
  lemma {:induction false} EmptyPushRun(p: Push, files: map<Path, Bytes>, pushes: nat, steps: seq<Step>)
    requires p.data == []
    ensures var s := Run(p, files, pushes, steps);
            && s.client == Client(0, false) && s.chunks == {}
            && (Content(s.daemon, p.path) == []
                || Content(s.daemon, p.path) == Content(DaemonState(map[], files), p.path))
  {
    if steps != [] {
      EmptyPushRun(p, files, pushes, steps[..|steps| - 1]);
    }
  }

  /**
   * The push of an empty file always succeeds, and all its successful runs leave an empty file if and
   * only if there was none or an empty one to begin with.
   */
  lemma EmptyPushIff(p: Push, files: map<Path, Bytes>, pushes: nat)
    requires p.data == []
    ensures (forall steps :: Succeeded(p, Run(p, files, pushes, steps))
                             ==> Content(Run(p, files, pushes, steps).daemon, p.path) == p.data)
            <==> Content(DaemonState(map[], files), p.path) == []
    ensures forall steps :: Succeeded(p, Run(p, files, pushes, steps))
  {
    forall steps: seq<Step>
      ensures Succeeded(p, Run(p, files, pushes, steps))
      ensures Content(Run(p, files, pushes, steps).daemon, p.path) == []
              || Content(Run(p, files, pushes, steps).daemon, p.path) == Content(DaemonState(map[], files), p.path)
    {
      EmptyPushRun(p, files, pushes, steps);
    }
    assert Run(p, files, pushes, []) == Start(files, pushes);
    assert Content(Run(p, files, pushes, []).daemon, p.path) == Content(DaemonState(map[], files), p.path);
  }

  /** An empty file is reported as pushed before anything has reached the daemon. */
  lemma EmptyPushUnchecked(p: Push, files: map<Path, Bytes>, pushes: nat)
    requires p.data == [] && p.path in files && files[p.path] != []
    ensures Succeeded(p, Run(p, files, pushes, [])) && Content(Run(p, files, pushes, []).daemon, p.path) != p.data
  {
  }

  // ---- the client of the system is the client above ----

  /** The client's part of a run: the events it took, in order. */
  function Acted(p: Push, files: map<Path, Bytes>, pushes: nat, steps: seq<Step>): seq<ClientEvent> {
    if steps == [] then []
    else
      var before, last := steps[..|steps| - 1], steps[|steps| - 1];
      var s := Run(p, files, pushes, before);
      Acted(p, files, pushes, before) + if last.ClientActs? && Takes(p, s, last.e) then [last.e] else []
  }

  lemma {:induction false} ActedIsLegal(p: Push, files: map<Path, Bytes>, pushes: nat, steps: seq<Step>)
    ensures LegalTrace(p.id, p.data, Acted(p, files, pushes, steps))
    ensures Replay(p.id, p.data, Acted(p, files, pushes, steps)) == Run(p, files, pushes, steps).client
  {
    if steps != [] {
      var before := steps[..|steps| - 1];
      ActedIsLegal(p, files, pushes, before);
      var trace := Acted(p, files, pushes, before);
      assert forall e :: (trace + [e])[..|trace|] == trace;
      assert trace + [] == trace;
    }
  }

  /**
   * A push that reports success, as part of an undisturbed run of both ends, left the file byte for
   * byte: the client's events in the run are those the push recorded.
   */
  lemma PushOkMeansWritten(
    p: Push, files: map<Path, Bytes>, pushes: nat, steps: seq<Step>, trace: seq<ClientEvent>)
    requires p.data != [] && Undisturbed(p, files, pushes, steps) && Acted(p, files, pushes, steps) == trace
    requires Replay(p.id, p.data, trace).offset == |p.data|
    ensures Content(Run(p, files, pushes, steps).daemon, p.path) == p.data
  {
    ActedIsLegal(p, files, pushes, steps);
    UndisturbedPushIsExact(p, files, pushes, steps);
  }
}
