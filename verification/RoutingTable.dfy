/** The 256-bucket routing table as a value: what each operation makes of it, and what every run keeps. */
module RoutingTable {
  import opened Machine
  import opened NodeDistance
  import opened Buckets
  import opened NodeListCodec

  type Table = t: seq<seq<Entry>> | |t| == BUCKET_COUNT witness seq(BUCKET_COUNT, _ => [])

  function EmptyTable(): Table {
    seq(BUCKET_COUNT, _ => [])
  }

  // ---- the operations ----

  function InsertStep(local: NodeId, t: Table, id: NodeId, addr: Bytes, now: nat): (Table, Insertion) {
    if id == local then (t, Updated)
    else
      var i := BucketIndex(local, id);
      var (bucket, result) := Inserted(t[i], K_BUCKET_SIZE, id, addr, now);
      (t[i := bucket], result)
  }

  function TouchStep(local: NodeId, t: Table, id: NodeId, now: nat): Table {
    if id == local then t
    else
      var i := BucketIndex(local, id);
      t[i := Touched(t[i], id, now)]
  }

  function RemoveStep(local: NodeId, t: Table, id: NodeId): Table {
    if id == local then t
    else
      var i := BucketIndex(local, id);
      t[i := Removed(t[i], id)]
  }

  function RefreshStep(t: Table, now: nat): Table {
    seq(BUCKET_COUNT, i requires 0 <= i < BUCKET_COUNT => if Stale(t[i], now) then [] else t[i])
  }

  function InsertAll(local: NodeId, t: Table, nodes: seq<Node>, now: nat): Table {
    if nodes == [] then t
    else
      var last := nodes[|nodes| - 1];
      InsertStep(local, InsertAll(local, t, nodes[..|nodes| - 1], now), last.id, last.addr, now).0
  }

  const PING: byte := 1
  const PONG: byte := 2
  const FIND_NODE: byte := 3
  const NODES: byte := 4
  const PUT: byte := 5
  const GET: byte := 6
  const VALUE: byte := 7

  function ProcessStep(utf8: Bytes -> bool, local: NodeId, t: Table, sender: NodeId, payload: Bytes, now: nat): Table {
    if payload == [] then t
    else if payload[0] == PING || payload[0] == PONG then TouchStep(local, t, sender, now)
    else if payload[0] == NODES then InsertAll(local, t, Decode(utf8, payload[1..]), now)
    else t
  }

  datatype Step =
    | Insert(id: NodeId, addr: Bytes, now: nat)
    | Touch(id: NodeId, now: nat)
    | Remove(id: NodeId)
    | Refresh(now: nat)
    | Process(sender: NodeId, payload: Bytes, now: nat)

  function Next(utf8: Bytes -> bool, local: NodeId, t: Table, step: Step): Table {
    match step
    case Insert(id, addr, now) => InsertStep(local, t, id, addr, now).0
    case Touch(id, now) => TouchStep(local, t, id, now)
    case Remove(id) => RemoveStep(local, t, id)
    case Refresh(now) => RefreshStep(t, now)
    case Process(sender, payload, now) => ProcessStep(utf8, local, t, sender, payload, now)
  }

  function Run(utf8: Bytes -> bool, local: NodeId, steps: seq<Step>): Table {
    if steps == [] then EmptyTable()
    else Next(utf8, local, Run(utf8, local, steps[..|steps| - 1]), steps[|steps| - 1])
  }

  // ---- what every run keeps ----

  /** Bucket `i` holds at most 20 nodes, each once, none of them local, and all of them belong there. */
  predicate BucketOk(local: NodeId, i: nat, b: seq<Entry>) {
    && |b| <= K_BUCKET_SIZE
    && DistinctIds(b)
    && forall k :: 0 <= k < |b| ==> b[k].id != local && BucketIndex(local, b[k].id) == i
  }

  predicate TableOk(local: NodeId, t: Table) {
    forall i :: 0 <= i < BUCKET_COUNT ==> BucketOk(local, i, t[i])
  }

  /** The identifiers the table knows. */
  predicate Knows(local: NodeId, t: Table, id: NodeId) {
    id != local && Has(t[BucketIndex(local, id)], id)
  }

  lemma BucketKept(local: NodeId, i: nat, b: seq<Entry>, after: seq<Entry>, extra: NodeId)
    requires BucketOk(local, i, b) && |after| <= K_BUCKET_SIZE && DistinctIds(after)
    requires extra != local && BucketIndex(local, extra) == i
    requires forall id :: Has(after, id) ==> Has(b, id) || id == extra
    ensures BucketOk(local, i, after)
  {
    hide BucketIndex, DistinctIds;
    forall k | 0 <= k < |after|
      ensures after[k].id != local && BucketIndex(local, after[k].id) == i
    {
      assert Has(after, after[k].id);
    }
  }

  lemma InsertKeeps(local: NodeId, t: Table, id: NodeId, addr: Bytes, now: nat)
    requires TableOk(local, t)
    ensures TableOk(local, InsertStep(local, t, id, addr, now).0)
  {
    hide BucketIndex, Inserted, Has, DistinctIds;
    if id != local {
      var i := BucketIndex(local, id);
      var bucket := Inserted(t[i], K_BUCKET_SIZE, id, addr, now).0;
      assert BucketOk(local, i, t[i]);
      forall other: NodeId
        ensures DistinctIds(bucket) && |bucket| <= K_BUCKET_SIZE
        ensures Has(bucket, other) ==> Has(t[i], other) || other == id
      {
        InsertedHas(t[i], K_BUCKET_SIZE, id, addr, now, other);
      }
      InsertedHas(t[i], K_BUCKET_SIZE, id, addr, now, id);
      BucketKept(local, i, t[i], bucket, id);
    }
  }

  lemma TouchKeeps(local: NodeId, t: Table, id: NodeId, now: nat)
    requires TableOk(local, t)
    ensures TableOk(local, TouchStep(local, t, id, now))
  {
    hide BucketIndex, Touched, Has, DistinctIds;
    if id != local {
      var i := BucketIndex(local, id);
      assert BucketOk(local, i, t[i]);
      forall other: NodeId
        ensures Has(Touched(t[i], id, now), other) ==> Has(t[i], other)
      {
        TouchedHas(t[i], id, now, other);
      }
      TouchedHas(t[i], id, now, id);
      BucketKept(local, i, t[i], Touched(t[i], id, now), id);
    }
  }

  lemma RemoveKeeps(local: NodeId, t: Table, id: NodeId)
    requires TableOk(local, t)
    ensures TableOk(local, RemoveStep(local, t, id))
  {
    hide BucketIndex, Removed, Has, DistinctIds;
    if id != local {
      var i := BucketIndex(local, id);
      assert BucketOk(local, i, t[i]);
      forall other: NodeId
        ensures Has(Removed(t[i], id), other) ==> Has(t[i], other)
      {
        RemovedHas(t[i], id, other);
      }
      RemovedHas(t[i], id, id);
      BucketKept(local, i, t[i], Removed(t[i], id), id);
    }
  }

  lemma {:induction false} InsertAllKeeps(local: NodeId, t: Table, nodes: seq<Node>, now: nat)
    requires TableOk(local, t)
    ensures TableOk(local, InsertAll(local, t, nodes, now))
  {
    hide TableOk, InsertStep;
    if nodes != [] {
      var init := nodes[..|nodes| - 1];
      InsertAllKeeps(local, t, init, now);
      InsertKeeps(local, InsertAll(local, t, init, now), nodes[|nodes| - 1].id, nodes[|nodes| - 1].addr, now);
    }
  }

  lemma NextKeeps(utf8: Bytes -> bool, local: NodeId, t: Table, step: Step)
    requires TableOk(local, t)
    ensures TableOk(local, Next(utf8, local, t, step))
  {
    match step {
      case Insert(id, addr, now) => InsertKeeps(local, t, id, addr, now);
      case Touch(id, now) => TouchKeeps(local, t, id, now);
      case Remove(id) => RemoveKeeps(local, t, id);
      case Refresh(now) =>
      case Process(sender, payload, now) =>
        if payload != [] {
          if payload[0] == NODES {
            InsertAllKeeps(local, t, Decode(utf8, payload[1..]), now);
          } else {
            TouchKeeps(local, t, sender, now);
          }
        }
    }
  }

  /** On every run of the five operations the table is well formed. */
  lemma {:induction false} AlwaysOk(utf8: Bytes -> bool, local: NodeId, steps: seq<Step>)
    ensures TableOk(local, Run(utf8, local, steps))
  {
    if steps != [] {
      hide TableOk, Next;
      AlwaysOk(utf8, local, steps[..|steps| - 1]);
      NextKeeps(utf8, local, Run(utf8, local, steps[..|steps| - 1]), steps[|steps| - 1]);
    }
  }

  // ---- which nodes each step adds or drops ----

  lemma InsertKnows(local: NodeId, t: Table, id: NodeId, addr: Bytes, now: nat, other: NodeId)
    requires TableOk(local, t)
    ensures var (after, result) := InsertStep(local, t, id, addr, now);
            (Knows(local, after, other) <==> Knows(local, t, other) || (other == id && result.Added?))
            && (result.Added? <==> id != local && !Knows(local, t, id) && |t[BucketIndex(local, id)]| < K_BUCKET_SIZE)
            && (result.Full? <==> id != local && !Knows(local, t, id) && |t[BucketIndex(local, id)]| == K_BUCKET_SIZE)
  {
    hide BucketIndex, Inserted, Has, DistinctIds;
    if id != local {
      var i := BucketIndex(local, id);
      assert BucketOk(local, i, t[i]);
      InsertedHas(t[i], K_BUCKET_SIZE, id, addr, now, other);
      InsertedHas(t[i], K_BUCKET_SIZE, id, addr, now, id);
    }
  }

  /** Taking in a received list forgets nobody and learns only listed nodes. */
  lemma {:induction false} InsertAllKnows(local: NodeId, t: Table, nodes: seq<Node>, now: nat, other: NodeId)
    requires TableOk(local, t)
    ensures Knows(local, t, other) ==> Knows(local, InsertAll(local, t, nodes, now), other)
    ensures Knows(local, InsertAll(local, t, nodes, now), other) ==>
              Knows(local, t, other) || exists k :: 0 <= k < |nodes| && nodes[k].id == other
  {
    hide TableOk, InsertStep, Knows;
    if nodes != [] {
      var init, last := nodes[..|nodes| - 1], nodes[|nodes| - 1];
      InsertAllKeeps(local, t, init, now);
      InsertAllKnows(local, t, init, now, other);
      InsertKnows(local, InsertAll(local, t, init, now), last.id, last.addr, now, other);
    }
  }

  /** Exactly when `other` is known after a step. */
  ghost predicate KnownAfter(utf8: Bytes -> bool, local: NodeId, t: Table, step: Step, other: NodeId) {
    var after := Knows(local, Next(utf8, local, t, step), other);
    match step
    case Insert(id, addr, now) =>
      after <==> Knows(local, t, other)
                 || (other == id && id != local && |t[BucketIndex(local, id)]| < K_BUCKET_SIZE)
    case Touch(id, now) => after <==> Knows(local, t, other)
    case Remove(id) => after <==> Knows(local, t, other) && other != id
    case Refresh(now) => after <==> Knows(local, t, other) && !Stale(t[BucketIndex(local, other)], now)
    case Process(sender, payload, now) =>
      && (Knows(local, t, other) ==> after)
      && (after && !Knows(local, t, other) ==>
            payload != [] && payload[0] == NODES && Lists(Decode(utf8, payload[1..]), other))
  }

  predicate Lists(nodes: seq<Node>, id: NodeId) {
    exists k :: 0 <= k < |nodes| && nodes[k].id == id
  }

  /**
   * An insertion learns its node unless the bucket is full; no step but a removal or a refresh of a
   * stale bucket ever forgets a node, and no message can make the table forget one.
   */
  lemma StepKnows(utf8: Bytes -> bool, local: NodeId, t: Table, step: Step, other: NodeId)
    requires TableOk(local, t)
    ensures KnownAfter(utf8, local, t, step, other)
  {
    hide BucketIndex, DistinctIds, Decode, Inserted;
    match step {
      case Insert(id, addr, now) => InsertKnows(local, t, id, addr, now, other);
      case Touch(id, now) => TouchKnows(local, t, id, now, other);
      case Remove(id) => RemoveKnows(local, t, id, other);
      case Refresh(now) =>
      case Process(sender, payload, now) =>
        if payload != [] {
          if payload[0] == NODES {
            InsertAllKnows(local, t, Decode(utf8, payload[1..]), now, other);
          } else {
            TouchKnows(local, t, sender, now, other);
          }
        }
    }
  }

  lemma TouchKnows(local: NodeId, t: Table, id: NodeId, now: nat, other: NodeId)
    requires TableOk(local, t)
    ensures Knows(local, TouchStep(local, t, id, now), other) <==> Knows(local, t, other)
  {
    hide BucketIndex, Touched, Has, DistinctIds;
    if id != local {
      var i := BucketIndex(local, id);
      assert BucketOk(local, i, t[i]);
      TouchedHas(t[i], id, now, other);
    }
  }

  lemma RemoveKnows(local: NodeId, t: Table, id: NodeId, other: NodeId)
    requires TableOk(local, t)
    ensures Knows(local, RemoveStep(local, t, id), other) <==> Knows(local, t, other) && other != id
  {
    hide BucketIndex, Removed, Has, DistinctIds;
    if id != local {
      var i := BucketIndex(local, id);
      assert BucketOk(local, i, t[i]);
      RemovedHas(t[i], id, other);
    }
  }
}
