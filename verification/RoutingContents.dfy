/** What the routing table holds of each node: the address and time of the last step about it that took effect. */
module RoutingContents {
  import opened Machine
  import opened NodeDistance
  import opened Buckets
  import opened NodeListCodec
  import opened RoutingTable
  import opened RoutingHistory

  /** What an offer of `id` leaves: the new entry if the node is known or its bucket has room, else what was there. */
  function Offer(local: NodeId, room: bool, id: NodeId, addr: Bytes, now: nat, record: Option<Entry>): Option<Entry> {
    if id != local && (record.Some? || room) then Some(Entry(id, addr, now)) else record
  }

  /** What a list received at `now` leaves of node `id`: the last listing of it that found it known, or room for it. */
  function ListRecord(local: NodeId, t: Table, nodes: seq<Node>, now: nat, id: NodeId, record: Option<Entry>)
    : Option<Entry>
  {
    if nodes == [] then record
    else
      var last := nodes[|nodes| - 1];
      var before := ListRecord(local, t, nodes[..|nodes| - 1], now, id, record);
      if last.id == id then Offer(local, HasRoom(local, t, nodes, |nodes| - 1), id, last.addr, now, before) else before
  }

  function Seen(record: Option<Entry>, now: nat): Option<Entry> {
    if record.Some? then Some(record.value.(lastSeen := now)) else None
  }

  /** What is on record of node `id` after a step on table `t`. */
  function StepRecord(
    utf8: Bytes -> bool, local: NodeId, t: Table, step: Step, id: NodeId, record: Option<Entry>): Option<Entry>
  {
    match step
    case Insert(x, addr, now) =>
      if x == id then Offer(local, |t[BucketIndex(local, id)]| < 20, id, addr, now, record) else record
    case Touch(x, now) => if x == id then Seen(record, now) else record
    case Remove(x) => if x == id then None else record
    case Refresh(now) => if Stale(t[BucketIndex(local, id)], now) then None else record
    case Process(sender, payload, now) =>
      if payload == [] then record
      else if payload[0] == 1 || payload[0] == 2 then if sender == id then Seen(record, now) else record
      else if payload[0] == 4 then ListRecord(local, t, Decode(utf8, payload[1..]), now, id, record)
      else record
  }

  function RecordOf(utf8: Bytes -> bool, local: NodeId, steps: seq<Step>, id: NodeId): Option<Entry> {
    if steps == [] then None
    else
      var before := steps[..|steps| - 1];
      StepRecord(utf8, local, Run(utf8, local, before), steps[|steps| - 1], id, RecordOf(utf8, local, before, id))
  }

  /** The bucket of `id` holds what is on record of it; nothing is on record of the local node. */
  ghost predicate OnRecord(local: NodeId, t: Table, id: NodeId, record: Option<Entry>) {
    Records(t[BucketIndex(local, id)], id, record) && (id == local ==> record == None)
  }

  lemma BucketFits(local: NodeId, t: Table, i: nat)
    requires TableOk(local, t) && i < BUCKET_COUNT
    ensures DistinctIds(t[i]) && |t[i]| <= 20
  {
    assert BucketOk(local, i, t[i]);
  }

  lemma InsertOnRecord(local: NodeId, t: Table, x: NodeId, addr: Bytes, now: nat, id: NodeId, record: Option<Entry>)
    requires TableOk(local, t) && OnRecord(local, t, id, record)
    ensures OnRecord(local, InsertStep(local, t, x, addr, now).0, id,
                     if x == id then Offer(local, |t[BucketIndex(local, id)]| < 20, id, addr, now, record) else record)
  {
    hide BucketIndex, Inserted, Records, TableOk;
    var i := BucketIndex(local, x);
    BucketFits(local, t, i);
    if x != local && BucketIndex(local, id) == i {
      InsertRecords(t[i], K_BUCKET_SIZE, x, addr, now, id, record);
    }
  }

  lemma TouchOnRecord(local: NodeId, t: Table, x: NodeId, now: nat, id: NodeId, record: Option<Entry>)
    requires TableOk(local, t) && OnRecord(local, t, id, record)
    ensures OnRecord(local, TouchStep(local, t, x, now), id, if x == id then Seen(record, now) else record)
  {
    hide BucketIndex, Touched, TableOk;
    var i := BucketIndex(local, x);
    BucketFits(local, t, i);
    if x != local && BucketIndex(local, id) == i {
      TouchRecords(t[i], x, now, id, record);
      hide Records;
    }
  }

  lemma RemoveOnRecord(local: NodeId, t: Table, x: NodeId, id: NodeId, record: Option<Entry>)
    requires TableOk(local, t) && OnRecord(local, t, id, record)
    ensures OnRecord(local, RemoveStep(local, t, x), id, if x == id then None else record)
  {
    hide BucketIndex, Removed, Records, TableOk;
    var i := BucketIndex(local, x);
    BucketFits(local, t, i);
    if x != local && BucketIndex(local, id) == i {
      RemoveRecords(t[i], x, id, record);
    }
  }

  lemma RefreshOnRecord(local: NodeId, t: Table, now: nat, id: NodeId, record: Option<Entry>)
    requires OnRecord(local, t, id, record)
    ensures OnRecord(local, RefreshStep(t, now), id,
                     if Stale(t[BucketIndex(local, id)], now) then None else record)
  {
    hide BucketIndex, Stale;
  }

  /** Room is left in the table that has taken in the list so far exactly if `HasRoom` says so. */
  lemma RoomLeft(local: NodeId, t: Table, init: seq<Node>, last: Node, now: nat)
    requires TableOk(local, t)
    ensures HasRoom(local, t, init + [last], |init|)
            <==> |InsertAll(local, t, init, now)[BucketIndex(local, last.id)]| < 20
  {
    hide BucketIndex, InsertAll, Offered, TableOk, Knows;
    assert (init + [last])[..|init|] == init;
    ListFills(local, t, init, now, BucketIndex(local, last.id));
  }

  lemma {:induction false} ListOnRecord(
    local: NodeId, t: Table, nodes: seq<Node>, now: nat, id: NodeId, record: Option<Entry>)
    requires TableOk(local, t) && OnRecord(local, t, id, record)
    ensures OnRecord(local, InsertAll(local, t, nodes, now), id, ListRecord(local, t, nodes, now, id, record))
  {
    hide TableOk, OnRecord, InsertStep, HasRoom, BucketIndex;
    if nodes != [] {
      var init, last := nodes[..|nodes| - 1], nodes[|nodes| - 1];
      assert nodes == init + [last];
      ListOnRecord(local, t, init, now, id, record);
      InsertAllKeeps(local, t, init, now);
      RoomLeft(local, t, init, last, now);
      InsertOnRecord(local, InsertAll(local, t, init, now), last.id, last.addr, now, id,
                     ListRecord(local, t, init, now, id, record));
    }
  }

  lemma StepOnRecord(
    utf8: Bytes -> bool, local: NodeId, t: Table, step: Step, id: NodeId, record: Option<Entry>)
    requires TableOk(local, t) && OnRecord(local, t, id, record)
    ensures OnRecord(local, Next(utf8, local, t, step), id, StepRecord(utf8, local, t, step, id, record))
  {
    hide OnRecord, TableOk, BucketIndex, Decode, InsertStep, TouchStep, RemoveStep, RefreshStep, Offer, Seen, Stale;
    match step {
      case Insert(x, addr, now) => InsertOnRecord(local, t, x, addr, now, id, record);
      case Touch(x, now) => TouchOnRecord(local, t, x, now, id, record);
      case Remove(x) => RemoveOnRecord(local, t, x, id, record);
      case Refresh(now) => RefreshOnRecord(local, t, now, id, record);
      case Process(sender, payload, now) =>
        if payload != [] {
          if payload[0] == NODES {
            ListOnRecord(local, t, Decode(utf8, payload[1..]), now, id, record);
          } else {
            TouchOnRecord(local, t, sender, now, id, record);
          }
        }
    }
  }

  lemma EmptyOnRecord(local: NodeId, id: NodeId)
    ensures OnRecord(local, EmptyTable(), id, None)
  {
    hide BucketIndex;
  }

  /**
   * On every run the table holds of each node exactly what is on record: the address of the last
   * insertion or listing of it that took effect and the time it was last seen, and nothing once it was
   * removed or its bucket was swept.
   */
  lemma {:induction false} TableHoldsRecord(utf8: Bytes -> bool, local: NodeId, steps: seq<Step>, id: NodeId)
    ensures OnRecord(local, Run(utf8, local, steps), id, RecordOf(utf8, local, steps, id))
  {
    hide OnRecord, Next, StepRecord, TableOk;
    if steps == [] {
      EmptyOnRecord(local, id);
    } else {
      var before := steps[..|steps| - 1];
      TableHoldsRecord(utf8, local, before, id);
      AlwaysOk(utf8, local, before);
      StepOnRecord(utf8, local, Run(utf8, local, before), steps[|steps| - 1], id, RecordOf(utf8, local, before, id));
    }
  }
}
