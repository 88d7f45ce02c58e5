/** Which listed nodes a received list adds to the routing table, and what keeps its buckets in order of last sight. */
module RoutingHistory {
  import opened Machine
  import opened NodeDistance
  import opened Buckets
  import opened NodeListCodec
  import opened RoutingTable

  // ---- which listed nodes are learned ----

  /** The listed nodes that belong in bucket `i` and were not known before the list arrived. */
  function Offered(local: NodeId, t: Table, nodes: seq<Node>, i: nat): set<NodeId> {
    if nodes == [] then {}
    else
      var last := nodes[|nodes| - 1].id;
      Offered(local, t, nodes[..|nodes| - 1], i)
      + if last != local && BucketIndex(local, last) == i && !Knows(local, t, last) then {last} else {}
  }

  /** Room is left in the bucket of `nodes[k]` after those offered before it. */
  predicate HasRoom(local: NodeId, t: Table, nodes: seq<Node>, k: nat)
    requires k < |nodes|
  {
    var i := BucketIndex(local, nodes[k].id);
    |t[i]| + |Offered(local, t, nodes[..k], i)| < K_BUCKET_SIZE
  }

  /** `id` is listed at a position where its bucket still has room. */
  ghost predicate Learned(local: NodeId, t: Table, nodes: seq<Node>, id: NodeId) {
    id != local && exists k :: 0 <= k < |nodes| && nodes[k].id == id && HasRoom(local, t, nodes, k)
  }

  /** The bucket fills up with the offered nodes in turn, and knows them all until it is full. */
  ghost predicate Filled(local: NodeId, t: Table, nodes: seq<Node>, after: Table, i: nat)
    requires i < BUCKET_COUNT
  {
    var offered := Offered(local, t, nodes, i);
    && |after[i]| == Min(K_BUCKET_SIZE, |t[i]| + |offered|)
    && (forall id: NodeId :: Knows(local, t, id) ==> Knows(local, after, id))
    && (forall id :: id in offered ==> id != local && BucketIndex(local, id) == i && !Knows(local, t, id))
    && (|t[i]| + |offered| <= K_BUCKET_SIZE ==> forall id :: id in offered ==> Knows(local, after, id))
    && (forall id: NodeId ::
          BucketIndex(local, id) == i && Knows(local, after, id) && !Knows(local, t, id) ==> id in offered)
  }

  lemma {:induction false} ListFills(local: NodeId, t: Table, nodes: seq<Node>, now: nat, i: nat)
    requires TableOk(local, t) && i < BUCKET_COUNT
    ensures Filled(local, t, nodes, InsertAll(local, t, nodes, now), i)
  {
    if nodes == [] {
      assert BucketOk(local, i, t[i]);
    } else {
      var init, last := nodes[..|nodes| - 1], nodes[|nodes| - 1];
      ListFills(local, t, init, now, i);
      InsertAllKeeps(local, t, init, now);
      OneMoreFills(local, t, init, last, InsertAll(local, t, init, now), now, i);
      assert nodes == init + [last];
    }
  }

  /** Inserting one node grows its bucket by that node, exactly if it was added. */
  lemma InsertSize(local: NodeId, t: Table, id: NodeId, addr: Bytes, now: nat, i: nat)
    requires i < BUCKET_COUNT
    ensures var (after, result) := InsertStep(local, t, id, addr, now);
            |after[i]| == |t[i]| + if result.Added? && BucketIndex(local, id) == i then 1 else 0
  {
    hide BucketIndex;
  }

  lemma OneMoreFills(local: NodeId, t: Table, init: seq<Node>, last: Node, before: Table, now: nat, i: nat)
    requires TableOk(local, before) && i < BUCKET_COUNT && Filled(local, t, init, before, i)
    ensures Filled(local, t, init + [last], InsertStep(local, before, last.id, last.addr, now).0, i)
  {
    hide BucketIndex, Has, InsertStep, Knows, BucketOk, DistinctIds;
    var (after, result) := InsertStep(local, before, last.id, last.addr, now);
    assert (init + [last])[..|init|] == init;
    forall id: NodeId
      ensures Knows(local, after, id) <==> (Knows(local, before, id) || (id == last.id && result.Added?))
    {
      InsertKnows(local, before, last.id, last.addr, now, id);
    }
    InsertKnows(local, before, last.id, last.addr, now, last.id);
    InsertSize(local, before, last.id, last.addr, now, i);
    BucketSize(local, before, i);
    var offered, longer := Offered(local, t, init, i), Offered(local, t, init + [last], i);
    if last.id != local && BucketIndex(local, last.id) == i && !Knows(local, t, last.id) && last.id !in offered {
      assert |longer| == |offered| + 1;
    } else {
      assert longer == offered;
      assert !(result.Added? && BucketIndex(local, last.id) == i);
    }
  }

  lemma BucketSize(local: NodeId, t: Table, i: nat)
    requires TableOk(local, t) && i < BUCKET_COUNT
    ensures |t[i]| <= K_BUCKET_SIZE
  {
    assert BucketOk(local, i, t[i]);
  }

  lemma LearnedStep(local: NodeId, t: Table, init: seq<Node>, last: Node, id: NodeId)
    ensures Learned(local, t, init + [last], id)
            <==> Learned(local, t, init, id)
                 || (id == last.id && id != local
                     && |t[BucketIndex(local, id)]| + |Offered(local, t, init, BucketIndex(local, id))| < K_BUCKET_SIZE)
  {
    hide Offered, BucketIndex;
    var nodes := init + [last];
    assert nodes[..|init|] == init;
    forall k | 0 <= k < |init|
      ensures HasRoom(local, t, nodes, k) <==> HasRoom(local, t, init, k)
      ensures nodes[k] == init[k]
    {
      assert nodes[..k] == init[..k];
    }
    if Learned(local, t, init, id) {
      var k :| 0 <= k < |init| && init[k].id == id && HasRoom(local, t, init, k);
      assert nodes[k].id == id && HasRoom(local, t, nodes, k);
    }
    assert nodes[|init|] == last;
    var i := BucketIndex(local, last.id);
    assert HasRoom(local, t, nodes, |init|) <==> |t[i]| + |Offered(local, t, init, i)| < K_BUCKET_SIZE;
  }

  /** A received list teaches exactly the listed nodes whose bucket has room when their turn comes. */
  lemma {:induction false} ListLearnsIff(local: NodeId, t: Table, nodes: seq<Node>, now: nat, id: NodeId)
    requires TableOk(local, t)
    ensures Knows(local, InsertAll(local, t, nodes, now), id)
            <==> (Knows(local, t, id) || Learned(local, t, nodes, id))
  {
    if nodes != [] {
      var init, last := nodes[..|nodes| - 1], nodes[|nodes| - 1];
      var i := BucketIndex(local, last.id);
      var before := InsertAll(local, t, init, now);
      assert nodes == init + [last];
      hide BucketIndex, Knows, InsertStep, TableOk, Learned;
      ListLearnsIff(local, t, init, now, id);
      InsertAllKeeps(local, t, init, now);
      InsertKnows(local, before, last.id, last.addr, now, id);
      ListFills(local, t, init, now, i);
      LearnedStep(local, t, init, last, id);
      BucketSize(local, t, i);
    }
  }

  /** So exactly these nodes are known after a message. */
  lemma MessageLearnsIff(
    utf8: Bytes -> bool, local: NodeId, t: Table, sender: NodeId, payload: Bytes, now: nat, id: NodeId)
    requires TableOk(local, t)
    ensures Knows(local, ProcessStep(utf8, local, t, sender, payload, now), id)
            <==> (Knows(local, t, id)
                  || (payload != [] && payload[0] == NODES && Learned(local, t, Decode(utf8, payload[1..]), id)))
  {
    hide BucketIndex, Knows, TouchStep, Learned, Decode, TableOk;
    if payload != [] {
      if payload[0] == NODES {
        ListLearnsIff(local, t, Decode(utf8, payload[1..]), now, id);
      } else {
        TouchKnows(local, t, sender, now, id);
      }
    }
  }

  // ---- the order of last sight ----

  /** Every bucket is in order of last sight, up to `now`. */
  ghost predicate Ordered(t: Table, now: nat) {
    forall i :: 0 <= i < BUCKET_COUNT ==> InSeenOrder(t[i]) && SeenBy(t[i], now)
  }

  /** Inserting `id` would update a node that stands before one last seen at another time. */
  ghost predicate Disturbs(local: NodeId, t: Table, id: NodeId, now: nat) {
    id != local
    && var b := t[BucketIndex(local, id)];
       exists j :: IndexOf(b, id) < j < |b| && b[j].lastSeen != now
  }

  lemma InsertSeen(b: seq<Entry>, capacity: nat, id: NodeId, addr: Bytes, now: nat)
    requires SeenBy(b, now)
    ensures SeenBy(Inserted(b, capacity, id, addr, now).0, now)
  {
  }

  /** With a clock that does not go back an insertion keeps the whole table in order exactly if it does not disturb. */
  lemma InsertOrderIff(local: NodeId, t: Table, id: NodeId, addr: Bytes, now: nat)
    requires Ordered(t, now)
    ensures Ordered(InsertStep(local, t, id, addr, now).0, now) <==> !Disturbs(local, t, id, now)
  {
    hide BucketIndex, Inserted, InSeenOrder, SeenBy;
    if id != local {
      var i := BucketIndex(local, id);
      InsertKeepsOrderIff(t[i], K_BUCKET_SIZE, id, addr, now);
      InsertSeen(t[i], K_BUCKET_SIZE, id, addr, now);
      var after := InsertStep(local, t, id, addr, now).0;
      assert after[i] == Inserted(t[i], K_BUCKET_SIZE, id, addr, now).0;
      assert forall k :: 0 <= k < BUCKET_COUNT && k != i ==> after[k] == t[k];
      assert Ordered(after, now) <==> InSeenOrder(after[i]);
    }
  }

  lemma RemoveOrder(b: seq<Entry>, id: NodeId, now: nat)
    requires InSeenOrder(b) && SeenBy(b, now)
    ensures InSeenOrder(Removed(b, id)) && SeenBy(Removed(b, id), now)
  {
    if IndexOf(b, id) < |b| {
      WithoutKeepsOrder(b, IndexOf(b, id), now);
    }
  }

  lemma Later(t: Table, past: nat, now: nat)
    requires Ordered(t, past) && past <= now
    ensures Ordered(t, now)
  {
  }

  /** The step inserts nothing that disturbs, one listed node after the other. */
  ghost predicate Calm(utf8: Bytes -> bool, local: NodeId, t: Table, step: Step) {
    match step
    case Insert(id, _, now) => !Disturbs(local, t, id, now)
    case Process(_, payload, now) =>
      payload != [] && payload[0] == NODES ==> CalmList(local, t, Decode(utf8, payload[1..]), now)
    case _ => true
  }

  ghost predicate CalmList(local: NodeId, t: Table, nodes: seq<Node>, now: nat) {
    nodes == []
    || var init := nodes[..|nodes| - 1];
       CalmList(local, t, init, now)
       && !Disturbs(local, InsertAll(local, t, init, now), nodes[|nodes| - 1].id, now)
  }

  lemma {:induction false} ListKeepsOrder(local: NodeId, t: Table, nodes: seq<Node>, now: nat)
    requires Ordered(t, now) && CalmList(local, t, nodes, now)
    ensures Ordered(InsertAll(local, t, nodes, now), now)
  {
    if nodes != [] {
      hide Ordered, Disturbs, InsertStep;
      var init, last := nodes[..|nodes| - 1], nodes[|nodes| - 1];
      ListKeepsOrder(local, t, init, now);
      InsertOrderIff(local, InsertAll(local, t, init, now), last.id, last.addr, now);
    }
  }

  lemma TouchTableOrder(local: NodeId, t: Table, id: NodeId, now: nat)
    requires Ordered(t, now)
    ensures Ordered(TouchStep(local, t, id, now), now)
  {
    hide BucketIndex, Touched, InSeenOrder, SeenBy;
    if id != local {
      TouchKeepsOrder(t[BucketIndex(local, id)], id, now);
    }
  }

  lemma RemoveTableOrder(local: NodeId, t: Table, id: NodeId, now: nat)
    requires Ordered(t, now)
    ensures Ordered(RemoveStep(local, t, id), now)
  {
    hide BucketIndex, Removed, InSeenOrder, SeenBy;
    if id != local {
      RemoveOrder(t[BucketIndex(local, id)], id, now);
    }
  }

  /** The time of a step; removing a node takes none. */
  function TimeOf(step: Step, past: nat): nat {
    if step.Remove? then past else step.now
  }

  function Clock(steps: seq<Step>): nat {
    if steps == [] then 0 else TimeOf(steps[|steps| - 1], Clock(steps[..|steps| - 1]))
  }

  /** The clock does not go back, and no insertion disturbs. */
  ghost predicate CalmRun(utf8: Bytes -> bool, local: NodeId, steps: seq<Step>) {
    steps == []
    || var before, last := steps[..|steps| - 1], steps[|steps| - 1];
       && CalmRun(utf8, local, before)
       && Clock(before) <= TimeOf(last, Clock(before))
       && Calm(utf8, local, Run(utf8, local, before), last)
  }

  lemma StepKeepsOrder(utf8: Bytes -> bool, local: NodeId, t: Table, step: Step, past: nat)
    requires Ordered(t, past) && past <= TimeOf(step, past) && Calm(utf8, local, t, step)
    ensures Ordered(Next(utf8, local, t, step), TimeOf(step, past))
  {
    Later(t, past, TimeOf(step, past));
    match step {
      case Insert(id, addr, now) => InsertOrderIff(local, t, id, addr, now);
      case Touch(id, now) => TouchTableOrder(local, t, id, now);
      case Remove(id) => RemoveTableOrder(local, t, id, past);
      case Refresh(now) =>
      case Process(sender, payload, now) =>
        if payload != [] {
          if payload[0] == NODES {
            ListKeepsOrder(local, t, Decode(utf8, payload[1..]), now);
          } else {
            TouchTableOrder(local, t, sender, now);
          }
        }
    }
  }

  /**
   * On every run whose clock does not go back and whose insertions do not disturb, each bucket stays in
   * order of last sight, and so a refresh fires on a bucket exactly when one of its nodes has gone
   * unseen too long.
   */
  lemma {:induction false} CalmRunKeepsOrder(utf8: Bytes -> bool, local: NodeId, steps: seq<Step>, i: nat, now: nat)
    requires CalmRun(utf8, local, steps) && i < BUCKET_COUNT
    ensures Ordered(Run(utf8, local, steps), Clock(steps))
    ensures Stale(Run(utf8, local, steps)[i], now) <==> SomeUnseen(Run(utf8, local, steps)[i], now)
  {
    if steps != [] {
      var before := steps[..|steps| - 1];
      CalmRunKeepsOrder(utf8, local, before, i, now);
      hide Next, Ordered, Calm;
      StepKeepsOrder(utf8, local, Run(utf8, local, before), steps[|steps| - 1], Clock(before));
    }
    OrderedMeans(Run(utf8, local, steps), Clock(steps), i, now);
  }

  lemma OrderedMeans(t: Table, past: nat, i: nat, now: nat)
    requires Ordered(t, past) && i < BUCKET_COUNT
    ensures Stale(t[i], now) <==> SomeUnseen(t[i], now)
  {
    assert InSeenOrder(t[i]);
    StaleIffSomeUnseen(t[i]);
  }
}
