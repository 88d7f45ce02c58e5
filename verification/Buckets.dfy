/** One k-bucket: at most `capacity` entries, the most recently touched at the back. */
module Buckets {
  import opened Machine
  import opened NodeDistance

  const K_BUCKET_SIZE: nat := 20

  /** Times are in nanoseconds; a bucket is stale 300 seconds after its front entry was seen. */
  const STALE_AFTER: nat := 300_000_000_000

  datatype Entry = Entry(id: NodeId, addr: Bytes, lastSeen: nat)

  datatype Insertion = Added | Updated | Full(rejected: Entry)

  /** The first position of `id`, or the length when it is absent. */
  function IndexOf(b: seq<Entry>, id: NodeId): (i: nat)
    ensures i <= |b|
    ensures i < |b| ==> b[i].id == id
    ensures forall k :: 0 <= k < i ==> b[k].id != id
  {
    if b == [] || b[0].id == id then 0 else IndexOf(b[1..], id) + 1
  }

  predicate Has(b: seq<Entry>, id: NodeId) {
    exists i :: 0 <= i < |b| && b[i].id == id
  }

  predicate DistinctIds(b: seq<Entry>) {
    forall i, j :: 0 <= i < j < |b| ==> b[i].id != b[j].id
  }

  function Inserted(b: seq<Entry>, capacity: nat, id: NodeId, addr: Bytes, now: nat): (seq<Entry>, Insertion) {
    var i := IndexOf(b, id);
    var entry := Entry(id, addr, now);
    if i < |b| then (b[i := entry], Updated)
    else if |b| < capacity then (b + [entry], Added)
    else (b, Full(entry))
  }

  function Without(b: seq<Entry>, i: nat): seq<Entry>
    requires i < |b|
  {
    b[..i] + b[i + 1..]
  }

  function Touched(b: seq<Entry>, id: NodeId, now: nat): seq<Entry> {
    var i := IndexOf(b, id);
    if i < |b| then Without(b, i) + [b[i].(lastSeen := now)] else b
  }

  function Removed(b: seq<Entry>, id: NodeId): seq<Entry> {
    var i := IndexOf(b, id);
    if i < |b| then Without(b, i) else b
  }

  predicate Stale(b: seq<Entry>, now: nat) {
    b != [] && now - b[0].lastSeen > STALE_AFTER
  }

  class KBucket {
    var entries: seq<Entry>
    const capacity: nat

    constructor (capacity: nat)
      ensures entries == [] && this.capacity == capacity
    {
      this.entries := [];
      this.capacity := capacity;
    }

    method Position(id: NodeId) returns (i: nat)
      ensures i == IndexOf(entries, id)
    {
      i := 0;
      while i < |entries| && entries[i].id != id
        invariant i <= |entries|
        invariant IndexOf(entries, id) == i + IndexOf(entries[i..], id)
      {
        assert entries[i..][1..] == entries[i + 1..];
        i := i + 1;
      }
    }

    method Insert(id: NodeId, addr: Bytes, now: nat) returns (result: Insertion)
      modifies this
      ensures (entries, result) == Inserted(old(entries), capacity, id, addr, now)
    {
      var i := Position(id);
      var entry := Entry(id, addr, now);
      if i < |entries| {
        entries := entries[i := entry];
        return Updated;
      }
      if |entries| < capacity {
        entries := entries + [entry];
        return Added;
      }
      return Full(entry);
    }

    method Touch(id: NodeId, now: nat) returns (found: bool)
      modifies this
      ensures entries == Touched(old(entries), id, now)
      ensures found <==> Has(old(entries), id)
    {
      var i := Position(id);
      if i == |entries| {
        return false;
      }
      var entry := entries[i].(lastSeen := now);
      entries := entries[..i] + entries[i + 1..];
      entries := entries + [entry];
      return true;
    }

    method Remove(id: NodeId) returns (gone: Option<Entry>)
      modifies this
      ensures entries == Removed(old(entries), id)
      ensures gone.Some? <==> Has(old(entries), id)
      ensures gone.Some? ==> gone.value in old(entries) && gone.value.id == id
    {
      var i := Position(id);
      if i == |entries| {
        return None;
      }
      gone := Some(entries[i]);
      entries := entries[..i] + entries[i + 1..];
    }

    /** One round of a refresh: a stale bucket loses every node it held when the round began. */
    method Sweep(now: nat) returns (pinged: nat)
      modifies this
      ensures entries == (if Stale(old(entries), now) then [] else old(entries))
      ensures pinged == |old(entries)| - |entries|
    {
      pinged := 0;
      var snapshot := entries;
      if Stale(snapshot, now) {
        for k := 0 to |snapshot|
          invariant entries == snapshot[k..] && pinged == k
        {
          var _ := Remove(snapshot[k].id);
          pinged := pinged + 1;
        }
      }
    }
  }

  // ---- what each operation does to the identifiers held ----

  lemma InsertedHas(b: seq<Entry>, capacity: nat, id: NodeId, addr: Bytes, now: nat, other: NodeId)
    requires DistinctIds(b) && |b| <= capacity
    ensures var (after, result) := Inserted(b, capacity, id, addr, now);
            DistinctIds(after) && |after| <= capacity
            && (Has(after, other) <==> Has(b, other) || (other == id && result.Added?))
            && (result.Updated? <==> Has(b, id)) && (result.Full? <==> !Has(b, id) && |b| == capacity)
  {
    var (after, result) := Inserted(b, capacity, id, addr, now);
    if Has(b, other) {
      var k :| 0 <= k < |b| && b[k].id == other;
      assert after[k].id == other;
    }
    if other == id && result.Added? {
      assert after[|b|].id == id;
    }
  }

  lemma WithoutHas(b: seq<Entry>, i: nat, other: NodeId)
    requires DistinctIds(b) && i < |b|
    ensures DistinctIds(Without(b, i))
    ensures Has(Without(b, i), other) <==> Has(b, other) && other != b[i].id
  {
    var after := Without(b, i);
    assert forall k :: 0 <= k < |after| ==> after[k] == b[if k < i then k else k + 1];
    if Has(b, other) && other != b[i].id {
      var k :| 0 <= k < |b| && b[k].id == other;
      assert after[if k < i then k else k - 1].id == other;
    }
  }

  lemma AppendHas(b: seq<Entry>, e: Entry, other: NodeId)
    requires DistinctIds(b) && !Has(b, e.id)
    ensures DistinctIds(b + [e])
    ensures Has(b + [e], other) <==> Has(b, other) || other == e.id
  {
    var after := b + [e];
    assert after[|b|] == e;
    if Has(b, other) {
      var k :| 0 <= k < |b| && b[k].id == other;
      assert after[k].id == other;
    }
  }

  lemma TouchedHas(b: seq<Entry>, id: NodeId, now: nat, other: NodeId)
    requires DistinctIds(b)
    ensures DistinctIds(Touched(b, id, now)) && |Touched(b, id, now)| == |b|
    ensures Has(Touched(b, id, now), other) <==> Has(b, other)
  {
    var i := IndexOf(b, id);
    if i < |b| {
      assert Has(b, id);
      hide Has, DistinctIds;
      WithoutHas(b, i, other);
      WithoutHas(b, i, id);
      AppendHas(Without(b, i), b[i].(lastSeen := now), other);
    }
  }

  lemma RemovedHas(b: seq<Entry>, id: NodeId, other: NodeId)
    requires DistinctIds(b)
    ensures DistinctIds(Removed(b, id)) && |Removed(b, id)| <= |b|
    ensures Has(Removed(b, id), other) <==> Has(b, other) && other != id
  {
    var i := IndexOf(b, id);
    if i < |b| {
      WithoutHas(b, i, other);
    }
  }

  // ---- what each operation does to the entries held ----

  /** `record` is what the bucket holds under `id`. */
  ghost predicate Records(b: seq<Entry>, id: NodeId, record: Option<Entry>) {
    && (record.Some? ==> record.value.id == id)
    && forall e: Entry :: e.id == id ==> (e in b <==> record == Some(e))
  }

  lemma RecordsHas(b: seq<Entry>, id: NodeId, record: Option<Entry>)
    requires Records(b, id, record)
    ensures Has(b, id) <==> record.Some?
  {
    if k :| 0 <= k < |b| && b[k].id == id {
      assert b[k] in b;
    }
  }

  lemma InsertRecords(b: seq<Entry>, capacity: nat, x: NodeId, addr: Bytes, now: nat,
                      id: NodeId, record: Option<Entry>)
    requires DistinctIds(b) && |b| <= capacity && Records(b, id, record)
    ensures Records(Inserted(b, capacity, x, addr, now).0, id,
                    if x == id && (record.Some? || |b| < capacity) then Some(Entry(x, addr, now)) else record)
  {
    var i := IndexOf(b, x);
    var after, entry := Inserted(b, capacity, x, addr, now).0, Entry(x, addr, now);
    RecordsHas(b, id, record);
    if i < |b| {
      assert after[i] == entry;
      forall e: Entry | e.id != x
        ensures e in after <==> e in b
      {
        if k :| 0 <= k < |b| && b[k] == e {
          assert after[k] == e;
        }
      }
    } else if |b| < capacity {
      assert after[|b|] == entry;
      assert forall e :: e in b ==> e in after;
    }
  }

  lemma WithoutAt(b: seq<Entry>, i: nat)
    requires i < |b|
    ensures |Without(b, i)| == |b| - 1
    ensures forall k :: 0 <= k < |b| - 1 ==> Without(b, i)[k] == b[if k < i then k else k + 1]
  {
  }

  lemma IndexOfEntry(b: seq<Entry>, i: nat)
    requires DistinctIds(b) && i < |b|
    ensures IndexOf(b, b[i].id) == i
  {
    hide IndexOf;
  }

  /** A touch moves the node to the back with the new time, and keeps the others in their order. */
  lemma TouchMovesToBack(b: seq<Entry>, i: nat, now: nat)
    requires DistinctIds(b) && i < |b|
    ensures var after := Touched(b, b[i].id, now);
            && |after| == |b| && after[|b| - 1] == Entry(b[i].id, b[i].addr, now)
            && forall k :: 0 <= k < |b| - 1 ==> after[k] == b[if k < i then k else k + 1]
  {
    hide DistinctIds, IndexOf, Without;
    IndexOfEntry(b, i);
    WithoutAt(b, i);
  }

  /** A removal takes the node out, and keeps the others in their order. */
  lemma RemoveClosesGap(b: seq<Entry>, i: nat)
    requires DistinctIds(b) && i < |b|
    ensures var after := Removed(b, b[i].id);
            |after| == |b| - 1 && forall k :: 0 <= k < |b| - 1 ==> after[k] == b[if k < i then k else k + 1]
  {
    hide DistinctIds, IndexOf, Without;
    IndexOfEntry(b, i);
    WithoutAt(b, i);
  }

  /** Without entry `i`, the bucket holds all it held but that entry. */
  lemma WithoutIn(b: seq<Entry>, i: nat, e: Entry)
    requires DistinctIds(b) && i < |b|
    ensures e in Without(b, i) <==> e in b && e != b[i]
  {
    var after := Without(b, i);
    assert forall k :: 0 <= k < |after| ==> after[k] == b[if k < i then k else k + 1];
    if e in b && e != b[i] {
      var k :| 0 <= k < |b| && b[k] == e;
      assert after[if k < i then k else k - 1] == e;
    }
  }

  lemma TouchRecords(b: seq<Entry>, x: NodeId, now: nat, id: NodeId, record: Option<Entry>)
    requires DistinctIds(b) && Records(b, id, record)
    ensures Records(Touched(b, x, now), id,
                    if x == id && record.Some? then Some(Entry(x, record.value.addr, now)) else record)
  {
    var i := IndexOf(b, x);
    if i < |b| {
      hide Without, DistinctIds;
      forall e: Entry
        ensures e in Without(b, i) <==> e in b && e != b[i]
      {
        WithoutIn(b, i, e);
      }
      assert b[i] in b;
    } else {
      RecordsHas(b, id, record);
    }
  }

  lemma RemoveRecords(b: seq<Entry>, x: NodeId, id: NodeId, record: Option<Entry>)
    requires DistinctIds(b) && Records(b, id, record)
    ensures Records(Removed(b, x), id, if x == id then None else record)
  {
    var i := IndexOf(b, x);
    if i < |b| {
      hide Without, DistinctIds;
      forall e: Entry
        ensures e in Without(b, i) <==> e in b && e != b[i]
      {
        WithoutIn(b, i, e);
      }
      assert b[i] in b;
    } else {
      RecordsHas(b, id, record);
    }
  }

  // ---- how far the order of a bucket follows the times its nodes were seen ----

  /** The front has gone unseen longest, as the bucket is documented to be kept. */
  predicate InSeenOrder(b: seq<Entry>) {
    forall i, j :: 0 <= i < j < |b| ==> b[i].lastSeen <= b[j].lastSeen
  }

  predicate SeenBy(b: seq<Entry>, now: nat) {
    forall i :: 0 <= i < |b| ==> b[i].lastSeen <= now
  }

  /**
   * With a clock that does not go back an insertion keeps the order if and only if the node is new,
   * stands at the back, or everything behind it was seen at this very moment.
   */
  lemma InsertKeepsOrderIff(b: seq<Entry>, capacity: nat, id: NodeId, addr: Bytes, now: nat)
    requires InSeenOrder(b) && SeenBy(b, now)
    ensures InSeenOrder(Inserted(b, capacity, id, addr, now).0)
            <==> forall j :: IndexOf(b, id) < j < |b| ==> b[j].lastSeen == now
  {
    var i := IndexOf(b, id);
    var after := Inserted(b, capacity, id, addr, now).0;
    if i < |b| && InSeenOrder(after) {
      forall j | i < j < |b|
        ensures b[j].lastSeen == now
      {
        assert after[i].lastSeen == now && after[j] == b[j];
      }
    }
  }

  lemma WithoutKeepsOrder(b: seq<Entry>, i: nat, now: nat)
    requires InSeenOrder(b) && SeenBy(b, now) && i < |b|
    ensures InSeenOrder(Without(b, i)) && SeenBy(Without(b, i), now)
  {
    var after := Without(b, i);
    assert forall k :: 0 <= k < |after| ==> after[k] == b[if k < i then k else k + 1];
  }

  lemma TouchKeepsOrder(b: seq<Entry>, id: NodeId, now: nat)
    requires InSeenOrder(b) && SeenBy(b, now)
    ensures InSeenOrder(Touched(b, id, now)) && SeenBy(Touched(b, id, now), now)
  {
    var i := IndexOf(b, id);
    if i < |b| {
      WithoutKeepsOrder(b, i, now);
      hide Without;
    }
  }

  /** The front has gone unseen at least as long as every other node. */
  predicate FrontIsOldest(b: seq<Entry>) {
    forall i :: 0 <= i < |b| ==> b[0].lastSeen <= b[i].lastSeen
  }

  /** Some node has gone unseen for more than 300 seconds. */
  predicate SomeUnseen(b: seq<Entry>, now: nat) {
    exists i :: 0 <= i < |b| && now - b[i].lastSeen > 300_000_000_000
  }

  /**
   * The refresh fires at every moment exactly when some node has gone unseen too long, if and only if
   * the front was seen longest ago.
   */
  lemma StaleIffSomeUnseen(b: seq<Entry>)
    ensures (forall now: nat :: Stale(b, now) <==> SomeUnseen(b, now)) <==> FrontIsOldest(b)
  {
    if FrontIsOldest(b) {
      forall now: nat
        ensures Stale(b, now) <==> SomeUnseen(b, now)
      {
        if i :| 0 <= i < |b| && now - b[i].lastSeen > 300_000_000_000 {
          assert b[0].lastSeen <= b[i].lastSeen;
        }
      }
    } else {
      var i :| 0 <= i < |b| && b[0].lastSeen > b[i].lastSeen;
      var now := b[i].lastSeen + STALE_AFTER + 1;
      assert now - b[i].lastSeen > STALE_AFTER;
      assert SomeUnseen(b, now) && !Stale(b, now);
    }
  }

  /** Two nodes seen at time 0; the front one is inserted again later, and now hides that the other is stale. */
  lemma UpdatedFrontHidesStale(x: NodeId, y: NodeId, addr: Bytes)
    requires x != y
    ensures var b := [Entry(x, addr, 0), Entry(y, addr, 0)];
            var now := STALE_AFTER + 1;
            var after := Inserted(b, K_BUCKET_SIZE, x, addr, now).0;
            InSeenOrder(b) && after[1] == Entry(y, addr, 0) && now - after[1].lastSeen > STALE_AFTER
            && !Stale(after, now)
  {
  }

  /** A stale front takes a node with it that was seen a moment ago. */
  lemma RefreshDropsFresh(x: NodeId, y: NodeId, addr: Bytes)
    ensures var now := STALE_AFTER + 1;
            var b := [Entry(x, addr, 0), Entry(y, addr, now)];
            InSeenOrder(b) && Stale(b, now)
  {
  }

  /** An insertion fails exactly for a new node in a full bucket, and hands that node back, never one it holds. */
  lemma FullHandsBackNew(b: seq<Entry>, capacity: nat, id: NodeId, addr: Bytes, now: nat)
    ensures var (after, result) := Inserted(b, capacity, id, addr, now);
            && (result.Full? <==> !Has(b, id) && |b| >= capacity)
            && (result.Full? ==> after == b && result.rejected !in b && result.rejected.id == id)
  {
  }
}
