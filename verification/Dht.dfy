/** The DHT manager: 256 mutable k-buckets around the local identifier, and its message handler. */
module Dht {
  import opened Machine
  import opened NodeDistance
  import opened Buckets
  import opened NodeListCodec
  import opened Sorting
  import opened RoutingTable
  import opened RoutingContents
  import opened NearestSearch

  /** A message: its kind and the bytes after the kind. */
  datatype Message = Message(kind: byte, body: Bytes)

  function Be32(n: u32): Bytes {
    [n / 0x100_0000, n / 0x1_0000 % 0x100, n / 0x100 % 0x100, n % 0x100]
  }

  /** The answer to a payload; `stored` is what the value store holds, unexpired, under a key. */
  function Replies(t: Table, stored: Bytes -> Option<Bytes>, payload: Bytes): seq<Message> {
    if payload == [] then []
    else
      var kind, data := payload[0], payload[1..];
      if kind == PING then [Message(PONG, [])]
      else if kind == FIND_NODE then
        [Message(NODES, Encode(if |data| < 32 then [] else Nearest(t, data[..32], K_BUCKET_SIZE)))]
      else if kind == GET && |data| >= 32 && stored(data[..32]).Some? then
        var value := stored(data[..32]).value;
        [Message(VALUE, data[..32] + Be32(Truncate32(|value|)) + value)]
      else []
  }

  class DhtManager {
    const localId: NodeId
    const buckets: seq<KBucket>

    ghost predicate Valid() {
      && |buckets| == BUCKET_COUNT
      && (forall i, j :: 0 <= i < j < BUCKET_COUNT ==> buckets[i] != buckets[j])
      && forall i :: 0 <= i < BUCKET_COUNT ==> buckets[i].capacity == K_BUCKET_SIZE
    }

    ghost function Contents(): Table
      requires Valid()
      reads buckets
    {
      seq(BUCKET_COUNT, i requires 0 <= i < BUCKET_COUNT reads buckets => buckets[i].entries)
    }

    constructor (localId: NodeId)
      ensures Valid() && fresh(buckets) && this.localId == localId && Contents() == EmptyTable()
    {
      var made: seq<KBucket> := [];
      for i := 0 to BUCKET_COUNT
        invariant |made| == i && fresh(made)
        invariant forall j, k :: 0 <= j < k < i ==> made[j] != made[k]
        invariant forall j :: 0 <= j < i ==> made[j].capacity == K_BUCKET_SIZE && made[j].entries == []
      {
        var bucket := new KBucket(K_BUCKET_SIZE);
        made := made + [bucket];
      }
      this.localId := localId;
      this.buckets := made;
      new;
      assert Contents() == EmptyTable();
    }

    method InsertNode(id: NodeId, addr: Bytes, now: nat) returns (result: Insertion)
      requires Valid()
      modifies buckets
      ensures (Contents(), result) == InsertStep(localId, old(Contents()), id, addr, now)
    {
      hide BucketIndex, Inserted;
      if id == localId {
        return Updated;
      }
      var i := ComputeBucketIndex(localId, id);
      result := buckets[i].Insert(id, addr, now);
      assert Contents() == old(Contents())[i := buckets[i].entries];
    }

    method TouchNode(id: NodeId, now: nat) returns (found: bool)
      requires Valid()
      modifies buckets
      ensures Contents() == TouchStep(localId, old(Contents()), id, now)
      ensures found <==> Knows(localId, old(Contents()), id)
    {
      hide BucketIndex, Touched;
      if id == localId {
        return false;
      }
      var i := ComputeBucketIndex(localId, id);
      found := buckets[i].Touch(id, now);
      assert Contents() == old(Contents())[i := buckets[i].entries];
    }

    method RemoveNode(id: NodeId) returns (gone: Option<Entry>)
      requires Valid()
      modifies buckets
      ensures Contents() == RemoveStep(localId, old(Contents()), id)
      ensures gone.Some? <==> Knows(localId, old(Contents()), id)
      ensures gone.Some? ==> gone.value.id == id && gone.value in old(Contents())[BucketIndex(localId, id)]
    {
      hide BucketIndex, Removed;
      if id == localId {
        return None;
      }
      var i := ComputeBucketIndex(localId, id);
      gone := buckets[i].Remove(id);
      assert Contents() == old(Contents())[i := buckets[i].entries];
    }

    method FindNearest(target: NodeId, count: nat) returns (found: seq<Node>)
      requires Valid()
      ensures found == Nearest(Contents(), target, count)
    {
      hide Sort;
      var candidates: seq<Node> := [];
      for i := 0 to BUCKET_COUNT
        invariant candidates == NodesUpTo(Contents(), i)
      {
        ghost var before := candidates;
        var entries := buckets[i].entries;
        for k := 0 to |entries|
          invariant candidates == before + BucketNodes(entries)[..k]
        {
          candidates := candidates + [Node(entries[k].id, entries[k].addr)];
        }
        assert BucketNodes(entries)[..|entries|] == BucketNodes(entries);
      }
      var sorted := Sort(ByDistance(target), candidates);
      found := sorted[..Min(count, |sorted|)];
    }

    method NodeCount() returns (n: nat)
      requires Valid()
      ensures n == |AllNodes(Contents())|
    {
      n := 0;
      for i := 0 to BUCKET_COUNT
        invariant n == |NodesUpTo(Contents(), i)|
      {
        n := n + |buckets[i].entries|;
      }
    }

    /** Empties every bucket whose front entry has gone 300 seconds unseen; the result counts the nodes dropped. */
    method RefreshAll(now: nat) returns (pinged: nat)
      requires Valid()
      modifies buckets
      ensures Contents() == RefreshStep(old(Contents()), now)
      ensures pinged + |AllNodes(Contents())| == |AllNodes(old(Contents()))|
    {
      ghost var was := Contents();
      ghost var after := RefreshStep(was, now);
      pinged := 0;
      for i := 0 to BUCKET_COUNT
        invariant forall k :: 0 <= k < i ==> buckets[k].entries == after[k]
        invariant forall k :: i <= k < BUCKET_COUNT ==> buckets[k].entries == was[k]
        invariant pinged + |NodesUpTo(after, i)| == |NodesUpTo(was, i)|
      {
        var swept := buckets[i].Sweep(now);
        pinged := pinged + swept;
      }
      assert Contents() == after;
    }

    method ProcessMessage(
      utf8: Bytes -> bool, stored: Bytes -> Option<Bytes>, sender: NodeId, payload: Bytes, now: nat)
      returns (replies: seq<Message>)
      requires Valid()
      modifies buckets
      ensures Contents() == ProcessStep(utf8, localId, old(Contents()), sender, payload, now)
      ensures replies == Replies(old(Contents()), stored, payload)
    {
      hide Encode, Decode, Nearest, TouchStep, InsertStep;
      if payload == [] {
        return [];
      }
      var kind, data := payload[0], payload[1..];
      if kind == PING {
        var _ := TouchNode(sender, now);
        return [Message(PONG, [])];
      } else if kind == PONG {
        var _ := TouchNode(sender, now);
        return [];
      } else if kind == FIND_NODE {
        if |data| < 32 {
          var none := EncodeNodeList([]);
          return [Message(NODES, none)];
        }
        var nearest := FindNearest(data[..32], K_BUCKET_SIZE);
        var encoded := EncodeNodeList(nearest);
        return [Message(NODES, encoded)];
      } else if kind == NODES {
        var nodes := DecodeNodeList(utf8, data);
        for i := 0 to |nodes|
          invariant Contents() == InsertAll(localId, old(Contents()), nodes[..i], now)
        {
          var _ := InsertNode(nodes[i].id, nodes[i].addr, now);
          assert nodes[..i + 1][..i] == nodes[..i];
        }
        assert nodes[..|nodes|] == nodes;
        return [];
      } else if kind == GET {
        if |data| < 32 {
          return [];
        }
        var key := data[..32];
        match stored(key) {
          case Some(value) => return [Message(VALUE, key + Be32(Truncate32(|value|)) + value)];
          case None => return [];
        }
      }
      return [];
    }
  }

  /**
   * What is read of a node carries the address last inserted or listed for it: all of it if it is text
   * of at most 65535 bytes, else what survives the clipping.
   */
  ghost predicate HasLastAddress(utf8: Bytes -> bool, local: NodeId, steps: seq<Step>, node: Node) {
    var record := RecordOf(utf8, local, steps, node.id);
    && record.Some?
    && node.addr == ClipAddr(utf8, record.value.addr)
    && (utf8(record.value.addr) && |record.value.addr| <= 65535 ==> node.addr == record.value.addr)
  }

  lemma HeldHasLastAddress(utf8: Bytes -> bool, local: NodeId, steps: seq<Step>, node: Node)
    requires Holds(local, Run(utf8, local, steps), node)
    ensures HasLastAddress(utf8, local, steps, Node(node.id, ClipAddr(utf8, node.addr)))
  {
    TableHoldsRecord(utf8, local, steps, node.id);
    hide Run, RecordOf, BucketIndex;
    if |node.addr| <= 65535 {
      assert node.addr[..|node.addr|] == node.addr;
    }
  }

  /**
   * On every run, whoever asks for the nodes nearest to `target` and decodes the answer reads exactly
   * the min(20, size) nearest known nodes, nearest first, each with its last address.
   */
  lemma AnswerIsNearest(
    utf8: Bytes -> bool, local: NodeId, steps: seq<Step>, stored: Bytes -> Option<Bytes>, target: NodeId)
    ensures var t := Run(utf8, local, steps);
            var answer := Replies(t, stored, [FIND_NODE] + target);
            && |answer| == 1 && answer[0].kind == NODES
            && var read := Decode(utf8, answer[0].body);
               && |read| == Min(K_BUCKET_SIZE, |AllNodes(t)|)
               && StrictlyFarther(target, read)
               && (forall i :: 0 <= i < |read| ==> Knows(local, t, read[i].id))
               && (forall i :: 0 <= i < |read| ==> HasLastAddress(utf8, local, steps, read[i]))
               && (forall id: NodeId, i ::
                     0 <= i < |read| && Knows(local, t, id) && !Lists(read, id) ==>
                       Dist(target, read[i].id) < Dist(target, id))
  {
    hide Run, Encode, Decode, Nearest, Knows, Holds, Dist, AllNodes, HasLastAddress, ClipAddr;
    var t := Run(utf8, local, steps);
    var nearest := Nearest(t, target, K_BUCKET_SIZE);
    var read := Decode(utf8, Encode(nearest));
    AlwaysOk(utf8, local, steps);
    NearestIsExact(local, t, target, K_BUCKET_SIZE);
    ReadsBack(utf8, nearest);
    assert nearest[..|nearest|] == nearest;
    assert ([FIND_NODE] + target)[1..] == target && target[..32] == target;
    forall i | 0 <= i < |read|
      ensures HasLastAddress(utf8, local, steps, read[i])
    {
      HeldHasLastAddress(utf8, local, steps, nearest[i]);
    }
    forall id: NodeId
      ensures Lists(read, id) <==> Lists(nearest, id)
    {
      if Lists(nearest, id) {
        var k :| 0 <= k < |nearest| && nearest[k].id == id;
        assert read[k].id == id;
      }
    }
  }

  // ---- the other answers ----

  /** A number read from its four bytes, the highest first. */
  function ReadBe32(s: Bytes): nat
    requires |s| == 4
  {
    ((s[0] as int * 256 + s[1] as int) * 256 + s[2] as int) * 256 + s[3] as int
  }

  lemma Be32Reads(n: u32)
    ensures ReadBe32(Be32(n)) == n
  {
  }

  /** A ping is answered with a pong, whatever follows its first byte. */
  lemma PingIsAnswered(t: Table, stored: Bytes -> Option<Bytes>, rest: Bytes)
    ensures Replies(t, stored, [1] + rest) == [Message(2, [])]
  {
  }

  /**
   * A request for a stored key is answered with the key, the length of the value modulo 2^32 and the
   * value, and not at all if nothing is stored under it; bytes after the key do not matter.
   */
  lemma GetIsAnswered(t: Table, stored: Bytes -> Option<Bytes>, key: NodeId, rest: Bytes)
    ensures var replies := Replies(t, stored, [6] + key + rest);
            match stored(key)
            case None => replies == []
            case Some(value) =>
              && |replies| == 1 && replies[0].kind == 7 && |replies[0].body| == 36 + |value|
              && replies[0].body[..32] == key && replies[0].body[36..] == value
              && ReadBe32(replies[0].body[32..36]) == |value| % 0x1_0000_0000
  {
    assert ([6] + key + rest)[1..] == key + rest;
    assert (key + rest)[..32] == key;
    match stored(key)
    case None =>
    case Some(value) =>
      Be32Reads(Truncate32(|value|));
      var body := key + Be32(Truncate32(|value|)) + value;
      assert body[..32] == key && body[32..36] == Be32(Truncate32(|value|)) && body[36..] == value;
  }

  /** A search for a target that was cut short gets the empty list; nothing else is answered. */
  lemma OtherAnswers(t: Table, stored: Bytes -> Option<Bytes>, payload: Bytes)
    ensures payload != [] && payload[0] == 3 && |payload| < 33 ==>
              Replies(t, stored, payload) == [Message(4, [0, 0])]
    ensures payload == [] || payload[0] !in {1, 3, 6} || (payload[0] == 6 && |payload| < 33) ==>
              Replies(t, stored, payload) == []
  {
    hide Nearest;
    var none: seq<Node> := [];
    assert none[..0] == none;
    assert Encode(none) == [0, 0];
  }
}
