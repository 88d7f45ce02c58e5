/** The wire form of a node list: a two-byte count, then each identifier with its length-prefixed address. */
module NodeListCodec {
  import opened Machine
  import opened NodeDistance

  const U16_MAX: nat := 65535

  const NODE_HEADER: nat := 34

  /** A node's identifier and the UTF-8 bytes of its address. */
  datatype Node = Node(id: NodeId, addr: Bytes)

  function Be16(n: nat): Bytes
    requires n <= U16_MAX
  {
    [n / 256, n % 256]
  }

  function FromBe16(hi: byte, lo: byte): nat {
    256 * hi + lo
  }

  // ---- the layout ----

  function EncodeNode(node: Node): Bytes {
    var length := Min(|node.addr|, U16_MAX);
    node.id + Be16(length) + node.addr[..length]
  }

  function EncodeNodes(nodes: seq<Node>): Bytes {
    if nodes == [] then [] else EncodeNodes(nodes[..|nodes| - 1]) + EncodeNode(nodes[|nodes| - 1])
  }

  function Encode(nodes: seq<Node>): Bytes {
    var count := Min(|nodes|, U16_MAX);
    Be16(count) + EncodeNodes(nodes[..count])
  }

  /** Bytes that are not UTF-8 become the empty address. */
  function Text(utf8: Bytes -> bool, raw: Bytes): Bytes {
    if utf8(raw) then raw else []
  }

  /** The number of bytes the node at the front of `data` takes, or None when `data` is too short. */
  function NodeSpan(data: Bytes): (span: Option<nat>)
    ensures span.Some? ==> NODE_HEADER <= span.value <= |data|
  {
    if |data| < NODE_HEADER then None
    else
      var span := NODE_HEADER + FromBe16(data[32], data[33]);
      if |data| < span then None else Some(span)
  }

  function DecodeNodes(utf8: Bytes -> bool, data: Bytes, count: nat): seq<Node> {
    if count == 0 then []
    else match NodeSpan(data)
      case None => []
      case Some(span) =>
        [Node(data[..32], Text(utf8, data[NODE_HEADER..span]))] + DecodeNodes(utf8, data[span..], count - 1)
  }

  function Announced(data: Bytes): nat {
    if |data| < 2 then 0 else FromBe16(data[0], data[1])
  }

  function Decode(utf8: Bytes -> bool, data: Bytes): seq<Node> {
    if |data| < 2 then [] else DecodeNodes(utf8, data[2..], Announced(data))
  }

  // ---- the code ----

  method EncodeNodeList(nodes: seq<Node>) returns (buf: Bytes)
    ensures buf == Encode(nodes)
  {
    var count := Min(|nodes|, U16_MAX);
    buf := Be16(count);
    for i := 0 to count
      invariant buf == Be16(count) + EncodeNodes(nodes[..i])
    {
      var length := Min(|nodes[i].addr|, U16_MAX);
      buf := buf + nodes[i].id;
      buf := buf + Be16(length);
      buf := buf + nodes[i].addr[..length];
      assert nodes[..i + 1][..i] == nodes[..i];
      assert buf == Be16(count) + (EncodeNodes(nodes[..i]) + EncodeNode(nodes[i]));
    }
  }

  /** Decoding by offset instead of by remaining bytes, as the loop does it. */
  function DecodeFrom(utf8: Bytes -> bool, data: Bytes, offset: nat, count: nat): seq<Node>
    requires offset <= |data|
    decreases count
  {
    if count == 0 || offset + NODE_HEADER > |data| then []
    else
      var end := offset + NODE_HEADER + FromBe16(data[offset + 32], data[offset + 33]);
      if end > |data| then []
      else
        [Node(data[offset..offset + 32], Text(utf8, data[offset + NODE_HEADER..end]))]
        + DecodeFrom(utf8, data, end, count - 1)
  }

  lemma NodeSpanAt(data: Bytes, offset: nat)
    requires offset <= |data|
    ensures NodeSpan(data[offset..]) ==
            if offset + NODE_HEADER > |data| then None
            else
              var span := NODE_HEADER + FromBe16(data[offset + 32], data[offset + 33]);
              if offset + span > |data| then None else Some(span)
  {
  }

  lemma {:induction false} DecodeFromIsDecode(utf8: Bytes -> bool, data: Bytes, offset: nat, count: nat)
    requires offset <= |data|
    ensures DecodeFrom(utf8, data, offset, count) == DecodeNodes(utf8, data[offset..], count)
    decreases count
  {
    hide Text, NodeSpan, FromBe16;
    NodeSpanAt(data, offset);
    if count > 0 && NodeSpan(data[offset..]).Some? {
      var span := NodeSpan(data[offset..]).value;
      DecodeFromIsDecode(utf8, data, offset + span, count - 1);
      assert data[offset..][..32] == data[offset..offset + 32];
      assert data[offset..][NODE_HEADER..span] == data[offset + NODE_HEADER..offset + span];
      assert data[offset..][span..] == data[offset + span..];
    }
  }

  lemma TakeOne(utf8: Bytes -> bool, data: Bytes, offset: nat, count: nat, done: seq<Node>, node: Node, end: nat)
    requires 0 < count && offset + NODE_HEADER <= end <= |data|
    requires end == offset + NODE_HEADER + FromBe16(data[offset + 32], data[offset + 33])
    requires node.id == data[offset..offset + 32]
    requires node.addr == Text(utf8, data[offset + NODE_HEADER..end])
    ensures done + DecodeFrom(utf8, data, offset, count) == (done + [node]) + DecodeFrom(utf8, data, end, count - 1)
  {
    hide Text, FromBe16;
    var tail := DecodeFrom(utf8, data, end, count - 1);
    assert done + ([node] + tail) == (done + [node]) + tail;
  }

  method DecodeNodeList(utf8: Bytes -> bool, data: Bytes) returns (nodes: seq<Node>)
    ensures nodes == Decode(utf8, data)
  {
    hide DecodeNodes, Text, FromBe16;
    if |data| < 2 {
      return [];
    }
    var count := FromBe16(data[0], data[1]);
    DecodeFromIsDecode(utf8, data, 2, count);
    hide Decode;
    nodes := [];
    var offset := 2;
    var i := 0;
    while i < count
      invariant i <= count && 2 <= offset <= |data|
      invariant Decode(utf8, data) == nodes + DecodeFrom(utf8, data, offset, count - i)
    {
      ghost var start := offset;
      if offset + 32 + 2 > |data| {
        break;
      }
      var id := data[offset..offset + 32];
      offset := offset + 32;
      var length := FromBe16(data[offset], data[offset + 1]);
      offset := offset + 2;
      if offset + length > |data| {
        return;
      }
      var addr := Text(utf8, data[offset..offset + length]);
      offset := offset + length;
      TakeOne(utf8, data, start, count - i, nodes, Node(id, addr), offset);
      nodes := nodes + [Node(id, addr)];
      i := i + 1;
    }
  }

  // ---- what a receiver reads back ----

  /** What survives of an address: its first 65535 bytes, or nothing if they split a character. */
  function ClipAddr(utf8: Bytes -> bool, addr: Bytes): Bytes {
    var kept := if |addr| <= 65535 then addr else addr[..65535];
    if utf8(kept) then kept else []
  }

  function ClipNodes(utf8: Bytes -> bool, nodes: seq<Node>): seq<Node> {
    seq(|nodes|, i requires 0 <= i < |nodes| => Node(nodes[i].id, ClipAddr(utf8, nodes[i].addr)))
  }

  /** Every address is a string of the original, so its bytes are UTF-8. */
  predicate AllText(utf8: Bytes -> bool, nodes: seq<Node>) {
    forall i :: 0 <= i < |nodes| ==> utf8(nodes[i].addr)
  }

  lemma {:induction false} EncodeNodesFront(nodes: seq<Node>)
    requires nodes != []
    ensures EncodeNodes(nodes) == EncodeNode(nodes[0]) + EncodeNodes(nodes[1..])
  {
    hide EncodeNode;
    if |nodes| > 1 {
      var init := nodes[..|nodes| - 1];
      EncodeNodesFront(init);
      assert init[1..] == nodes[1..][..|nodes| - 2];
    }
  }

  lemma NodeReadsBack(utf8: Bytes -> bool, node: Node, rest: Bytes)
    ensures NodeSpan(EncodeNode(node) + rest) == Some(|EncodeNode(node)|)
    ensures |EncodeNode(node)| >= NODE_HEADER
    ensures EncodeNode(node)[..32] == node.id
    ensures Text(utf8, EncodeNode(node)[NODE_HEADER..]) == ClipAddr(utf8, node.addr)
  {
    var code := EncodeNode(node);
    var length := Min(|node.addr|, U16_MAX);
    assert code[NODE_HEADER..] == node.addr[..length];
    assert |node.addr| <= U16_MAX ==> node.addr[..length] == node.addr;
    assert (code + rest)[32] == length / 256 && (code + rest)[33] == length % 256;
  }

  lemma {:induction false} NodesReadBack(utf8: Bytes -> bool, nodes: seq<Node>)
    ensures DecodeNodes(utf8, EncodeNodes(nodes), |nodes|) == ClipNodes(utf8, nodes)
  {
    hide EncodeNode, NodeSpan, EncodeNodes, Text, ClipAddr;
    if nodes != [] {
      EncodeNodesFront(nodes);
      var first, rest := EncodeNode(nodes[0]), EncodeNodes(nodes[1..]);
      NodeReadsBack(utf8, nodes[0], rest);
      assert (first + rest)[..32] == first[..32];
      assert (first + rest)[NODE_HEADER..|first|] == first[NODE_HEADER..];
      assert (first + rest)[|first|..] == rest;
      NodesReadBack(utf8, nodes[1..]);
      assert ClipNodes(utf8, nodes) == [Node(nodes[0].id, ClipAddr(utf8, nodes[0].addr))] + ClipNodes(utf8, nodes[1..]);
    }
  }

  /** Decoding an encoded list gives its first 65535 nodes with clipped addresses, for every list. */
  lemma ReadsBack(utf8: Bytes -> bool, nodes: seq<Node>)
    ensures Decode(utf8, Encode(nodes)) == ClipNodes(utf8, nodes[..Min(|nodes|, U16_MAX)])
  {
    hide EncodeNodes, DecodeNodes;
    var count := Min(|nodes|, U16_MAX);
    NodesReadBack(utf8, nodes[..count]);
    assert Encode(nodes)[2..] == EncodeNodes(nodes[..count]);
  }

  /** Hence the round trip is exact precisely when the count and every address length fit in 16 bits. */
  lemma RoundTripIff(utf8: Bytes -> bool, nodes: seq<Node>)
    requires AllText(utf8, nodes)
    ensures Decode(utf8, Encode(nodes)) == nodes <==>
            |nodes| <= U16_MAX && forall i :: 0 <= i < |nodes| ==> |nodes[i].addr| <= U16_MAX
  {
    hide Encode, Decode;
    ReadsBack(utf8, nodes);
    var got := Decode(utf8, Encode(nodes));
    if |nodes| <= U16_MAX {
      assert nodes[..|nodes|] == nodes;
      forall i | 0 <= i < |nodes|
        ensures got[i] == nodes[i] <==> |nodes[i].addr| <= U16_MAX
      {
        assert |ClipAddr(utf8, nodes[i].addr)| <= U16_MAX;
        assert |nodes[i].addr| <= U16_MAX ==> nodes[i].addr[..|nodes[i].addr|] == nodes[i].addr;
      }
    }
  }

  /** On arbitrary bytes: at most the announced count, and no more than the bytes can hold. */
  lemma {:induction false} DecodeNodesBound(utf8: Bytes -> bool, data: Bytes, count: nat)
    ensures |DecodeNodes(utf8, data, count)| <= count
    ensures NODE_HEADER * |DecodeNodes(utf8, data, count)| <= |data|
  {
    hide NodeSpan, Text;
    if count > 0 && NodeSpan(data).Some? {
      DecodeNodesBound(utf8, data[NodeSpan(data).value..], count - 1);
    }
  }

  lemma DecodeBound(utf8: Bytes -> bool, data: Bytes)
    ensures |Decode(utf8, data)| <= Announced(data) <= U16_MAX
    ensures |data| < 2 ==> Decode(utf8, data) == []
    ensures |data| >= 2 ==> 2 + NODE_HEADER * |Decode(utf8, data)| <= |data|
  {
    if |data| >= 2 {
      DecodeNodesBound(utf8, data[2..], Announced(data));
    }
  }

  // ---- the bytes on the wire ----

  /** Where node `k` begins: after the count, and 34 bytes and an address for each node before it. */
  function Offset(nodes: seq<Node>, k: nat): nat
    requires k <= |nodes|
  {
    if k == 0 then 2 else Offset(nodes, k - 1) + 34 + Min(|nodes[k - 1].addr|, 65535)
  }

  lemma {:induction false} EncodeNodesSplit(a: seq<Node>, b: seq<Node>)
    ensures EncodeNodes(a + b) == EncodeNodes(a) + EncodeNodes(b)
  {
    hide EncodeNode;
    if b == [] {
      assert a + b == a;
    } else {
      EncodeNodesSplit(a, b[..|b| - 1]);
      assert (a + b)[..|a + b| - 1] == a + b[..|b| - 1];
    }
  }

  lemma {:induction false} OffsetIsLength(nodes: seq<Node>, k: nat)
    requires k <= |nodes|
    ensures Offset(nodes, k) == 2 + |EncodeNodes(nodes[..k])|
  {
    if k > 0 {
      OffsetIsLength(nodes, k - 1);
      assert nodes[..k][..k - 1] == nodes[..k - 1];
    }
  }

  /** The encoding around node `k`. */
  lemma EncodeAround(nodes: seq<Node>, k: nat)
    requires k < |nodes| <= 65535
    ensures Offset(nodes, k) == 2 + |EncodeNodes(nodes[..k])|
    ensures Encode(nodes)
         == Be16(|nodes|) + EncodeNodes(nodes[..k]) + EncodeNode(nodes[k]) + EncodeNodes(nodes[k + 1..])
  {
    hide EncodeNode, EncodeNodes, Be16, Offset;
    OffsetIsLength(nodes, k);
    EncodeNodesFront(nodes[k..]);
    assert nodes[k..][1..] == nodes[k + 1..];
    EncodeNodesSplit(nodes[..k], nodes[k..]);
    assert nodes[..k] + nodes[k..] == nodes;
    assert nodes[..|nodes|] == nodes;
    Regroup(Be16(|nodes|), EncodeNodes(nodes[..k]), EncodeNode(nodes[k]), EncodeNodes(nodes[k + 1..]));
  }

  lemma Regroup(a: Bytes, b: Bytes, c: Bytes, d: Bytes)
    ensures a + (b + (c + d)) == a + b + c + d
  {
  }

  /**
   * The wire form byte by byte: a big-endian count, then each identifier followed by the big-endian
   * length of its address and the address, cut off at 65535 bytes.
   */
  lemma WireLayout(nodes: seq<Node>, k: nat)
    requires k < |nodes| <= 65535
    ensures var code, at, length := Encode(nodes), Offset(nodes, k), Min(|nodes[k].addr|, 65535);
            && |code| >= at + 34 + length
            && code[0] as int * 256 + code[1] as int == |nodes|
            && code[at..at + 32] == nodes[k].id
            && code[at + 32] as int * 256 + code[at + 33] as int == length
            && code[at + 34..at + 34 + length] == nodes[k].addr[..length]
  {
    EncodeAround(nodes, k);
    hide Encode, EncodeNodes, Offset;
    var before := Be16(|nodes|) + EncodeNodes(nodes[..k]);
    LayoutAfter(before, nodes[k], EncodeNodes(nodes[k + 1..]));
    assert (before + EncodeNode(nodes[k]) + EncodeNodes(nodes[k + 1..]))[..2] == Be16(|nodes|);
  }

  lemma LayoutAfter(before: Bytes, node: Node, rest: Bytes)
    ensures var code, at, length := before + EncodeNode(node) + rest, |before|, Min(|node.addr|, 65535);
            && |code| >= at + 34 + length
            && code[at..at + 32] == node.id
            && code[at + 32] as int * 256 + code[at + 33] as int == length
            && code[at + 34..at + 34 + length] == node.addr[..length]
  {
  }

  // ---- what is read of an encoding that was cut off or has more bytes behind it ----

  lemma {:induction false} NodesReadThen(utf8: Bytes -> bool, nodes: seq<Node>, rest: Bytes, count: nat)
    requires |nodes| <= count
    ensures DecodeNodes(utf8, EncodeNodes(nodes) + rest, count)
         == ClipNodes(utf8, nodes) + DecodeNodes(utf8, rest, count - |nodes|)
  {
    hide EncodeNode, NodeSpan, EncodeNodes, Text, ClipAddr;
    if nodes == [] {
      NoNodes();
      assert EncodeNodes(nodes) + rest == rest;
    } else {
      EncodeNodesFront(nodes);
      var first, tail := EncodeNode(nodes[0]), EncodeNodes(nodes[1..]) + rest;
      assert EncodeNodes(nodes) + rest == first + tail;
      NodeReadsBack(utf8, nodes[0], tail);
      assert (first + tail)[..32] == first[..32];
      assert (first + tail)[NODE_HEADER..|first|] == first[NODE_HEADER..];
      assert (first + tail)[|first|..] == tail;
      NodesReadThen(utf8, nodes[1..], rest, count - 1);
      assert ClipNodes(utf8, nodes) == [Node(nodes[0].id, ClipAddr(utf8, nodes[0].addr))] + ClipNodes(utf8, nodes[1..]);
    }
  }

  lemma NoNodes()
    ensures EncodeNodes([]) == []
  {
  }

  /** A node whose encoding is cut short is not read. */
  lemma CutNode(utf8: Bytes -> bool, node: Node, n: nat, count: nat)
    requires n < |EncodeNode(node)|
    ensures DecodeNodes(utf8, EncodeNode(node)[..n], count) == []
  {
    var code := EncodeNode(node);
    if n >= 34 {
      assert FromBe16(code[32], code[33]) == |code| - 34;
    }
    assert NodeSpan(code[..n]) == None;
  }

  /** Of an encoding cut off inside node `m`, exactly the nodes before it are read. */
  lemma CutReads(utf8: Bytes -> bool, nodes: seq<Node>, m: nat, n: nat)
    requires m < |nodes| <= 65535 && Offset(nodes, m) <= n < Offset(nodes, m + 1)
    ensures n <= |Encode(nodes)| && Decode(utf8, Encode(nodes)[..n]) == ClipNodes(utf8, nodes[..m])
  {
    EncodeAround(nodes, m);
    hide Encode, EncodeNodes, DecodeNodes, Offset, NodeSpan, ClipNodes;
    var front, code, rest := EncodeNodes(nodes[..m]), EncodeNode(nodes[m]), EncodeNodes(nodes[m + 1..]);
    var cut := n - 2 - |front|;
    NextOffset(nodes, m);
    assert (Be16(|nodes|) + front + code + rest)[..n] == Be16(|nodes|) + front + code[..cut];
    hide EncodeNode;
    var data := Be16(|nodes|) + front + code[..cut];
    assert data[2..] == front + code[..cut] && data[..2] == Be16(|nodes|);
    assert Announced(data) == |nodes|;
    NodesReadThen(utf8, nodes[..m], code[..cut], |nodes|);
    CutNode(utf8, nodes[m], cut, |nodes| - m);
  }

  lemma NextOffset(nodes: seq<Node>, m: nat)
    requires m < |nodes|
    ensures Offset(nodes, m + 1) == Offset(nodes, m) + |EncodeNode(nodes[m])|
  {
  }

  /** Bytes after the last announced node are not read. */
  lemma ExtraBytesIgnored(utf8: Bytes -> bool, nodes: seq<Node>, extra: Bytes)
    requires |nodes| <= 65535
    ensures Decode(utf8, Encode(nodes) + extra) == ClipNodes(utf8, nodes)
  {
    hide EncodeNodes, DecodeNodes;
    assert nodes[..|nodes|] == nodes;
    NodesReadThen(utf8, nodes, extra, |nodes|);
    assert (Encode(nodes) + extra)[2..] == EncodeNodes(nodes) + extra;
    NothingMore(utf8, extra);
  }

  lemma NothingMore(utf8: Bytes -> bool, data: Bytes)
    ensures DecodeNodes(utf8, data, 0) == []
  {
  }
}
