/**
 * Selective-repeat ARQ: the send window and the reordering receiver.
 * The functions say what each operation does to a state; the classes update
 * their fields in place and are proved against those functions.
 */
module Reliable {
  import opened Machine

  const WINDOW_SIZE: u32 := 32
  const RTO: nat := 200
  const MAX_RETRIES: nat := 10

  datatype Packet = Packet(seqNo: u32, data: Bytes)

  datatype Slot = Slot(seqNo: u32, data: Bytes, sentAt: nat, retries: nat, acked: bool)

  datatype Sender = Sender(nextSeq: u32, windowBase: u32, slots: seq<Slot>)

  datatype Receiver = Receiver(nextExpected: u32, ooo: seq<Packet>)

  // ---- sender ----

  function SendStep(s: Sender, payload: Bytes, now: nat): (Sender, Option<Packet>) {
    if WrapSub(s.nextSeq, s.windowBase) >= WINDOW_SIZE then (s, None)
    else
      (Sender(WrapAdd(s.nextSeq, 1), s.windowBase, s.slots + [Slot(s.nextSeq, payload, now, 0, false)]),
       Some(Packet(s.nextSeq, payload)))
  }

  predicate BitSet(bitmap: u32, k: nat) {
    Pow2Positive(k);
    bitmap / Pow2(k) % 2 == 1
  }

  /** Does an acknowledgement `(ackSeq, bitmap)` cover sequence number `seqNo`? */
  predicate Confirms(seqNo: u32, ackSeq: u32, bitmap: u32) {
    var dist := WrapSub(seqNo, ackSeq);
    dist == 0 || (dist <= WINDOW_SIZE && BitSet(bitmap, dist - 1))
  }

  function MarkOne(slot: Slot, ackSeq: u32, bitmap: u32): Slot {
    if !slot.acked && Confirms(slot.seqNo, ackSeq, bitmap) then slot.(acked := true) else slot
  }

  function Mark(slots: seq<Slot>, ackSeq: u32, bitmap: u32): seq<Slot> {
    seq(|slots|, i requires 0 <= i < |slots| => MarkOne(slots[i], ackSeq, bitmap))
  }

  function NewlyAcked(slots: seq<Slot>, ackSeq: u32, bitmap: u32): seq<u32> {
    if slots == [] then []
    else
      var last := slots[|slots| - 1];
      NewlyAcked(slots[..|slots| - 1], ackSeq, bitmap)
      + if !last.acked && Confirms(last.seqNo, ackSeq, bitmap) then [last.seqNo] else []
  }

  function Slide(s: Sender): Sender
    decreases |s.slots|
  {
    if |s.slots| > 0 && s.slots[0].acked
    then Slide(Sender(s.nextSeq, WrapAdd(s.windowBase, 1), s.slots[1..]))
    else s
  }

  function AckStep(s: Sender, ackSeq: u32, bitmap: u32): Sender {
    Slide(s.(slots := Mark(s.slots, ackSeq, bitmap)))
  }

  predicate Due(slot: Slot, now: nat) {
    !slot.acked && slot.retries < MAX_RETRIES && now - slot.sentAt >= RTO
  }

  function Touch(slot: Slot, now: nat): Slot {
    if Due(slot, now) then slot.(retries := slot.retries + 1, sentAt := now) else slot
  }

  function PollStep(s: Sender, now: nat): Sender {
    s.(slots := seq(|s.slots|, i requires 0 <= i < |s.slots| => Touch(s.slots[i], now)))
  }

  function Retransmitted(slots: seq<Slot>, now: nat): seq<Packet> {
    if slots == [] then []
    else
      var last := slots[|slots| - 1];
      Retransmitted(slots[..|slots| - 1], now)
      + if Due(last, now) then [Packet(last.seqNo, last.data)] else []
  }

  class ReliableSender {
    var nextSeq: u32
    var windowBase: u32
    var slots: seq<Slot>

    function State(): Sender
      reads this
    {
      Sender(nextSeq, windowBase, slots)
    }

    constructor ()
      ensures State() == Sender(0, 0, [])
    {
      nextSeq, windowBase, slots := 0, 0, [];
    }

    method Send(payload: Bytes, now: nat) returns (packet: Option<Packet>)
      modifies this
      ensures (State(), packet) == SendStep(old(State()), payload, now)
    {
      if WrapSub(nextSeq, windowBase) >= WINDOW_SIZE {
        return None;
      }
      var seqNo := nextSeq;
      nextSeq := WrapAdd(nextSeq, 1);
      slots := slots + [Slot(seqNo, payload, now, 0, false)];
      return Some(Packet(seqNo, payload));
    }

    method OnAck(ackSeq: u32, bitmap: u32) returns (acked: seq<u32>)
      modifies this
      ensures State() == AckStep(old(State()), ackSeq, bitmap)
      ensures acked == NewlyAcked(old(slots), ackSeq, bitmap)
    {
      acked := [];
      ghost var before := slots;
      for i := 0 to |slots|
        invariant |slots| == |before|
        invariant nextSeq == old(nextSeq) && windowBase == old(windowBase)
        invariant forall k :: 0 <= k < i ==> slots[k] == MarkOne(before[k], ackSeq, bitmap)
        invariant forall k :: i <= k < |slots| ==> slots[k] == before[k]
        invariant acked == NewlyAcked(before[..i], ackSeq, bitmap)
      {
        assert before[..i + 1][..i] == before[..i];
        if !slots[i].acked && Confirms(slots[i].seqNo, ackSeq, bitmap) {
          acked := acked + [slots[i].seqNo];
          slots := slots[i := slots[i].(acked := true)];
        }
      }
      assert before[..|before|] == before;
      assert slots == Mark(before, ackSeq, bitmap);
      while |slots| > 0 && slots[0].acked
        invariant nextSeq == old(nextSeq)
        invariant Slide(State()) == AckStep(old(State()), ackSeq, bitmap)
        decreases |slots|
      {
        slots := slots[1..];
        windowBase := WrapAdd(windowBase, 1);
      }
    }

    method PollRetransmit(now: nat) returns (retrans: seq<Packet>)
      modifies this
      ensures State() == PollStep(old(State()), now)
      ensures retrans == Retransmitted(old(slots), now)
    {
      retrans := [];
      ghost var before := slots;
      for i := 0 to |slots|
        invariant |slots| == |before|
        invariant nextSeq == old(nextSeq) && windowBase == old(windowBase)
        invariant forall k :: 0 <= k < i ==> slots[k] == Touch(before[k], now)
        invariant forall k :: i <= k < |slots| ==> slots[k] == before[k]
        invariant retrans == Retransmitted(before[..i], now)
      {
        assert before[..i + 1][..i] == before[..i];
        if !(slots[i].acked || slots[i].retries >= MAX_RETRIES) && now - slots[i].sentAt >= RTO {
          retrans := retrans + [Packet(slots[i].seqNo, slots[i].data)];
          slots := slots[i := slots[i].(retries := slots[i].retries + 1, sentAt := now)];
        }
      }
      assert before[..|before|] == before;
      assert slots == PollStep(old(State()), now).slots;
    }
  }

  // ---- receiver ----

  /** Hand up buffered packets from the front of the buffer while they are the next expected. */
  function Drain(r: Receiver): (Receiver, seq<Bytes>)
    decreases |r.ooo|
  {
    if |r.ooo| > 0 && r.ooo[0].seqNo == r.nextExpected then
      var (r', rest) := Drain(Receiver(WrapAdd(r.nextExpected, 1), r.ooo[1..]));
      (r', [r.ooo[0].data] + rest)
    else (r, [])
  }

  function InsertPos(ooo: seq<Packet>, seqNo: u32, dist: u32): (pos: nat)
    ensures pos <= |ooo|
    ensures pos < |ooo| ==> WrapSub(seqNo, ooo[pos].seqNo) < dist
    ensures forall i :: 0 <= i < pos ==> WrapSub(seqNo, ooo[i].seqNo) >= dist
  {
    if ooo == [] then 0
    else if WrapSub(seqNo, ooo[0].seqNo) < dist then 0
    else 1 + InsertPos(ooo[1..], seqNo, dist)
  }

  function Buffered(ooo: seq<Packet>, p: Packet, dist: u32): seq<Packet> {
    var pos := InsertPos(ooo, p.seqNo, dist);
    if pos < |ooo| && ooo[pos].seqNo == p.seqNo then ooo
    else ooo[..pos] + [p] + ooo[pos..]
  }

  function DeliverStep(r: Receiver, p: Packet): (Receiver, seq<Bytes>) {
    var dist := WrapSub(p.seqNo, r.nextExpected);
    if dist == 0 then
      var (r', rest) := Drain(Receiver(WrapAdd(r.nextExpected, 1), r.ooo));
      (r', [p.data] + rest)
    else if dist <= WINDOW_SIZE then (r.(ooo := Buffered(r.ooo, p, dist)), [])
    else (r, [])
  }

  /** The acknowledgement the receiver piggybacks; nothing ever sets a bit of the bitmap. */
  function AckInfo(r: Receiver): (u32, u32) {
    (WrapSub(r.nextExpected, 1), 0)
  }

  class ReliableReceiver {
    var nextExpected: u32
    var ooo: seq<Packet>
    var lastAckBitmap: u32

    function State(): Receiver
      reads this
    {
      Receiver(nextExpected, ooo)
    }

    predicate Valid()
      reads this
    {
      lastAckBitmap == 0
    }

    constructor ()
      ensures Valid() && State() == Receiver(0, [])
    {
      nextExpected, ooo, lastAckBitmap := 0, [], 0;
    }

    method Deliver(seqNo: u32, payload: Bytes) returns (results: seq<Bytes>)
      requires Valid()
      modifies this
      ensures Valid()
      ensures (State(), results) == DeliverStep(old(State()), Packet(seqNo, payload))
    {
      var dist := WrapSub(seqNo, nextExpected);
      if dist == 0 {
        nextExpected := WrapAdd(nextExpected, 1);
        results := [payload];
        while |ooo| > 0 && ooo[0].seqNo == nextExpected
          invariant Valid()
          invariant DeliverStep(old(State()), Packet(seqNo, payload))
                    == (Drain(State()).0, results + Drain(State()).1)
          decreases |ooo|
        {
          var front := ooo[0];
          assert results + [front.data] + Drain(Receiver(WrapAdd(nextExpected, 1), ooo[1..])).1
              == results + Drain(State()).1;
          ooo := ooo[1..];
          nextExpected := WrapAdd(nextExpected, 1);
          results := results + [front.data];
        }
        assert results + [] == results;
      } else if dist <= WINDOW_SIZE {
        var insertPos := 0;
        while insertPos < |ooo| && WrapSub(seqNo, ooo[insertPos].seqNo) >= dist
          invariant insertPos <= |ooo|
          invariant forall i :: 0 <= i < insertPos ==> WrapSub(seqNo, ooo[i].seqNo) >= dist
        {
          insertPos := insertPos + 1;
        }
        assert insertPos == InsertPos(ooo, seqNo, dist);
        if insertPos < |ooo| && ooo[insertPos].seqNo == seqNo {
        } else {
          ooo := ooo[..insertPos] + [Packet(seqNo, payload)] + ooo[insertPos..];
        }
        results := [];
      } else {
        results := [];
      }
    }

    method Acknowledge() returns (ackSeq: u32, bitmap: u32)
      requires Valid()
      ensures (ackSeq, bitmap) == AckInfo(State())
    {
      return WrapSub(nextExpected, 1), lastAckBitmap;
    }
  }
}
