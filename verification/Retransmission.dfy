/** When a packet is sent again, and what an acknowledgement with a bitmap confirms. */
module Retransmission {
  import opened Machine
  import opened Reliable
  import opened ReliableSystem
  import opened ReliableProgress

  // ---- what one poll sends ----

  lemma {:induction false} RetransmittedIff(slots: seq<Slot>, now: nat, p: Packet)
    ensures p in Retransmitted(slots, now)
            <==> exists i :: 0 <= i < |slots| && Due(slots[i], now) && p == Packet(slots[i].seqNo, slots[i].data)
  {
    hide Due;
    if slots != [] {
      var front, last := slots[..|slots| - 1], slots[|slots| - 1];
      RetransmittedIff(front, now, p);
      assert slots == front + [last];
      if i :| 0 <= i < |slots| && Due(slots[i], now) && p == Packet(slots[i].seqNo, slots[i].data) {
        assert i < |front| ==> front[i] == slots[i];
      }
    }
  }

  ghost predicate Ascending(packets: seq<Packet>) {
    forall i, j :: 0 <= i < j < |packets| ==> packets[i].seqNo < packets[j].seqNo
  }

  lemma {:induction false} RetransmittedAscends(slots: seq<Slot>, now: nat, base: nat)
    requires forall i :: 0 <= i < |slots| ==> slots[i].seqNo == base + i
    ensures Ascending(Retransmitted(slots, now))
    ensures forall p :: p in Retransmitted(slots, now) ==> p.seqNo < base + |slots|
  {
    hide Due;
    if slots != [] {
      RetransmittedAscends(slots[..|slots| - 1], now, base);
    }
  }

  // ---- when a packet was sent, on a run ----

  /** Packet `k` may be sent again: not acknowledged, sent at most ten times, and last 200 ms ago or more. */
  ghost predicate Again(steps: seq<Step>, k: u32, sends: seq<nat>, now: nat) {
    !Delivered(steps, k) && 1 <= |sends| <= 10 && now >= sends[|sends| - 1] + 200
  }

  /** The moments at which packet `k` is sent on a run, by the rule of the window and the timeout alone. */
  ghost function Sends(steps: seq<Step>, k: u32): seq<nat> {
    if steps == [] then []
    else
      var before, last := steps[..|steps| - 1], steps[|steps| - 1];
      var sends := Sends(before, k);
      match last
      case Queue(_, now) => if |Run(before).sent| == k < |Run(steps).sent| then sends + [now] else sends
      case Poll(now) => if Again(before, k, sends, now) then sends + [now] else sends
      case _ => sends
  }

  /** The slot of packet `k` remembers its last send and how often it was sent again. */
  ghost predicate Remembers(s: Sender, k: nat, sends: seq<nat>) {
    Unacked(s, k) ==> |sends| > 0 && s.slots[k - s.windowBase].sentAt == sends[|sends| - 1]
                      && s.slots[k - s.windowBase].retries == |sends| - 1
  }

  lemma {:induction false} SlideRemembers(s: Sender, k: nat, sends: seq<nat>)
    requires s.windowBase + |s.slots| < WORD && Remembers(s, k, sends)
    ensures Remembers(Slide(s), k, sends)
    decreases |s.slots|
  {
    if |s.slots| > 0 && s.slots[0].acked {
      SlideRemembers(Sender(s.nextSeq, WrapAdd(s.windowBase, 1), s.slots[1..]), k, sends);
    }
  }

  lemma AckRemembers(s: Sender, ackSeq: u32, bitmap: u32, k: nat, sends: seq<nat>)
    requires s.windowBase + |s.slots| < WORD && Remembers(s, k, sends)
    ensures Remembers(AckStep(s, ackSeq, bitmap), k, sends)
  {
    hide Slide, Confirms;
    SlideRemembers(s.(slots := Mark(s.slots, ackSeq, bitmap)), k, sends);
  }

  lemma PollRemembers(s: Sender, k: nat, sends: seq<nat>, now: nat)
    requires Remembers(s, k, sends) && (Unacked(s, k) ==> |sends| <= 11)
    ensures Unacked(PollStep(s, now), k) <==> Unacked(s, k)
    ensures var again := Unacked(s, k) && |sends| <= 10 && now >= sends[|sends| - 1] + 200;
            Remembers(PollStep(s, now), k, if again then sends + [now] else sends)
  {
  }

  lemma StepRemembers(s: System, step: Step, k: u32, sends: seq<nat>)
    requires Inv(s) && |Apply(s, step).sent| < WORD && Remembers(s.snd, k, sends)
    requires k >= |s.sent| ==> sends == []
    requires |sends| <= 11
    ensures var t := Apply(s, step);
            Remembers(t.snd, k, match step
                                case Queue(_, now) => if |s.sent| == k < |t.sent| then sends + [now] else sends
                                case Poll(now) =>
                                  if Unacked(s.snd, k) && |sends| <= 10 && now >= sends[|sends| - 1] + 200
                                  then sends + [now] else sends
                                case _ => sends)
  {
    hide DeliverStep, AckStep, PollStep, Retransmitted;
    match step
    case Queue(payload, now) =>
    case Poll(now) => PollRemembers(s.snd, k, sends, now);
    case Arrive(p) =>
    case EmitAck =>
    case AckArrive(ack) =>
      if ack in s.acks {
        AckRemembers(s.snd, ack.0, ack.1, k, sends);
      }
  }

  lemma {:induction false} SendsRemembered(steps: seq<Step>, k: u32)
    requires |Run(steps).sent| < WORD
    ensures Remembers(Run(steps).snd, k, Sends(steps, k))
    ensures (k < |Run(steps).sent| <==> Sends(steps, k) != []) && |Sends(steps, k)| <= 11
  {
    if steps != [] {
      hide Apply, Unacked, Delivered, Inv, Remembers;
      var before, last := steps[..|steps| - 1], steps[|steps| - 1];
      SentOnlyGrows(Run(before), last);
      RunKeeps(before);
      var s, sends := Run(before), Sends(before, k);
      SendsRemembered(before, k);
      UnackedIff(before, k);
      OnlySentUnacked(s, k);
      StepRemembers(s, last, k, sends);
      SentByQueue(s, last, k);
    }
  }

  lemma OnlySentUnacked(s: System, k: nat)
    requires Inv(s)
    ensures Unacked(s.snd, k) ==> k < |s.sent|
  {
  }

  lemma SentByQueue(s: System, step: Step, k: nat)
    ensures |s.sent| <= k < |Apply(s, step).sent| <==> |s.sent| == k < |Apply(s, step).sent| && step.Queue?
    ensures |s.sent| <= |Apply(s, step).sent|
  {
  }

  /**
   * On every run below 2^32 packets a poll sends packet `k` again exactly if no acknowledgement
   * naming it was delivered, it was sent at most ten times, and its last send is 200 ms ago or more.
   * Each packet goes out at most once a poll, in order and with its own payload.
   */
  lemma ResentIff(steps: seq<Step>, k: u32, now: nat)
    requires |Run(steps).sent| < WORD && k < |Run(steps).sent|
    ensures var s, resent, sends := Run(steps), Retransmitted(Run(steps).snd.slots, now), Sends(steps, k);
            && Ascending(resent) && (forall p :: p in resent ==> Genuine(p, s.sent)) && sends != []
            && (Packet(k, s.sent[k]) in resent
                <==> !Delivered(steps, k) && |sends| <= 10 && now >= sends[|sends| - 1] + 200)
  {
    hide Run, Inv, Unacked, Delivered, Remembers, Sends, Retransmitted, Genuine;
    RunKeeps(steps);
    SendsRemembered(steps, k);
    UnackedIff(steps, k);
    ResentAt(Run(steps), k, Sends(steps, k), now);
  }

  lemma ResentAt(s: System, k: u32, sends: seq<nat>, now: nat)
    requires Inv(s) && k < |s.sent| && sends != [] && Remembers(s.snd, k, sends)
    ensures var resent := Retransmitted(s.snd.slots, now);
            && Ascending(resent) && (forall p :: p in resent ==> Genuine(p, s.sent))
            && (Packet(k, s.sent[k]) in resent
                <==> Unacked(s.snd, k) && |sends| <= 10 && now >= sends[|sends| - 1] + 200)
  {
    hide Retransmitted, Ascending;
    RetransmittedAscends(s.snd.slots, now, s.snd.windowBase);
    forall p | p in Retransmitted(s.snd.slots, now)
      ensures Genuine(p, s.sent)
    {
      RetransmittedIff(s.snd.slots, now, p);
    }
    RetransmittedIff(s.snd.slots, now, Packet(k, s.sent[k]));
    if Unacked(s.snd, k) {
      var slot := s.snd.slots[k - s.snd.windowBase];
      assert Packet(slot.seqNo, slot.data) == Packet(k, s.sent[k]);
    }
  }

  // ---- acknowledgements with a bitmap ----

  /** The number whose bit `i` is `bits[i]`. */
  function PackBits(bits: seq<bool>): nat {
    if bits == [] then 0 else (if bits[0] then 1 else 0) + 2 * PackBits(bits[1..])
  }

  lemma {:induction false} PackedFits(bits: seq<bool>)
    ensures PackBits(bits) < Pow2(|bits|)
  {
    if bits != [] {
      PackedFits(bits[1..]);
    }
  }

  lemma Pow2Word()
    ensures Pow2(32) == WORD
  {
    assert Pow2(8) == 256;
    assert Pow2(16) == 65536;
    assert Pow2(24) == 0x100_0000;
  }

  /** The bitmap word of 32 bits. */
  function Bitmap(bits: seq<bool>): u32
    requires |bits| == 32
  {
    PackedFits(bits);
    Pow2Word();
    PackBits(bits)
  }

  lemma {:induction false} Unpack(n: nat, w: nat) returns (bits: seq<bool>)
    requires n < Pow2(w)
    ensures |bits| == w && PackBits(bits) == n
  {
    if w == 0 {
      bits := [];
    } else {
      var rest := Unpack(n / 2, w - 1);
      bits := [n % 2 == 1] + rest;
      assert bits[1..] == rest;
    }
  }

  /** Every word is the bitmap of some 32 bits. */
  lemma EveryBitmap(bitmap: u32) returns (bits: seq<bool>)
    ensures |bits| == 32 && Bitmap(bits) == bitmap
  {
    Pow2Word();
    bits := Unpack(bitmap, 32);
  }

  lemma {:induction false} PackedBit(bits: seq<bool>, k: nat)
    requires PackBits(bits) < WORD
    ensures BitSet(PackBits(bits), k) <==> k < |bits| && bits[k]
  {
    if bits == [] {
      NoBitSet();
    } else if k > 0 {
      PackedBit(bits[1..], k - 1);
      ShiftHalves(PackBits(bits), k);
    }
  }

  /** `(ackSeq, Bitmap(bits))` names `ackSeq`, and the number `d + 1` after it exactly if bit `d` is set. */
  ghost predicate Names(ackSeq: u32, bits: seq<bool>, seqNo: u32) {
    seqNo == ackSeq || exists d :: 0 <= d < |bits| && bits[d] && seqNo == (ackSeq + d + 1) % 0x1_0000_0000
  }

  lemma ConfirmsIff(ackSeq: u32, bits: seq<bool>, seqNo: u32)
    requires |bits| == 32
    ensures Confirms(seqNo, ackSeq, Bitmap(bits)) <==> Names(ackSeq, bits, seqNo)
  {
    hide BitSet, PackBits;
    assert PackBits(bits) == Bitmap(bits);
    var dist := WrapSub(seqNo, ackSeq);
    if 1 <= dist <= 32 {
      PackedBit(bits, dist - 1);
      assert bits[dist - 1] ==> seqNo == (ackSeq + (dist - 1) + 1) % 0x1_0000_0000;
    }
    forall d | 0 <= d < 32 && bits[d] && seqNo == (ackSeq + d + 1) % 0x1_0000_0000
      ensures d + 1 == dist
    {
    }
  }

  ghost predicate Contiguous(s: Sender) {
    s.windowBase + |s.slots| < WORD && forall i :: 0 <= i < |s.slots| ==> s.slots[i].seqNo == s.windowBase + i
  }

  lemma {:induction false} NewlyAckedIff(slots: seq<Slot>, base: nat, ackSeq: u32, bitmap: u32, k: u32)
    requires forall i :: 0 <= i < |slots| ==> slots[i].seqNo == base + i
    ensures k in NewlyAcked(slots, ackSeq, bitmap)
            <==> base <= k < base + |slots| && !slots[k - base].acked && Confirms(k, ackSeq, bitmap)
  {
    hide Confirms;
    if slots != [] {
      var front := slots[..|slots| - 1];
      NewlyAckedIff(front, base, ackSeq, bitmap, k);
      assert slots == front + [slots[|slots| - 1]];
    }
  }

  /** Strictly ascending, and below `bound`. */
  ghost predicate AscendsBelow(numbers: seq<u32>, bound: nat) {
    && (forall i :: 0 <= i < |numbers| ==> numbers[i] < bound)
    && (forall i, j :: 0 <= i < j < |numbers| ==> numbers[i] < numbers[j])
  }

  lemma {:induction false} NewlyAckedAscends(slots: seq<Slot>, base: nat, ackSeq: u32, bitmap: u32)
    requires forall i :: 0 <= i < |slots| ==> slots[i].seqNo == base + i
    ensures AscendsBelow(NewlyAcked(slots, ackSeq, bitmap), base + |slots|)
  {
    hide Confirms;
    if slots != [] {
      NewlyAckedAscends(slots[..|slots| - 1], base, ackSeq, bitmap);
    }
  }

  lemma {:induction false} SlideKeepsEnd(s: Sender)
    requires s.windowBase + |s.slots| < WORD
    ensures Slide(s).windowBase + |Slide(s).slots| == s.windowBase + |s.slots| && Slide(s).nextSeq == s.nextSeq
    decreases |s.slots|
  {
    if |s.slots| > 0 && s.slots[0].acked {
      SlideKeepsEnd(Sender(s.nextSeq, WrapAdd(s.windowBase, 1), s.slots[1..]));
    }
  }

  /**
   * An acknowledgement with any bitmap confirms exactly the packets it names: they stop being
   * unacknowledged and are reported once each in order, and the window then begins at the first
   * packet still unacknowledged, or is empty.
   */
  lemma AckConfirmsNamed(s: Sender, ackSeq: u32, bits: seq<bool>, k: u32)
    requires Contiguous(s) && |bits| == 32 && k < s.windowBase + |s.slots|
    ensures var t, reported := AckStep(s, ackSeq, Bitmap(bits)), NewlyAcked(s.slots, ackSeq, Bitmap(bits));
            && (Unacked(t, k) <==> Unacked(s, k) && !Names(ackSeq, bits, k))
            && (k in reported <==> Unacked(s, k) && Names(ackSeq, bits, k))
            && AscendsBelow(reported, s.windowBase + |s.slots|)
            && t.windowBase + |t.slots| == s.windowBase + |s.slots| && t.nextSeq == s.nextSeq
            && (t.slots != [] ==> Unacked(t, t.windowBase))
  {
    hide Slide, Confirms, Names, Bitmap, NewlyAcked;
    var marked := s.(slots := Mark(s.slots, ackSeq, Bitmap(bits)));
    ConfirmsIff(ackSeq, bits, k);
    SlideKeepsUnacked(marked, k);
    SlideKeepsEnd(marked);
    SlideSlides(marked);
    NewlyAckedIff(s.slots, s.windowBase, ackSeq, Bitmap(bits), k);
    NewlyAckedAscends(s.slots, s.windowBase, ackSeq, Bitmap(bits));
  }
}
