/** When the sender's window stops for good: an acknowledgement names one packet, and none is repeated later. */
module ReliableProgress {
  import opened Machine
  import opened Reliable
  import opened ReliableSystem

  /** Packet `k` is in the sender's window, unacknowledged. */
  predicate Unacked(s: Sender, k: nat) {
    s.windowBase <= k < s.windowBase + |s.slots| && !s.slots[k - s.windowBase].acked
  }

  lemma {:induction false} SlideKeepsUnacked(s: Sender, k: nat)
    requires s.windowBase + |s.slots| < WORD && k < s.windowBase + |s.slots|
    ensures Unacked(Slide(s), k) <==> Unacked(s, k)
    decreases |s.slots|
  {
    if |s.slots| > 0 && s.slots[0].acked {
      SlideKeepsUnacked(Sender(s.nextSeq, WrapAdd(s.windowBase, 1), s.slots[1..]), k);
    }
  }

  lemma AckKeepsUnacked(s: System, ack: (u32, u32), k: nat)
    requires Inv(s) && ack in s.acks && k < |s.sent|
    ensures Unacked(AckStep(s.snd, ack.0, ack.1), k) <==> Unacked(s.snd, k) && ack != (k, 0)
  {
    hide Slide, Confirms;
    ConfirmsOne(k, ack.0);
    SlideKeepsUnacked(s.snd.(slots := Mark(s.snd.slots, ack.0, ack.1)), k);
  }

  /** With the bitmap always empty an acknowledgement confirms one number. */
  lemma ConfirmsOne(seqNo: u32, ackSeq: u32)
    ensures Confirms(seqNo, ackSeq, 0) <==> ackSeq == seqNo
  {
    NoBitSet();
  }

  /** Once the receiver is past `k + 1` it never again emits an acknowledgement that names `k`. */
  lemma StepKeepsUnacked(s: System, step: Step, k: nat)
    requires Inv(s) && |Apply(s, step).sent| < WORD && k + 1 < s.rcv.nextExpected
    ensures var t := Apply(s, step);
            && k + 1 < t.rcv.nextExpected
            && ((k, 0) in t.acks <==> (k, 0) in s.acks)
            && (Unacked(t.snd, k) <==> Unacked(s.snd, k) && !(step == AckArrive((k, 0)) && (k, 0) in s.acks))
  {
    hide DeliverStep, AckStep;
    match step
    case Queue(payload, now) =>
    case Poll(now) =>
    case Arrive(p) =>
      if p in s.packets {
        DeliverKeeps(s.rcv, p, s.sent, s.handed);
      }
    case EmitAck =>
    case AckArrive(ack) =>
      if ack in s.acks {
        AckKeepsUnacked(s, ack, k);
      }
  }

  /**
   * An unacknowledged packet the receiver is past stays unacknowledged on every continuation, unless
   * an acknowledgement naming it had been emitted already and still arrives; while it stays so, at
   * most 32 packets from it on can be queued.
   */
  lemma {:induction false} StallsUnless(steps: seq<Step>, more: seq<Step>, k: nat)
    requires |Run(steps + more).sent| < WORD
    requires Unacked(Run(steps).snd, k) && k + 1 < Run(steps).rcv.nextExpected
    ensures var s, t := Run(steps), Run(steps + more);
            && k + 1 < t.rcv.nextExpected
            && ((k, 0) in t.acks <==> (k, 0) in s.acks)
            && (Unacked(t.snd, k) <==> (k, 0) !in s.acks || AckArrive((k, 0)) !in more)
            && (Unacked(t.snd, k) ==> |t.sent| <= k + WINDOW_SIZE)
  {
    hide Run, Apply, Unacked, Inv;
    RunKeeps(steps + more);
    if more == [] {
      assert steps + more == steps;
    } else {
      var before, last := more[..|more| - 1], more[|more| - 1];
      var longer := Extend(steps + before, last);
      assert longer == steps + more && more == before + [last];
      SentOnlyGrows(Run(steps + before), last);
      StallsUnless(steps, before, k);
      RunKeeps(steps + before);
      assert AckArrive((k, 0)) in more <==> AckArrive((k, 0)) in before || last == AckArrive((k, 0));
      StepKeepsUnacked(Run(steps + before), last, k);
    }
    WindowFull(Run(steps + more), k);
  }

  lemma WindowFull(s: System, k: nat)
    requires Inv(s)
    ensures Unacked(s.snd, k) ==> |s.sent| <= k + WINDOW_SIZE
  {
  }

  /**
   * No loss is needed: packets 0 and 1 both arrive before the first acknowledgement is emitted, and
   * whatever follows, packet 0 is never acknowledged and no more than 32 packets are ever queued.
   */
  lemma SkippedAckStalls(steps: seq<Step>, more: seq<Step>)
    requires steps == [Queue([0], 0), Queue([1], 0), Arrive(Packet(0, [0])), Arrive(Packet(1, [1]))]
    requires |Run(steps + more).sent| < WORD
    ensures Unacked(Run(steps + more).snd, 0)
    ensures |Run(steps + more).sent| <= WINDOW_SIZE
  {
    var q := Extend([], Queue([0], 0));
    q := Extend(q, Queue([1], 0));
    q := Extend(q, Arrive(Packet(0, [0])));
    q := Extend(q, Arrive(Packet(1, [1])));
    assert q == steps;
    StallsUnless(steps, more, 0);
  }

  // ---- the whole window, on every run ----

  /** An emitted acknowledgement naming `k` was delivered. */
  ghost predicate Delivered(steps: seq<Step>, k: u32) {
    exists i :: 0 <= i < |steps| && steps[i] == AckArrive((k, 0)) && (k, 0) in Run(steps[..i]).acks
  }

  lemma DeliveredStep(before: seq<Step>, last: Step, k: u32)
    ensures Delivered(before + [last], k)
            <==> Delivered(before, k) || (last == AckArrive((k, 0)) && (k, 0) in Run(before).acks)
  {
    hide Run;
    var steps := before + [last];
    assert steps[..|before|] == before && steps[|before|] == last;
    assert forall i :: 0 <= i < |before| ==> steps[..i] == before[..i] && steps[i] == before[i];
    if Delivered(before, k) {
      var i :| 0 <= i < |before| && before[i] == AckArrive((k, 0)) && (k, 0) in Run(before[..i]).acks;
      assert steps[i] == AckArrive((k, 0)) && (k, 0) in Run(steps[..i]).acks;
    }
  }

  /** The first packet in the window is unacknowledged: the window has slid as far as it can. */
  predicate Slid(s: Sender) {
    s.slots != [] ==> !s.slots[0].acked
  }

  lemma {:induction false} SlideSlides(s: Sender)
    ensures Slid(Slide(s))
    decreases |s.slots|
  {
    if |s.slots| > 0 && s.slots[0].acked {
      SlideSlides(Sender(s.nextSeq, WrapAdd(s.windowBase, 1), s.slots[1..]));
    }
  }

  /** What one step does to packet `k`, whether it was sent before or is sent now. */
  lemma StepUnacked(s: System, step: Step, k: u32)
    requires Inv(s) && Slid(s.snd) && |Apply(s, step).sent| < WORD && k < |Apply(s, step).sent|
    ensures var t := Apply(s, step);
            && Slid(t.snd)
            && (Unacked(t.snd, k) <==>
                  (k < |s.sent| ==> Unacked(s.snd, k)) && !(step == AckArrive((k, 0)) && (k, 0) in s.acks))
            && (k >= |s.sent| ==> (k, 0) !in s.acks)
  {
    hide DeliverStep, Slide;
    match step
    case Queue(payload, now) =>
    case Poll(now) =>
    case Arrive(p) =>
    case EmitAck =>
    case AckArrive(ack) =>
      if ack in s.acks {
        AckKeepsUnacked(s, ack, k);
        SlideSlides(s.snd.(slots := Mark(s.snd.slots, ack.0, ack.1)));
      }
  }

  /**
   * On every run below 2^32 packets a sent packet is unacknowledged exactly if no emitted
   * acknowledgement that names it has been delivered.
   */
  lemma {:induction false} UnackedIff(steps: seq<Step>, k: u32)
    requires |Run(steps).sent| < WORD
    ensures k < |Run(steps).sent| ==> (Unacked(Run(steps).snd, k) <==> !Delivered(steps, k))
    ensures k >= |Run(steps).sent| && k < WORD - 1 ==> !Delivered(steps, k)
    ensures Slid(Run(steps).snd)
  {
    if steps != [] {
      hide Apply, Unacked, Delivered, Slid, Inv;
      var before, last := steps[..|steps| - 1], steps[|steps| - 1];
      SentOnlyGrows(Run(before), last);
      RunKeeps(before);
      assert steps == before + [last];
      var s := Run(before);
      hide Run;
      UnackedIff(before, k);
      DeliveredStep(before, last, k);
      NotYetAcked(s, k);
      if k < |Run(steps).sent| {
        StepUnacked(s, last, k);
      } else {
        StepSlid(s, last);
      }
    }
  }

  lemma NotYetAcked(s: System, k: u32)
    requires Inv(s)
    ensures |s.sent| <= k < WORD - 1 ==> (k, 0) !in s.acks
  {
  }

  lemma StepSlid(s: System, step: Step)
    requires Inv(s) && Slid(s.snd)
    ensures Slid(Apply(s, step).snd)
  {
    hide DeliverStep, Slide;
    if step.AckArrive? {
      SlideSlides(s.snd.(slots := Mark(s.snd.slots, step.ack.0, step.ack.1)));
    }
  }

  /** So the window begins at the least packet whose own acknowledgement has not been delivered. */
  lemma WindowBaseIsLeastUndelivered(steps: seq<Step>, k: u32)
    requires |Run(steps).sent| < WORD && k < |Run(steps).sent|
    ensures var base := Run(steps).snd.windowBase;
            && (k < base ==> Delivered(steps, k))
            && (k == base ==> !Delivered(steps, k))
  {
    hide Run, Delivered;
    RunKeeps(steps);
    UnackedIff(steps, k);
  }
}
