/** What the two ends do with a packet: kept, handed up, sent again, on every run. */
module ReliableDelivery {
  import opened Machine
  import opened Reliable
  import opened ReliableSystem
  import opened ReliableProgress

  // ---- the receiver keeps what it may need ----

  /** The buffered numbers lie below 2^32 - 1, those ahead of the receiver in descending order. */
  ghost predicate Tidy(r: Receiver) {
    Descending(r) && forall i :: 0 <= i < |r.ooo| ==> r.ooo[i].seqNo < WORD - 1
  }

  /** Number `seqNo` is buffered, and every entry before it lies between it and the receiver. */
  predicate WaitingBehind(r: Receiver, seqNo: nat) {
    exists i :: 0 <= i < |r.ooo| && r.ooo[i].seqNo == seqNo
                && forall j :: 0 <= j < i ==> seqNo < r.ooo[j].seqNo <= r.nextExpected
  }

  lemma FoundAhead(r: Receiver, seqNo: u32)
    requires Tidy(r) && r.nextExpected < seqNo
    ensures var pos := InsertPos(r.ooo, seqNo, seqNo - r.nextExpected);
            Waiting(r.ooo, seqNo) <==> pos < |r.ooo| && r.ooo[pos].seqNo == seqNo
  {
    hide InsertPos;
    var pos := InsertPos(r.ooo, seqNo, seqNo - r.nextExpected);
    if i :| 0 <= i < |r.ooo| && r.ooo[i].seqNo == seqNo {
      assert pos <= i;
      var q := r.ooo[pos].seqNo;
      assert q <= seqNo ==> r.nextExpected < q;
    }
  }

  lemma FoundBehind(r: Receiver, seqNo: u32)
    requires seqNo < r.nextExpected
    ensures var pos := InsertPos(r.ooo, seqNo, seqNo - r.nextExpected + WORD);
            WaitingBehind(r, seqNo) <==> pos < |r.ooo| && r.ooo[pos].seqNo == seqNo
  {
    hide InsertPos;
    var pos := InsertPos(r.ooo, seqNo, seqNo - r.nextExpected + WORD);
    forall j | 0 <= j < |r.ooo|
      ensures WrapSub(seqNo, r.ooo[j].seqNo) >= seqNo - r.nextExpected + WORD
              <==> seqNo < r.ooo[j].seqNo <= r.nextExpected
    {
    }
  }

  lemma BufferedHolds(ooo: seq<Packet>, p: Packet, dist: u32)
    ensures var pos := InsertPos(ooo, p.seqNo, dist);
            Buffered(ooo, p, dist) == ooo <==> pos < |ooo| && ooo[pos].seqNo == p.seqNo
    ensures exists i :: 0 <= i < |Buffered(ooo, p, dist)| && Buffered(ooo, p, dist)[i].seqNo == p.seqNo
    ensures forall q :: q in ooo ==> q in Buffered(ooo, p, dist)
    ensures forall q :: q in Buffered(ooo, p, dist) ==> q in ooo || q == p
  {
    hide InsertPos;
    var pos := InsertPos(ooo, p.seqNo, dist);
    var after := Buffered(ooo, p, dist);
    assert ooo == ooo[..pos] + ooo[pos..];
    if !(pos < |ooo| && ooo[pos].seqNo == p.seqNo) {
      assert after[pos] == p && |after| == |ooo| + 1;
    }
  }

  lemma DeliverAhead(r: Receiver, p: Packet)
    requires Tidy(r) && r.nextExpected < p.seqNo <= r.nextExpected + 32
    ensures var (r', up) := DeliverStep(r, p);
            && up == [] && r'.nextExpected == r.nextExpected
            && Waiting(r'.ooo, p.seqNo)
            && (forall q :: q in r.ooo ==> q in r'.ooo)
            && (forall q :: q in r'.ooo ==> q in r.ooo || q == p)
            && (r' == r <==> Waiting(r.ooo, p.seqNo))
  {
    hide Tidy, Buffered, Drain;
    assert WrapSub(p.seqNo, r.nextExpected) == p.seqNo - r.nextExpected;
    FoundAhead(r, p.seqNo);
    BufferedHolds(r.ooo, p, p.seqNo - r.nextExpected);
  }

  lemma DeliverBehind(r: Receiver, p: Packet)
    requires p.seqNo < r.nextExpected
    ensures var (r', up) := DeliverStep(r, p);
            && up == [] && r'.nextExpected == r.nextExpected
            && (forall q :: q in r.ooo ==> q in r'.ooo)
            && (r' == r <==> r.nextExpected - p.seqNo < 0x1_0000_0000 - 32 || WaitingBehind(r, p.seqNo))
  {
    hide Buffered, Drain, WaitingBehind;
    var dist := p.seqNo - r.nextExpected + WORD;
    assert WrapSub(p.seqNo, r.nextExpected) == dist;
    FoundBehind(r, p.seqNo);
    BufferedHolds(r.ooo, p, dist);
  }

  /** What is known of the receiver, and of a packet on its way to it, on every run. */
  lemma OnTheWay(steps: seq<Step>, p: Packet)
    requires |Run(steps).sent| < WORD && p in Run(steps).packets
    ensures var s := Run(steps);
            && Tidy(s.rcv) && s.rcv.nextExpected == |s.handed|
            && Genuine(p, s.sent) && |s.sent| <= |s.handed| + 32
  {
    RunInOrder(steps);
    hide Run;
    var s := Run(steps);
    assert Genuine(p, s.sent);
    assert forall i :: 0 <= i < |s.rcv.ooo| ==> Genuine(s.rcv.ooo[i], s.sent);
  }

  lemma Arrives(s: System, p: Packet)
    requires p in s.packets
    ensures Apply(s, Arrive(p)) == s.(rcv := DeliverStep(s.rcv, p).0, handed := s.handed + DeliverStep(s.rcv, p).1)
  {
  }

  /**
   * A packet ahead of the receiver is never more than 31 ahead. It is buffered and nothing already
   * buffered is lost; the buffer stays as it is exactly if it holds that number already.
   */
  lemma AheadIsBuffered(steps: seq<Step>, p: Packet)
    requires |Run(steps).sent| < WORD && p in Run(steps).packets
    requires |Run(steps).handed| < p.seqNo
    ensures var s, t := Run(steps), Run(steps + [Arrive(p)]);
            && p.seqNo < |s.handed| + 32
            && t == s.(rcv := t.rcv) && t.rcv.nextExpected == s.rcv.nextExpected
            && Waiting(t.rcv.ooo, p.seqNo)
            && (forall q :: q in s.rcv.ooo ==> q in t.rcv.ooo)
            && (forall q :: q in t.rcv.ooo ==> q in s.rcv.ooo || q == p)
            && (t == s <==> Waiting(s.rcv.ooo, p.seqNo))
  {
    hide Run, Apply, DeliverStep, Tidy, Waiting;
    OnTheWay(steps, p);
    var longer := Extend(steps, Arrive(p));
    Arrives(Run(steps), p);
    DeliverAhead(Run(steps).rcv, p);
    assert Run(steps).handed + [] == Run(steps).handed;
  }

  /**
   * The expected packet is handed up at once, and with it the next one if that lies at the front
   * of the buffer; nothing else leaves the buffer.
   */
  lemma ExpectedIsHandedUp(steps: seq<Step>, p: Packet)
    requires |Run(steps).sent| < WORD && p in Run(steps).packets && p.seqNo == |Run(steps).handed|
    ensures var s, t := Run(steps), Run(steps + [Arrive(p)]);
            && t == s.(rcv := t.rcv, handed := t.handed)
            && if s.rcv.ooo != [] && s.rcv.ooo[0].seqNo == p.seqNo + 1
               then t.handed == s.handed + [p.data, s.rcv.ooo[0].data]
                    && t.rcv.nextExpected == p.seqNo + 2 && t.rcv.ooo == s.rcv.ooo[1..]
               else t.handed == s.handed + [p.data]
                    && t.rcv.nextExpected == p.seqNo + 1 && t.rcv.ooo == s.rcv.ooo
  {
    hide Run, Apply, DeliverStep, Descending;
    OnTheWay(steps, p);
    var longer := Extend(steps, Arrive(p));
    Arrives(Run(steps), p);
    InOrderDelivery(Run(steps).rcv, p);
  }

  /**
   * A packet handed up before is never handed up again and nothing buffered is lost. It changes
   * nothing exactly if it lies less than 2^32 - 32 behind, or is still found in the buffer.
   */
  lemma BehindIsDropped(steps: seq<Step>, p: Packet)
    requires |Run(steps).sent| < WORD && p in Run(steps).packets && p.seqNo < |Run(steps).handed|
    ensures var s, t := Run(steps), Run(steps + [Arrive(p)]);
            && t == s.(rcv := t.rcv) && t.rcv.nextExpected == s.rcv.nextExpected
            && (forall q :: q in s.rcv.ooo ==> q in t.rcv.ooo)
            && (t == s <==> |s.handed| - p.seqNo < 0x1_0000_0000 - 32 || WaitingBehind(s.rcv, p.seqNo))
  {
    hide Run, Apply, DeliverStep, Tidy, WaitingBehind;
    OnTheWay(steps, p);
    var longer := Extend(steps, Arrive(p));
    Arrives(Run(steps), p);
    DeliverBehind(Run(steps).rcv, p);
    assert Run(steps).handed + [] == Run(steps).handed;
  }

  // ---- what has arrived is never lost ----

  /** The packet is in the receiver's buffer, or was handed up in its place. */
  predicate Kept(s: System, p: Packet) {
    p in s.rcv.ooo || (p.seqNo < |s.handed| && s.handed[p.seqNo] == p.data)
  }

  /** A number in a buffer of genuine packets is the packet of that number. */
  lemma WaitingPacket(r: Receiver, p: Packet, sent: seq<Bytes>)
    requires Waiting(r.ooo, p.seqNo) && Genuine(p, sent)
    requires forall i :: 0 <= i < |r.ooo| ==> Genuine(r.ooo[i], sent)
    ensures p in r.ooo
  {
    var i :| 0 <= i < |r.ooo| && r.ooo[i].seqNo == p.seqNo;
    assert r.ooo[i] == p;
  }

  lemma HandedUpIntact(s: System, p: Packet)
    requires Inv(s) && Genuine(p, s.sent) && p.seqNo < |s.handed|
    ensures s.handed[p.seqNo] == p.data
  {
  }

  /** After it arrived a packet is buffered, unless it has been handed up, in its place and intact. */
  lemma DiscardsOnlyDelivered(steps: seq<Step>, p: Packet)
    requires |Run(steps).sent| < WORD && p in Run(steps).packets
    ensures Kept(Run(steps + [Arrive(p)]), p)
  {
    var longer := Extend(steps, Arrive(p));
    OnTheWay(steps, p);
    var s, t := Run(steps), Run(longer);
    if p.seqNo > |s.handed| {
      AheadIsBuffered(steps, p);
      hide Run, Waiting;
      RunKeeps(longer);
      WaitingPacket(t.rcv, p, t.sent);
    } else {
      if p.seqNo == |s.handed| {
        ExpectedIsHandedUp(steps, p);
      } else {
        BehindIsDropped(steps, p);
      }
      hide Run, Genuine;
      RunKeeps(longer);
      HandedUpIntact(t, p);
    }
  }

  lemma FrontOrRest(ooo: seq<Packet>, p: Packet)
    requires p in ooo
    ensures p == ooo[0] || p in ooo[1..]
  {
  }

  lemma ArrivalKeeps(steps: seq<Step>, q: Packet, p: Packet)
    requires |Run(steps).sent| < WORD && q in Run(steps).packets && Kept(Run(steps), p)
    ensures Kept(Run(steps + [Arrive(q)]), p)
  {
    hide Run, Waiting;
    var s := Run(steps);
    if q.seqNo > |s.handed| {
      AheadIsBuffered(steps, q);
    } else if q.seqNo == |s.handed| {
      ExpectedIsHandedUp(steps, q);
      if p in s.rcv.ooo {
        FrontOrRest(s.rcv.ooo, p);
      }
    } else {
      BehindIsDropped(steps, q);
    }
  }

  lemma ElsewhereKeeps(s: System, step: Step, p: Packet)
    requires Kept(s, p) && (step.Arrive? ==> step.p !in s.packets)
    ensures Kept(Apply(s, step), p)
  {
    hide DeliverStep, AckStep, PollStep, Retransmitted;
  }

  /** Step `i` delivered the packet. */
  ghost predicate Arrived(steps: seq<Step>, i: nat, p: Packet)
    requires i < |steps|
  {
    steps[i] == Arrive(p) && p in Run(steps[..i]).packets
  }

  /** On every run below 2^32 packets, whatever has arrived stays buffered until it is handed up in its place. */
  lemma {:induction false} ArrivedIsKept(steps: seq<Step>, i: nat, p: Packet)
    requires |Run(steps).sent| < WORD && i < |steps| && Arrived(steps, i, p)
    ensures Kept(Run(steps), p)
  {
    var before, last := steps[..|steps| - 1], steps[|steps| - 1];
    assert steps == before + [last];
    SentOnlyGrows(Run(before), last);
    hide Apply, Kept;
    if i == |steps| - 1 {
      DiscardsOnlyDelivered(before, p);
    } else {
      assert before[..i] == steps[..i];
      ArrivedIsKept(before, i, p);
      if last.Arrive? && last.p in Run(before).packets {
        ArrivalKeeps(before, last.p, p);
      } else {
        ElsewhereKeeps(Run(before), last, p);
      }
    }
  }

  // ---- the sender queues, and the receiver acknowledges ----

  lemma Queues(s: System, payload: Bytes, now: nat)
    requires Inv(s) && |s.sent| < WORD - 1
    ensures var t := Apply(s, Queue(payload, now));
            if |s.snd.slots| < 32
            then t == s.(snd := t.snd, sent := s.sent + [payload], packets := s.packets + {Packet(|s.sent|, payload)})
                 && t.snd.nextSeq == |s.sent| + 1 && t.snd.windowBase == s.snd.windowBase
                 && t.snd.slots == s.snd.slots + [Slot(|s.sent|, payload, now, 0, false)]
            else t == s
  {
    assert WrapSub(s.snd.nextSeq, s.snd.windowBase) == |s.snd.slots|;
  }

  /** A payload is taken exactly while the window holds fewer than 32 packets, and becomes the next packet. */
  lemma QueueTakesIff(steps: seq<Step>, payload: Bytes, now: nat)
    requires |Run(steps).sent| < WORD - 1
    ensures var s, t := Run(steps), Run(steps + [Queue(payload, now)]);
            if |s.snd.slots| < 32
            then t == s.(snd := t.snd, sent := s.sent + [payload], packets := s.packets + {Packet(|s.sent|, payload)})
                 && t.snd.nextSeq == |s.sent| + 1 && t.snd.windowBase == s.snd.windowBase
                 && t.snd.slots == s.snd.slots + [Slot(|s.sent|, payload, now, 0, false)]
            else t == s
  {
    hide Run, Apply, Inv;
    RunKeeps(steps);
    var longer := Extend(steps, Queue(payload, now));
    Queues(Run(steps), payload, now);
  }

  lemma Emits(s: System, last: u32)
    requires s.rcv.nextExpected == |s.handed|
    requires last == if s.handed == [] then 0xFFFF_FFFF else |s.handed| - 1
    ensures Apply(s, EmitAck) == s.(acks := s.acks + {(last, 0)})
  {
  }

  /** The receiver acknowledges the packet it handed up last, and no other. */
  lemma AcknowledgesLast(steps: seq<Step>, last: u32)
    requires |Run(steps).sent| < WORD
    requires last == if Run(steps).handed == [] then 0xFFFF_FFFF else |Run(steps).handed| - 1
    ensures var s, t := Run(steps), Run(steps + [EmitAck]);
            t == s.(acks := s.acks + {(last, 0)})
  {
    hide Apply;
    RunKeeps(steps);
    var longer := Extend(steps, EmitAck);
    hide Run;
    Emits(Run(steps), last);
  }
}
