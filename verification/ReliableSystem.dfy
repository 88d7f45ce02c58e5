/**
 * The two ends of the ARQ stream joined by a network that may lose, duplicate
 * and reorder everything it carries, and what holds on every run of it.
 */
module ReliableSystem {
  import opened Machine
  import opened Reliable

  /** `sent` is what the application queued, `handed` what the receiver gave up in order. */
  datatype System = System(
    snd: Sender, rcv: Receiver,
    sent: seq<Bytes>, handed: seq<Bytes>,
    packets: set<Packet>, acks: set<(u32, u32)>)

  datatype Step =
    | Queue(payload: Bytes, now: nat)
    | Poll(now: nat)
    | Arrive(p: Packet)
    | EmitAck
    | AckArrive(ack: (u32, u32))

  const Start: System := System(Sender(0, 0, []), Receiver(0, []), [], [], {}, {})

  /** The network only delivers what was put in it, at any time, any number of times, or never. */
  function Apply(s: System, step: Step): System {
    match step
    case Queue(payload, now) =>
      (match SendStep(s.snd, payload, now)
       case (_, None) => s
       case (snd, Some(p)) => s.(snd := snd, sent := s.sent + [payload], packets := s.packets + {p}))
    case Poll(now) =>
      s.(snd := PollStep(s.snd, now),
         packets := s.packets + set p | p in Retransmitted(s.snd.slots, now))
    case Arrive(p) =>
      if p in s.packets then
        var (rcv, up) := DeliverStep(s.rcv, p);
        s.(rcv := rcv, handed := s.handed + up)
      else s
    case EmitAck => s.(acks := s.acks + {AckInfo(s.rcv)})
    case AckArrive(ack) =>
      if ack in s.acks then s.(snd := AckStep(s.snd, ack.0, ack.1)) else s
  }

  function Run(steps: seq<Step>): System {
    if steps == [] then Start
    else Apply(Run(steps[..|steps| - 1]), steps[|steps| - 1])
  }

  ghost predicate Genuine(p: Packet, sent: seq<Bytes>) {
    p.seqNo < |sent| && p.data == sent[p.seqNo]
  }

  /** Slots are the contiguous sequence numbers from `base`; an acked one was handed up. */
  ghost predicate SlotsOk(slots: seq<Slot>, base: int, sent: seq<Bytes>, handed: int) {
    forall i :: 0 <= i < |slots| ==>
                  && base + i < |sent|
                  && slots[i].seqNo == base + i
                  && slots[i].data == sent[base + i]
                  && (slots[i].acked ==> base + i < handed)
  }

  ghost predicate Inv(s: System) {
    && |s.sent| < WORD
    && s.handed <= s.sent
    && s.rcv.nextExpected == |s.handed|
    && s.snd.nextSeq == |s.sent|
    && s.snd.windowBase + |s.snd.slots| == |s.sent|
    && |s.snd.slots| <= WINDOW_SIZE
    && s.snd.windowBase <= |s.handed|
    && SlotsOk(s.snd.slots, s.snd.windowBase, s.sent, |s.handed|)
    && (forall p :: p in s.packets ==> Genuine(p, s.sent))
    && (forall i :: 0 <= i < |s.rcv.ooo| ==> Genuine(s.rcv.ooo[i], s.sent))
    && (forall a :: a in s.acks ==> a.1 == 0 && (a.0 < |s.handed| || a.0 == WORD - 1))
  }

  lemma {:induction false} DrainKeeps(r: Receiver, sent: seq<Bytes>, handed: seq<Bytes>)
    requires |sent| < WORD && handed <= sent && r.nextExpected == |handed|
    requires forall i :: 0 <= i < |r.ooo| ==> Genuine(r.ooo[i], sent)
    ensures var (r', up) := Drain(r);
            && handed + up <= sent
            && r'.nextExpected == |handed + up|
            && forall i :: 0 <= i < |r'.ooo| ==> Genuine(r'.ooo[i], sent)
    decreases |r.ooo|
  {
    if |r.ooo| > 0 && r.ooo[0].seqNo == r.nextExpected {
      var front := r.ooo[0];
      assert Genuine(front, sent);
      var rest := Receiver(WrapAdd(r.nextExpected, 1), r.ooo[1..]);
      DrainKeeps(rest, sent, handed + [front.data]);
      assert handed + [front.data] + Drain(rest).1 == handed + Drain(r).1;
    } else {
      assert handed + [] == handed;
    }
  }

  lemma DeliverKeeps(r: Receiver, p: Packet, sent: seq<Bytes>, handed: seq<Bytes>)
    requires |sent| < WORD && handed <= sent && r.nextExpected == |handed|
    requires forall i :: 0 <= i < |r.ooo| ==> Genuine(r.ooo[i], sent)
    requires Genuine(p, sent)
    ensures var (r', up) := DeliverStep(r, p);
            && handed + up <= sent
            && r'.nextExpected == |handed + up|
            && forall i :: 0 <= i < |r'.ooo| ==> Genuine(r'.ooo[i], sent)
  {
    if WrapSub(p.seqNo, r.nextExpected) == 0 {
      var next := Receiver(WrapAdd(r.nextExpected, 1), r.ooo);
      DrainKeeps(next, sent, handed + [p.data]);
      assert handed + [p.data] + Drain(next).1 == handed + DeliverStep(r, p).1;
    } else {
      assert handed + [] == handed;
    }
  }

  lemma {:induction false} SlideKeeps(s: Sender, sent: seq<Bytes>, handed: nat)
    requires |sent| < WORD && handed <= |sent|
    requires s.nextSeq == |sent| && s.windowBase + |s.slots| == |sent| && s.windowBase <= handed
    requires SlotsOk(s.slots, s.windowBase, sent, handed)
    ensures var t := Slide(s);
            && t.nextSeq == |sent| && t.windowBase + |t.slots| == |sent| && t.windowBase <= handed
            && |t.slots| <= |s.slots|
            && SlotsOk(t.slots, t.windowBase, sent, handed)
    decreases |s.slots|
  {
    if |s.slots| > 0 && s.slots[0].acked {
      SlideKeeps(Sender(s.nextSeq, WrapAdd(s.windowBase, 1), s.slots[1..]), sent, handed);
    }
  }

  lemma {:induction false} RetransmittedAreSlots(slots: seq<Slot>, now: nat)
    ensures forall p :: p in Retransmitted(slots, now)
                        ==> exists i :: 0 <= i < |slots| && p == Packet(slots[i].seqNo, slots[i].data)
  {
    if slots != [] {
      RetransmittedAreSlots(slots[..|slots| - 1], now);
      var last := slots[|slots| - 1];
      forall p | p in Retransmitted(slots, now)
        ensures exists i :: 0 <= i < |slots| && p == Packet(slots[i].seqNo, slots[i].data)
      {
        if p in Retransmitted(slots[..|slots| - 1], now) {
          var i :| 0 <= i < |slots| - 1
                   && p == Packet(slots[..|slots| - 1][i].seqNo, slots[..|slots| - 1][i].data);
          assert p == Packet(slots[i].seqNo, slots[i].data);
        } else {
          assert p == Packet(last.seqNo, last.data);
        }
      }
    }
  }

  lemma AckKeeps(s: System, ack: (u32, u32))
    requires Inv(s) && ack in s.acks
    ensures Inv(s.(snd := AckStep(s.snd, ack.0, ack.1)))
  {
    var marked := s.snd.(slots := Mark(s.snd.slots, ack.0, ack.1));
    NoBitSet();
    forall i | 0 <= i < |marked.slots|
      ensures marked.slots[i].acked ==> s.snd.windowBase + i < |s.handed|
    {
      assert s.snd.slots[i].seqNo == s.snd.windowBase + i;
      assert Confirms(s.snd.slots[i].seqNo, ack.0, 0) ==> s.snd.slots[i].seqNo == ack.0;
    }
    SlideKeeps(marked, s.sent, |s.handed|);
  }

  lemma PollKeeps(s: System, now: nat)
    requires Inv(s)
    ensures Inv(Apply(s, Poll(now)))
  {
    RetransmittedAreSlots(s.snd.slots, now);
    forall p | p in Retransmitted(s.snd.slots, now)
      ensures Genuine(p, s.sent)
    {
      var i :| 0 <= i < |s.snd.slots| && p == Packet(s.snd.slots[i].seqNo, s.snd.slots[i].data);
    }
  }

  lemma ApplyKeeps(s: System, step: Step)
    requires Inv(s) && |Apply(s, step).sent| < WORD
    ensures Inv(Apply(s, step))
  {
    match step
    case Queue(payload, now) =>
    case Poll(now) => PollKeeps(s, now);
    case Arrive(p) =>
      if p in s.packets {
        DeliverKeeps(s.rcv, p, s.sent, s.handed);
      }
    case EmitAck =>
    case AckArrive(ack) =>
      if ack in s.acks {
        AckKeeps(s, ack);
      }
  }

  lemma NoBitSet()
    ensures forall k: nat :: !BitSet(0, k)
  {
    forall k: nat
      ensures !BitSet(0, k)
    {
      Pow2Positive(k);
      assert 0 / Pow2(k) == 0;
    }
  }

  lemma SentOnlyGrows(s: System, step: Step)
    ensures |s.sent| <= |Apply(s, step).sent|
  {
  }

  lemma {:induction false} RunKeeps(steps: seq<Step>)
    requires |Run(steps).sent| < WORD
    ensures Inv(Run(steps))
  {
    if steps != [] {
      var before := steps[..|steps| - 1];
      SentOnlyGrows(Run(before), steps[|steps| - 1]);
      RunKeeps(before);
      ApplyKeeps(Run(before), steps[|steps| - 1]);
    }
  }

  // ---- safety on every run ----

  /** What was handed up is a prefix of what was queued: no gap, no repeat, no wrong payload. */
  lemma PrefixSafety(steps: seq<Step>)
    requires |Run(steps).sent| < WORD
    ensures Run(steps).handed <= Run(steps).sent
  {
    RunKeeps(steps);
  }

  /** The window brackets the receiver's position, and an acked slot was handed up. */
  lemma WindowSafety(steps: seq<Step>, i: nat)
    requires |Run(steps).sent| < WORD
    ensures var s := Run(steps);
            && s.snd.windowBase <= s.rcv.nextExpected <= s.snd.nextSeq
            && s.snd.nextSeq - s.snd.windowBase == |s.snd.slots| <= WINDOW_SIZE
            && (i < |s.snd.slots| ==>
                  && s.snd.slots[i].seqNo == s.snd.windowBase + i < |s.sent|
                  && s.snd.slots[i].data == s.sent[s.snd.windowBase + i]
                  && (s.snd.slots[i].acked ==> s.snd.slots[i].seqNo < |s.handed|))
  {
    hide Run;
    RunKeeps(steps);
  }

  // ---- the bound on the number of packets is exact ----

  ghost predicate Lockstep(s: System, n: nat) {
    && |s.sent| == n && |s.handed| == n
    && s.snd == Sender(n % WORD, n % WORD, [])
    && s.rcv == Receiver(n % WORD, [])
    && (n > 0 ==> Packet(0, []) in s.packets)
  }

  /** Acknowledging the only packet in flight empties the window. */
  lemma OneSlotAcked(k: u32, nextSeq: u32)
    ensures AckStep(Sender(nextSeq, k, [Slot(k, [], 0, 0, false)]), k, 0) == Sender(nextSeq, WrapAdd(k, 1), [])
  {
    var slots := [Slot(k, [], 0, 0, false)];
    var acked := [Slot(k, [], 0, 0, true)];
    assert Mark(slots, k, 0) == acked;
    assert acked[1..] == [];
    assert Slide(Sender(nextSeq, k, acked)) == Slide(Sender(nextSeq, WrapAdd(k, 1), []));
  }

  lemma OneRound(s: System, n: nat)
    requires Lockstep(s, n)
    ensures var k: u32 := n % WORD;
            var s1 := Apply(s, Queue([], 0));
            var s2 := Apply(s1, Arrive(Packet(k, [])));
            Lockstep(Apply(Apply(s2, EmitAck), AckArrive((k, 0))), n + 1)
  {
    hide AckStep;
    var k: u32 := n % WORD;
    var s1 := Apply(s, Queue([], 0));
    assert s1.snd.slots == [Slot(k, [], 0, 0, false)];
    OneSlotAcked(k, s1.snd.nextSeq);
    var s3 := Apply(Apply(s1, Arrive(Packet(k, []))), EmitAck);
    assert AckInfo(s3.rcv) == (k, 0);
  }

  /** Queue, deliver and acknowledge `n` empty packets one at a time. */
  lemma {:induction false} LockstepReachable(n: nat) returns (steps: seq<Step>)
    ensures Lockstep(Run(steps), n)
  {
    hide Apply;
    steps := [];
    if n > 0 {
      steps := LockstepReachable(n - 1);
      var k: u32 := (n - 1) % WORD;
      OneRound(Run(steps), n - 1);
      steps := Extend(steps, Queue([], 0));
      steps := Extend(steps, Arrive(Packet(k, [])));
      steps := Extend(steps, EmitAck);
      steps := Extend(steps, AckArrive((k, 0)));
    }
  }

  lemma Extend(steps: seq<Step>, step: Step) returns (longer: seq<Step>)
    ensures longer == steps + [step] && Run(longer) == Apply(Run(steps), step)
  {
    longer := steps + [step];
    assert longer[..|steps|] == steps;
  }

  /** After 2^32 packets the numbers wrap and a late duplicate of packet 0 is handed up again. */
  lemma RepeatAtWrap() returns (steps: seq<Step>)
    ensures |Run(steps).sent| == WORD && !(Run(steps).handed <= Run(steps).sent)
  {
    var before := LockstepReachable(WORD);
    steps := Extend(before, Arrive(Packet(0, [])));
  }

  ghost predicate SafeUpTo(limit: nat) {
    forall steps :: |Run(steps).sent| <= limit ==> Run(steps).handed <= Run(steps).sent
  }

  /** Runs of at most `limit` packets are all safe exactly when `limit` is below 2^32. */
  lemma SafetyLimit(limit: nat)
    ensures SafeUpTo(limit) <==> limit < WORD
  {
    if limit < WORD {
      forall steps | |Run(steps).sent| <= limit
        ensures Run(steps).handed <= Run(steps).sent
      {
        PrefixSafety(steps);
      }
    } else {
      var steps := RepeatAtWrap();
    }
  }

  // ---- how much one delivery drains ----

  /** Buffered packets still ahead of the receiver lie in strictly descending order. */
  ghost predicate Descending(r: Receiver) {
    forall i, j :: 0 <= i < j < |r.ooo| && r.ooo[i].seqNo > r.nextExpected && r.ooo[j].seqNo > r.nextExpected
                   ==> r.ooo[i].seqNo > r.ooo[j].seqNo
  }

  lemma DrainIsShort(r: Receiver, k: u32)
    requires r.nextExpected == k && forall i :: 0 <= i < |r.ooo| ==> r.ooo[i].seqNo < WORD - 1
    requires forall i, j :: 0 <= i < j < |r.ooo| && r.ooo[i].seqNo >= k && r.ooo[j].seqNo >= k
                            ==> r.ooo[i].seqNo > r.ooo[j].seqNo
    ensures var (r', up) := Drain(r);
            if |r.ooo| > 0 && r.ooo[0].seqNo == k
            then r' == Receiver(k + 1, r.ooo[1..]) && up == [r.ooo[0].data]
            else r' == r && up == []
  {
    if |r.ooo| > 0 && r.ooo[0].seqNo == k {
      var next := Receiver(k + 1, r.ooo[1..]);
      assert |next.ooo| > 0 ==> next.ooo[0] == r.ooo[1];
      assert Drain(next) == (next, []);
    }
  }

  lemma InsertKeepsDescending(before: seq<Packet>, p: Packet, after: seq<Packet>, next: u32)
    requires Descending(Receiver(next, before + after))
    requires forall i :: 0 <= i < |before| && before[i].seqNo > next ==> before[i].seqNo > p.seqNo
    requires |after| > 0 ==> next < after[0].seqNo < p.seqNo
    ensures Descending(Receiver(next, before + [p] + after))
  {
    var joined := before + after;
    assert forall i :: 0 <= i < |before| ==> joined[i] == before[i];
    assert forall i :: 0 <= i < |after| ==> joined[|before| + i] == after[i];
    assert forall i :: 0 < i < |after| && after[i].seqNo > next
                       ==> joined[|before|].seqNo > joined[|before| + i].seqNo;
  }

  /** A packet that is no longer awaited may lie anywhere in the buffer. */
  lemma InsertLowKeepsDescending(before: seq<Packet>, p: Packet, after: seq<Packet>, next: u32)
    requires Descending(Receiver(next, before + after)) && p.seqNo <= next
    ensures Descending(Receiver(next, before + [p] + after))
  {
    var joined, longer := before + after, before + [p] + after;
    assert forall i :: 0 <= i < |longer| && longer[i].seqNo > next ==>
                         i != |before| && longer[i] == joined[if i < |before| then i else i - 1];
  }

  lemma BufferKeepsDescending(r: Receiver, p: Packet, dist: u32)
    requires Descending(r)
    requires forall i :: 0 <= i < |r.ooo| ==> r.ooo[i].seqNo < WORD - 1
    requires r.nextExpected < p.seqNo ==> dist == p.seqNo - r.nextExpected
    ensures Descending(r.(ooo := Buffered(r.ooo, p, dist)))
  {
    hide Descending, InsertPos;
    var pos := InsertPos(r.ooo, p.seqNo, dist);
    if pos == |r.ooo| || r.ooo[pos].seqNo != p.seqNo {
      assert r.ooo[..pos] + r.ooo[pos..] == r.ooo;
      if r.nextExpected < p.seqNo {
        InsertKeepsDescending(r.ooo[..pos], p, r.ooo[pos..], r.nextExpected);
      } else {
        InsertLowKeepsDescending(r.ooo[..pos], p, r.ooo[pos..], r.nextExpected);
      }
    }
  }

  ghost predicate InOrder(s: System) {
    Inv(s) && Descending(s.rcv)
  }

  /** What an in-order packet does to a buffer whose entries ahead of it are descending. */
  lemma InOrderDelivery(r: Receiver, p: Packet)
    requires Descending(r) && p.seqNo == r.nextExpected < WORD - 1
    requires forall i :: 0 <= i < |r.ooo| ==> r.ooo[i].seqNo < WORD - 1
    ensures var (r', up) := DeliverStep(r, p);
            && Descending(r')
            && if r.ooo != [] && r.ooo[0].seqNo == r.nextExpected + 1
               then r' == Receiver(r.nextExpected + 2, r.ooo[1..]) && up == [p.data, r.ooo[0].data]
               else r' == Receiver(r.nextExpected + 1, r.ooo) && up == [p.data]
  {
    hide Drain, Buffered;
    DrainIsShort(Receiver(r.nextExpected + 1, r.ooo), r.nextExpected + 1);
  }

  lemma DeliverKeepsDescending(r: Receiver, p: Packet)
    requires Descending(r) && p.seqNo < WORD - 1
    requires forall i :: 0 <= i < |r.ooo| ==> r.ooo[i].seqNo < WORD - 1
    ensures Descending(DeliverStep(r, p).0)
  {
    hide Descending, Buffered, Drain;
    var dist := WrapSub(p.seqNo, r.nextExpected);
    if dist == 0 {
      InOrderDelivery(r, p);
    } else if dist <= WINDOW_SIZE {
      BufferKeepsDescending(r, p, dist);
    }
  }

  lemma {:induction false} RunInOrder(steps: seq<Step>)
    requires |Run(steps).sent| < WORD
    ensures InOrder(Run(steps))
  {
    RunKeeps(steps);
    if steps != [] {
      var before := steps[..|steps| - 1];
      var step := steps[|steps| - 1];
      SentOnlyGrows(Run(before), step);
      RunInOrder(before);
      if step.Arrive? && step.p in Run(before).packets {
        var s := Run(before);
        assert Genuine(step.p, s.sent);
        assert forall i :: 0 <= i < |s.rcv.ooo| ==> Genuine(s.rcv.ooo[i], s.sent);
        DeliverKeepsDescending(s.rcv, step.p);
      }
    }
  }

  ghost predicate Waiting(ooo: seq<Packet>, seqNo: int) {
    exists i :: 0 <= i < |ooo| && ooo[i].seqNo == seqNo
  }

  /**
   * The buffer is kept in descending order but drained from the front, so one delivery
   * never hands up more than two packets, and after an in-order packet the next one stays
   * stuck in the buffer exactly when it is buffered anywhere but at the front.
   */
  lemma DrainLimit(steps: seq<Step>, p: Packet)
    requires |Run(steps).sent| < WORD && p in Run(steps).packets
    ensures var r := Run(steps).rcv;
            var (r', up) := DeliverStep(r, p);
            && |up| <= 2
            && (p.seqNo == r.nextExpected ==>
                  (Waiting(r'.ooo, r'.nextExpected)
                   <==> Waiting(r.ooo, r.nextExpected + 1) && r.ooo[0].seqNo != r.nextExpected + 1))
  {
    RunInOrder(steps);
    var s := Run(steps);
    assert s.rcv.nextExpected == |s.handed| <= |s.sent| && Genuine(p, s.sent);
    assert forall i :: 0 <= i < |s.rcv.ooo| ==> Genuine(s.rcv.ooo[i], s.sent);
    DrainLimitAt(s.rcv, p);
  }

  lemma DrainLimitAt(r: Receiver, p: Packet)
    requires Descending(r) && p.seqNo < WORD - 1
    requires forall i :: 0 <= i < |r.ooo| ==> r.ooo[i].seqNo < WORD - 1
    ensures var (r', up) := DeliverStep(r, p);
            && |up| <= 2
            && (p.seqNo == r.nextExpected ==>
                  (Waiting(r'.ooo, r'.nextExpected)
                   <==> Waiting(r.ooo, r.nextExpected + 1) && r.ooo[0].seqNo != r.nextExpected + 1))
  {
    if p.seqNo == r.nextExpected {
      InOrderDelivery(r, p);
      StuckIff(r, DeliverStep(r, p).0);
    } else {
      assert DeliverStep(r, p).1 == [];
    }
  }

  lemma StuckIff(r: Receiver, r': Receiver)
    requires Descending(r)
    requires if r.ooo != [] && r.ooo[0].seqNo == r.nextExpected + 1
             then r.nextExpected < WORD - 2 && r' == Receiver(r.nextExpected + 2, r.ooo[1..])
             else r.nextExpected < WORD - 1 && r' == Receiver(r.nextExpected + 1, r.ooo)
    ensures Waiting(r'.ooo, r'.nextExpected)
            <==> Waiting(r.ooo, r.nextExpected + 1) && r.ooo[0].seqNo != r.nextExpected + 1
  {
  }

  /** Packets 2 and 1 wait in the buffer; delivering 0 hands up only 0. */
  lemma FilledGapStaysStuck()
    ensures var steps := [Queue([0], 0), Queue([1], 0), Queue([2], 0),
                          Arrive(Packet(2, [2])), Arrive(Packet(1, [1])), Arrive(Packet(0, [0]))];
            && Run(steps).handed == [[0]]
            && Run(steps).rcv == Receiver(1, [Packet(2, [2]), Packet(1, [1])])
  {
    var q := Extend([], Queue([0], 0));
    q := Extend(q, Queue([1], 0));
    q := Extend(q, Queue([2], 0));
    q := Extend(q, Arrive(Packet(2, [2])));
    assert Run(q).rcv.ooo == [Packet(2, [2])];
    assert InsertPos(Run(q).rcv.ooo, 1, 1) == 1;
    q := Extend(q, Arrive(Packet(1, [1])));
    assert Run(q).rcv.ooo == [Packet(2, [2]), Packet(1, [1])];
    q := Extend(q, Arrive(Packet(0, [0])));
    assert Run(q).handed == [[0]];
    assert q == [Queue([0], 0), Queue([1], 0), Queue([2], 0),
                 Arrive(Packet(2, [2])), Arrive(Packet(1, [1])), Arrive(Packet(0, [0]))];
  }
}
