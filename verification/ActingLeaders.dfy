/**
 * Which step first makes two nodes act as leaders of one term: only a sync reply that reaches a node
 * while it still leads an earlier term.
 */
module ActingLeaders {
  import opened Machine
  import opened Election
  import opened ElectionCluster

  predicate Leads(c: Cluster, v: NodeId, t: Term) {
    v in c.nodes && c.nodes[v].status.Leader? && c.nodes[v].term == t
  }

  ghost predicate OneLeads(c: Cluster) {
    forall a, b, t :: Leads(c, a, t) && Leads(c, b, t) ==> a == b
  }

  ghost predicate SomeElected(c: Cluster, t: Term) {
    exists v :: Elected(v, t) in c.msgs
  }

  /** In every term that is led, or named by a sync reply, somebody was elected. */
  ghost predicate LedByElection(c: Cluster) {
    && (forall v :: v in c.nodes && c.nodes[v].status.Leader? ==> SomeElected(c, c.nodes[v].term))
    && (forall l, t :: SyncReply(l, t) in c.msgs ==> SomeElected(c, t))
  }

  /** A node elected in the term it is in still leads it. */
  ghost predicate ElectedStays(c: Cluster) {
    forall v, t :: Elected(v, t) in c.msgs && v in c.nodes && c.nodes[v].term == t ==> c.nodes[v].status.Leader?
  }

  /** At most one node has been elected in each term. */
  ghost predicate OneElected(c: Cluster) {
    forall a, b, t :: Elected(a, t) in c.msgs && Elected(b, t) in c.msgs ==> a == b
  }

  lemma MoreElected(c: Cluster, d: Cluster, t: Term)
    requires c.msgs <= d.msgs && SomeElected(c, t)
    ensures SomeElected(d, t)
  {
    var v :| Elected(v, t) in c.msgs;
    assert Elected(v, t) in d.msgs;
  }

  /** What any message makes of a node's leadership, and what it can announce. */
  ghost predicate LeadershipKept(n: Node, m: Node, msg: Msg, out: set<Msg>) {
    && m.term >= n.term
    && (m.status.Leader? && m.term > n.term ==> msg.SyncReply? && msg.term == m.term && n.status.Leader?)
    && (m.status.Leader? && !n.status.Leader? ==>
          n.status.Candidate? && m.term == n.term && Elected(n.id, n.term) in out)
    && (n.status.Leader? && !m.status.Leader? && m.term == n.term ==> Announces(msg, n.term) && msg.leader != n.id)
    && (forall o :: o in out && o.Elected? ==> o == Elected(n.id, n.term) && m.status.Leader? && m.term == n.term)
    && (forall o :: o in out && o.SyncReply? ==> n.status.Leader? && m.status.Leader? && o.term == n.term)
  }

  lemma HandleKeepsLeadership(n: Node, msg: Msg, hash: CandidateHash)
    ensures LeadershipKept(n, Handle(n, msg, hash).0, msg, Handle(n, msg, hash).1)
  {
  }

  lemma StepLedByElection(c: Cluster, step: Step, hash: CandidateHash, k: nat)
    requires Inv(c, k) && k + 1 < TERMS && LedByElection(c)
    ensures LedByElection(Apply(c, step, hash))
  {
    hide Handle, Inv, Forgets;
    var d := Apply(c, step, hash);
    assert c.msgs <= d.msgs;
    if step.Deliver? && step.node in c.nodes && step.msg in c.msgs {
      var n, m := c.nodes[step.node], d.nodes[step.node];
      HandleKeepsLeadership(n, step.msg, hash);
      assert m.status.Leader? ==> SomeElected(d, m.term) by {
        if m.status.Leader? && !n.status.Leader? {
          assert Elected(n.id, n.term) in d.msgs;
        } else if m.status.Leader? && m.term > n.term {
          MoreElected(c, d, m.term);
        } else if m.status.Leader? {
          MoreElected(c, d, n.term);
        }
      }
    }
    forall v | v in d.nodes && d.nodes[v].status.Leader?
      ensures SomeElected(d, d.nodes[v].term)
    {
      if d.nodes[v] == c.nodes[v] {
        MoreElected(c, d, c.nodes[v].term);
      }
    }
    forall l, t | SyncReply(l, t) in d.msgs
      ensures SomeElected(d, t)
    {
      if SyncReply(l, t) in c.msgs {
        MoreElected(c, d, t);
      } else {
        MoreElected(c, d, c.nodes[step.node].term);
      }
    }
  }

  lemma StepElectedStays(c: Cluster, step: Step, hash: CandidateHash, k: nat)
    requires Inv(c, k) && k + 1 < TERMS && ElectedStays(c) && OneElected(Apply(c, step, hash))
    ensures ElectedStays(Apply(c, step, hash))
  {
    var d := Apply(c, step, hash);
    forall v, t | Elected(v, t) in d.msgs && v in d.nodes && d.nodes[v].term == t
      ensures d.nodes[v].status.Leader?
    {
      assert v in c.nodes && NodeOk(c, v);
      if Elected(v, t) in c.msgs {
        assert MsgOk(c, Elected(v, t));
      }
      if step.Deliver? && step.node in c.nodes && step.msg in c.msgs {
        DeliveryElectedStays(c, step.node, step.msg, hash, v, t);
      }
    }
  }

  lemma DeliveryElectedStays(c: Cluster, v: NodeId, msg: Msg, hash: CandidateHash, u: NodeId, t: Term)
    requires v in c.nodes && c.nodes[v].id == v && msg in c.msgs && ElectedStays(c) && MsgOk(c, msg)
    requires u in c.nodes && (Elected(u, t) in c.msgs ==> t <= c.nodes[u].term)
    requires OneElected(Apply(c, Deliver(v, msg), hash))
    requires var d := Apply(c, Deliver(v, msg), hash); Elected(u, t) in d.msgs && d.nodes[u].term == t
    ensures Apply(c, Deliver(v, msg), hash).nodes[u].status.Leader?
  {
    hide Handle, Forgets, Majority, Voters;
    var d := Apply(c, Deliver(v, msg), hash);
    HandleKeepsLeadership(c.nodes[v], msg, hash);
    assert c.msgs <= d.msgs;
  }

  /** What every run without a second vote keeps, with fixed membership. */
  lemma {:induction false} RunKeepsLeadership(c: Cluster, steps: seq<Step>, hash: CandidateHash)
    requires Fresh(c) && |steps| < TERMS && KnowsMembers(c) && NoRevote(c, steps, hash)
    ensures OneElected(Run(c, steps, hash))
    ensures LedByElection(Run(c, steps, hash))
    ensures ElectedStays(Run(c, steps, hash))
  {
    var d := Run(c, steps, hash);
    forall a, b, t | Elected(a, t) in d.msgs && Elected(b, t) in d.msgs
      ensures a == b
    {
      ElectionSafety(c, steps, hash, a, b, t);
    }
    if steps != [] {
      var before, last := steps[..|steps| - 1], steps[|steps| - 1];
      RunKeepsLeadership(c, before, hash);
      RunKeeps(c, before, hash);
      hide OneElected, LedByElection, ElectedStays, Apply, Inv;
      StepLedByElection(Run(c, before, hash), last, hash, |before|);
      StepElectedStays(Run(c, before, hash), last, hash, |before|);
    }
  }

  /** A sync reply reaches a node that leads an earlier term than it names, and another node leads that term. */
  ghost predicate Overtakes(c: Cluster, step: Step) {
    && step.Deliver? && step.node in c.nodes && step.msg in c.msgs
    && step.msg.SyncReply? && c.nodes[step.node].status.Leader? && step.msg.term > c.nodes[step.node].term
    && exists u :: u != step.node && Leads(c, u, step.msg.term)
  }

  /** The node that takes a step and now leads is the only one that does, unless the step overtakes. */
  lemma StepLeadsAlone(c: Cluster, step: Step, hash: CandidateHash, k: nat, u: NodeId)
    requires Inv(c, k) && OneLeads(c) && LedByElection(c) && ElectedStays(c)
    requires step.Deliver? ==> OneElected(Apply(c, step, hash)) || step.msg.Request?
    requires !Overtakes(c, step) && step.node in c.nodes && u != step.node
    requires var d := Apply(c, step, hash); Leads(d, step.node, d.nodes[step.node].term)
    ensures !Leads(Apply(c, step, hash), u, Apply(c, step, hash).nodes[step.node].term)
  {
    var d := Apply(c, step, hash);
    var v := step.node;
    var n, m := c.nodes[v], d.nodes[v];
    assert NodeOk(c, v);
    assert Leads(d, u, m.term) ==> Leads(c, u, m.term);
    assert n.status.Leader? ==> Leads(c, v, n.term);
    if step.Deliver? && step.msg in c.msgs && Leads(c, u, m.term) {
      HandleKeepsLeadership(n, step.msg, hash);
      hide Handle, Inv, Forgets;
      if !n.status.Leader? {
        NewLeaderIsAlone(c, step, hash, u);
      }
    } else if n == m {
      assert Leads(c, v, m.term);
    }
  }

  lemma NewLeaderIsAlone(c: Cluster, step: Step, hash: CandidateHash, u: NodeId)
    requires step.Deliver? && step.node in c.nodes && c.nodes[step.node].id == step.node && step.msg in c.msgs
    requires LedByElection(c) && ElectedStays(c) && u != step.node
    requires !c.nodes[step.node].status.Leader?
    requires OneElected(Apply(c, step, hash)) || step.msg.Request?
    requires var d := Apply(c, step, hash); Leads(d, step.node, d.nodes[step.node].term)
    ensures !Leads(c, u, Apply(c, step, hash).nodes[step.node].term)
  {
    HandleKeepsLeadership(c.nodes[step.node], step.msg, hash);
  }

  /**
   * After a run without a second vote on which each term has had one acting leader, the next step gives a term two of
   * them if and only if it hands a node that leads an earlier term a sync reply of a term another leads.
   */
  lemma TwoLeadIff(c: Cluster, steps: seq<Step>, step: Step, hash: CandidateHash)
    requires Fresh(c) && |steps| + 1 < TERMS && KnowsMembers(c) && NoRevote(c, steps, hash)
    requires OneLeads(Run(c, steps, hash))
    ensures !OneLeads(Apply(Run(c, steps, hash), step, hash)) <==> Overtakes(Run(c, steps, hash), step)
  {
    var d := Run(c, steps, hash);
    var e := Apply(d, step, hash);
    RunKeeps(c, steps, hash);
    RunKeepsLeadership(c, steps, hash);
    if Overtakes(d, step) {
      var u :| u != step.node && Leads(d, u, step.msg.term);
      assert Leads(e, u, step.msg.term) && Leads(e, step.node, step.msg.term);
    } else {
      if step.Deliver? && !step.msg.Request? {
        assert (steps + [step])[..|steps|] == steps;
        RunKeepsLeadership(c, steps + [step], hash);
      }
      forall a, b, t | Leads(e, a, t) && Leads(e, b, t)
        ensures a == b
      {
        hide Apply, Inv, LedByElection, ElectedStays, OneElected, Overtakes;
        OthersKeepLeading(d, step, hash, a, t);
        OthersKeepLeading(d, step, hash, b, t);
        if a != b && a == step.node {
          StepLeadsAlone(d, step, hash, |steps|, b);
        } else if a != b && b == step.node {
          StepLeadsAlone(d, step, hash, |steps|, a);
        }
      }
    }
  }

  lemma OthersKeepLeading(c: Cluster, step: Step, hash: CandidateHash, v: NodeId, t: Term)
    ensures v != step.node ==> (Leads(Apply(c, step, hash), v, t) <==> Leads(c, v, t))
    ensures Leads(Apply(c, step, hash), v, t) ==> v in c.nodes
  {
  }

  // ---- the step occurs ----

  const OvertakeSteps: seq<Step> :=
    [Timeout(0), Deliver(2, Request(0, 1)), Deliver(0, Vote(2, 0, 1, true)),
     Deliver(1, Request(0, 1)), Timeout(1), Deliver(2, Request(1, 2)), Deliver(1, Vote(2, 1, 2, true)),
     AskSync(0), Deliver(1, Sync(0, 1)), Deliver(0, SyncReply(1, 2))]

  // The nodes in the states they pass through.
  const Standing0: Node := Newcomer(0, {1, 2}).(status := Candidate, term := 1, votedFor := Some(0), votes := [0])
  const Leading0: Node := Node(0, {1, 2}, 0, Leader, 1, Some(0), [0, 2], Some(0), true)
  const Raised0: Node := Leading0.(term := 2, registry := Some(1))
  const Voted1: Node := Newcomer(1, {0, 2}).(term := 1, votedFor := Some(0))
  const Standing1: Node := Voted1.(status := Candidate, term := 2, votedFor := Some(1), votes := [1])
  const Leading1: Node := Node(1, {0, 2}, 0, Leader, 2, Some(1), [1, 2], Some(1), true)
  const Voted2: Node := Newcomer(2, {0, 1}).(term := 1, votedFor := Some(0))
  const Again2: Node := Voted2.(term := 2, votedFor := Some(1))

  lemma Elections(hash: CandidateHash)
    requires hash(0, 1) > 0 && hash(1, 2) > 0
    ensures StartElection(Newcomer(0, {1, 2})) == (Standing0, {Request(0, 1)})
    ensures Handle(Newcomer(2, {0, 1}), Request(0, 1), hash) == (Voted2, {Vote(2, 0, 1, true)})
    ensures Handle(Standing0, Vote(2, 0, 1, true), hash) == (Leading0, {Elected(0, 1)})
    ensures Handle(Newcomer(1, {0, 2}), Request(0, 1), hash) == (Voted1, {Vote(1, 0, 1, true)})
    ensures StartElection(Voted1) == (Standing1, {Request(1, 2)})
    ensures Handle(Voted2, Request(1, 2), hash) == (Again2, {Vote(2, 1, 2, true)})
    ensures Handle(Standing1, Vote(2, 1, 2, true), hash) == (Leading1, {Elected(1, 2)})
    ensures Handle(Leading1, Sync(0, 1), hash) == (Leading1, {SyncReply(1, 2)})
    ensures Handle(Leading0, SyncReply(1, 2), hash) == (Raised0, {})
  {
    assert |{1, 2}| == 2 && |{0, 2}| == 2;
    assert Standing0.votes + [2] == [0, 2] && Standing1.votes + [2] == [1, 2];
    assert {Elected(0, 1)} + {} == {Elected(0, 1)} && {Elected(1, 2)} + {} == {Elected(1, 2)};
  }

  /** After `i` steps, no vote was dropped, the nodes are `nodes` and `sent` is out. */
  ghost predicate At(c: Cluster, steps: seq<Step>, i: nat, hash: CandidateHash,
                     nodes: map<NodeId, Node>, sent: set<Msg>) {
    && i <= |steps| && NoRevote(c, steps[..i], hash)
    && var d := Run(c, steps[..i], hash);
       d.forgot == {} && d.nodes == nodes && sent <= d.msgs
  }

  /** What the node `n` that takes a step becomes, and what it sends. */
  ghost function Outcome(n: Node, step: Step, hash: CandidateHash): (Node, set<Msg>) {
    match step
    case Timeout(_) => StartElection(n)
    case AskSync(v) => (n, {Sync(v, n.term)})
    case Deliver(_, msg) => Handle(n, msg, hash)
  }

  lemma Proceed(c: Cluster, steps: seq<Step>, i: nat, hash: CandidateHash,
                nodes: map<NodeId, Node>, sent: set<Msg>, m: Node, out: set<Msg>)
    requires i < |steps| && At(c, steps, i, hash, nodes, sent) && steps[i].node in nodes
    requires steps[i].Deliver? ==> steps[i].msg in sent && !steps[i].msg.Elected? && !steps[i].msg.Change?
    requires Outcome(nodes[steps[i].node], steps[i], hash) == (m, out)
    ensures At(c, steps, i + 1, hash, nodes[steps[i].node := m], sent + out)
  {
    hide Handle, StartElection, HasGranted;
    Extend(c, steps, i, hash);
    assert steps[..i + 1][..i] == steps[..i];
  }

  lemma Fewer(c: Cluster, steps: seq<Step>, i: nat, hash: CandidateHash,
              nodes: map<NodeId, Node>, sent: set<Msg>, some: set<Msg>)
    requires At(c, steps, i, hash, nodes, sent) && some <= sent
    ensures At(c, steps, i, hash, nodes, some)
  {
    hide NoRevote, Run;
  }

  /** Node `v` stands, node `u` grants its request, and it wins. */
  lemma Wins(c: Cluster, steps: seq<Step>, i: nat, hash: CandidateHash, nodes: map<NodeId, Node>,
             v: NodeId, u: NodeId, t: Term, standing: Node, granted: Node, leading: Node)
    requires i + 2 < |steps| && At(c, steps, i, hash, nodes, {}) && v in nodes && u in nodes && u != v
    requires steps[i] == Timeout(v) && steps[i + 1] == Deliver(u, Request(v, t))
             && steps[i + 2] == Deliver(v, Vote(u, v, t, true))
    requires StartElection(nodes[v]) == (standing, {Request(v, t)})
    requires Handle(nodes[u], Request(v, t), hash) == (granted, {Vote(u, v, t, true)})
    requires Handle(standing, Vote(u, v, t, true), hash) == (leading, {Elected(v, t)})
    ensures At(c, steps, i + 3, hash, nodes[u := granted][v := leading], {Request(v, t)})
  {
    hide At, Handle, StartElection;
    var n1 := nodes[v := standing];
    var n2 := n1[u := granted];
    var s1 := {} + {Request(v, t)};
    var s2 := s1 + {Vote(u, v, t, true)};
    Proceed(c, steps, i, hash, nodes, {}, standing, {Request(v, t)});
    Proceed(c, steps, i + 1, hash, n1, s1, granted, {Vote(u, v, t, true)});
    Proceed(c, steps, i + 2, hash, n2, s2, leading, {Elected(v, t)});
    assert n2[v := leading] == nodes[u := granted][v := leading];
    Fewer(c, steps, i + 3, hash, n2[v := leading], s2 + {Elected(v, t)}, {Request(v, t)});
  }

  /** Leader `v` asks leader `u` of a later term for the registry, and takes over its term. */
  lemma Catches(c: Cluster, steps: seq<Step>, i: nat, hash: CandidateHash, nodes: map<NodeId, Node>,
                v: NodeId, u: NodeId, t: Term, raised: Node)
    requires i + 2 < |steps| && At(c, steps, i, hash, nodes, {}) && v in nodes && u in nodes && u != v
    requires steps[i] == AskSync(v) && steps[i + 1] == Deliver(u, Sync(v, nodes[v].term))
             && steps[i + 2] == Deliver(v, SyncReply(u, t))
    requires Handle(nodes[u], Sync(v, nodes[v].term), hash) == (nodes[u], {SyncReply(u, t)})
    requires Handle(nodes[v], SyncReply(u, t), hash) == (raised, {})
    ensures At(c, steps, i + 3, hash, nodes[v := raised], {})
  {
    hide At, Handle, StartElection;
    var ask := Sync(v, nodes[v].term);
    var s1 := {} + {ask};
    var s2 := s1 + {SyncReply(u, t)};
    Proceed(c, steps, i, hash, nodes, {}, nodes[v], {ask});
    assert nodes[v := nodes[v]] == nodes && nodes[u := nodes[u]] == nodes;
    Proceed(c, steps, i + 1, hash, nodes, s1, nodes[u], {SyncReply(u, t)});
    Proceed(c, steps, i + 2, hash, nodes, s2, raised, {});
    Fewer(c, steps, i + 3, hash, nodes[v := raised], s2 + {}, {});
  }

  /** From where node 0 leads term 1: node 1 hears of the term, stands in the next and wins. */
  lemma Overtaken(c: Cluster, steps: seq<Step>, hash: CandidateHash, nodes: map<NodeId, Node>)
    requires |steps| >= 7 && hash(0, 1) > 0 && hash(1, 2) > 0
    requires steps[3] == Deliver(1, Request(0, 1)) && steps[4] == Timeout(1)
             && steps[5] == Deliver(2, Request(1, 2)) && steps[6] == Deliver(1, Vote(2, 1, 2, true))
    requires At(c, steps, 3, hash, nodes, {Request(0, 1)}) && 1 in nodes && 2 in nodes
    requires nodes[1] == Newcomer(1, {0, 2}) && nodes[2] == Voted2
    ensures At(c, steps, 7, hash, nodes[1 := Voted1][2 := Again2][1 := Leading1], {})
  {
    Elections(hash);
    hide At, Handle, StartElection;
    Proceed(c, steps, 3, hash, nodes, {Request(0, 1)}, Voted1, {Vote(1, 0, 1, true)});
    var n4 := nodes[1 := Voted1];
    Fewer(c, steps, 4, hash, n4, {Request(0, 1)} + {Vote(1, 0, 1, true)}, {});
    Wins(c, steps, 4, hash, n4, 1, 2, 2, Standing1, Again2, Leading1);
    Fewer(c, steps, 7, hash, n4[2 := Again2][1 := Leading1], {Request(1, 2)}, {});
  }

  /** From where node 0 leads term 1 and node 1 leads term 2. */
  lemma BothLead(c: Cluster, steps: seq<Step>, hash: CandidateHash, nodes: map<NodeId, Node>)
    requires |steps| == 10 && At(c, steps, 7, hash, nodes, {}) && hash(0, 1) > 0 && hash(1, 2) > 0
    requires steps[7] == AskSync(0) && steps[8] == Deliver(1, Sync(0, 1)) && steps[9] == Deliver(0, SyncReply(1, 2))
    requires 0 in nodes && 1 in nodes && nodes[0] == Leading0 && nodes[1] == Leading1
    ensures NoRevote(c, steps, hash) && Leads(Run(c, steps, hash), 0, 2) && Leads(Run(c, steps, hash), 1, 2)
  {
    Elections(hash);
    hide Run, NoRevote, Handle, StartElection;
    Catches(c, steps, 7, hash, nodes, 0, 1, 2, Raised0);
    assert steps[..10] == steps;
  }

  lemma Overtaking(c: Cluster, steps: seq<Step>, hash: CandidateHash, nodes: map<NodeId, Node>)
    requires |steps| == 10 && hash(0, 1) > 0 && hash(1, 2) > 0 && At(c, steps, 0, hash, nodes, {})
    requires steps[0] == Timeout(0) && steps[1] == Deliver(2, Request(0, 1))
             && steps[2] == Deliver(0, Vote(2, 0, 1, true))
    requires steps[3] == Deliver(1, Request(0, 1)) && steps[4] == Timeout(1)
             && steps[5] == Deliver(2, Request(1, 2)) && steps[6] == Deliver(1, Vote(2, 1, 2, true))
    requires steps[7] == AskSync(0) && steps[8] == Deliver(1, Sync(0, 1)) && steps[9] == Deliver(0, SyncReply(1, 2))
    requires 0 in nodes && 1 in nodes && 2 in nodes
    requires nodes[0] == Newcomer(0, {1, 2}) && nodes[1] == Newcomer(1, {0, 2}) && nodes[2] == Newcomer(2, {0, 1})
    ensures NoRevote(c, steps, hash) && Leads(Run(c, steps, hash), 0, 2) && Leads(Run(c, steps, hash), 1, 2)
  {
    Elections(hash);
    hide At, Handle, StartElection, Run, NoRevote;
    Wins(c, steps, 0, hash, nodes, 0, 2, 1, Standing0, Voted2, Leading0);
    var n3 := nodes[2 := Voted2][0 := Leading0];
    Overtaken(c, steps, hash, n3);
    BothLead(c, steps, hash, n3[1 := Voted1][2 := Again2][1 := Leading1]);
  }

  /**
   * Node 0 leads term 1, node 1 is elected in term 2, and node 0 asks for the registry: the answer
   * raises its term and leaves it a leader, so both lead term 2. No vote is dropped on the way.
   */
  lemma TwoActingLeaders(c: Cluster, steps: seq<Step>, hash: CandidateHash)
    requires c == Trio && steps == OvertakeSteps && hash(0, 1) > 0 && hash(1, 2) > 0
    ensures Fresh(c) && KnowsMembers(c) && NoRevote(c, steps, hash)
    ensures Leads(Run(c, steps, hash), 0, 2) && Leads(Run(c, steps, hash), 1, 2)
  {
    TrioIsFresh();
    assert At(c, steps, 0, hash, c.nodes, {});
    hide At, Run, NoRevote;
    Overtaking(c, steps, hash, c.nodes);
  }
}
