/**
 * A cluster of election nodes over a network that keeps every message ever sent and may
 * deliver it to anyone, at any time, any number of times, or never.
 */
module ElectionCluster {
  import opened Machine
  import opened Election

  /**
   * `forgot` holds `(v, t)` when `v`, having granted a vote in its current term `t`, was told of
   * a leader of `t` and dropped the vote. `adopted` holds the leaders that took over a higher
   * term from a sync reply.
   */
  datatype Cluster = Cluster(
    nodes: map<NodeId, Node>, msgs: set<Msg>,
    forgot: set<(NodeId, Term)>, adopted: set<NodeId>)

  datatype Step =
    | Timeout(node: NodeId)
    | Deliver(node: NodeId, msg: Msg)
    | AskSync(node: NodeId)

  /** `v` granted `candidate` its vote in term `t`: it answered yes, or stood itself. */
  predicate Granted(msgs: set<Msg>, v: NodeId, candidate: NodeId, t: Term) {
    Vote(v, candidate, t, true) in msgs || (v == candidate && Request(candidate, t) in msgs)
  }

  ghost predicate HasGranted(msgs: set<Msg>, v: NodeId, t: Term) {
    exists candidate :: Granted(msgs, v, candidate, t)
  }

  predicate Announces(msg: Msg, t: Term) {
    (msg.Elected? || msg.Change?) && msg.term == t
  }

  ghost predicate Forgets(c: Cluster, n: Node, msg: Msg) {
    Announces(msg, n.term) && msg.leader != n.id && HasGranted(c.msgs, n.id, n.term)
  }

  ghost function Apply(c: Cluster, step: Step, hash: CandidateHash): Cluster {
    if step.node !in c.nodes then c
    else
      var n := c.nodes[step.node];
      match step
      case Timeout(v) =>
        var (m, out) := StartElection(n);
        c.(nodes := c.nodes[v := m], msgs := c.msgs + out)
      case AskSync(v) => c.(msgs := c.msgs + {Sync(v, n.term)})
      case Deliver(v, msg) =>
        if msg !in c.msgs then c
        else
          var (m, out) := Handle(n, msg, hash);
          Cluster(
            c.nodes[v := m], c.msgs + out,
            c.forgot + (if Forgets(c, n, msg) then {(v, n.term)} else {}),
            c.adopted + (if n.status.Leader? && m.status.Leader? && m.term > n.term then {v} else {}))
  }

  ghost function Run(c: Cluster, steps: seq<Step>, hash: CandidateHash): Cluster {
    if steps == [] then c
    else Apply(Run(c, steps[..|steps| - 1], hash), steps[|steps| - 1], hash)
  }

  /** Fresh nodes and an empty network; each node has its own list of known nodes. */
  ghost predicate Fresh(c: Cluster) {
    && c.msgs == {} && c.forgot == {} && c.adopted == {}
    && forall v :: v in c.nodes ==>
         var n := c.nodes[v];
         n == Node(v, n.known, n.localValue, Follower, 0, None, [], None, false)
  }

  ghost function Voters(c: Cluster, candidate: NodeId, t: Term): set<NodeId> {
    set v | v in c.nodes && Granted(c.msgs, v, candidate, t)
  }

  /** Strictly more than half of the nodes `n` counts: those it knows, and itself. */
  ghost predicate Majority(n: Node, voters: set<NodeId>) {
    2 * |voters| > |n.known| + 1
  }

  ghost predicate Distinct(s: seq<NodeId>) {
    forall i, j :: 0 <= i < j < |s| ==> s[i] != s[j]
  }

  /** Every message was sent by a node, in a term that node has reached. */
  ghost predicate MsgOk(c: Cluster, m: Msg) {
    match m
    case Request(v, t) => v in c.nodes && t <= c.nodes[v].term
    case Vote(v, candidate, t, granted) =>
      v in c.nodes && (granted ==> t <= c.nodes[v].term && Request(candidate, t) in c.msgs)
    case Elected(v, t) =>
      v in c.nodes && t <= c.nodes[v].term && Majority(c.nodes[v], Voters(c, v, t))
    case Change(v, t) => v in c.nodes && Elected(v, t) in c.msgs
    case _ => true
  }

  ghost predicate NodeOk(c: Cluster, v: NodeId)
    requires v in c.nodes
  {
    var n := c.nodes[v];
    && n.id == v
    && (n.status.Candidate? && Request(v, n.term) in c.msgs ==>
          Distinct(n.votes) && forall u :: u in n.votes ==> u in Voters(c, v, n.term))
    && (n.status.Leader? && v !in c.adopted ==> Elected(v, n.term) in c.msgs)
  }

  /** After `k` steps no term exceeds `k`, so a 64-bit term cannot wrap on a run of fewer steps. */
  ghost predicate Bounded(c: Cluster, k: nat) {
    (forall v :: v in c.nodes ==> c.nodes[v].term <= k) && (forall m :: m in c.msgs ==> m.term <= k)
  }

  ghost predicate Inv(c: Cluster, k: nat) {
    && (forall v :: v in c.nodes ==> NodeOk(c, v))
    && (forall m :: m in c.msgs ==> MsgOk(c, m))
    && Bounded(c, k)
  }

  // ---- one step ----

  /** What any step does to the node that takes it and to the messages. */
  ghost predicate Advances(n: Node, m: Node, out: set<Msg>) {
    m.id == n.id && m.known == n.known && m.localValue == n.localValue && m.term >= n.term
  }

  lemma HandleAdvances(n: Node, msg: Msg, hash: CandidateHash)
    ensures Advances(n, Handle(n, msg, hash).0, Handle(n, msg, hash).1)
  {
  }

  lemma SubsetSize<T>(a: set<T>, b: set<T>)
    requires a <= b
    ensures |a| <= |b|
  {
    assert b == a + (b - a);
  }

  lemma {:induction false} DistinctSize(s: seq<NodeId>, voters: set<NodeId>)
    requires Distinct(s) && forall u :: u in s ==> u in voters
    ensures |s| <= |voters|
  {
    if s != [] {
      var last := s[|s| - 1];
      DistinctSize(s[..|s| - 1], voters - {last});
    }
  }

  /** Messages already fine stay fine as terms and the message set grow. */
  lemma OldMsgsStayOk(c: Cluster, d: Cluster)
    requires forall m :: m in c.msgs ==> MsgOk(c, m)
    requires c.msgs <= d.msgs && c.nodes.Keys == d.nodes.Keys
    requires forall v :: v in c.nodes ==> Advances(c.nodes[v], d.nodes[v], {})
    ensures forall m :: m in c.msgs ==> MsgOk(d, m)
  {
    forall m | m in c.msgs
      ensures MsgOk(d, m)
    {
      assert MsgOk(c, m);
      if m.Elected? {
        SubsetSize(Voters(c, m.leader, m.term), Voters(d, m.leader, m.term));
      }
    }
  }

  lemma OtherNodesStayOk(c: Cluster, d: Cluster, v: NodeId, out: set<Msg>)
    requires forall u :: u in c.nodes ==> NodeOk(c, u)
    requires d.msgs == c.msgs + out && c.adopted <= d.adopted
    requires v in c.nodes && v in d.nodes && d.nodes == c.nodes[v := d.nodes[v]]
    requires forall m :: m in out && m.Request? ==> m.candidate == v
    ensures forall u :: u in c.nodes && u != v ==> NodeOk(d, u)
  {
    forall u | u in c.nodes && u != v
      ensures NodeOk(d, u)
    {
      assert NodeOk(c, u);
      assert d.nodes[u] == c.nodes[u];
      assert Voters(c, u, c.nodes[u].term) <= Voters(d, u, c.nodes[u].term);
    }
  }

  /** A step is fine when it leaves its own node fine and sends only fine messages. */
  lemma AssembleStep(c: Cluster, d: Cluster, v: NodeId, out: set<Msg>, k: nat)
    requires Inv(c, k)
    requires v in c.nodes && v in d.nodes && d.nodes == c.nodes[v := d.nodes[v]]
    requires d.msgs == c.msgs + out && c.adopted <= d.adopted
    requires Advances(c.nodes[v], d.nodes[v], out) && d.nodes[v].term <= k + 1
    requires forall m :: m in out ==> MsgOk(d, m) && m.term <= k + 1 && (m.Request? ==> m.candidate == v)
    requires NodeOk(d, v)
    ensures Inv(d, k + 1)
  {
    OldMsgsStayOk(c, d);
    OtherNodesStayOk(c, d, v, out);
  }

  lemma TimeoutKeeps(c: Cluster, v: NodeId, hash: CandidateHash, k: nat)
    requires Inv(c, k) && k + 1 < TERMS && v in c.nodes
    ensures Inv(Apply(c, Timeout(v), hash), k + 1)
  {
    var n := c.nodes[v];
    var d := Apply(c, Timeout(v), hash);
    assert NodeOk(c, v);
    var t := NextTerm(n.term);
    if d.nodes[v] != n {
      assert t == n.term + 1;
      assert Granted(d.msgs, v, v, t);
      assert v in Voters(d, v, t);
    } else {
      assert d.nodes == c.nodes;
    }
    AssembleStep(c, d, v, StartElection(n).1, k);
  }

  lemma RequestKeeps(c: Cluster, v: NodeId, msg: Msg, hash: CandidateHash, k: nat)
    requires Inv(c, k) && v in c.nodes && msg in c.msgs && msg.Request?
    ensures Inv(Apply(c, Deliver(v, msg), hash), k + 1)
  {
    var n := c.nodes[v];
    var d := Apply(c, Deliver(v, msg), hash);
    assert NodeOk(c, v);
    assert MsgOk(c, msg);
    var out := OnRequest(n, msg.candidate, msg.term, hash).1;
    assert Voters(c, v, n.term) <= Voters(d, v, n.term);
    AssembleStep(c, d, v, out, k);
  }

  lemma VoteKeeps(c: Cluster, v: NodeId, msg: Msg, hash: CandidateHash, k: nat)
    requires Inv(c, k) && v in c.nodes && msg in c.msgs && msg.Vote?
    ensures Inv(Apply(c, Deliver(v, msg), hash), k + 1)
  {
    var n := c.nodes[v];
    var d := Apply(c, Deliver(v, msg), hash);
    assert NodeOk(c, v);
    assert MsgOk(c, msg);
    var (m, out) := OnVote(n, msg.voter, msg.candidate, msg.term, msg.granted);
    assert Voters(c, v, n.term) <= Voters(d, v, n.term);
    if m != n {
      var votes := n.votes + [msg.voter];
      assert Request(v, n.term) in c.msgs;
      assert msg.voter in Voters(c, v, n.term);
      DistinctSize(votes, Voters(d, v, n.term));
    } else {
      assert d.nodes == c.nodes;
    }
    AssembleStep(c, d, v, out, k);
  }

  lemma OtherKeeps(c: Cluster, v: NodeId, msg: Msg, hash: CandidateHash, k: nat)
    requires Inv(c, k) && v in c.nodes && msg in c.msgs && !msg.Request? && !msg.Vote?
    ensures Inv(Apply(c, Deliver(v, msg), hash), k + 1)
  {
    var n := c.nodes[v];
    var d := Apply(c, Deliver(v, msg), hash);
    assert NodeOk(c, v);
    assert MsgOk(c, msg);
    var (m, out) := Handle(n, msg, hash);
    assert Voters(c, v, n.term) <= Voters(d, v, n.term);
    assert Request(v, m.term) in c.msgs ==> MsgOk(c, Request(v, m.term));
    AssembleStep(c, d, v, out, k);
  }

  lemma StepKeeps(c: Cluster, step: Step, hash: CandidateHash, k: nat)
    requires Inv(c, k) && k + 1 < TERMS
    ensures Inv(Apply(c, step, hash), k + 1)
  {
    if step.node in c.nodes {
      match step
      case Timeout(v) => TimeoutKeeps(c, v, hash, k);
      case AskSync(v) =>
        assert NodeOk(c, v);
        var d := Apply(c, step, hash);
        assert Voters(c, v, c.nodes[v].term) <= Voters(d, v, c.nodes[v].term);
        AssembleStep(c, d, v, {Sync(v, c.nodes[v].term)}, k);
      case Deliver(v, msg) =>
        if msg in c.msgs {
          if msg.Request? {
            RequestKeeps(c, v, msg, hash, k);
          } else if msg.Vote? {
            VoteKeeps(c, v, msg, hash, k);
          } else {
            OtherKeeps(c, v, msg, hash, k);
          }
        }
    }
  }

  lemma {:induction false} RunKeeps(c: Cluster, steps: seq<Step>, hash: CandidateHash)
    requires Fresh(c) && |steps| < TERMS
    ensures Inv(Run(c, steps, hash), |steps|)
  {
    if steps != [] {
      var before := steps[..|steps| - 1];
      RunKeeps(c, before, hash);
      StepKeeps(Run(c, before, hash), steps[|steps| - 1], hash, |before|);
    }
  }

  // ---- quorums and terms, on every run ----

  /** A step that turns a node into the leader of term `t` finds a majority that voted for it in `t`. */
  lemma LeaderQuorum(c: Cluster, steps: seq<Step>, step: Step, hash: CandidateHash, v: NodeId)
    requires Fresh(c) && |steps| + 1 < TERMS
    requires var before := Run(c, steps, hash);
             var after := Apply(before, step, hash);
             v in before.nodes && v in after.nodes
             && !before.nodes[v].status.Leader? && after.nodes[v].status.Leader?
    ensures var after := Apply(Run(c, steps, hash), step, hash);
            var n := after.nodes[v];
            Elected(v, n.term) in after.msgs && Majority(n, Voters(after, v, n.term))
  {
    RunKeeps(c, steps, hash);
    var before := Run(c, steps, hash);
    assert forall u :: u in before.nodes ==> NodeOk(before, u);
    StepKeeps(before, step, hash, |steps|);
    var after := Apply(before, step, hash);
    TurningLeaderAnnounces(before, step, hash, v);
    assert MsgOk(after, Elected(v, after.nodes[v].term));
  }

  lemma TurningLeaderAnnounces(c: Cluster, step: Step, hash: CandidateHash, v: NodeId)
    requires forall u :: u in c.nodes ==> c.nodes[u].id == u
    requires v in c.nodes && v in Apply(c, step, hash).nodes
    requires !c.nodes[v].status.Leader? && Apply(c, step, hash).nodes[v].status.Leader?
    ensures Elected(v, Apply(c, step, hash).nodes[v].term) in Apply(c, step, hash).msgs
  {
  }

  lemma {:induction false} TermsNeverDecrease(c: Cluster, steps: seq<Step>, hash: CandidateHash, i: nat, v: NodeId)
    requires Fresh(c) && i <= |steps| < TERMS && v in c.nodes
    ensures v in Run(c, steps[..i], hash).nodes && v in Run(c, steps, hash).nodes
    ensures Run(c, steps[..i], hash).nodes[v].term <= Run(c, steps, hash).nodes[v].term
  {
    if i == |steps| {
      assert steps[..i] == steps;
      Membership(c, steps, hash);
    } else {
      var before := steps[..|steps| - 1];
      assert before[..i] == steps[..i];
      TermsNeverDecrease(c, before, hash, i, v);
      RunKeeps(c, before, hash);
      StepTerm(Run(c, before, hash), steps[|steps| - 1], hash, |before|, v);
    }
  }

  lemma StepTerm(c: Cluster, step: Step, hash: CandidateHash, k: nat, v: NodeId)
    requires v in c.nodes && c.nodes[v].term <= k && k + 1 < TERMS
    ensures v in Apply(c, step, hash).nodes && c.nodes[v].term <= Apply(c, step, hash).nodes[v].term
  {
    if step.node == v && step.Deliver? {
      HandleAdvances(c.nodes[v], step.msg, hash);
      hide Handle;
    }
  }

  lemma {:induction false} Membership(c: Cluster, steps: seq<Step>, hash: CandidateHash)
    ensures var d := Run(c, steps, hash);
            d.nodes.Keys == c.nodes.Keys && forall v :: v in c.nodes ==> d.nodes[v].known == c.nodes[v].known
  {
    if steps != [] {
      Membership(c, steps[..|steps| - 1], hash);
      StepMembership(Run(c, steps[..|steps| - 1], hash), steps[|steps| - 1], hash);
    }
  }

  lemma StepMembership(c: Cluster, step: Step, hash: CandidateHash)
    ensures var d := Apply(c, step, hash);
            d.nodes.Keys == c.nodes.Keys && forall v :: v in c.nodes ==> d.nodes[v].known == c.nodes[v].known
  {
  }

  // ---- one leader per term ----

  ghost predicate OneVote(c: Cluster) {
    forall v, a, b, t :: Granted(c.msgs, v, a, t) && Granted(c.msgs, v, b, t) ==> a == b
  }

  /** A node that granted a vote in its term either still holds a vote or is recorded as forgetful. */
  ghost predicate VoteMemory(c: Cluster) {
    && (forall v :: v in c.nodes && c.nodes[v].votedFor.None? && HasGranted(c.msgs, v, c.nodes[v].term)
                    ==> (v, c.nodes[v].term) in c.forgot)
    && (forall f :: f in c.forgot ==> HasGranted(c.msgs, f.0, f.1))
  }

  /** A node that dropped its vote is handed, in that same term, a request it would grant to someone new. */
  ghost predicate Revotes(c: Cluster, step: Step, hash: CandidateHash) {
    && step.Deliver? && step.node in c.nodes && step.msg in c.msgs && step.msg.Request?
    && (step.node, step.msg.term) in c.forgot && c.nodes[step.node].term == step.msg.term
    && WouldVote(c.nodes[step.node], step.msg.candidate, step.msg.term, hash)
    && !Granted(c.msgs, step.node, step.msg.candidate, step.msg.term)
  }

  ghost predicate NoRevote(c: Cluster, steps: seq<Step>, hash: CandidateHash) {
    steps == []
    || (NoRevote(c, steps[..|steps| - 1], hash)
        && !Revotes(Run(c, steps[..|steps| - 1], hash), steps[|steps| - 1], hash))
  }

  lemma GrantsStayInTerm(c: Cluster, k: nat, v: NodeId, t: Term)
    requires Inv(c, k) && v in c.nodes && t > c.nodes[v].term
    ensures !HasGranted(c.msgs, v, t)
  {
    forall candidate
      ensures !Granted(c.msgs, v, candidate, t)
    {
      assert Vote(v, candidate, t, true) in c.msgs ==> MsgOk(c, Vote(v, candidate, t, true));
      assert Request(v, t) in c.msgs ==> MsgOk(c, Request(v, t));
    }
  }

  /** The step adds no grant, or one grant by `v` to `candidate` in its new term `t`. */
  ghost predicate AddsGrant(c: Cluster, d: Cluster, v: NodeId, candidate: NodeId, t: Term) {
    forall u, a, s :: Granted(d.msgs, u, a, s) <==> Granted(c.msgs, u, a, s) || (u == v && a == candidate && s == t)
  }

  ghost predicate SameGrants(c: Cluster, d: Cluster) {
    forall u, a, s :: Granted(d.msgs, u, a, s) <==> Granted(c.msgs, u, a, s)
  }

  lemma HasGrantedMonotone(c: Cluster, d: Cluster)
    requires c.msgs <= d.msgs
    ensures forall v, t :: HasGranted(c.msgs, v, t) ==> HasGranted(d.msgs, v, t)
  {
    forall v, t | HasGranted(c.msgs, v, t)
      ensures HasGranted(d.msgs, v, t)
    {
      var a :| Granted(c.msgs, v, a, t);
      assert Granted(d.msgs, v, a, t);
    }
  }

  lemma NewGrantKeepsVotes(c: Cluster, d: Cluster, v: NodeId, candidate: NodeId, t: Term)
    requires OneVote(c) && VoteMemory(c) && c.msgs <= d.msgs
    requires v in c.nodes && v in d.nodes && d.nodes == c.nodes[v := d.nodes[v]]
    requires d.nodes[v].votedFor == Some(candidate) && d.forgot == c.forgot
    requires AddsGrant(c, d, v, candidate, t) && !HasGranted(c.msgs, v, t)
    ensures OneVote(d) && VoteMemory(d)
  {
    HasGrantedMonotone(c, d);
    forall u | u in d.nodes && u != v && HasGranted(d.msgs, u, d.nodes[u].term)
      ensures HasGranted(c.msgs, u, d.nodes[u].term)
    {
      var a :| Granted(d.msgs, u, a, d.nodes[u].term);
    }
  }

  lemma NoGrantKeepsVotes(c: Cluster, d: Cluster, v: NodeId, k: nat)
    requires Inv(c, k) && OneVote(c) && VoteMemory(c) && c.msgs <= d.msgs && SameGrants(c, d)
    requires v in c.nodes && v in d.nodes && d.nodes == c.nodes[v := d.nodes[v]]
    requires d.nodes[v].term >= c.nodes[v].term
    requires c.forgot <= d.forgot <= c.forgot + {(v, c.nodes[v].term)}
    requires d.forgot != c.forgot ==> HasGranted(c.msgs, v, c.nodes[v].term)
    requires (&& d.nodes[v].votedFor.None? && d.nodes[v].term == c.nodes[v].term
              && c.nodes[v].votedFor.Some? && HasGranted(c.msgs, v, c.nodes[v].term))
             ==> (v, c.nodes[v].term) in d.forgot
    ensures OneVote(d) && VoteMemory(d)
  {
    HasGrantedMonotone(c, d);
    forall u, t | HasGranted(d.msgs, u, t)
      ensures HasGranted(c.msgs, u, t)
    {
      var a :| Granted(d.msgs, u, a, t);
    }
    if d.nodes[v].term > c.nodes[v].term {
      GrantsStayInTerm(c, k, v, d.nodes[v].term);
    }
  }

  lemma HandleGrantsNothing(n: Node, msg: Msg, hash: CandidateHash)
    requires !msg.Request?
    ensures var (m, out) := Handle(n, msg, hash);
            && (forall o :: o in out ==> !o.Request? && !o.Vote?)
            && m.term >= n.term
            && (m.votedFor.None? && m.term == n.term && n.votedFor.Some?
                ==> Announces(msg, n.term) && msg.leader != n.id)
  {
  }

  /** What a node that is not handling a request sends, keeps and forgets. */
  lemma DeliverGrantsNothing(c: Cluster, v: NodeId, msg: Msg, hash: CandidateHash)
    requires v in c.nodes && c.nodes[v].id == v && msg in c.msgs && !msg.Request?
    ensures var d := Apply(c, Deliver(v, msg), hash);
            var n := c.nodes[v];
            && v in d.nodes && d.nodes == c.nodes[v := d.nodes[v]] && c.msgs <= d.msgs && SameGrants(c, d)
            && d.nodes[v].term >= n.term
            && d.forgot == c.forgot + (if Forgets(c, n, msg) then {(v, n.term)} else {})
            && (d.nodes[v].votedFor.None? && d.nodes[v].term == n.term && n.votedFor.Some?
                ==> Announces(msg, n.term) && msg.leader != v)
  {
    hide Handle, HasGranted;
    HandleGrantsNothing(c.nodes[v], msg, hash);
  }

  lemma DeliverKeepsVotes(c: Cluster, v: NodeId, msg: Msg, hash: CandidateHash, k: nat)
    requires Inv(c, k) && OneVote(c) && VoteMemory(c) && v in c.nodes && msg in c.msgs && !msg.Request?
    ensures OneVote(Apply(c, Deliver(v, msg), hash)) && VoteMemory(Apply(c, Deliver(v, msg), hash))
  {
    hide Apply, OneVote, VoteMemory, HasGranted, SameGrants, Announces;
    assert NodeOk(c, v);
    DeliverGrantsNothing(c, v, msg, hash);
    NoGrantKeepsVotes(c, Apply(c, Deliver(v, msg), hash), v, k);
  }

  lemma RequestKeepsVotes(c: Cluster, v: NodeId, msg: Msg, hash: CandidateHash, k: nat)
    requires Inv(c, k) && OneVote(c) && VoteMemory(c) && v in c.nodes && msg in c.msgs && msg.Request?
    requires !Revotes(c, Deliver(v, msg), hash)
    ensures OneVote(Apply(c, Deliver(v, msg), hash)) && VoteMemory(Apply(c, Deliver(v, msg), hash))
  {
    assert NodeOk(c, v);
    var d := Apply(c, Deliver(v, msg), hash);
    var granted := Vote(v, msg.candidate, msg.term, true);
    if granted in OnRequest(c.nodes[v], msg.candidate, msg.term, hash).1 {
      assert d.msgs == c.msgs + {granted};
      if msg.term > c.nodes[v].term {
        GrantsStayInTerm(c, k, v, msg.term);
      }
      if HasGranted(c.msgs, v, msg.term) {
        assert Granted(c.msgs, v, msg.candidate, msg.term);
        assert SameGrants(c, d);
        NoGrantKeepsVotes(c, d, v, k);
      } else {
        NewGrantKeepsVotes(c, d, v, msg.candidate, msg.term);
      }
    } else {
      assert d.msgs == c.msgs + {Vote(v, msg.candidate, msg.term, false)};
      NoGrantKeepsVotes(c, d, v, k);
    }
  }

  lemma TimeoutGrants(c: Cluster, v: NodeId, hash: CandidateHash)
    requires v in c.nodes && c.nodes[v].id == v && c.nodes[v].term + 1 < TERMS
    ensures var d := Apply(c, Timeout(v), hash);
            var t := c.nodes[v].term + 1;
            && v in d.nodes && d.nodes == c.nodes[v := d.nodes[v]] && c.msgs <= d.msgs && d.forgot == c.forgot
            && if d.nodes[v] == c.nodes[v] then SameGrants(c, d)
               else AddsGrant(c, d, v, v, t) && d.nodes[v].votedFor == Some(v)
  {
    var d := Apply(c, Timeout(v), hash);
    if d.nodes[v] != c.nodes[v] {
      assert d.msgs == c.msgs + {Request(v, c.nodes[v].term + 1)};
    }
  }

  lemma TimeoutKeepsVotes(c: Cluster, v: NodeId, hash: CandidateHash, k: nat)
    requires Inv(c, k) && k + 1 < TERMS && OneVote(c) && VoteMemory(c) && v in c.nodes
    ensures OneVote(Apply(c, Timeout(v), hash)) && VoteMemory(Apply(c, Timeout(v), hash))
  {
    hide Apply, OneVote, VoteMemory, HasGranted, SameGrants, AddsGrant;
    assert NodeOk(c, v);
    TimeoutGrants(c, v, hash);
    var d := Apply(c, Timeout(v), hash);
    if d.nodes[v] == c.nodes[v] {
      NoGrantKeepsVotes(c, d, v, k);
    } else {
      GrantsStayInTerm(c, k, v, c.nodes[v].term + 1);
      NewGrantKeepsVotes(c, d, v, v, c.nodes[v].term + 1);
    }
  }

  lemma StepKeepsVotes(c: Cluster, step: Step, hash: CandidateHash, k: nat)
    requires Inv(c, k) && k + 1 < TERMS && OneVote(c) && VoteMemory(c) && !Revotes(c, step, hash)
    ensures OneVote(Apply(c, step, hash)) && VoteMemory(Apply(c, step, hash))
  {
    if step.node in c.nodes {
      match step
      case Timeout(v) => TimeoutKeepsVotes(c, v, hash, k);
      case AskSync(v) => NoGrantKeepsVotes(c, Apply(c, step, hash), v, k);
      case Deliver(v, msg) =>
        if msg in c.msgs {
          if msg.Request? {
            RequestKeepsVotes(c, v, msg, hash, k);
          } else {
            DeliverKeepsVotes(c, v, msg, hash, k);
          }
        }
    }
  }

  lemma {:induction false} NoRevoteKeepsVotes(c: Cluster, steps: seq<Step>, hash: CandidateHash)
    requires Fresh(c) && |steps| < TERMS && NoRevote(c, steps, hash)
    ensures OneVote(Run(c, steps, hash)) && VoteMemory(Run(c, steps, hash))
  {
    if steps != [] {
      var before := steps[..|steps| - 1];
      RunKeeps(c, before, hash);
      NoRevoteKeepsVotes(c, before, hash);
      StepKeepsVotes(Run(c, before, hash), steps[|steps| - 1], hash, |before|);
    }
  }

  lemma MoreMessages(c: Cluster, step: Step, hash: CandidateHash)
    ensures c.msgs <= Apply(c, step, hash).msgs
  {
    hide Handle, StartElection, Forgets;
  }

  /** A step that revotes leaves two grants of one node in one term. */
  lemma RevoteBreaks(c: Cluster, step: Step, hash: CandidateHash, k: nat)
    requires Inv(c, k) && VoteMemory(c) && Revotes(c, step, hash)
    ensures !OneVote(Apply(c, step, hash))
  {
    var v, msg := step.node, step.msg;
    assert NodeOk(c, v);
    var a :| Granted(c.msgs, v, a, msg.term);
    var d := Apply(c, step, hash);
    assert Vote(v, msg.candidate, msg.term, true) in Handle(c.nodes[v], msg, hash).1;
    assert Granted(d.msgs, v, a, msg.term) && Granted(d.msgs, v, msg.candidate, msg.term);
  }

  /**
   * On every run: no node grants two candidates in one term, its own candidacy included, if and only
   * if no node that dropped its vote was handed a request of that term it would grant to someone new.
   */
  lemma {:induction false} OneVoteIff(c: Cluster, steps: seq<Step>, hash: CandidateHash)
    requires Fresh(c) && |steps| < TERMS
    ensures OneVote(Run(c, steps, hash)) <==> NoRevote(c, steps, hash)
  {
    if steps != [] {
      var before, last := steps[..|steps| - 1], steps[|steps| - 1];
      OneVoteIff(c, before, hash);
      MoreMessages(Run(c, before, hash), last, hash);
      if NoRevote(c, before, hash) {
        RunKeeps(c, before, hash);
        NoRevoteKeepsVotes(c, before, hash);
        hide Revotes, Apply, Inv;
        if Revotes(Run(c, before, hash), last, hash) {
          RevoteBreaks(Run(c, before, hash), last, hash, |before|);
        } else {
          StepKeepsVotes(Run(c, before, hash), last, hash, |before|);
        }
      } else {
        hide Apply, Revotes;
        TwoVotesStay(Run(c, before, hash), Run(c, steps, hash));
      }
    }
  }

  lemma TwoVotesStay(c: Cluster, d: Cluster)
    requires c.msgs <= d.msgs && !OneVote(c)
    ensures !OneVote(d)
  {
    var v, a, b, t :| Granted(c.msgs, v, a, t) && Granted(c.msgs, v, b, t) && a != b;
    assert Granted(d.msgs, v, a, t) && Granted(d.msgs, v, b, t);
  }

  /** The plainer condition that a node is never handed a request of a term in which it dropped a vote. */
  ghost predicate NoLateRequest(c: Cluster, steps: seq<Step>, hash: CandidateHash) {
    forall i :: 0 <= i < |steps| && steps[i].Deliver? && steps[i].msg.Request? ==>
      (steps[i].node, steps[i].msg.term) !in Run(c, steps[..i], hash).forgot
  }

  lemma {:induction false} NoLateRequestIsEnough(c: Cluster, steps: seq<Step>, hash: CandidateHash)
    requires NoLateRequest(c, steps, hash)
    ensures NoRevote(c, steps, hash)
  {
    if steps != [] {
      var before := steps[..|steps| - 1];
      assert forall i :: 0 <= i < |before| ==> before[..i] == steps[..i] && before[i] == steps[i];
      NoLateRequestIsEnough(c, before, hash);
    }
  }

  /** Each node counts at least every other member of the cluster. */
  ghost predicate KnowsMembers(c: Cluster) {
    forall v :: v in c.nodes ==> c.nodes.Keys - {v} <= c.nodes[v].known
  }

  lemma MajoritiesMeet(all: set<NodeId>, a: set<NodeId>, b: set<NodeId>) returns (v: NodeId)
    requires a <= all && b <= all && 2 * |a| > |all| && 2 * |b| > |all|
    ensures v in a && v in b
  {
    SubsetSize(a + b, all);
    assert a * b == {} ==> |a + b| == |a| + |b|;
    v :| v in a * b;
  }

  /** On such a run with fixed membership at most one node is ever elected in a term. */
  lemma ElectionSafety(c: Cluster, steps: seq<Step>, hash: CandidateHash, a: NodeId, b: NodeId, t: Term)
    requires Fresh(c) && |steps| < TERMS && KnowsMembers(c) && NoRevote(c, steps, hash)
    requires Elected(a, t) in Run(c, steps, hash).msgs && Elected(b, t) in Run(c, steps, hash).msgs
    ensures a == b
  {
    var d := Run(c, steps, hash);
    RunKeeps(c, steps, hash);
    NoRevoteKeepsVotes(c, steps, hash);
    Membership(c, steps, hash);
    assert MsgOk(d, Elected(a, t)) && MsgOk(d, Elected(b, t));
    forall v | v in d.nodes
      ensures |d.nodes.Keys| <= |d.nodes[v].known| + 1
    {
      SubsetSize(d.nodes.Keys, d.nodes[v].known + {v});
    }
    var v := MajoritiesMeet(d.nodes.Keys, Voters(d, a, t), Voters(d, b, t));
  }

  /** So at most one node at a time acts as leader of a term, unless it took the term from a sync reply. */
  lemma OneActingLeader(c: Cluster, steps: seq<Step>, hash: CandidateHash, a: NodeId, b: NodeId)
    requires Fresh(c) && |steps| < TERMS && KnowsMembers(c) && NoRevote(c, steps, hash)
    requires var d := Run(c, steps, hash);
             && a in d.nodes && b in d.nodes && a !in d.adopted && b !in d.adopted
             && d.nodes[a].status.Leader? && d.nodes[b].status.Leader? && d.nodes[a].term == d.nodes[b].term
    ensures a == b
  {
    var d := Run(c, steps, hash);
    RunKeeps(c, steps, hash);
    assert NodeOk(d, a) && NodeOk(d, b);
    ElectionSafety(c, steps, hash, a, b, d.nodes[a].term);
  }

  /** Handling a request breaks "one vote per term" exactly when it makes a forgetful node vote again. */
  lemma SecondVoteIff(c: Cluster, steps: seq<Step>, hash: CandidateHash, v: NodeId, candidate: NodeId, t: Term)
    requires Fresh(c) && |steps| + 1 < TERMS && OneVote(Run(c, steps, hash))
    requires v in Run(c, steps, hash).nodes && Request(candidate, t) in Run(c, steps, hash).msgs
    ensures var d := Run(c, steps, hash);
            OneVote(Apply(d, Deliver(v, Request(candidate, t)), hash))
            <==> !(&& (v, t) in d.forgot && d.nodes[v].term == t
                   && WouldVote(d.nodes[v], candidate, t, hash)
                   && !Granted(d.msgs, v, candidate, t))
  {
    hide OneVote, Apply;
    var longer := steps + [Deliver(v, Request(candidate, t))];
    assert longer[..|steps|] == steps;
    OneVoteIff(c, steps, hash);
    OneVoteIff(c, longer, hash);
  }

  // ---- the side condition is needed ----

  function Newcomer(v: NodeId, known: set<NodeId>): Node {
    Node(v, known, 0, Follower, 0, None, [], None, false)
  }

  const Trio: Cluster :=
    Cluster(map[0 := Newcomer(0, {1, 2}), 1 := Newcomer(1, {0, 2}), 2 := Newcomer(2, {0, 1})], {}, {}, {})

  const SplitSteps: seq<Step> :=
    [Timeout(0), Timeout(1),
     Deliver(2, Request(0, 1)), Deliver(0, Vote(2, 0, 1, true)),
     Deliver(2, Elected(0, 1)), Deliver(2, Request(1, 1)),
     Deliver(1, Vote(2, 1, 1, true))]

  lemma Extend(c: Cluster, steps: seq<Step>, i: nat, hash: CandidateHash)
    requires i < |steps|
    ensures Run(c, steps[..i + 1], hash) == Apply(Run(c, steps[..i], hash), steps[i], hash)
  {
    assert steps[..i + 1][..i] == steps[..i];
  }

  /** The three nodes after two stand for election and node 2 votes for node 0. */
  ghost predicate AfterFirstVote(c: Cluster) {
    && c.nodes == map[0 := Newcomer(0, {1, 2}).(status := Candidate, term := 1, votedFor := Some(0), votes := [0]),
                      1 := Newcomer(1, {0, 2}).(status := Candidate, term := 1, votedFor := Some(1), votes := [1]),
                      2 := Newcomer(2, {0, 1}).(term := 1, votedFor := Some(0))]
    && c.msgs == {Request(0, 1), Request(1, 1), Vote(2, 0, 1, true)}
  }

  lemma FirstVote(c: Cluster, steps: seq<Step>, hash: CandidateHash)
    requires c == Trio && steps == SplitSteps && hash(0, 1) > 0
    ensures AfterFirstVote(Run(c, steps[..3], hash))
  {
    Extend(c, steps, 0, hash);
    Extend(c, steps, 1, hash);
    Extend(c, steps, 2, hash);
    var c1 := Apply(c, Timeout(0), hash);
    var c2 := Apply(c1, Timeout(1), hash);
    assert AfterFirstVote(Apply(c2, Deliver(2, Request(0, 1)), hash));
  }

  ghost function Reelect(c: Cluster, hash: CandidateHash): Cluster {
    var c1 := Apply(c, Deliver(0, Vote(2, 0, 1, true)), hash);
    var c2 := Apply(c1, Deliver(2, Elected(0, 1)), hash);
    Apply(c2, Deliver(2, Request(1, 1)), hash)
  }

  lemma SecondVote(c: Cluster, hash: CandidateHash)
    requires AfterFirstVote(c) && hash(1, 1) > 0
    ensures var d := Reelect(c, hash);
            && Elected(0, 1) in d.msgs && Vote(2, 1, 1, true) in d.msgs
            && 1 in d.nodes && d.nodes[1] == c.nodes[1]
  {
    assert |{1, 2}| == 2;
    var c1 := Apply(c, Deliver(0, Vote(2, 0, 1, true)), hash);
    assert Elected(0, 1) in c1.msgs;
    var c2 := Apply(c1, Deliver(2, Elected(0, 1)), hash);
    assert c2.nodes[2] == c.nodes[2].(votedFor := None, registry := Some(0));
  }

  lemma LastVote(c: Cluster, hash: CandidateHash)
    requires 1 in c.nodes && Vote(2, 1, 1, true) in c.msgs && Elected(0, 1) in c.msgs
    requires c.nodes[1] == Newcomer(1, {0, 2}).(status := Candidate, term := 1, votedFor := Some(1), votes := [1])
    ensures {Elected(0, 1), Elected(1, 1)} <= Apply(c, Deliver(1, Vote(2, 1, 1, true)), hash).msgs
  {
    assert |{0, 2}| == 2;
  }

  lemma SplitTail(c: Cluster, steps: seq<Step>, hash: CandidateHash)
    requires steps == SplitSteps
    ensures Run(c, steps, hash)
         == Apply(Reelect(Run(c, steps[..3], hash), hash), Deliver(1, Vote(2, 1, 1, true)), hash)
  {
    Extend(c, steps, 3, hash);
    Extend(c, steps, 4, hash);
    Extend(c, steps, 5, hash);
    Extend(c, steps, 6, hash);
    assert steps[..7] == steps;
  }

  lemma BothElected(c: Cluster, hash: CandidateHash)
    requires AfterFirstVote(c) && hash(1, 1) > 0
    ensures {Elected(0, 1), Elected(1, 1)}
            <= Apply(Reelect(c, hash), Deliver(1, Vote(2, 1, 1, true)), hash).msgs
  {
    SecondVote(c, hash);
    LastVote(Reelect(c, hash), hash);
  }

  lemma TrioIsFresh()
    ensures Fresh(Trio) && KnowsMembers(Trio)
  {
  }

  /**
   * Node 2 votes for 0, is told that 0 won, drops its vote, and votes for 1 in the same term:
   * with three nodes and fixed membership both 0 and 1 are elected in term 1.
   */
  lemma TwoLeadersInOneTerm(c: Cluster, steps: seq<Step>, hash: CandidateHash)
    requires c == Trio && steps == SplitSteps && hash(0, 1) > 0 && hash(1, 1) > 0
    ensures Fresh(c) && KnowsMembers(c)
    ensures {Elected(0, 1), Elected(1, 1)} <= Run(c, steps, hash).msgs
  {
    TrioIsFresh();
    FirstVote(c, steps, hash);
    SplitTail(c, steps, hash);
    BothElected(Run(c, steps[..3], hash), hash);
  }
}
