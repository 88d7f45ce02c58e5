/** Who wins an election: votes are counted, a majority suffices, and the others follow. */
module ElectionProgress {
  import opened Machine
  import opened Election
  import opened ElectionCluster

  // ---- what a step does to the node that takes it ----

  /** A follower or leader that knows someone stands in its next term; anyone else just waits. */
  lemma TimeoutOutcome(c: Cluster, v: NodeId, hash: CandidateHash)
    requires v in c.nodes && c.nodes[v].id == v && c.nodes[v].term + 1 < 0x1_0000_0000_0000_0000
    ensures var n, d := c.nodes[v], Apply(c, Timeout(v), hash);
            if n.status == Candidate || n.known == {} then d == c
            else v in d.nodes && d.nodes == c.nodes[v := d.nodes[v]]
                 && d.nodes[v] == n.(status := Candidate, term := n.term + 1, votedFor := Some(v), votes := [v])
                 && d.msgs == c.msgs + {Request(v, n.term + 1)}
  {
    assert c.nodes[v := c.nodes[v]] == c.nodes;
    assert c.msgs + {} == c.msgs;
  }

  /** A request of an earlier term is refused; one of a later term first resets the node to a follower. */
  lemma RequestOutcome(c: Cluster, v: NodeId, candidate: NodeId, t: Term, hash: CandidateHash)
    requires v in c.nodes && c.nodes[v].id == v && Request(candidate, t) in c.msgs
    ensures var n, d := c.nodes[v], Apply(c, Deliver(v, Request(candidate, t)), hash);
            var grants := && t >= n.term && (t > n.term || n.votedFor == None)
                          && (candidate == v || hash(candidate, t) > n.localValue);
            && v in d.nodes && d.nodes == c.nodes[v := d.nodes[v]]
            && d.msgs == c.msgs + {Vote(v, candidate, t, grants)}
            && d.nodes[v].votedFor == (if grants then Some(candidate) else if t > n.term then None else n.votedFor)
            && d.nodes[v] == (if t <= n.term then n.(votedFor := d.nodes[v].votedFor)
                              else Node(v, n.known, n.localValue, Follower, t, d.nodes[v].votedFor, [],
                                        n.registry, n.serving))
  {
  }

  /** News of a leader no older than the node's own term makes it follow that leader and stop serving. */
  lemma NewsOutcome(c: Cluster, v: NodeId, msg: Msg, hash: CandidateHash)
    requires v in c.nodes && c.nodes[v].id == v && msg in c.msgs && (msg.Elected? || msg.Change?)
    ensures var n, d := c.nodes[v], Apply(c, Deliver(v, msg), hash);
            && d.nodes.Keys == c.nodes.Keys && d.msgs == c.msgs
            && d.nodes == c.nodes[v := if msg.leader == v || msg.term < n.term then n
                                       else Node(v, n.known, n.localValue, Follower, msg.term, None, [],
                                                 Some(msg.leader), false)]
  {
    hide Forgets;
    assert c.msgs + {} == c.msgs;
  }

  /** Only a leader answers a sync request; one of a later term demotes it instead, in favour of whoever asked. */
  lemma SyncOutcome(c: Cluster, v: NodeId, requester: NodeId, t: Term, hash: CandidateHash)
    requires v in c.nodes && c.nodes[v].id == v && Sync(requester, t) in c.msgs
    ensures var n, d := c.nodes[v], Apply(c, Deliver(v, Sync(requester, t)), hash);
            if n.status != Leader then d.nodes == c.nodes && d.msgs == c.msgs
            else if t <= n.term then d.nodes == c.nodes && d.msgs == c.msgs + {SyncReply(v, n.term)}
            else d.msgs == c.msgs
                 && d.nodes == c.nodes[v := Node(v, n.known, n.localValue, Follower, t, None, [], Some(requester),
                                                 n.serving && requester == v)]
  {
    hide Forgets;
    assert c.nodes[v := c.nodes[v]] == c.nodes;
    assert c.msgs + {} == c.msgs;
  }

  /** A sync reply raises the term and names the registry; status, vote and counted votes stay. */
  lemma SyncReplyOutcome(c: Cluster, v: NodeId, leader: NodeId, t: Term, hash: CandidateHash)
    requires v in c.nodes && SyncReply(leader, t) in c.msgs
    ensures var n, d := c.nodes[v], Apply(c, Deliver(v, SyncReply(leader, t)), hash);
            && d.msgs == c.msgs
            && d.nodes == c.nodes[v := n.(term := if t > n.term then t else n.term, registry := Some(leader))]
  {
    hide Forgets;
    assert c.msgs + {} == c.msgs;
  }

  // ---- votes are counted, on every run ----

  /** A grant for `v`'s candidacy in its own term reaches it with this step. */
  ghost predicate GrantArrives(c: Cluster, v: NodeId, step: Step) {
    && v in c.nodes && step.Deliver? && step.node == v && step.msg in c.msgs
    && step.msg.Vote? && step.msg == Vote(step.msg.voter, v, c.nodes[v].term, true)
  }

  lemma VoteEffect(n: Node, msg: Msg, hash: CandidateHash)
    requires msg.Vote?
    ensures var (m, out) := Handle(n, msg, hash);
            if n.status != Candidate || msg.voter in n.votes || msg != Vote(msg.voter, n.id, n.term, true)
            then m == n && out == {}
            else if 2 * (|n.votes| + 1) > |n.known| + 1
            then && m == n.(status := Leader, votes := n.votes + [msg.voter], registry := Some(n.id), serving := true)
                 && out == {Elected(n.id, n.term)} + (if n.id in n.known then {Change(n.id, n.term)} else {})
            else m == n.(votes := n.votes + [msg.voter]) && out == {}
  {
  }

  lemma DeliverEffect(c: Cluster, v: NodeId, msg: Msg, hash: CandidateHash)
    requires v in c.nodes && msg in c.msgs
    ensures var (m, out) := Handle(c.nodes[v], msg, hash);
            var d := Apply(c, Deliver(v, msg), hash);
            d.nodes == c.nodes[v := m] && d.msgs == c.msgs + out
  {
    hide Handle, Forgets;
  }

  /** A grant not counted before is counted, and makes its candidate lead exactly if that gives a majority. */
  lemma VoteOutcome(c: Cluster, v: NodeId, msg: Msg, hash: CandidateHash)
    requires v in c.nodes && c.nodes[v].id == v && msg in c.msgs && msg.Vote?
    ensures var n, d := c.nodes[v], Apply(c, Deliver(v, msg), hash);
            if n.status != Candidate || msg.voter in n.votes || !GrantArrives(c, v, Deliver(v, msg))
            then d.nodes == c.nodes && d.msgs == c.msgs
            else if 2 * (|n.votes| + 1) > |n.known| + 1
            then && d.nodes == c.nodes[v := n.(status := Leader, votes := n.votes + [msg.voter],
                                               registry := Some(v), serving := true)]
                 && d.msgs == c.msgs + ({Elected(v, n.term)} + (if v in n.known then {Change(v, n.term)} else {}))
            else d.nodes == c.nodes[v := n.(votes := n.votes + [msg.voter])] && d.msgs == c.msgs
  {
    hide Handle, Apply;
    VoteEffect(c.nodes[v], msg, hash);
    DeliverEffect(c, v, msg, hash);
    assert c.nodes[v := c.nodes[v]] == c.nodes;
    assert c.msgs + {} == c.msgs;
  }

  /** Those whose grant has reached `v` since it last stood, itself included. */
  ghost function Counted(c: Cluster, steps: seq<Step>, hash: CandidateHash, v: NodeId): set<NodeId> {
    if steps == [] then {}
    else
      var before, last := steps[..|steps| - 1], steps[|steps| - 1];
      var d, counted := Run(c, before, hash), Counted(c, before, hash, v);
      if last == Timeout(v) && v in d.nodes && d.nodes[v].status != Candidate && d.nodes[v].known != {} then {v}
      else if GrantArrives(d, v, last) then counted + {last.msg.voter}
      else counted
  }

  /** A candidate's votes are the grants counted, once each, and not yet a majority. */
  ghost predicate Counts(n: Node, counted: set<NodeId>) {
    n.status == Candidate ==>
      && Distinct(n.votes) && (forall u :: u in n.votes <==> u in counted) && |n.votes| == |counted|
      && 2 * |counted| <= |n.known| + 1
  }

  ghost predicate Named(c: Cluster) {
    forall v :: v in c.nodes ==> c.nodes[v].id == v
  }

  lemma {:induction false} RunNames(c: Cluster, steps: seq<Step>, hash: CandidateHash)
    requires Fresh(c)
    ensures Named(Run(c, steps, hash))
  {
    if steps != [] {
      RunNames(c, steps[..|steps| - 1], hash);
      StepNames(Run(c, steps[..|steps| - 1], hash), steps[|steps| - 1], hash);
    }
  }

  lemma StepNames(c: Cluster, step: Step, hash: CandidateHash)
    requires Named(c)
    ensures Named(Apply(c, step, hash))
  {
    hide Handle, Forgets;
    if step.node in c.nodes && step.Deliver? {
      HandleAdvances(c.nodes[step.node], step.msg, hash);
    }
  }

  lemma StandingCounts(n: Node, v: NodeId)
    requires n.known != {} && n.votes == [v]
    ensures Counts(n, {v})
  {
    if |n.known| == 0 {
      assert false;
    }
  }

  lemma OneMoreVote(n: Node, m: Node, counted: set<NodeId>, voter: NodeId)
    requires n.status == Candidate && Counts(n, counted) && voter !in n.votes
    requires m.votes == n.votes + [voter] && m.known == n.known
    ensures |counted + {voter}| == |n.votes| + 1
    ensures 2 * |m.votes| <= |n.known| + 1 ==> Counts(m, counted + {voter})
  {
  }

  lemma TimeoutCounts(c: Cluster, hash: CandidateHash, v: NodeId, counted: set<NodeId>)
    requires Named(c) && v in c.nodes && Counts(c.nodes[v], counted)
    ensures var n, d := c.nodes[v], Apply(c, Timeout(v), hash);
            && v in d.nodes && (d.nodes[v].status == Leader ==> n.status == Leader)
            && Counts(d.nodes[v], if n.status != Candidate && n.known != {} then {v} else counted)
  {
    hide Counts;
    if c.nodes[v].status != Candidate && c.nodes[v].known != {} {
      StandingCounts(Apply(c, Timeout(v), hash).nodes[v], v);
    }
  }

  lemma VoteCounts(c: Cluster, msg: Msg, hash: CandidateHash, v: NodeId, counted: set<NodeId>)
    requires Named(c) && v in c.nodes && Counts(c.nodes[v], counted) && msg in c.msgs && msg.Vote?
    ensures var n, d, step := c.nodes[v], Apply(c, Deliver(v, msg), hash), Deliver(v, msg);
            && v in d.nodes
            && Counts(d.nodes[v], if GrantArrives(c, v, step) then counted + {msg.voter} else counted)
            && (n.status != Leader ==>
                  (d.nodes[v].status == Leader
                   <==> && n.status == Candidate && GrantArrives(c, v, step)
                        && 2 * |counted + {msg.voter}| > |n.known| + 1))
  {
    hide Apply, GrantArrives;
    var n, d := c.nodes[v], Apply(c, Deliver(v, msg), hash);
    VoteOutcome(c, v, msg, hash);
    if n.status == Candidate && GrantArrives(c, v, Deliver(v, msg)) {
      if msg.voter in n.votes {
        assert counted + {msg.voter} == counted;
      } else {
        OneMoreVote(n, d.nodes[v], counted, msg.voter);
      }
    }
  }

  lemma OtherCounts(c: Cluster, msg: Msg, hash: CandidateHash, v: NodeId, counted: set<NodeId>)
    requires v in c.nodes && Counts(c.nodes[v], counted) && msg in c.msgs && !msg.Vote?
    ensures var n, d := c.nodes[v], Apply(c, Deliver(v, msg), hash);
            v in d.nodes && Counts(d.nodes[v], counted) && (d.nodes[v].status == Leader ==> n.status == Leader)
  {
    hide Forgets;
  }

  lemma OthersUntouched(c: Cluster, step: Step, hash: CandidateHash, v: NodeId)
    requires v in c.nodes && step.node != v
    ensures v in Apply(c, step, hash).nodes && Apply(c, step, hash).nodes[v] == c.nodes[v]
  {
    hide Handle, Forgets, StartElection;
  }

  /** What a step leaves of a candidate's count. */
  lemma StepCounts(c: Cluster, step: Step, hash: CandidateHash, v: NodeId, counted: set<NodeId>)
    requires Named(c) && v in c.nodes && Counts(c.nodes[v], counted)
    ensures var n, d := c.nodes[v], Apply(c, step, hash);
            v in d.nodes && d.nodes[v].known == n.known
            && Counts(d.nodes[v],
                      if step == Timeout(v) && n.status != Candidate && n.known != {} then {v}
                      else if GrantArrives(c, v, step) then counted + {step.msg.voter} else counted)
            && (n.status != Leader ==>
                  (d.nodes[v].status == Leader
                   <==> && n.status == Candidate && GrantArrives(c, v, step)
                        && 2 * |counted + {step.msg.voter}| > |n.known| + 1))
  {
    hide Counts;
    StepMembership(c, step, hash);
    var n := c.nodes[v];
    if step.node == v {
      match step
      case Timeout(_) => TimeoutCounts(c, hash, v, counted);
      case AskSync(_) =>
      case Deliver(_, msg) =>
        if msg in c.msgs {
          if msg.Vote? {
            VoteCounts(c, msg, hash, v, counted);
          } else {
            OtherCounts(c, msg, hash, v, counted);
          }
        }
    } else {
      OthersUntouched(c, step, hash, v);
    }
  }

  /** On every run a candidate holds the grants counted since it last stood, and they are no majority. */
  lemma {:induction false} CandidateLacksMajority(c: Cluster, steps: seq<Step>, hash: CandidateHash, v: NodeId)
    requires Fresh(c) && v in c.nodes
    ensures v in Run(c, steps, hash).nodes && Run(c, steps, hash).nodes[v].known == c.nodes[v].known
    ensures Counts(Run(c, steps, hash).nodes[v], Counted(c, steps, hash, v))
  {
    if steps != [] {
      hide Apply, Counts, GrantArrives, Fresh, Named;
      var before := steps[..|steps| - 1];
      CandidateLacksMajority(c, before, hash, v);
      RunNames(c, before, hash);
      StepCounts(Run(c, before, hash), steps[|steps| - 1], hash, v, Counted(c, before, hash, v));
    }
  }

  /**
   * On every run a node that is not the leader starts to lead with a step exactly if it stands, the
   * step brings it a grant of its own term, and with that grant those whose grants have reached it
   * since it stood are more than half of the nodes it counts.
   */
  lemma LeadsIff(c: Cluster, steps: seq<Step>, step: Step, hash: CandidateHash, v: NodeId)
    requires Fresh(c) && v in c.nodes
    requires v in Run(c, steps, hash).nodes && Run(c, steps, hash).nodes[v].status != Leader
    ensures var d, e := Run(c, steps, hash), Run(c, steps + [step], hash);
            && v in e.nodes
            && (e.nodes[v].status == Leader
                <==> && d.nodes[v].status == Candidate && GrantArrives(d, v, step)
                     && 2 * |Counted(c, steps, hash, v) + {step.msg.voter}| > |c.nodes[v].known| + 1)
  {
    hide Apply, Counts, GrantArrives, Fresh, Named;
    CandidateLacksMajority(c, steps, hash, v);
    RunNames(c, steps, hash);
    StepCounts(Run(c, steps, hash), step, hash, v, Counted(c, steps, hash, v));
    assert (steps + [step])[..|steps|] == steps;
  }

  // ---- who can win ----

  /** A node stands only if it knows someone, and grants others its vote only above its threshold. */
  ghost predicate Earned(c: Cluster, m: Msg, hash: CandidateHash) {
    match m
    case Request(v, _) => v in c.nodes && c.nodes[v].known != {}
    case Vote(v, candidate, t, true) =>
      v in c.nodes && (candidate == v || hash(candidate, t) > c.nodes[v].localValue)
    case _ => true
  }

  ghost predicate AllEarned(c: Cluster, d: Cluster, hash: CandidateHash) {
    && Named(d) && d.nodes.Keys == c.nodes.Keys
    && (forall v :: v in c.nodes ==>
          d.nodes[v].known == c.nodes[v].known && d.nodes[v].localValue == c.nodes[v].localValue)
    && (forall m :: m in d.msgs ==> Earned(c, m, hash))
  }

  lemma HandleEarns(n: Node, msg: Msg, hash: CandidateHash)
    ensures var (m, out) := Handle(n, msg, hash);
            && m.id == n.id && m.known == n.known && m.localValue == n.localValue
            && forall o :: o in out ==>
                 && !o.Request?
                 && (o.Vote? && o.granted ==>
                       o.voter == n.id && (o.candidate == n.id || hash(o.candidate, o.term) > n.localValue))
  {
  }

  lemma StepEarns(c: Cluster, d: Cluster, step: Step, hash: CandidateHash)
    requires AllEarned(c, d, hash)
    ensures AllEarned(c, Apply(d, step, hash), hash)
  {
    hide Handle, Forgets;
    if step.node in d.nodes && step.Deliver? {
      HandleEarns(d.nodes[step.node], step.msg, hash);
    }
  }

  /** Every grant on every run comes from a node whose threshold the candidate's hash exceeds, or from itself. */
  lemma {:induction false} GrantsAreEarned(c: Cluster, steps: seq<Step>, hash: CandidateHash)
    requires Fresh(c)
    ensures AllEarned(c, Run(c, steps, hash), hash)
  {
    if steps != [] {
      hide Apply, AllEarned;
      GrantsAreEarned(c, steps[..|steps| - 1], hash);
      StepEarns(c, Run(c, steps[..|steps| - 1], hash), steps[|steps| - 1], hash);
    }
  }

  /** The other nodes whose threshold `v`'s hash for term 1 exceeds. */
  ghost function Willing(c: Cluster, hash: CandidateHash, v: NodeId): set<NodeId> {
    set u | u in c.nodes && u != v && hash(v, 1) > c.nodes[u].localValue
  }

  ghost predicate CanWin(c: Cluster, hash: CandidateHash, v: NodeId)
    requires v in c.nodes
  {
    c.nodes[v].known != {} && 2 * (|Willing(c, hash, v)| + 1) > |c.nodes[v].known| + 1
  }

  lemma WinsOnlyIf(c: Cluster, steps: seq<Step>, hash: CandidateHash, v: NodeId)
    requires Fresh(c) && v in c.nodes && |steps| < TERMS && Elected(v, 1) in Run(c, steps, hash).msgs
    ensures CanWin(c, hash, v)
  {
    RunKeeps(c, steps, hash);
    GrantsAreEarned(c, steps, hash);
    hide Run;
    var d := Run(c, steps, hash);
    assert MsgOk(d, Elected(v, 1));
    var voters := Voters(d, v, 1);
    assert voters <= Willing(c, hash, v) + {v};
    SubsetSize(voters, Willing(c, hash, v) + {v});
    var u :| u in voters;
    assert Vote(u, v, 1, true) in d.msgs ==> MsgOk(d, Vote(u, v, 1, true));
    assert Earned(c, Request(v, 1), hash);
  }

  lemma RunOneMore(c: Cluster, steps: seq<Step>, step: Step, hash: CandidateHash)
    ensures Run(c, steps + [step], hash) == Apply(Run(c, steps, hash), step, hash)
  {
    assert (steps + [step])[..|steps|] == steps;
  }

  /** Those in `voted` voted for `v` in term 1; the others but `v` have heard nothing yet. */
  ghost predicate Voted(c: Cluster, d: Cluster, v: NodeId, voted: set<NodeId>) {
    d.nodes.Keys == c.nodes.Keys
    && forall u :: u in c.nodes && u != v ==>
         d.nodes[u] == if u in voted then c.nodes[u].(term := 1, votedFor := Some(v)) else c.nodes[u]
  }

  /** `m`, which was `n`, stands in term 1 with the votes of `voted` and its own. */
  ghost predicate StandsWith(n: Node, m: Node, voted: set<NodeId>) {
    && n.id !in voted && 2 * (|voted| + 1) <= |n.known| + 1
    && m == n.(status := Candidate, term := 1, votedFor := Some(n.id), votes := m.votes)
    && |m.votes| == |voted| + 1 && (forall u :: u in m.votes <==> u == n.id || u in voted)
  }

  ghost predicate Standing(c: Cluster, d: Cluster, v: NodeId, voted: set<NodeId>) {
    && v in c.nodes && v in d.nodes && Request(v, 1) in d.msgs && Voted(c, d, v, voted)
    && c.nodes[v].id == v && StandsWith(c.nodes[v], d.nodes[v], voted)
  }

  /** `v` leads term 1, and those in `told` follow it; nobody is ahead of term 1. */
  ghost predicate Leading(c: Cluster, d: Cluster, v: NodeId, told: set<NodeId>) {
    && v in c.nodes && v in d.nodes && d.nodes.Keys == c.nodes.Keys && Elected(v, 1) in d.msgs
    && d.nodes[v].status == Leader && d.nodes[v].term == 1
    && d.nodes[v].registry == Some(v) && d.nodes[v].serving
    && forall u :: u in c.nodes && u != v ==>
         && d.nodes[u].id == u && d.nodes[u].term <= 1
         && (u in told ==> d.nodes[u].status == Follower && d.nodes[u].term == 1
                           && d.nodes[u].registry == Some(v) && !d.nodes[u].serving)
  }

  lemma Stands(c: Cluster, hash: CandidateHash, v: NodeId)
    requires Fresh(c) && v in c.nodes && c.nodes[v].known != {}
    ensures Standing(c, Apply(c, Timeout(v), hash), v, {})
  {
    hide Apply;
    TimeoutOutcome(c, v, hash);
    if |c.nodes[v].known| == 0 {
      assert false;
    }
  }

  /** One more willing node is asked: it grants its vote. */
  lemma AskOne(c: Cluster, d: Cluster, hash: CandidateHash, v: NodeId, voted: set<NodeId>, u: NodeId)
    requires Fresh(c) && Standing(c, d, v, voted) && u in Willing(c, hash, v) && u !in voted
    ensures var e := Apply(d, Deliver(u, Request(v, 1)), hash);
            && u in c.nodes && u != v
            && e.msgs == d.msgs + {Vote(u, v, 1, true)}
            && e.nodes == d.nodes[u := c.nodes[u].(term := 1, votedFor := Some(v))]
  {
    hide Apply;
    RequestOutcome(d, u, v, 1, hash);
  }

  lemma OneMoreVoted(c: Cluster, d: Cluster, e: Cluster, v: NodeId, voted: set<NodeId>, u: NodeId)
    requires Voted(c, d, v, voted) && u in c.nodes && u != v && v in d.nodes
    requires e.nodes == d.nodes[u := c.nodes[u].(term := 1, votedFor := Some(v))]
    ensures Voted(c, e, v, voted + {u}) && v in e.nodes && e.nodes[v] == d.nodes[v]
  {
  }

  lemma OthersVoted(c: Cluster, d: Cluster, e: Cluster, v: NodeId, voted: set<NodeId>, m: Node)
    requires Fresh(c) && Voted(c, d, v, voted) && v in d.nodes && e.nodes == d.nodes[v := m]
    ensures Voted(c, e, v, voted)
    ensures e.nodes.Keys == c.nodes.Keys
            && forall u :: u in c.nodes && u != v ==> e.nodes[u].id == u && e.nodes[u].term <= 1
  {
  }

  lemma OneMoreStands(n: Node, m: Node, voted: set<NodeId>, u: NodeId)
    requires StandsWith(n, m, voted) && u != n.id && u !in voted
    ensures m.status == Candidate && m.term == 1 && m.id == n.id && m.known == n.known
    ensures u !in m.votes && |m.votes| == |voted| + 1
    ensures 2 * (|m.votes| + 1) <= |n.known| + 1
            ==> StandsWith(n, m.(votes := m.votes + [u]), voted + {u})
  {
    assert |voted + {u}| == |voted| + 1;
  }

  /** Its vote is counted. */
  lemma CountOne(c: Cluster, d: Cluster, e: Cluster, hash: CandidateHash, v: NodeId, voted: set<NodeId>, u: NodeId)
    requires Fresh(c) && Standing(c, d, v, voted) && u in c.nodes && u != v && u !in voted
    requires e.msgs == d.msgs + {Vote(u, v, 1, true)}
    requires e.nodes == d.nodes[u := c.nodes[u].(term := 1, votedFor := Some(v))]
    ensures var f := Apply(e, Deliver(v, Vote(u, v, 1, true)), hash);
            Standing(c, f, v, voted + {u}) || Leading(c, f, v, {})
  {
    var f := Apply(e, Deliver(v, Vote(u, v, 1, true)), hash);
    hide Apply, Voted, StandsWith;
    OneMoreVoted(c, d, e, v, voted, u);
    OneMoreStands(c.nodes[v], d.nodes[v], voted, u);
    VoteOutcome(e, v, Vote(u, v, 1, true), hash);
    OthersVoted(c, e, f, v, voted + {u}, f.nodes[v]);
  }

  lemma TellOne(c: Cluster, d: Cluster, hash: CandidateHash, v: NodeId, told: set<NodeId>, u: NodeId)
    requires Leading(c, d, v, told) && u in c.nodes && u != v
    ensures Leading(c, Apply(d, Deliver(u, Elected(v, 1)), hash), v, told + {u})
  {
    hide Apply;
    NewsOutcome(d, u, Elected(v, 1), hash);
  }

  lemma {:induction false} AskAll(c: Cluster, hash: CandidateHash, v: NodeId, steps: seq<Step>, voted: set<NodeId>)
      returns (more: seq<Step>)
    requires Fresh(c) && v in c.nodes && CanWin(c, hash, v) && voted <= Willing(c, hash, v)
    requires Standing(c, Run(c, steps, hash), v, voted)
    ensures Leading(c, Run(c, more, hash), v, {})
    ensures |more| <= |steps| + 2 * |Willing(c, hash, v) - voted|
    decreases |Willing(c, hash, v) - voted|
  {
    hide Run, Apply, Standing, Leading, Willing, Fresh, Voted, StandsWith;
    var left := Willing(c, hash, v) - voted;
    if left == {} {
      assert voted == Willing(c, hash, v);
      NoMajorityYet(c, Run(c, steps, hash), v, voted);
      assert false;
    }
    var u :| u in left;
    var asked := steps + [Deliver(u, Request(v, 1))];
    var answered := asked + [Deliver(v, Vote(u, v, 1, true))];
    RunOneMore(c, steps, Deliver(u, Request(v, 1)), hash);
    RunOneMore(c, asked, Deliver(v, Vote(u, v, 1, true)), hash);
    AskOne(c, Run(c, steps, hash), hash, v, voted, u);
    CountOne(c, Run(c, steps, hash), Run(c, asked, hash), hash, v, voted, u);
    assert left - {u} == Willing(c, hash, v) - (voted + {u});
    if Leading(c, Run(c, answered, hash), v, {}) {
      more := answered;
    } else {
      more := AskAll(c, hash, v, answered, voted + {u});
    }
  }

  lemma NoMajorityYet(c: Cluster, d: Cluster, v: NodeId, voted: set<NodeId>)
    requires Standing(c, d, v, voted)
    ensures 2 * (|voted| + 1) <= |c.nodes[v].known| + 1
  {
  }

  lemma {:induction false} TellAll(c: Cluster, hash: CandidateHash, v: NodeId, steps: seq<Step>, told: set<NodeId>)
      returns (more: seq<Step>)
    requires v in c.nodes && told <= c.nodes.Keys - {v} && Leading(c, Run(c, steps, hash), v, told)
    ensures Leading(c, Run(c, more, hash), v, c.nodes.Keys - {v})
    ensures |more| <= |steps| + |c.nodes.Keys - {v} - told|
    decreases |c.nodes.Keys - {v} - told|
  {
    hide Run, Apply, Leading;
    var left := c.nodes.Keys - {v} - told;
    if left == {} {
      assert told == c.nodes.Keys - {v};
      more := steps;
    } else {
      var u :| u in left;
      RunOneMore(c, steps, Deliver(u, Elected(v, 1)), hash);
      TellOne(c, Run(c, steps, hash), hash, v, told, u);
      assert left - {u} == c.nodes.Keys - {v} - (told + {u});
      more := TellAll(c, hash, v, steps + [Deliver(u, Elected(v, 1))], told + {u});
    }
  }

  /** A node with enough willing voters can be elected, and then everyone else follows it. */
  lemma WinsIf(c: Cluster, hash: CandidateHash, v: NodeId) returns (steps: seq<Step>)
    requires Fresh(c) && v in c.nodes && CanWin(c, hash, v)
    ensures Leading(c, Run(c, steps, hash), v, c.nodes.Keys - {v})
    ensures |steps| <= 3 * |c.nodes| + 1
  {
    hide Apply, Standing, Leading, Fresh;
    RunOneMore(c, [], Timeout(v), hash);
    Stands(c, hash, v);
    assert Run(c, [], hash) == c;
    var won := AskAll(c, hash, v, [] + [Timeout(v)], {});
    steps := TellAll(c, hash, v, won, {});
    SubsetSize(Willing(c, hash, v) - {}, c.nodes.Keys);
    SubsetSize(c.nodes.Keys - {v} - {}, c.nodes.Keys);
  }

  /**
   * In a fresh cluster a node can be elected in term 1 if and only if it knows someone and it and the
   * nodes whose threshold its hash exceeds are more than half of the nodes it counts.
   */
  lemma ElectableIff(c: Cluster, hash: CandidateHash, v: NodeId)
    requires Fresh(c) && v in c.nodes && |c.nodes| < 0x4000_0000_0000_0000
    ensures (exists steps :: |steps| < TERMS && Elected(v, 1) in Run(c, steps, hash).msgs) <==> CanWin(c, hash, v)
  {
    hide Run, Fresh, Willing;
    if CanWin(c, hash, v) {
      var steps := WinsIf(c, hash, v);
      assert |steps| < TERMS && Elected(v, 1) in Run(c, steps, hash).msgs;
    }
    forall steps | |steps| < TERMS && Elected(v, 1) in Run(c, steps, hash).msgs
      ensures CanWin(c, hash, v)
    {
      WinsOnlyIf(c, steps, hash, v);
    }
  }
}
