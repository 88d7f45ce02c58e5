/**
 * One node of the registry election: the state it keeps and its message handlers.
 * The hash of a candidate and a term is a parameter; a node identifier is only compared.
 */
module Election {
  import opened Machine

  type NodeId = nat

  const TERMS: int := 0x1_0000_0000_0000_0000

  type Term = t: int | 0 <= t < 0x1_0000_0000_0000_0000

  type CandidateHash = (NodeId, Term) -> nat

  datatype Status = Follower | Candidate | Leader

  /** `known` is the list of known nodes, `serving` whether the registry service was last switched on. */
  datatype Node = Node(
    id: NodeId, known: set<NodeId>, localValue: nat,
    status: Status, term: Term, votedFor: Option<NodeId>, votes: seq<NodeId>,
    registry: Option<NodeId>, serving: bool)

  datatype Msg =
    | Request(candidate: NodeId, term: Term)
    | Vote(voter: NodeId, candidate: NodeId, term: Term, granted: bool)
    | Elected(leader: NodeId, term: Term)
    | Change(leader: NodeId, term: Term)
    | Sync(requester: NodeId, term: Term)
    | SyncReply(leader: NodeId, term: Term)

  function NextTerm(t: Term): Term {
    (t + 1) % TERMS
  }

  function MaxTerm(a: Term, b: Term): Term {
    if a > b then a else b
  }

  function StartElection(n: Node): (Node, set<Msg>) {
    if n.status.Candidate? || n.known == {} then (n, {})
    else
      var t := NextTerm(n.term);
      (n.(status := Candidate, term := t, votedFor := Some(n.id), votes := [n.id]), {Request(n.id, t)})
  }

  function BecomeLeader(n: Node): (Node, set<Msg>) {
    (n.(status := Leader, registry := Some(n.id), serving := true),
     {Elected(n.id, n.term)} + if n.id in n.known then {Change(n.id, n.term)} else {})
  }

  function BecomeFollower(n: Node, newTerm: Term, newRegistry: Option<NodeId>): Node {
    n.(term := MaxTerm(newTerm, n.term), status := Follower, votedFor := None, votes := [],
       registry := if newRegistry.Some? then newRegistry else n.registry,
       serving := n.serving && (newRegistry.None? || newRegistry.value == n.id))
  }

  predicate WouldVote(n: Node, candidate: NodeId, term: Term, hash: CandidateHash) {
    n.votedFor.None? && (candidate == n.id || hash(candidate, term) > n.localValue)
  }

  function OnRequest(n: Node, candidate: NodeId, term: Term, hash: CandidateHash): (Node, set<Msg>) {
    if term < n.term then (n, {Vote(n.id, candidate, term, false)})
    else
      var m := if term > n.term then BecomeFollower(n, term, None) else n;
      var granted := WouldVote(m, candidate, term, hash);
      (if granted then m.(votedFor := Some(candidate)) else m, {Vote(n.id, candidate, term, granted)})
  }

  function OnVote(n: Node, voter: NodeId, candidate: NodeId, term: Term, granted: bool): (Node, set<Msg>) {
    if !n.status.Candidate? || term != n.term || candidate != n.id || !granted || voter in n.votes then (n, {})
    else
      var m := n.(votes := n.votes + [voter]);
      if |m.votes| > (|n.known| + 1) / 2 then BecomeLeader(m) else (m, {})
  }

  /** An ElectionResult or RegistryChange naming another node as the leader of `term`. */
  function OnLeader(n: Node, leader: NodeId, term: Term): Node {
    if term < n.term || leader == n.id then n else BecomeFollower(n, term, Some(leader))
  }

  function OnSync(n: Node, requester: NodeId, term: Term): (Node, set<Msg>) {
    if !n.status.Leader? then (n, {})
    else if term > n.term then (BecomeFollower(n, term, Some(requester)), {})
    else (n, {SyncReply(n.id, n.term)})
  }

  function OnSyncReply(n: Node, leader: NodeId, term: Term): Node {
    n.(term := MaxTerm(term, n.term), registry := Some(leader))
  }

  function Handle(n: Node, msg: Msg, hash: CandidateHash): (Node, set<Msg>) {
    match msg
    case Request(candidate, term) => OnRequest(n, candidate, term, hash)
    case Vote(voter, candidate, term, granted) => OnVote(n, voter, candidate, term, granted)
    case Elected(leader, term) => (OnLeader(n, leader, term), {})
    case Change(leader, term) => (OnLeader(n, leader, term), {})
    case Sync(requester, term) => OnSync(n, requester, term)
    case SyncReply(leader, term) => (OnSyncReply(n, leader, term), {})
  }

  class ElectionManager {
    const localId: NodeId
    const known: set<NodeId>
    const localValue: nat
    const hash: CandidateHash
    var status: Status
    var term: Term
    var votedFor: Option<NodeId>
    var votesReceived: seq<NodeId>
    var registryId: Option<NodeId>
    var serving: bool

    ghost function State(): Node
      reads this
    {
      Node(localId, known, localValue, status, term, votedFor, votesReceived, registryId, serving)
    }

    constructor (localId: NodeId, known: set<NodeId>, localValue: nat, hash: CandidateHash)
      ensures State() == Node(localId, known, localValue, Follower, 0, None, [], None, false)
      ensures this.hash == hash
    {
      this.localId, this.known, this.localValue, this.hash := localId, known, localValue, hash;
      status, term, votedFor, votesReceived, registryId, serving := Follower, 0, None, [], None, false;
    }

    method Start() returns (ok: bool, out: set<Msg>)
      modifies this
      ensures (State(), out) == StartElection(old(State()))
      ensures ok <==> old(status).Candidate? || known != {}
    {
      if status.Candidate? {
        return true, {};
      }
      if known == {} {
        return false, {};
      }
      status := Candidate;
      term := NextTerm(term);
      votedFor := Some(localId);
      votesReceived := [localId];
      return true, {Request(localId, term)};
    }

    method Lead() returns (out: set<Msg>)
      modifies this
      ensures (State(), out) == BecomeLeader(old(State()))
    {
      status := Leader;
      registryId := Some(localId);
      serving := true;
      out := {Elected(localId, term)};
      if localId in known {
        out := out + {Change(localId, term)};
      }
      assert {Elected(localId, term)} + {} == {Elected(localId, term)};
    }

    method Follow(newTerm: Term, newRegistry: Option<NodeId>)
      modifies this
      ensures State() == BecomeFollower(old(State()), newTerm, newRegistry)
    {
      if newTerm > term {
        term := newTerm;
      }
      status := Follower;
      votedFor := None;
      votesReceived := [];
      if newRegistry.Some? {
        registryId := newRegistry;
        if newRegistry.value != localId {
          serving := false;
        }
      }
    }

    method HandleRequest(candidate: NodeId, reqTerm: Term) returns (out: set<Msg>)
      modifies this
      ensures (State(), out) == OnRequest(old(State()), candidate, reqTerm, hash)
    {
      if reqTerm < term {
        return {Vote(localId, candidate, reqTerm, false)};
      }
      if reqTerm > term {
        Follow(reqTerm, None);
      }
      var granted := votedFor.None? && (candidate == localId || hash(candidate, reqTerm) > localValue);
      if granted {
        votedFor := Some(candidate);
      }
      return {Vote(localId, candidate, reqTerm, granted)};
    }

    method HandleVote(voter: NodeId, candidate: NodeId, voteTerm: Term, granted: bool) returns (out: set<Msg>)
      modifies this
      ensures (State(), out) == OnVote(old(State()), voter, candidate, voteTerm, granted)
    {
      out := {};
      if !status.Candidate? || voteTerm != term || candidate != localId {
        return;
      }
      if granted && voter !in votesReceived {
        votesReceived := votesReceived + [voter];
        var totalNodes := |known| + 1;
        if |votesReceived| > totalNodes / 2 {
          out := Lead();
        }
      }
    }

    method HandleResult(leader: NodeId, resultTerm: Term)
      modifies this
      ensures State() == OnLeader(old(State()), leader, resultTerm)
    {
      if resultTerm < term || leader == localId {
        return;
      }
      Follow(resultTerm, Some(leader));
    }

    method HandleRegistryChange(leader: NodeId, changeTerm: Term)
      modifies this
      ensures State() == OnLeader(old(State()), leader, changeTerm)
    {
      if changeTerm < term || leader == localId {
        return;
      }
      registryId := Some(leader);
      if status.Leader? {
        serving := false;
      }
      Follow(changeTerm, Some(leader));
    }

    method HandleRegistrySync(requester: NodeId, syncTerm: Term) returns (out: set<Msg>)
      modifies this
      ensures (State(), out) == OnSync(old(State()), requester, syncTerm)
    {
      if !status.Leader? {
        return {};
      }
      if syncTerm > term {
        Follow(syncTerm, Some(requester));
        return {};
      }
      return {SyncReply(localId, term)};
    }

    method HandleSyncResponse(leader: NodeId, replyTerm: Term)
      modifies this
      ensures State() == OnSyncReply(old(State()), leader, replyTerm)
    {
      if replyTerm > term {
        term := replyTerm;
      }
      registryId := Some(leader);
    }

    method HandleMessage(msg: Msg) returns (out: set<Msg>)
      modifies this
      ensures (State(), out) == Handle(old(State()), msg, hash)
    {
      out := {};
      match msg
      case Request(candidate, t) => out := HandleRequest(candidate, t);
      case Vote(voter, candidate, t, granted) => out := HandleVote(voter, candidate, t, granted);
      case Elected(leader, t) => HandleResult(leader, t);
      case Change(leader, t) => HandleRegistryChange(leader, t);
      case Sync(requester, t) => out := HandleRegistrySync(requester, t);
      case SyncReply(leader, t) => HandleSyncResponse(leader, t);
    }
  }

  /**
   * A leader is meant to stop its registry service when it steps down. It does so unless the
   * demotion comes from a bare higher-term request, or from a sync request carrying its own name.
   */
  lemma DemotionLeavesServiceOn(n: Node, msg: Msg, hash: CandidateHash)
    requires n.status.Leader? && n.serving && Handle(n, msg, hash).0.status.Follower?
    ensures Handle(n, msg, hash).0.serving
            <==> msg.Request? || (msg.Sync? && msg.requester == n.id)
  {
  }
}
