/** Multi-hop routing: route discovery over the DHT and the switch to an alternative next hop. */
module Multihop {
  import opened Machine
  import opened NodeDistance
  import opened NodeListCodec
  import opened Sorting
  import opened Buckets
  import opened RoutingTable
  import opened NearestSearch
  import opened Dht

  const MAX_ROUTE_ENTRIES: nat := 1000

  const CANDIDATES_MAX: nat := 10

  /** 300 seconds in nanoseconds. */
  const ROUTE_TIMEOUT: nat := 300_000_000_000

  datatype Connection = Lan | Relay

  datatype Route = Route(
    target: NodeId,
    nextHop: NodeId,
    hopCount: nat,
    metric: nat,
    connection: Connection,
    lastActive: nat,
    expiresAt: nat,
    candidates: seq<Node>)

  datatype Outcome = Done | CannotRouteToSelf | DhtNotBound | NoRoute

  // ---- the second, truncated distance ----

  /** The first 128 bits of the distance. */
  function Truncated(a: NodeId, b: NodeId): nat {
    Value(XorDistance(a, b)[..16])
  }

  lemma {:induction false} ValueAppend(s: Bytes, x: byte)
    ensures Value(s + [x]) == Value(s) * 256 + x
  {
    if s != [] {
      ValueAppend(s[1..], x);
      assert (s + [x])[1..] == s[1..] + [x];
      Pow2Eight();
      Pow2Add(8, 8 * (|s| - 1));
      Regroup(s[0], Pow2(8 * (|s| - 1)));
    } else {
      assert (s + [x])[1..] == [];
    }
  }

  lemma Regroup(x: int, y: int)
    ensures x * (256 * y) == (x * y) * 256
  {
  }

  method ComputeTruncated(a: NodeId, b: NodeId) returns (dist: nat)
    ensures dist == Truncated(a, b)
  {
    hide Value;
    ghost var xor := XorDistance(a, b);
    dist := 0;
    ValueZero(xor[..0]);
    for i := 0 to 16
      invariant dist == Value(xor[..i])
    {
      ValueAppend(xor[..i], XorByte(a[i], b[i]));
      assert xor[..i + 1] == xor[..i] + [XorByte(a[i], b[i])];
      dist := dist * 256 + XorByte(a[i], b[i]);
    }
  }

  function ByTruncated(target: NodeId): Node -> nat {
    (node: Node) => Truncated(node.id, target)
  }

  lemma {:induction false} LessByPrefix(a: Bytes, b: Bytes, k: nat)
    requires |a| == |b| && k <= |a| && Less(a[..k], b[..k])
    ensures Less(a, b)
  {
    if a[0] == b[0] {
      assert a[..k][1..] == a[1..][..k - 1] && b[..k][1..] == b[1..][..k - 1];
      LessByPrefix(a[1..], b[1..], k - 1);
    }
  }

  /** Cutting the distance short never reverses the order of two nodes. */
  lemma TruncatedFollowsDist(target: NodeId, x: NodeId, y: NodeId)
    requires Dist(target, x) < Dist(target, y)
    ensures Truncated(x, target) <= Truncated(y, target)
  {
    hide Value, Less;
    var p, q := XorDistance(target, x), XorDistance(target, y);
    DistanceSymmetric(target, x);
    DistanceSymmetric(target, y);
    LessIsNumeric(p, q);
    LessIsNumeric(q, p);
    LessIsNumeric(q[..16], p[..16]);
    if Less(q[..16], p[..16]) {
      LessByPrefix(q, p, 16);
    }
  }

  /** So sorting a nearest-first list again, on the truncated distance, changes nothing. */
  lemma ResortChangesNothing(target: NodeId, nodes: seq<Node>)
    requires StrictlyFarther(target, nodes)
    ensures Sort(ByTruncated(target), nodes) == nodes
  {
    hide Sort, Dist, Truncated;
    forall i, j | 0 <= i < j < |nodes|
      ensures ByTruncated(target)(nodes[i]) <= ByTruncated(target)(nodes[j])
    {
      TruncatedFollowsDist(target, nodes[i].id, nodes[j].id);
    }
    SortSorted(ByTruncated(target), nodes);
  }

  // ---- routes ----

  function Metric(hopCount: nat, connection: Connection): nat {
    hopCount * 100 + if connection == Relay then 50 else 10
  }

  function NewRoute(target: NodeId, nextHop: NodeId, hopCount: nat, connection: Connection,
                    candidates: seq<Node>, now: nat): Route {
    Route(target, nextHop, hopCount, Metric(hopCount, connection), connection, now, now + ROUTE_TIMEOUT, candidates)
  }

  /** The nodes other than `id`, in order. */
  function Others(id: NodeId, nodes: seq<Node>): seq<Node> {
    if nodes == [] then []
    else
      var last := nodes[|nodes| - 1];
      Others(id, nodes[..|nodes| - 1]) + if last.id == id then [] else [last]
  }

  /** The route discovery makes of what the search found. */
  function Discovered(found: seq<Node>, target: NodeId, now: nat): Route
    requires found != []
  {
    SortIsStable(ByTruncated(target), found, 0);
    var sorted := Sort(ByTruncated(target), found);
    var nextHop := sorted[0].id;
    var others := Others(nextHop, sorted[1..]);
    var fallbacks := others[..Min(CANDIDATES_MAX, |others|)];
    if nextHop == target then NewRoute(target, nextHop, 1, Lan, fallbacks, now)
    else NewRoute(target, nextHop, 2, Relay, fallbacks, now)
  }

  /** The first candidate that is neither the current next hop nor the local node. */
  function Alternative(candidates: seq<Node>, current: NodeId, local: NodeId): Option<NodeId> {
    if candidates == [] then None
    else if candidates[0].id != current && candidates[0].id != local then Some(candidates[0].id)
    else Alternative(candidates[1..], current, local)
  }

  function Switched(route: Route, nextHop: NodeId, now: nat): Route {
    route.(nextHop := nextHop, metric := Metric(route.hopCount, Relay), connection := Relay,
           lastActive := now, expiresAt := now + ROUTE_TIMEOUT)
  }

  predicate Oldest(routes: map<NodeId, Route>, id: NodeId) {
    id in routes && forall k :: k in routes ==> routes[id].lastActive <= routes[k].lastActive
  }

  /** `after` holds the new route and everything else, less one oldest route when the table was full. */
  ghost predicate InsertedOrEvicted(before: map<NodeId, Route>, route: Route, after: map<NodeId, Route>) {
    if route.target in before || |before| < MAX_ROUTE_ENTRIES then after == before[route.target := route]
    else exists oldest: NodeId :: Oldest(before, oldest) && after == (before - {oldest})[route.target := route]
  }

  lemma {:induction false} OldestExists(routes: map<NodeId, Route>) returns (id: NodeId)
    requires routes.Keys != {}
    ensures Oldest(routes, id)
    decreases |routes.Keys|
  {
    var some :| some in routes;
    var rest := routes - {some};
    if rest.Keys == {} {
      id := some;
      assert forall k :: k in routes ==> k == some || k in rest;
    } else {
      assert rest.Keys < routes.Keys;
      var other := OldestExists(rest);
      id := if routes[other].lastActive <= routes[some].lastActive then other else some;
      assert forall k :: k in routes ==> k == some || k in rest;
    }
  }

  method WithoutHop(hop: NodeId, nodes: seq<Node>) returns (rest: seq<Node>)
    ensures rest == Others(hop, nodes)
  {
    rest := [];
    for i := 0 to |nodes|
      invariant rest == Others(hop, nodes[..i])
    {
      assert nodes[..i + 1][..i] == nodes[..i];
      if nodes[i].id != hop {
        rest := rest + [nodes[i]];
      }
    }
    assert nodes[..|nodes|] == nodes;
  }

  class MultihopManager {
    const localId: NodeId
    const dht: DhtManager?
    var routes: map<NodeId, Route>

    ghost predicate Valid()
      reads this
    {
      && |routes| <= MAX_ROUTE_ENTRIES
      && (forall k :: k in routes ==> routes[k].target == k)
      && (dht != null ==> dht.Valid())
    }

    constructor (localId: NodeId, dht: DhtManager?)
      requires dht != null ==> dht.Valid()
      ensures Valid() && this.localId == localId && this.dht == dht && routes == map[]
    {
      this.localId := localId;
      this.dht := dht;
      this.routes := map[];
    }

    method InsertOrEvict(route: Route)
      requires Valid()
      modifies this
      ensures Valid() && InsertedOrEvicted(old(routes), route, routes)
    {
      if route.target in routes || |routes| < MAX_ROUTE_ENTRIES {
        routes := routes[route.target := route];
        return;
      }
      ghost var _ := OldestExists(routes);
      var oldest: NodeId :| oldest in routes && Oldest(routes, oldest);
      routes := routes - {oldest};
      assert routes.Keys == old(routes).Keys - {oldest};
      assert |routes.Keys| == |old(routes).Keys| - 1;
      routes := routes[route.target := route];
    }

    method DiscoverRoute(target: NodeId, now: nat) returns (outcome: Outcome)
      requires Valid()
      modifies this
      ensures Valid()
      ensures outcome == if target == localId then CannotRouteToSelf
                         else if dht == null then DhtNotBound
                         else if Nearest(dht.Contents(), target, K_BUCKET_SIZE) == [] then NoRoute
                         else Done
      ensures outcome != Done ==> routes == old(routes)
      ensures outcome == Done ==>
                InsertedOrEvicted(
                  old(routes), Discovered(Nearest(dht.Contents(), target, K_BUCKET_SIZE), target, now), routes)
    {
      hide Nearest, Sort, InsertedOrEvicted, Others;
      if target == localId {
        return CannotRouteToSelf;
      }
      if dht == null {
        return DhtNotBound;
      }
      var found := dht.FindNearest(target, K_BUCKET_SIZE);
      if found == [] {
        return NoRoute;
      }
      SortIsStable(ByTruncated(target), found, 0);
      var sorted := Sort(ByTruncated(target), found);
      var nextHop := sorted[0].id;
      var hopCount, connection := 2, Relay;
      if nextHop == target {
        hopCount, connection := 1, Lan;
      }
      var fallbacks := WithoutHop(nextHop, sorted[1..]);
      fallbacks := fallbacks[..Min(CANDIDATES_MAX, |fallbacks|)];
      InsertOrEvict(NewRoute(target, nextHop, hopCount, connection, fallbacks, now));
      return Done;
    }

    method FindAlternative(target: NodeId, now: nat) returns (outcome: Outcome)
      requires Valid()
      modifies this
      ensures Valid()
      ensures outcome == Done || outcome == NoRoute
      ensures outcome == NoRoute ==> routes == old(routes)
      ensures outcome == Done <==>
              target in old(routes)
              && Alternative(old(routes)[target].candidates, old(routes)[target].nextHop, localId).Some?
      ensures outcome == Done ==>
                var was := old(routes)[target];
                routes == old(routes)[
                  target := Switched(was, Alternative(was.candidates, was.nextHop, localId).value, now)]
    {
      if target !in routes {
        return NoRoute;
      }
      var route := routes[target];
      var i := 0;
      while i < |route.candidates|
        invariant i <= |route.candidates|
        invariant Alternative(route.candidates, route.nextHop, localId)
               == Alternative(route.candidates[i..], route.nextHop, localId)
      {
        var id := route.candidates[i].id;
        assert route.candidates[i..][1..] == route.candidates[i + 1..];
        if id != route.nextHop && id != localId {
          routes := routes[target := Switched(route, id, now)];
          return Done;
        }
        i := i + 1;
      }
      return NoRoute;
    }
  }

  // ---- what discovery finds ----

  lemma {:induction false} OthersKeepsAll(id: NodeId, nodes: seq<Node>)
    requires forall i :: 0 <= i < |nodes| ==> nodes[i].id != id
    ensures Others(id, nodes) == nodes
  {
    if nodes != [] {
      var init, last := nodes[..|nodes| - 1], nodes[|nodes| - 1];
      OthersKeepsAll(id, init);
      assert last.id != id;
      assert Others(id, nodes) == init + [last];
    }
  }

  /** Discovery takes the search result as it comes: nearest first, the next ten kept as fallbacks. */
  lemma DiscoveredKeepsOrder(found: seq<Node>, target: NodeId, now: nat)
    requires found != [] && StrictlyFarther(target, found)
    ensures Discovered(found, target, now) ==
            if found[0].id == target
            then Route(target, target, 1, 110, Lan, now, now + 300_000_000_000, found[1..Min(11, |found|)])
            else Route(target, found[0].id, 2, 250, Relay, now, now + 300_000_000_000, found[1..Min(11, |found|)])
  {
    hide Sort, Dist, Others;
    ResortChangesNothing(target, found);
    forall i | 0 <= i < |found[1..]|
      ensures found[1..][i].id != found[0].id
    {
      assert Dist(target, found[0].id) < Dist(target, found[i + 1].id);
    }
    OthersKeepsAll(found[0].id, found[1..]);
  }

  /** A switch makes a discovered route a relay of metric 150 or 250 that lasts 300 seconds from then. */
  lemma SwitchedRoute(found: seq<Node>, target: NodeId, now: nat, hop: NodeId, later: nat)
    requires found != [] && StrictlyFarther(target, found)
    ensures Switched(Discovered(found, target, now), hop, later) ==
            if found[0].id == target
            then Route(target, hop, 1, 150, Relay, later, later + 300_000_000_000, found[1..Min(11, |found|)])
            else Route(target, hop, 2, 250, Relay, later, later + 300_000_000_000, found[1..Min(11, |found|)])
  {
    hide Discovered;
    DiscoveredKeepsOrder(found, target, now);
  }

  /**
   * At most 1000 routes are ever held. A new route displaces another only if the table is full, and
   * then one that was active no later than any other.
   */
  lemma EvictsOldest(before: map<NodeId, Route>, route: Route, after: map<NodeId, Route>, k: NodeId)
    requires |before| <= 1000 && InsertedOrEvicted(before, route, after)
    ensures |after| <= 1000 && route.target in after && after[route.target] == route
    ensures k in after && k != route.target ==> k in before && after[k] == before[k]
    ensures |after| == |before| + if route.target in before || |before| == 1000 then 0 else 1
    ensures k in before && k !in after ==>
              && route.target !in before && |before| == 1000
              && forall other :: other in before ==> before[k].lastActive <= before[other].lastActive
  {
    if route.target in before || |before| < 1000 {
      MapGrows(before, route);
    } else {
      var oldest: NodeId :| Oldest(before, oldest) && after == (before - {oldest})[route.target := route];
      assert (before - {oldest}).Keys == before.Keys - {oldest};
      MapGrows(before - {oldest}, route);
    }
  }

  lemma MapGrows(routes: map<NodeId, Route>, route: Route)
    ensures |routes[route.target := route]| == |routes| + if route.target in routes then 0 else 1
  {
    assert routes[route.target := route].Keys == routes.Keys + {route.target};
  }

  /**
   * The next hop is the nearest known node, and the route is one hop long exactly when the target
   * itself is in the routing table.
   */
  lemma DiscoveryIsNearest(local: NodeId, t: Table, target: NodeId, now: nat)
    requires TableOk(local, t)
    ensures Nearest(t, target, K_BUCKET_SIZE) == [] <==> forall id: NodeId :: !Knows(local, t, id)
    ensures Nearest(t, target, K_BUCKET_SIZE) != [] ==>
              var route := Discovered(Nearest(t, target, K_BUCKET_SIZE), target, now);
              && Knows(local, t, route.nextHop)
              && (forall id: NodeId :: Knows(local, t, id) && id != route.nextHop ==>
                    Dist(target, route.nextHop) < Dist(target, id))
              && (route.hopCount == 1 <==> Knows(local, t, target))
              && (route.hopCount == 1 || route.hopCount == 2)
  {
    hide AllNodes, TableOk, Knows, Dist, Nearest, Discovered;
    var found := Nearest(t, target, K_BUCKET_SIZE);
    NearestIsExact(local, t, target, K_BUCKET_SIZE);
    if found == [] {
      forall id: NodeId
        ensures !Knows(local, t, id)
      {
        AllNodesListKnown(local, t, Node(id, []));
      }
    } else {
      DiscoveredKeepsOrder(found, target, now);
      NearestIsFirst(local, t, target);
      DistZero(target, target);
    }
  }

  /** The first search result beats every other known node. */
  lemma NearestIsFirst(local: NodeId, t: Table, target: NodeId)
    requires TableOk(local, t) && Nearest(t, target, K_BUCKET_SIZE) != []
    ensures var found := Nearest(t, target, K_BUCKET_SIZE);
            && Knows(local, t, found[0].id)
            && forall id: NodeId :: Knows(local, t, id) && id != found[0].id ==>
                 Dist(target, found[0].id) < Dist(target, id)
  {
    hide AllNodes, TableOk, Knows, Dist, Nearest;
    NearestIsExact(local, t, target, K_BUCKET_SIZE);
  }

  /** The second search result, when there is one, beats every known node but the first. */
  lemma NearestIsSecond(local: NodeId, t: Table, target: NodeId)
    requires TableOk(local, t) && |Nearest(t, target, K_BUCKET_SIZE)| > 1
    ensures var found := Nearest(t, target, K_BUCKET_SIZE);
            && Knows(local, t, found[1].id) && found[1].id != found[0].id
            && forall id: NodeId :: Knows(local, t, id) && id != found[0].id && id != found[1].id ==>
                 Dist(target, found[1].id) < Dist(target, id)
  {
    hide AllNodes, TableOk, Knows, Dist, Nearest;
    NearestIsExact(local, t, target, K_BUCKET_SIZE);
    var found := Nearest(t, target, K_BUCKET_SIZE);
    assert Dist(target, found[0].id) < Dist(target, found[1].id);
  }

  /**
   * After a discovery the first call for an alternative moves to the second-nearest known node, and
   * fails exactly when the next hop is the only node known.
   */
  lemma FirstAlternative(local: NodeId, t: Table, target: NodeId, now: nat)
    requires TableOk(local, t) && Nearest(t, target, K_BUCKET_SIZE) != []
    ensures var route := Discovered(Nearest(t, target, K_BUCKET_SIZE), target, now);
            var next := Alternative(route.candidates, route.nextHop, local);
            && (next == None <==> forall id: NodeId :: Knows(local, t, id) ==> id == route.nextHop)
            && (next.Some? ==>
                  && Knows(local, t, next.value) && next.value != route.nextHop
                  && forall id: NodeId :: Knows(local, t, id) && id != route.nextHop && id != next.value ==>
                       Dist(target, next.value) < Dist(target, id))
  {
    hide AllNodes, TableOk, Dist, Nearest, Discovered, BucketIndex, Has;
    var found := Nearest(t, target, K_BUCKET_SIZE);
    NearestIsExact(local, t, target, K_BUCKET_SIZE);
    DiscoveredKeepsOrder(found, target, now);
    if |found| > 1 {
      NearestIsSecond(local, t, target);
      assert found[1..Min(CANDIDATES_MAX + 1, |found|)][0] == found[1];
    } else {
      OnlyOneKnown(local, t, target);
    }
  }

  lemma OnlyOneKnown(local: NodeId, t: Table, target: NodeId)
    requires TableOk(local, t) && |Nearest(t, target, K_BUCKET_SIZE)| == 1
    ensures forall id: NodeId :: Knows(local, t, id) ==> id == Nearest(t, target, K_BUCKET_SIZE)[0].id
  {
    hide TableOk, Knows, Nearest;
    NearestIsExact(local, t, target, K_BUCKET_SIZE);
    var found := Nearest(t, target, K_BUCKET_SIZE);
    assert Knows(local, t, found[0].id);
    forall id: NodeId | Knows(local, t, id)
      ensures id == found[0].id
    {
      AllNodesListKnown(local, t, Node(id, []));
      AllNodesListKnown(local, t, found[0]);
    }
  }

  /** A candidate that a switch may use. */
  predicate Usable(node: Node, current: NodeId, local: NodeId) {
    node.id != current && node.id != local
  }

  /** A switch takes the first usable candidate, and fails exactly if there is none. */
  lemma {:induction false} AlternativeIsFirst(candidates: seq<Node>, current: NodeId, local: NodeId)
    ensures match Alternative(candidates, current, local)
            case None => forall i :: 0 <= i < |candidates| ==> !Usable(candidates[i], current, local)
            case Some(hop) =>
              exists i :: 0 <= i < |candidates| && candidates[i].id == hop && Usable(candidates[i], current, local)
                          && forall j :: 0 <= j < i ==> !Usable(candidates[j], current, local)
  {
    if candidates != [] {
      if Usable(candidates[0], current, local) {
        assert candidates[0].id == Alternative(candidates, current, local).value;
      } else {
        AlternativeIsFirst(candidates[1..], current, local);
        match Alternative(candidates[1..], current, local) {
          case None =>
            assert forall i :: 1 <= i < |candidates| ==> candidates[i] == candidates[1..][i - 1];
          case Some(hop) =>
            var i :| 0 <= i < |candidates[1..]| && candidates[1..][i].id == hop
                     && Usable(candidates[1..][i], current, local)
                     && forall j :: 0 <= j < i ==> !Usable(candidates[1..][j], current, local);
            assert candidates[i + 1].id == hop && Usable(candidates[i + 1], current, local);
            assert forall j :: 1 <= j < i + 1 ==> candidates[j] == candidates[1..][j - 1];
        }
      }
    }
  }

  // ---- repeated switching ----

  /** The next hop after `n` successful calls, or None once a call has failed. */
  function HopAfter(candidates: seq<Node>, first: NodeId, local: NodeId, n: nat): Option<NodeId> {
    if n == 0 then Some(first)
    else match HopAfter(candidates, first, local, n - 1)
      case None => None
      case Some(hop) => Alternative(candidates, hop, local)
  }

  lemma AlternativeSkips(candidates: seq<Node>, local: NodeId)
    requires forall i :: 0 <= i < |candidates| ==> candidates[i].id != local
    requires DistinctNodes(candidates) && candidates != []
    ensures |candidates| == 1 ==> Alternative(candidates, candidates[0].id, local) == None
    ensures |candidates| > 1 ==>
              && Alternative(candidates, candidates[0].id, local) == Some(candidates[1].id)
              && Alternative(candidates, candidates[1].id, local) == Some(candidates[0].id)
  {
    if |candidates| > 1 {
      assert candidates[1..][0] == candidates[1];
      assert candidates[1].id != local && candidates[0].id != candidates[1].id;
      assert Alternative(candidates[1..], candidates[0].id, local) == Some(candidates[1].id);
    } else {
      assert candidates[1..] == [];
    }
  }

  /**
   * However often the switch is repeated, only the first two fallbacks are ever used: the hop
   * alternates between them, and with a single fallback the second call already fails.
   */
  lemma {:induction false} SwitchingAlternates(candidates: seq<Node>, first: NodeId, local: NodeId, n: nat)
    requires forall i :: 0 <= i < |candidates| ==> candidates[i].id != first && candidates[i].id != local
    requires DistinctNodes(candidates) && n > 0
    ensures HopAfter(candidates, first, local, n) ==
            if |candidates| == 0 || (|candidates| == 1 && n > 1) then None
            else Some(candidates[if n % 2 == 1 then 0 else 1].id)
  {
    if n == 1 {
      assert HopAfter(candidates, first, local, 0) == Some(first);
    } else {
      SwitchingAlternates(candidates, first, local, n - 1);
      if |candidates| > 0 {
        hide Alternative;
        AlternativeSkips(candidates, local);
      }
    }
  }

  /** So after a discovery repeated switching uses only the second- and third-nearest known nodes. */
  lemma SwitchingAfterDiscovery(local: NodeId, t: Table, target: NodeId, now: nat, n: nat)
    requires TableOk(local, t) && Nearest(t, target, K_BUCKET_SIZE) != [] && n > 0
    ensures var found := Nearest(t, target, K_BUCKET_SIZE);
            var route := Discovered(found, target, now);
            HopAfter(route.candidates, route.nextHop, local, n) ==
            if |found| == 1 || (|found| == 2 && n > 1) then None
            else Some(found[if n % 2 == 1 then 1 else 2].id)
  {
    hide TableOk, Dist, Nearest, Discovered, HopAfter, AllNodes, BucketIndex, Has;
    var found := Nearest(t, target, K_BUCKET_SIZE);
    NearestIsExact(local, t, target, K_BUCKET_SIZE);
    DiscoveredKeepsOrder(found, target, now);
    var route := Discovered(found, target, now);
    forall i | 0 <= i < |route.candidates|
      ensures route.candidates[i].id != route.nextHop && route.candidates[i].id != local
      ensures forall j :: i < j < |route.candidates| ==> route.candidates[i].id != route.candidates[j].id
    {
      assert route.candidates[i] == found[i + 1];
      assert Dist(target, found[0].id) < Dist(target, found[i + 1].id);
      assert Knows(local, t, found[i + 1].id);
      forall j | i < j < |route.candidates|
        ensures route.candidates[i].id != route.candidates[j].id
      {
        assert Dist(target, found[i + 1].id) < Dist(target, found[j + 1].id);
      }
    }
    SwitchingAlternates(route.candidates, route.nextHop, local, n);
  }
}
