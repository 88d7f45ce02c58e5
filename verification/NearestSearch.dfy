/** Nearest-node search over the whole routing table, by sorting every known node on its XOR distance. */
module NearestSearch {
  import opened Machine
  import opened NodeDistance
  import opened Buckets
  import opened NodeListCodec
  import opened Sorting
  import opened RoutingTable

  function BucketNodes(b: seq<Entry>): seq<Node> {
    seq(|b|, k requires 0 <= k < |b| => Node(b[k].id, b[k].addr))
  }

  /** The nodes of the first `n` buckets, in table order. */
  function NodesUpTo(t: Table, n: nat): seq<Node>
    requires n <= BUCKET_COUNT
  {
    if n == 0 then [] else NodesUpTo(t, n - 1) + BucketNodes(t[n - 1])
  }

  function AllNodes(t: Table): seq<Node> {
    NodesUpTo(t, BUCKET_COUNT)
  }

  function ByDistance(target: NodeId): Node -> nat {
    (node: Node) => Dist(target, node.id)
  }

  function Nearest(t: Table, target: NodeId, count: nat): seq<Node> {
    var sorted := Sort(ByDistance(target), AllNodes(t));
    sorted[..Min(count, |sorted|)]
  }

  // ---- the table holds each known node once ----

  predicate DistinctNodes(nodes: seq<Node>) {
    forall i, j :: 0 <= i < j < |nodes| ==> nodes[i].id != nodes[j].id
  }

  lemma {:induction false} NodesUpToDistinct(local: NodeId, t: Table, n: nat)
    requires TableOk(local, t) && n <= BUCKET_COUNT
    ensures DistinctNodes(NodesUpTo(t, n))
    ensures forall k :: 0 <= k < |NodesUpTo(t, n)| ==>
              BucketIndex(local, NodesUpTo(t, n)[k].id) < n && Knows(local, t, NodesUpTo(t, n)[k].id)
  {
    hide BucketIndex;
    if n > 0 {
      NodesUpToDistinct(local, t, n - 1);
      var front, b := NodesUpTo(t, n - 1), t[n - 1];
      assert BucketOk(local, n - 1, b);
      forall k | 0 <= k < |b|
        ensures BucketIndex(local, b[k].id) == n - 1 && Knows(local, t, b[k].id)
      {
        assert Has(b, b[k].id);
      }
    }
  }

  lemma {:induction false} KnownIsListed(local: NodeId, t: Table, id: NodeId, n: nat)
    requires Knows(local, t, id) && BucketIndex(local, id) < n <= BUCKET_COUNT
    ensures Lists(NodesUpTo(t, n), id)
  {
    hide BucketIndex;
    var b := t[n - 1];
    if BucketIndex(local, id) == n - 1 {
      var k :| 0 <= k < |b| && b[k].id == id;
      assert NodesUpTo(t, n)[|NodesUpTo(t, n - 1)| + k].id == id;
    } else {
      KnownIsListed(local, t, id, n - 1);
      var k :| 0 <= k < |NodesUpTo(t, n - 1)| && NodesUpTo(t, n - 1)[k].id == id;
      assert NodesUpTo(t, n)[k].id == id;
    }
  }

  /** The table holds the node: an entry in its bucket has its identifier and its address. */
  predicate Holds(local: NodeId, t: Table, node: Node) {
    exists e :: e in t[BucketIndex(local, node.id)] && e.id == node.id && e.addr == node.addr
  }

  lemma BucketNodesHold(b: seq<Entry>, node: Node)
    ensures node in BucketNodes(b) <==> exists e :: e in b && e.id == node.id && e.addr == node.addr
  {
    if e :| e in b && e.id == node.id && e.addr == node.addr {
      var k :| 0 <= k < |b| && b[k] == e;
      assert BucketNodes(b)[k] == node;
    }
    if node in BucketNodes(b) {
      var k :| 0 <= k < |b| && BucketNodes(b)[k] == node;
      assert b[k] in b;
    }
  }

  lemma {:induction false} NodesUpToHold(local: NodeId, t: Table, node: Node, n: nat)
    requires TableOk(local, t) && n <= BUCKET_COUNT
    ensures node in NodesUpTo(t, n) <==> Holds(local, t, node) && BucketIndex(local, node.id) < n
  {
    hide BucketIndex, BucketNodes;
    if n > 0 {
      NodesUpToHold(local, t, node, n - 1);
      BucketNodesHold(t[n - 1], node);
      assert BucketOk(local, n - 1, t[n - 1]);
    }
  }

  /** The listing of the whole table: the nodes it holds with their addresses, each identifier once. */
  lemma AllNodesListKnown(local: NodeId, t: Table, node: Node)
    requires TableOk(local, t)
    ensures DistinctNodes(AllNodes(t))
    ensures node in AllNodes(t) <==> Holds(local, t, node)
    ensures Lists(AllNodes(t), node.id) <==> Knows(local, t, node.id)
  {
    hide NodesUpTo, BucketIndex, TableOk, Knows, Holds;
    NodesUpToDistinct(local, t, BUCKET_COUNT);
    NodesUpToHold(local, t, node, BUCKET_COUNT);
    if Knows(local, t, node.id) {
      KnownIsListed(local, t, node.id, BUCKET_COUNT);
    }
  }

  // ---- the sorted listing ----

  lemma SameElements(a: seq<Node>, b: seq<Node>, id: NodeId)
    requires multiset(a) == multiset(b)
    ensures Lists(a, id) <==> Lists(b, id)
    ensures DistinctNodes(a) ==> DistinctNodes(b)
  {
    if Lists(a, id) {
      ListsCount(a, b, id);
    }
    if Lists(b, id) {
      ListsCount(b, a, id);
    }
    if DistinctNodes(a) && !DistinctNodes(b) {
      var i, j :| 0 <= i < j < |b| && b[i].id == b[j].id;
      assert b[i] in multiset(a) && b[j] in multiset(a);
      var p :| 0 <= p < |a| && a[p] == b[i];
      var q :| 0 <= q < |a| && a[q] == b[j];
      assert p == q;
      RepeatCounts(b, i, j);
      OnceCounts(a, b[i]);
    }
  }

  lemma ListsCount(a: seq<Node>, b: seq<Node>, id: NodeId)
    requires multiset(a) == multiset(b) && Lists(a, id)
    ensures Lists(b, id)
  {
    var k :| 0 <= k < |a| && a[k].id == id;
    assert a[k] in multiset(b);
    assert a[k] in b;
  }

  lemma RepeatCounts(b: seq<Node>, i: nat, j: nat)
    requires i < j < |b| && b[i] == b[j]
    ensures multiset(b)[b[i]] >= 2
  {
    assert b == b[..j] + b[j..];
    assert b[i] in multiset(b[..j]) by { assert b[..j][i] == b[i]; }
    assert b[j] in multiset(b[j..]) by { assert b[j..][0] == b[j]; }
  }

  lemma {:induction false} OnceCounts(a: seq<Node>, x: Node)
    requires DistinctNodes(a)
    ensures multiset(a)[x] <= 1
  {
    if a != [] {
      var init, last := a[..|a| - 1], a[|a| - 1];
      OnceCounts(init, x);
      assert a == init + [last];
      assert x == last ==> x !in init;
    }
  }

  predicate StrictlyFarther(target: NodeId, nodes: seq<Node>) {
    forall i, j :: 0 <= i < j < |nodes| ==> Dist(target, nodes[i].id) < Dist(target, nodes[j].id)
  }

  lemma SortedIsStrict(target: NodeId, nodes: seq<Node>)
    requires DistinctNodes(nodes) && Sorted(ByDistance(target), nodes)
    ensures StrictlyFarther(target, nodes)
  {
    hide Dist;
    forall i, j | 0 <= i < j < |nodes|
      ensures Dist(target, nodes[i].id) < Dist(target, nodes[j].id)
    {
      DistInjective(target, nodes[i].id, nodes[j].id);
      assert ByDistance(target)(nodes[i]) <= ByDistance(target)(nodes[j]);
    }
  }

  /** The table sorted by distance: strictly increasing, and it lists exactly the known nodes. */
  lemma SortedTable(local: NodeId, t: Table, target: NodeId)
    ensures TableOk(local, t) ==> StrictlyFarther(target, Sort(ByDistance(target), AllNodes(t)))
    ensures |Sort(ByDistance(target), AllNodes(t))| == |AllNodes(t)|
    ensures TableOk(local, t) ==>
              forall id: NodeId :: Lists(Sort(ByDistance(target), AllNodes(t)), id) <==> Knows(local, t, id)
  {
    hide AllNodes, TableOk, Knows, Sort, StrictlyFarther;
    var sorted := Sort(ByDistance(target), AllNodes(t));
    SortIsStable(ByDistance(target), AllNodes(t), 0);
    if TableOk(local, t) {
      forall id: NodeId
        ensures Lists(sorted, id) <==> Knows(local, t, id)
      {
        AllNodesListKnown(local, t, Node(id, []));
        SameElements(AllNodes(t), sorted, id);
      }
      AllNodesListKnown(local, t, Node(local, []));
      SameElements(AllNodes(t), sorted, local);
      SortedIsStrict(target, sorted);
    }
  }

  lemma FoundIsHeld(local: NodeId, t: Table, target: NodeId, count: nat, i: nat)
    requires TableOk(local, t) && i < |Nearest(t, target, count)|
    ensures Holds(local, t, Nearest(t, target, count)[i])
  {
    hide AllNodes, TableOk, Holds, Sort;
    var sorted := Sort(ByDistance(target), AllNodes(t));
    var node := Nearest(t, target, count)[i];
    SortIsStable(ByDistance(target), AllNodes(t), 0);
    assert node in multiset(sorted);
    assert node in AllNodes(t);
    AllNodesListKnown(local, t, node);
  }

  /**
   * The search is exact: it returns min(count, size of the table) nodes the table holds, with their
   * addresses, in strictly increasing distance, and every known node left out is farther than every
   * node returned.
   */
  lemma NearestIsExact(local: NodeId, t: Table, target: NodeId, count: nat)
    requires TableOk(local, t)
    ensures var found := Nearest(t, target, count);
            && |found| == Min(count, |AllNodes(t)|)
            && StrictlyFarther(target, found)
            && (forall i :: 0 <= i < |found| ==> Knows(local, t, found[i].id) && Holds(local, t, found[i]))
            && (forall id: NodeId, i ::
                  0 <= i < |found| && Knows(local, t, id) && !Lists(found, id) ==>
                    Dist(target, found[i].id) < Dist(target, id))
  {
    hide AllNodes, TableOk, Knows, Holds, Sort, Dist;
    var sorted := Sort(ByDistance(target), AllNodes(t));
    var found := Nearest(t, target, count);
    SortedTable(local, t, target);
    forall i | 0 <= i < |found|
      ensures Knows(local, t, found[i].id) && Holds(local, t, found[i])
    {
      FoundIsHeld(local, t, target, count, i);
      assert sorted[i].id == found[i].id;
      assert Lists(sorted, found[i].id);
    }
    forall id: NodeId, i | 0 <= i < |found| && Knows(local, t, id) && !Lists(found, id)
      ensures Dist(target, found[i].id) < Dist(target, id)
    {
      var k :| 0 <= k < |sorted| && sorted[k].id == id;
      assert sorted[i].id == found[i].id;
    }
  }

  // ---- the answer depends on the known set alone ----

  function Ids(nodes: seq<Node>): seq<NodeId> {
    seq(|nodes|, k requires 0 <= k < |nodes| => nodes[k].id)
  }

  lemma {:induction false} StrictOrderIsUnique(target: NodeId, a: seq<Node>, b: seq<Node>)
    requires StrictlyFarther(target, a) && StrictlyFarther(target, b)
    requires forall id: NodeId :: Lists(a, id) <==> Lists(b, id)
    ensures Ids(a) == Ids(b)
  {
    hide Dist;
    if a == [] {
      assert b != [] ==> Lists(b, b[0].id);
    } else {
      var x := a[|a| - 1].id;
      assert Lists(a, x);
      assert b != [];
      var y := b[|b| - 1].id;
      assert Lists(b, y);
      LastIsFarthest(target, a, y);
      LastIsFarthest(target, b, x);
      DistInjective(target, x, y);
      var a', b' := a[..|a| - 1], b[..|b| - 1];
      forall id: NodeId
        ensures Lists(a', id) <==> Lists(b', id)
      {
        DropLast(target, a, id);
        DropLast(target, b, id);
      }
      StrictOrderIsUnique(target, a', b');
      assert Ids(a) == Ids(a') + [x] && Ids(b) == Ids(b') + [y];
    }
  }

  lemma LastIsFarthest(target: NodeId, a: seq<Node>, id: NodeId)
    requires StrictlyFarther(target, a) && Lists(a, id)
    ensures Dist(target, id) <= Dist(target, a[|a| - 1].id)
  {
  }

  lemma DropLast(target: NodeId, a: seq<Node>, id: NodeId)
    requires StrictlyFarther(target, a) && a != []
    ensures Lists(a[..|a| - 1], id) <==> Lists(a, id) && id != a[|a| - 1].id
  {
    hide Dist;
    var init := a[..|a| - 1];
    if Lists(a, id) && id != a[|a| - 1].id {
      var k :| 0 <= k < |a| && a[k].id == id;
      assert init[k].id == id;
    }
    if Lists(init, id) {
      var k :| 0 <= k < |init| && init[k].id == id;
      assert a[k].id == id;
    }
  }

  /** Two tables that know the same nodes give the same identifiers, whatever their histories. */
  lemma NearestDependsOnKnown(local: NodeId, t: Table, u: Table, target: NodeId, count: nat)
    requires TableOk(local, t) && TableOk(local, u)
    requires forall id: NodeId :: Knows(local, t, id) <==> Knows(local, u, id)
    ensures Ids(Nearest(t, target, count)) == Ids(Nearest(u, target, count))
  {
    hide AllNodes, TableOk, Knows, Sort, StrictlyFarther, Lists;
    var p, q := Sort(ByDistance(target), AllNodes(t)), Sort(ByDistance(target), AllNodes(u));
    SortedTable(local, t, target);
    SortedTable(local, u, target);
    StrictOrderIsUnique(target, p, q);
    assert |Ids(p)| == |p| && |Ids(q)| == |q|;
    var n := Min(count, |p|);
    assert Ids(p[..n]) == Ids(p)[..n] && Ids(q[..n]) == Ids(q)[..n];
  }
}
