/**
 The peer graph of ac-lib/tree.c: heap nodes whose `connections` grow in place.
 Both branches of combineNodesToGraph are proved to build an exact multigraph.
 */
module PeerGraph {
  import opened Sequences

  class Node<D> {
    const data: D  // never written after createNode
    var numConnections: int
    var connections: seq<Node<D>>

    // createNode
    constructor (data: D)
      ensures this.data == data && numConnections == 0 && connections == []
    {
      this.data := data;
      numConnections := 0;
      connections := [];
    }

    predicate Counted()
      reads this
    {
      numConnections == |connections|
    }
  }

  method AddConnection<D>(uno: Node<D>, dos: Node<D>) returns (code: int)
    requires uno.Counted() && dos.Counted()
    modifies uno, dos
    ensures uno.Counted() && dos.Counted()
    ensures code == if uno == dos then 1 else 0
    ensures uno == dos ==> uno.connections == old(uno.connections)
    ensures uno != dos ==>
              && uno.connections == old(uno.connections) + [dos]
              && dos.connections == old(dos.connections) + [uno]
  {
    if uno == dos {
      return 1;
    }
    uno.connections := uno.connections + [dos];
    uno.numConnections := uno.numConnections + 1;
    dos.connections := dos.connections + [uno];
    dos.numConnections := dos.numConnections + 1;
    return 0;
  }

  // ----- which connections are made: calls addConnection(group[from], group[to])

  datatype Edge = Edge(from: nat, to: nat)

  // The first k targets of row `count` of the ring branch: `sub` runs from 1 to k, and
  // beyond the end of the group the index is `0+sub`.
  function RingTargets(size: nat, count: nat, k: nat): (t: seq<nat>)
    ensures |t| == k
    ensures forall x :: 0 <= x < k ==> t[x] == if count + (x + 1) >= size then x + 1 else count + (x + 1)
  {
    seq(k, x requires 0 <= x < k => if count + (x + 1) >= size then x + 1 else count + (x + 1))
  }

  function UpTo(k: nat): (t: seq<nat>)
    ensures |t| == k
    ensures forall x :: 0 <= x < k ==> t[x] == x
  {
    seq(k, x requires 0 <= x < k => x)
  }

  // The targets of row `count`, in the order of the inner loop.
  function Targets(minConnections: int, size: nat, count: nat): seq<nat>
    requires count < size
  {
    if size < minConnections - 1 then RingTargets(size, count, size - 1) else UpTo(size)
  }

  function Row(count: nat, targets: seq<nat>): (r: seq<Edge>)
    ensures |r| == |targets|
    ensures forall k :: 0 <= k < |r| ==> r[k] == Edge(count, targets[k])
  {
    seq(|targets|, k requires 0 <= k < |targets| => Edge(count, targets[k]))
  }

  function AllTargets(minConnections: int, size: nat): (tt: seq<seq<nat>>)
    ensures |tt| == size
    ensures forall c :: 0 <= c < size ==> tt[c] == Targets(minConnections, size, c)
  {
    seq(size, c requires 0 <= c < size => Targets(minConnections, size, c))
  }

  // The calls of the outer loop, given the targets of every row.
  function Calls(tt: seq<seq<nat>>): seq<Edge> {
    if tt == [] then []
    else Calls(tt[..|tt| - 1]) + Row(|tt| - 1, tt[|tt| - 1])
  }

  function Edges(minConnections: int, size: nat): seq<Edge> {
    Calls(AllTargets(minConnections, size))
  }

  // What one call appends to node i; a call on one node twice does nothing.
  function Ends(e: Edge, i: nat): seq<nat> {
    if e.from == e.to then []
    else if e.from == i then [e.to]
    else if e.to == i then [e.from]
    else []
  }

  // The connections that node i gains from a sequence of calls, as indices.
  function Incident(edges: seq<Edge>, i: nat): seq<nat> {
    if edges == [] then []
    else Incident(edges[..|edges| - 1], i) + Ends(edges[|edges| - 1], i)
  }

  // Node i's connections in the finished graph.
  function Neighbours(minConnections: int, size: nat, i: nat): seq<nat> {
    Incident(Edges(minConnections, size), i)
  }

  // ----- the builder

  ghost predicate InRange(edges: seq<Edge>, size: nat) {
    forall k :: 0 <= k < |edges| ==> edges[k].from < size && edges[k].to < size
  }

  lemma {:induction false} CallsInRange(tt: seq<seq<nat>>, size: nat)
    requires |tt| <= size
    requires forall c :: 0 <= c < |tt| ==> forall k :: 0 <= k < |tt[c]| ==> tt[c][k] < size
    ensures InRange(Calls(tt), size)
  {
    if tt != [] {
      CallsInRange(tt[..|tt| - 1], size);
    }
  }

  lemma {:induction false} IncidentInRange(edges: seq<Edge>, i: nat, size: nat)
    requires InRange(edges, size)
    ensures forall k :: 0 <= k < |Incident(edges, i)| ==> Incident(edges, i)[k] < size && Incident(edges, i)[k] != i
  {
    if edges != [] {
      IncidentInRange(edges[..|edges| - 1], i, size);
    }
  }

  // Node i has what it started with followed by what the calls gave it.
  ghost predicate WiredAt<D>(group: seq<Node<D>>, base: seq<seq<Node<D>>>, edges: seq<Edge>, i: nat)
    requires |base| == |group| && i < |group|
    reads group
  {
    && group[i].Counted()
    && (forall k :: 0 <= k < |Incident(edges, i)| ==> Incident(edges, i)[k] < |group|)
    && group[i].connections == base[i] + Pick(group, Incident(edges, i))
  }

  ghost predicate Wired<D>(group: seq<Node<D>>, base: seq<seq<Node<D>>>, edges: seq<Edge>)
    requires |base| == |group|
    reads group
  {
    forall i :: 0 <= i < |group| ==> WiredAt(group, base, edges, i)
  }

  lemma LastIncident(edges: seq<Edge>, e: Edge, i: nat)
    ensures Incident(edges + [e], i) == Incident(edges, i) + Ends(e, i)
  {
    assert (edges + [e])[..|edges|] == edges;
  }

  lemma Gain<D>(group: seq<Node<D>>, edges: seq<Edge>, e: Edge, i: nat)
    requires e.from < |group| && e.to < |group|
    requires forall k :: 0 <= k < |Incident(edges, i)| ==> Incident(edges, i)[k] < |group|
    ensures Incident(edges + [e], i) == Incident(edges, i) + Ends(e, i)
    ensures Pick(group, Incident(edges + [e], i)) == Pick(group, Incident(edges, i)) + Pick(group, Ends(e, i))
  {
    LastIncident(edges, e, i);
  }

  lemma PickEnds<D>(group: seq<Node<D>>, u: nat, v: nat, i: nat)
    requires u < |group| && v < |group|
    ensures forall k :: 0 <= k < |Ends(Edge(u, v), i)| ==> Ends(Edge(u, v), i)[k] < |group|
    ensures Pick(group, Ends(Edge(u, v), i))
            == if u == v then [] else if i == u then [group[v]] else if i == v then [group[u]] else []
  {
  }

  // One call on two group members, with the new state of the whole group.
  method Connect<D>(group: seq<Node<D>>, ghost base: seq<seq<Node<D>>>, ghost edges: seq<Edge>, u: nat, v: nat)
    requires |base| == |group| && Distinct(group) && u < |group| && v < |group|
    requires Wired(group, base, edges)
    modifies group[u], group[v]
    ensures Wired(group, base, edges + [Edge(u, v)])
  {
    hide Incident, Ends, Pick;
    assert WiredAt(group, base, edges, u) && WiredAt(group, base, edges, v);
    var _ := AddConnection(group[u], group[v]);
    forall i | 0 <= i < |group| ensures WiredAt(group, base, edges + [Edge(u, v)], i) {
      assert old(WiredAt(group, base, edges, i));
      Gain(group, edges, Edge(u, v), i);
      PickEnds(group, u, v, i);
      var gained := Pick(group, Ends(Edge(u, v), i));
      assert group[i].connections == old(group[i].connections) + gained;
    }
  }

  // The inner loop of the first branch.
  method ConnectRingRow<D>(group: seq<Node<D>>, ghost base: seq<seq<Node<D>>>, ghost done: seq<Edge>,
                           count: nat, target: int, ghost row: seq<Edge>)
    requires |base| == |group| && Distinct(group) && count < |group| == target
    requires row == Row(count, RingTargets(target, count, target - 1))
    requires Wired(group, base, done)
    modifies group
    ensures Wired(group, base, done + row)
  {
    assert done + row[..0] == done;
    for sub := 1 to target
      invariant Wired(group, base, done + row[..sub - 1])
    {
      NextCall(done, row, sub - 1);
      if count + sub >= |group| {
        Connect(group, base, done + row[..sub - 1], count, 0 + sub);
      } else {
        Connect(group, base, done + row[..sub - 1], count, count + sub);
      }
    }
    assert row[..target - 1] == row;
  }

  // The nested loops of the first branch.
  method ConnectRing<D>(group: seq<Node<D>>, ghost base: seq<seq<Node<D>>>, minConnections: int)
    requires |base| == |group| && Distinct(group) && 1 <= |group| < minConnections - 1
    requires Wired(group, base, [])
    modifies group
    ensures Wired(group, base, Edges(minConnections, |group|))
  {
    var size := |group|;
    ghost var tt := AllTargets(minConnections, size);
    for count := 0 to size
      invariant Wired(group, base, Calls(tt[..count]))
    {
      ghost var done := Calls(tt[..count]);
      assert tt[..count + 1][..count] == tt[..count];
      ghost var row := Row(count, Targets(minConnections, size, count));
      var target := if size < minConnections then size else minConnections;
      ConnectRingRow(group, base, done, count, target, row);
    }
    assert tt[..size] == tt;
  }

  // The nested loops of the last branch.
  method ConnectAllPairs<D>(group: seq<Node<D>>, ghost base: seq<seq<Node<D>>>, ghost minConnections: int)
    requires |base| == |group| && Distinct(group) && |group| >= minConnections - 1
    requires Wired(group, base, [])
    modifies group
    ensures Wired(group, base, Edges(minConnections, |group|))
  {
    var size := |group|;
    ghost var tt := AllTargets(minConnections, size);
    for count := 0 to size
      invariant Wired(group, base, Calls(tt[..count]))
    {
      ghost var done := Calls(tt[..count]);
      assert tt[..count + 1][..count] == tt[..count];
      ghost var row := Row(count, Targets(minConnections, size, count));
      assert done + row[..0] == done;
      for subCount := 0 to size
        invariant Wired(group, base, done + row[..subCount])
      {
        NextCall(done, row, subCount);
        if count == subCount {
          SelfCall(group, base, done + row[..subCount], count);
        } else {
          Connect(group, base, done + row[..subCount], count, subCount);
        }
      }
      assert row[..size] == row;
    }
    assert tt[..size] == tt;
  }

  /** Connects the group in place; group[i] gains exactly Neighbours(.., i), in order.
      Returns the last node as the head of the graph. */
  method CombineNodesToGraph<D>(group: seq<Node<D>>, minConnections: int) returns (head: Node<D>)
    requires |group| >= 1 && Distinct(group)
    requires forall i :: 0 <= i < |group| ==> group[i].Counted()
    modifies group
    ensures forall i :: 0 <= i < |group| ==> group[i].Counted()
    ensures forall i :: 0 <= i < |group| ==>
              && (forall k :: 0 <= k < |Neighbours(minConnections, |group|, i)| ==>
                    Neighbours(minConnections, |group|, i)[k] < |group|)
              && group[i].connections ==
                   old(group[i].connections) + Pick(group, Neighbours(minConnections, |group|, i))
    ensures head == group[|group| - 1]
  {
    var size := |group|;
    ghost var base := seq(size, i requires 0 <= i < size reads group => group[i].connections);
    forall i | 0 <= i < size ensures WiredAt(group, base, [], i) {
      assert base[i] + Pick(group, []) == base[i];
    }
    if size == 1 {
      OneNode(minConnections);
      assert WiredAt(group, base, [], 0);
      assert Wired(group, base, Edges(minConnections, size));
    } else if size < minConnections - 1 {
      ConnectRing(group, base, minConnections);
    } else {
      ConnectAllPairs(group, base, minConnections);
    }
    forall i | 0 <= i < size
      ensures group[i].Counted()
      ensures forall k :: 0 <= k < |Neighbours(minConnections, size, i)| ==>
                Neighbours(minConnections, size, i)[k] < size
      ensures group[i].connections == old(group[i].connections) + Pick(group, Neighbours(minConnections, size, i))
    {
      assert WiredAt(group, base, Edges(minConnections, size), i);
    }
    return group[size - 1];
  }

  lemma NextCall(done: seq<Edge>, row: seq<Edge>, k: nat)
    requires k < |row|
    ensures done + row[..k] + [row[k]] == done + row[..k + 1]
  {
  }

  // A skipped cell changes nothing, like a call on one node twice.
  lemma SelfCall<D>(group: seq<Node<D>>, base: seq<seq<Node<D>>>, edges: seq<Edge>, u: nat)
    requires |base| == |group| && u < |group|
    requires Wired(group, base, edges)
    ensures Wired(group, base, edges + [Edge(u, u)])
  {
    forall i | 0 <= i < |group| ensures WiredAt(group, base, edges + [Edge(u, u)], i) {
      assert WiredAt(group, base, edges, i);
      Gain(group, edges, Edge(u, u), i);
    }
  }

  lemma OneNode(minConnections: int)
    ensures Incident(Edges(minConnections, 1), 0) == []
  {
    var t := Targets(minConnections, 1, 0);
    var tt := AllTargets(minConnections, 1);
    assert tt == [t] && tt[..0] == [] && Calls(tt) == Row(0, t);
    assert |t| <= 1;
    if |t| == 1 {
      assert Row(0, t) == [Edge(0, 0)];
      assert [Edge(0, 0)][..0] == [];
    }
  }

  // ----- how often each pair is connected

  function Count(s: seq<nat>, x: nat): nat {
    multiset(s)[x]
  }

  lemma {:induction false} IncidentConcat(a: seq<Edge>, b: seq<Edge>, i: nat)
    ensures Incident(a + b, i) == Incident(a, i) + Incident(b, i)
  {
    if b == [] {
      assert a + b == a;
    } else {
      hide Incident, Ends;
      var n := |b| - 1;
      IncidentConcat(a, b[..n], i);
      LastIncident(b[..n], b[n], i);
      LastIncident(a + b[..n], b[n], i);
      assert b[..n] + [b[n]] == b by {
        LastApart(b);
      }
      Regroup(a, b[..n], [b[n]]);
      Regroup(Incident(a, i), Incident(b[..n], i), Ends(b[n], i));
    }
  }

  // A row gives its own node every target, and every target the row's node.
  lemma {:induction false} RowCount(count: nat, t: seq<nat>, i: nat, j: nat)
    requires i != j
    ensures Count(Incident(Row(count, t), i), j)
            == (if count == i then Count(t, j) else 0) + (if count == j then Count(t, i) else 0)
  {
    if t != [] {
      var n := |t| - 1;
      assert t == t[..n] + [t[n]];
      assert Row(count, t)[..n] == Row(count, t[..n]);
      RowCount(count, t[..n], i, j);
    }
  }

  lemma {:induction false} CallsCount(tt: seq<seq<nat>>, i: nat, j: nat)
    requires i != j
    ensures Count(Incident(Calls(tt), i), j)
            == (if i < |tt| then Count(tt[i], j) else 0) + (if j < |tt| then Count(tt[j], i) else 0)
  {
    if tt != [] {
      var n := |tt| - 1;
      CallsCount(tt[..n], i, j);
      OneMoreRow(Calls(tt[..n]), n, tt[n], i, j);
    }
  }

  lemma OneMoreRow(before: seq<Edge>, count: nat, t: seq<nat>, i: nat, j: nat)
    requires i != j
    ensures Count(Incident(before + Row(count, t), i), j) == Count(Incident(before, i), j)
            + (if count == i then Count(t, j) else 0) + (if count == j then Count(t, i) else 0)
  {
    IncidentConcat(before, Row(count, t), i);
    RowCount(count, t, i, j);
  }

  lemma {:induction false} CountUpTo(k: nat, j: nat)
    ensures Count(UpTo(k), j) == if j < k then 1 else 0
  {
    if k > 0 {
      assert UpTo(k) == UpTo(k - 1) + [k - 1];
      CountUpTo(k - 1, j);
    }
  }

  // An index occurs once for being at most k ahead, and once more if it is one that the
  // wrap-around, which starts again at 0, reaches.
  lemma {:induction false} CountRing(size: nat, count: nat, k: nat, j: nat)
    requires count < size && k < size && j < size && j != count
    ensures Count(RingTargets(size, count, k), j)
            == (if count < j <= count + k then 1 else 0) + (if 1 <= j <= k && count + j >= size then 1 else 0)
  {
    if k > 0 {
      var s := RingTargets(size, count, k);
      assert s == RingTargets(size, count, k - 1) + [s[k - 1]];
      CountRing(size, count, k - 1, j);
    }
  }

  // How often i and j end up connected.
  function Multiplicity(minConnections: int, size: nat, i: nat, j: nat): nat {
    if i == j then 0
    else if size < minConnections - 1 && i + j < size then 1
    else if size < minConnections - 1 then 3
    else 2
  }

  // The exact multigraph of both branches.
  lemma ExactMultigraph(minConnections: int, size: nat, i: nat, j: nat)
    requires i < size && j < size
    ensures Count(Neighbours(minConnections, size, i), j) == Multiplicity(minConnections, size, i, j)
  {
    if i == j {
      NeighboursInRange(minConnections, size, i);
    } else {
      CallsCount(AllTargets(minConnections, size), i, j);
      CountTargets(minConnections, size, i, j);
      CountTargets(minConnections, size, j, i);
    }
  }

  lemma CountTargets(minConnections: int, size: nat, i: nat, j: nat)
    requires i < size && j < size && i != j
    ensures Count(Targets(minConnections, size, i), j)
            == if size < minConnections - 1
               then (if i < j then 1 else 0) + (if 1 <= j && i + j >= size then 1 else 0)
               else 1
  {
    if size < minConnections - 1 {
      CountRing(size, i, size - 1, j);
    } else {
      CountUpTo(size, j);
    }
  }

  lemma NeighboursInRange(minConnections: int, size: nat, i: nat)
    ensures forall k :: 0 <= k < |Neighbours(minConnections, size, i)| ==>
              Neighbours(minConnections, size, i)[k] < size && Neighbours(minConnections, size, i)[k] != i
  {
    CallsInRange(AllTargets(minConnections, size), size);
    IncidentInRange(Edges(minConnections, size), i, size);
  }

  // ----- degrees

  function SumOfCounts(s: seq<nat>, n: nat): nat {
    if n == 0 then 0 else SumOfCounts(s, n - 1) + Count(s, n - 1)
  }

  lemma {:induction false} LengthIsSumOfCounts(s: seq<nat>, n: nat)
    requires forall k :: 0 <= k < |s| ==> s[k] < n
    ensures |s| == SumOfCounts(s, n)
  {
    if s == [] {
      NoCounts(n);
    } else {
      LengthIsSumOfCounts(s[..|s| - 1], n);
      assert s == s[..|s| - 1] + [s[|s| - 1]];
      OneMoreCount(s[..|s| - 1], s[|s| - 1], n);
    }
  }

  lemma {:induction false} NoCounts(n: nat)
    ensures SumOfCounts([], n) == 0
  {
    if n > 0 {
      NoCounts(n - 1);
    }
  }

  lemma {:induction false} OneMoreCount(s: seq<nat>, x: nat, n: nat)
    ensures SumOfCounts(s + [x], n) == SumOfCounts(s, n) + if x < n then 1 else 0
  {
    if n > 0 {
      OneMoreCount(s, x, n - 1);
    }
  }

  // The number of connections of node i.
  function Degree(minConnections: int, size: nat, i: nat): int {
    if size < minConnections - 1 then size - 1 + 2 * i - (if 2 * i >= size then 2 else 0)
    else 2 * (size - 1)
  }

  lemma ExactDegree(minConnections: int, size: nat, i: nat)
    requires i < size
    ensures |Neighbours(minConnections, size, i)| == Degree(minConnections, size, i)
  {
    var s := Neighbours(minConnections, size, i);
    NeighboursInRange(minConnections, size, i);
    LengthIsSumOfCounts(s, size);
    PartialDegree(minConnections, size, i, size);
  }

  lemma {:induction false} PartialDegree(minConnections: int, size: nat, i: nat, n: nat)
    requires i < size && n <= size
    ensures SumOfCounts(Neighbours(minConnections, size, i), n)
            == if size < minConnections - 1
               then n - (if i < n then 1 else 0)
                    + (if i + n > size then 2 * (i + n - size) else 0)
                    - (if i < n && 2 * i >= size then 2 else 0)
               else 2 * (n - (if i < n then 1 else 0))
  {
    hide Neighbours;
    if n > 0 {
      PartialDegree(minConnections, size, i, n - 1);
      ExactMultigraph(minConnections, size, i, n - 1);
    }
  }
}
