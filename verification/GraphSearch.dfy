/**
 The breadth-first search of manage_graph: a queue and a seen list, both lists of
 ac-lib/list.c, over the heap nodes of ac-lib/tree.c.
 */
module GraphSearch {
  import opened Sequences
  import opened LinkedList
  import opened PeerGraph

  // ----- graph distance, independent of any search

  type Adjacency<!V> = map<V, seq<V>>

  ghost predicate Closed<V>(g: Adjacency<V>) {
    forall v, w :: v in g && w in g[v] ==> w in g
  }

  ghost function Succs<V>(g: Adjacency<V>, s: set<V>): set<V> {
    set v, w | v in s && v in g && w in g[v] :: w
  }

  // The nodes at most d edges away from root.
  ghost function Ball<V>(g: Adjacency<V>, root: V, d: nat): set<V> {
    if d == 0 then {root} else Ball(g, root, d - 1) + Succs(g, Ball(g, root, d - 1))
  }

  ghost predicate Reachable<V>(g: Adjacency<V>, root: V, v: V) {
    exists d: nat :: v in Ball(g, root, d)
  }

  ghost predicate AtDistance<V>(g: Adjacency<V>, root: V, v: V, d: nat) {
    v in Ball(g, root, d) && (d > 0 ==> v !in Ball(g, root, d - 1))
  }

  lemma {:induction false} BallGrows<V>(g: Adjacency<V>, root: V, d: nat, e: nat)
    requires d <= e
    ensures Ball(g, root, d) <= Ball(g, root, e)
    decreases e
  {
    if d < e {
      BallGrows(g, root, d, e - 1);
    }
  }

  lemma {:induction false} BallStops<V>(g: Adjacency<V>, root: V, d: nat, e: nat)
    requires Succs(g, Ball(g, root, d)) <= Ball(g, root, d)
    ensures Ball(g, root, e) <= Ball(g, root, d)
    decreases e
  {
    if e <= d {
      BallGrows(g, root, e, d);
    } else {
      BallStops(g, root, d, e - 1);
    }
  }

  // ----- the search on values: `seen` in order, of which the first k have left the queue

  ghost function Elems<V>(s: seq<V>): set<V> {
    set v | v in s
  }

  // The seen list after the edges of one node: the unseen ends are appended.
  function Visit<V(==)>(seen: seq<V>, ends: seq<V>): (r: seq<V>)
    ensures seen <= r
  {
    if ends == [] then seen
    else
      var r := Visit(seen, ends[..|ends| - 1]);
      var v := ends[|ends| - 1];
      if v in r then r else r + [v]
  }

  lemma {:induction false} VisitElems<V>(seen: seq<V>, ends: seq<V>)
    requires Distinct(seen)
    ensures Distinct(Visit(seen, ends))
    ensures Elems(Visit(seen, ends)) == Elems(seen) + Elems(ends)
  {
    if ends != [] {
      VisitElems(seen, ends[..|ends| - 1]);
      assert Elems(ends) == Elems(ends[..|ends| - 1]) + {ends[|ends| - 1]};
      var r := Visit(seen, ends[..|ends| - 1]);
      assert Elems(r + [ends[|ends| - 1]]) == Elems(r) + {ends[|ends| - 1]};
    }
  }

  lemma {:induction false} FirstPlace<V>(s: seq<V>, v: V, x: V)
    ensures x in s ==> IndexOf(s + [v], x) == IndexOf(s, x) < |s|
    ensures x !in s && x == v ==> IndexOf(s + [v], x) == |s|
  {
    if s == [] {
      assert s + [v] == [v];
    } else {
      assert (s + [v])[1..] == s[1..] + [v];
      FirstPlace(s[1..], v, x);
    }
  }

  // What is appended is in the order of the edges.
  lemma {:induction false} VisitInOrder<V>(seen: seq<V>, ends: seq<V>)
    requires Distinct(seen)
    ensures var r := Visit(seen, ends);
            forall a, b :: |seen| <= a < b < |r| ==> IndexOf(ends, r[a]) < IndexOf(ends, r[b])
  {
    if ends != [] {
      var init, v := ends[..|ends| - 1], ends[|ends| - 1];
      VisitInOrder(seen, init);
      VisitElems(seen, init);
      VisitElems(seen, ends);
      var before, r := Visit(seen, init), Visit(seen, ends);
      LastApart(ends);
      forall a, b | |seen| <= a < b < |r| ensures IndexOf(ends, r[a]) < IndexOf(ends, r[b]) {
        AppendedEnd(seen, init, a);
        FirstPlace(init, v, r[a]);
        if b < |before| {
          AppendedEnd(seen, init, b);
          FirstPlace(init, v, r[b]);
        } else {
          assert r[b] == v && v !in Elems(before);
          FirstPlace(init, v, v);
        }
      }
    }
  }

  lemma AppendedEnd<V>(seen: seq<V>, ends: seq<V>, a: nat)
    requires Distinct(seen) && |seen| <= a < |Visit(seen, ends)|
    ensures Visit(seen, ends)[a] in ends
  {
    VisitElems(seen, ends);
    var r := Visit(seen, ends);
    assert r[a] in Elems(r);
    forall k | 0 <= k < |seen| ensures seen[k] != r[a] {
      assert seen[k] == r[k];
    }
  }

  // The queue seen[k..] is a block at distance d, up to m, and then one at distance d + 1.
  ghost predicate Searching<V>(g: Adjacency<V>, root: V, seen: seq<V>, k: nat, d: nat, m: nat)
    ensures Searching(g, root, seen, k, d, m) ==> k <= m <= |seen|
  {
    && k <= m <= |seen|
    && Distinct(seen)
    && Elems(seen) <= g.Keys
    && Elems(seen[..m]) == Ball(g, root, d)
    && Elems(seen) == Ball(g, root, d) + Succs(g, Elems(seen[..k]))
    && (d > 0 ==> Ball(g, root, d - 1) <= Elems(seen[..k]))
  }

  // The first b nodes of the queue are at distance d, the others one farther.
  ghost predicate InBlocks<V>(g: Adjacency<V>, root: V, queue: seq<V>, d: nat, b: nat) {
    && b <= |queue|
    && forall i :: 0 <= i < |queue| ==> AtDistance(g, root, queue[i], if i < b then d else d + 1)
  }

  lemma TwoBlocks<V>(g: Adjacency<V>, root: V, seen: seq<V>, k: nat, d: nat, m: nat)
    requires Searching(g, root, seen, k, d, m)
    ensures forall i :: k <= i < m ==> AtDistance(g, root, seen[i], d)
    ensures InBlocks(g, root, seen[k..], d, m - k)
  {
    forall i | k <= i < m ensures AtDistance(g, root, seen[i], d) {
      assert seen[..m][i] in Elems(seen[..m]);
      assert seen[i] !in Elems(seen[..k]);
    }
    forall i | m <= i < |seen| ensures AtDistance(g, root, seen[i], d + 1) {
      assert seen[i] in Elems(seen);
      assert seen[i] !in Elems(seen[..m]);
      assert Elems(seen[..k]) <= Elems(seen[..m]) by {
        assert seen[..k] <= seen[..m];
      }
    }
    hide AtDistance;
    assert forall i :: 0 <= i < |seen| - k ==> seen[k..][i] == seen[k + i];
  }

  lemma SearchStarts<V>(g: Adjacency<V>, root: V)
    requires root in g
    ensures Searching(g, root, [root], 0, 0, 1)
  {
    assert [root][..1] == [root];
    assert Elems([root]) == {root};
  }

  // One block used up: the other one is the next ball's last layer.
  lemma NextLevel<V>(g: Adjacency<V>, root: V, seen: seq<V>, d: nat, m: nat)
    requires Searching(g, root, seen, m, d, m)
    ensures Searching(g, root, seen, m, d + 1, |seen|)
  {
    assert seen[..|seen|] == seen;
  }

  lemma PrefixElems<V>(s: seq<V>, k: nat)
    requires k < |s|
    ensures Elems(s[..k + 1]) == Elems(s[..k]) + {s[k]}
  {
    assert s[..k + 1] == s[..k] + [s[k]];
  }

  lemma SuccsOfOneMore<V>(g: Adjacency<V>, s: set<V>, v: V)
    requires v in g
    ensures Succs(g, s + {v}) == Succs(g, s) + Elems(g[v])
  {
  }

  // One node leaves the queue and its edges are followed.
  lemma NextNode<V>(g: Adjacency<V>, root: V, seen: seq<V>, k: nat, d: nat, m: nat)
    requires Closed(g) && Searching(g, root, seen, k, d, m) && k < m && seen[k] in g
    ensures Searching(g, root, Visit(seen, g[seen[k]]), k + 1, d, m)
  {
    var ends := g[seen[k]];
    var r := Visit(seen, ends);
    assert Elems(ends) <= g.Keys;
    hide Visit, Succs, Ball, Closed, Elems, Distinct;
    VisitElems(seen, ends);
    assert r[..m] == seen[..m] && r[..k + 1] == seen[..k + 1];
    SuccsOfPrefix(g, seen, k);
    UnionOfThree(Ball(g, root, d), Succs(g, Elems(seen[..k])), Elems(ends));
  }

  lemma UnionOfThree<V>(a: set<V>, b: set<V>, c: set<V>)
    ensures a + b + c == a + (b + c)
  {
  }

  lemma SuccsOfPrefix<V>(g: Adjacency<V>, seen: seq<V>, k: nat)
    requires k < |seen| && seen[k] in g
    ensures Elems(seen[..k]) <= Elems(seen[..k + 1])
    ensures Succs(g, Elems(seen[..k + 1])) == Succs(g, Elems(seen[..k])) + Elems(g[seen[k]])
  {
    hide Succs;
    PrefixElems(seen, k);
    SuccsOfOneMore(g, Elems(seen[..k]), seen[k]);
  }

  // One iteration, whichever block the node is from.
  lemma SearchGoesOn<V>(g: Adjacency<V>, root: V, seen: seq<V>, k: nat, d: nat, m: nat) returns (d': nat, m': nat)
    requires Closed(g) && Searching(g, root, seen, k, d, m) && k < |seen| && seen[k] in g
    ensures var r := Visit(seen, g[seen[k]]);
            Searching(g, root, r, k + 1, d', m') && InBlocks(g, root, r[k + 1..], d', m' - (k + 1))
  {
    hide Searching, Visit, Closed, InBlocks;
    d', m' := d, m;
    if k == m {
      NextLevel(g, root, seen, d, m);
      d', m' := d + 1, |seen|;
    }
    NextNode(g, root, seen, k, d', m');
    TwoBlocks(g, root, Visit(seen, g[seen[k]]), k + 1, d', m');
  }

  lemma {:induction false} DistinctFits<V>(s: seq<V>, all: set<V>)
    requires Distinct(s) && Elems(s) <= all
    ensures |s| <= |all|
  {
    if s != [] {
      var x := s[|s| - 1];
      assert x in Elems(s);
      assert Elems(s[..|s| - 1]) <= all - {x};
      DistinctFits(s[..|s| - 1], all - {x});
    }
  }

  // Everything reachable has been seen once the queue is empty.
  lemma SearchEnds<V>(g: Adjacency<V>, root: V, seen: seq<V>, d: nat, m: nat)
    requires Searching(g, root, seen, |seen|, d, m)
    ensures forall v :: Reachable(g, root, v) <==> v in seen
  {
    assert m == |seen| && seen[..m] == seen;
    forall v | Reachable(g, root, v) ensures v in seen {
      var e: nat :| v in Ball(g, root, e);
      BallStops(g, root, d, e);
      assert v in Elems(seen);
    }
    forall v | v in seen ensures Reachable(g, root, v) {
      assert v in Elems(seen);
    }
  }

  // Earlier in the order never means farther from the root.
  ghost predicate LevelOrder<V>(g: Adjacency<V>, root: V, order: seq<V>) {
    forall i, j :: 0 <= i < j < |order| ==> NoFarther(g, root, order[i], order[j])
  }

  ghost predicate NoFarther<V>(g: Adjacency<V>, root: V, u: V, v: V) {
    forall e: nat :: v in Ball(g, root, e) ==> u in Ball(g, root, e)
  }

  lemma LevelOrderGrows<V>(g: Adjacency<V>, root: V, seen: seq<V>, k: nat, d: nat, m: nat)
    requires Searching(g, root, seen, k, d, m) && k < m
    requires LevelOrder(g, root, seen[..k])
    ensures LevelOrder(g, root, seen[..k + 1])
  {
    var order := seen[..k + 1];
    forall i, j | 0 <= i < j < |order| ensures NoFarther(g, root, order[i], order[j]) {
      if j < k {
        assert seen[..k][i] == order[i] && seen[..k][j] == order[j];
      } else {
        HeadIsFarthest(g, root, seen, k, d, m, i);
      }
    }
  }

  lemma HeadIsFarthest<V>(g: Adjacency<V>, root: V, seen: seq<V>, k: nat, d: nat, m: nat, i: nat)
    requires Searching(g, root, seen, k, d, m) && i < k < m
    ensures NoFarther(g, root, seen[i], seen[k])
  {
    TwoBlocks(g, root, seen, k, d, m);
    assert seen[..m][i] in Elems(seen[..m]);
    InsideNoFarther(g, root, seen[i], seen[k], d);
  }

  lemma InsideNoFarther<V>(g: Adjacency<V>, root: V, u: V, v: V, d: nat)
    requires u in Ball(g, root, d) && AtDistance(g, root, v, d)
    ensures NoFarther(g, root, u, v)
  {
    forall e: nat | v in Ball(g, root, e) ensures u in Ball(g, root, e) {
      if e < d {
        BallGrows(g, root, e, d - 1);
      }
      BallGrows(g, root, d, e);
    }
  }

  // ----- the search on the heap

  ghost predicate WellLinked<D>(nodes: set<Node<D>>)
    reads nodes
  {
    forall n :: n in nodes ==>
      n.Counted() && forall k :: 0 <= k < |n.connections| ==> n.connections[k] in nodes
  }

  ghost function Graph<D>(nodes: set<Node<D>>): Adjacency<Node<D>>
    reads nodes
  {
    map n | n in nodes :: n.connections
  }

  ghost predicate Apart<T>(queue: List<T>, sight: List<T>)
    reads queue, queue.heap, sight, sight.heap
    ensures Apart(queue, sight) ==> queue.size == |queue.contents|
  {
    queue != sight && queue.heap !! sight.heap && queue.Valid() && sight.Valid()
  }

  method Enqueue<T>(queue: List<T>, sight: List<T>, val: T)
    requires Apart(queue, sight)
    modifies queue, queue.heap, sight, sight.heap
    ensures Apart(queue, sight)
    ensures fresh(queue.heap - old(queue.heap)) && fresh(sight.heap - old(sight.heap))
    ensures queue.contents == old(queue.contents) + [val] && sight.contents == old(sight.contents) + [val]
  {
    queue.Add(val);
    sight.Add(val);
  }

  // The inner loop: every unseen end of an edge is enqueued and marked as seen.
  method FollowEdges<D>(queue: List<Node<D>>, sight: List<Node<D>>, target: Node<D>, ghost k: nat)
    requires Apart(queue, sight)
    requires target.Counted() && k <= |sight.contents| && queue.contents == sight.contents[k..]
    modifies queue, queue.heap, sight, sight.heap
    ensures Apart(queue, sight)
    ensures fresh(queue.heap - old(queue.heap)) && fresh(sight.heap - old(sight.heap))
    ensures sight.contents == Visit(old(sight.contents), target.connections)
    ensures queue.contents == sight.contents[k..]
  {
    hide List.Valid, List.Chained;
    ghost var ends := target.connections;
    assert ends[..0] == [];
    var j := 0;
    while j < target.numConnections
      invariant 0 <= j <= |ends|
      invariant Apart(queue, sight)
      invariant fresh(queue.heap - old(queue.heap)) && fresh(sight.heap - old(sight.heap))
      invariant sight.contents == Visit(old(sight.contents), ends[..j])
      invariant queue.contents == sight.contents[k..]
    {
      assert ends[..j + 1][..j] == ends[..j];
      var found := sight.Contains(target.connections[j]);
      if found {
      } else {
        Enqueue(queue, sight, target.connections[j]);
      }
      j := j + 1;
    }
    assert ends[..j] == ends;
  }

  // Takes the head of the queue: list_item_at(queue, 0), then list_remove of that value.
  method Dequeue<T(==)>(queue: List<T>) returns (val: T)
    requires queue.Valid() && queue.contents != []
    modifies queue, queue.heap
    ensures queue.Valid() && queue.heap == old(queue.heap)
    ensures val == old(queue.contents)[0] && queue.contents == old(queue.contents)[1..]
  {
    var first := queue.ItemAt(0);
    val := first.value;
    var _ := queue.Remove(val);
    assert old(queue.BackLinked(0));
  }

  // What a search for `want` from `root` must deliver: it ends on a wanted node if and only
  // if one is reachable, and then on a nearest one; no node leaves the queue twice, and none
  // before a nearer one.
  ghost predicate SearchResult<D>(g: Adjacency<Node<D>>, root: Node<D>, want: D, target: Node<D>, order: seq<Node<D>>) {
    && (target.data == want <==> exists n :: n in g && Reachable(g, root, n) && n.data == want)
    && (target.data == want ==>
          forall n, e: nat :: n in Ball(g, root, e) && n in g && n.data == want ==> target in Ball(g, root, e))
    && order != [] && order[|order| - 1] == target
    && Distinct(order) && LevelOrder(g, root, order)
  }

  lemma FoundAtHead<D>(g: Adjacency<Node<D>>, root: Node<D>, seen: seq<Node<D>>, k: nat, d: nat, m: nat, want: D)
    requires Searching(g, root, seen, k, d, m) && k < m
    requires forall i :: 0 <= i < k ==> seen[i].data != want
    requires seen[k].data == want && LevelOrder(g, root, seen[..k + 1])
    ensures SearchResult(g, root, want, seen[k], seen[..k + 1])
  {
    assert seen[..m][k] in Elems(seen[..m]) && seen[k] in Elems(seen);
    assert Reachable(g, root, seen[k]);
    forall n, e: nat | n in Ball(g, root, e) && n in g && n.data == want
      ensures seen[k] in Ball(g, root, e)
    {
      if e < d {
        BallGrows(g, root, e, d - 1);
      }
      BallGrows(g, root, d, if e < d then d else e);
    }
  }

  // The nodes in the order they leave the queue, as a function of the graph.
  ghost function Order<D>(g: Adjacency<Node<D>>, seen: seq<Node<D>>, k: nat, want: D): (order: seq<Node<D>>)
    requires Closed(g) && SearchState(g, seen, k)
    ensures |order| >= k && Elems(order) <= g.Keys
    decreases |g.Keys| - k
  {
    if k == |seen| then seen
    else if seen[k].data == want then seen[..k + 1]
    else
      StateAdvances(g, seen, k);
      Order(g, Visit(seen, g[seen[k]]), k + 1, want)
  }

  ghost predicate SearchState<V>(g: Adjacency<V>, seen: seq<V>, k: nat) {
    k <= |seen| && Distinct(seen) && Elems(seen) <= g.Keys
  }

  lemma StateAdvances<V>(g: Adjacency<V>, seen: seq<V>, k: nat)
    requires Closed(g) && SearchState(g, seen, k) && k < |seen|
    ensures k < |g.Keys|
    ensures seen[k] in g
    ensures var r := Visit(seen, g[seen[k]]);
            SearchState(g, r, k + 1) && k + 1 <= |r| <= |g.Keys|
  {
    DistinctFits(seen, g.Keys);
    assert seen[k] in Elems(seen);
    VisitElems(seen, g[seen[k]]);
    assert Elems(g[seen[k]]) <= g.Keys;
    DistinctFits(Visit(seen, g[seen[k]]), g.Keys);
  }

  lemma StateStarts<V>(g: Adjacency<V>, root: V)
    requires root in g
    ensures SearchState(g, [root], 0) && 1 <= |g.Keys|
  {
    assert Elems([root]) == {root};
    DistinctFits([root], g.Keys);
  }

  lemma NotFound<D>(g: Adjacency<Node<D>>, root: Node<D>, seen: seq<Node<D>>, d: nat, m: nat, want: D)
    requires Searching(g, root, seen, |seen|, d, m) && seen != []
    requires forall i :: 0 <= i < |seen| ==> seen[i].data != want
    requires LevelOrder(g, root, seen[..|seen|])
    ensures SearchResult(g, root, want, seen[|seen| - 1], seen)
  {
    assert seen[..|seen|] == seen;
    SearchEnds(g, root, seen, d, m);
  }

  // One more iteration keeps everything OrderResult needs.
  lemma SearchAdvances<D>(g: Adjacency<Node<D>>, root: Node<D>, seen: seq<Node<D>>, k: nat, d: nat, m: nat, want: D)
      returns (r: seq<Node<D>>)
    requires Closed(g) && Searching(g, root, seen, k, d, m) && k < m
    requires forall i :: 0 <= i < k + 1 ==> seen[i].data != want
    requires LevelOrder(g, root, seen[..k + 1])
    ensures Searching(g, root, r, k + 1, d, m) && SearchState(g, r, k + 1) && r != [] && k < |g.Keys|
    ensures forall i :: 0 <= i < k + 1 ==> r[i].data != want
    ensures LevelOrder(g, root, r[..k + 1])
    ensures Order(g, seen, k, want) == Order(g, r, k + 1, want)
  {
    hide LevelOrder, Ball, Visit;
    StateAdvances(g, seen, k);
    NextNode(g, root, seen, k, d, m);
    r := Visit(seen, g[seen[k]]);
    assert r[..k + 1] == seen[..k + 1];
  }

  lemma {:induction false} OrderResult<D>(g: Adjacency<Node<D>>, root: Node<D>, seen: seq<Node<D>>, k: nat, d: nat,
                                          m: nat, want: D)
    requires Closed(g) && Searching(g, root, seen, k, d, m) && SearchState(g, seen, k) && seen != []
    requires forall i :: 0 <= i < k ==> seen[i].data != want
    requires LevelOrder(g, root, seen[..k])
    ensures var order := Order(g, seen, k, want);
            order != [] && SearchResult(g, root, want, order[|order| - 1], order)
    decreases |g.Keys| - k, m == k
  {
    hide SearchResult, Searching, LevelOrder, Visit, SearchState, Closed;
    if k == |seen| {
      NotFound(g, root, seen, d, m, want);
    } else if k == m {
      NextLevel(g, root, seen, d, m);
      OrderResult(g, root, seen, k, d + 1, |seen|, want);
    } else {
      LevelOrderGrows(g, root, seen, k, d, m);
      if seen[k].data == want {
        FoundAtHead(g, root, seen, k, d, m, want);
      } else {
        var r := SearchAdvances(g, root, seen, k, d, m, want);
        OrderResult(g, root, r, k + 1, d, m, want);
      }
    }
  }

  /** Searches from `graph` for the node that holds `want` and returns the last node taken
      from the queue, which the caller uses even if the search failed. */
  method FindNode<D(==)>(graph: Node<D>, want: D, ghost nodes: set<Node<D>>)
      returns (target: Node<D>, ghost order: seq<Node<D>>)
    requires graph in nodes && WellLinked(nodes)
    ensures target in nodes
    ensures SearchResult(Graph(nodes), graph, want, target, order)
  {
    hide SearchResult, Searching, SearchState, Order, Apart, Closed, WellLinked;
    ghost var g := Graph(nodes);
    GraphFacts(nodes);
    var queue, sight := StartLists(graph);
    StateStarts(g, graph);
    target, order := RunSearch(queue, sight, graph, want, g);
    SearchStarts(g, graph);
    OrderResult(g, graph, [graph], 0, 0, 1, want);
    assert target in Elems(order);
  }

  method StartLists<T>(val: T) returns (queue: List<T>, sight: List<T>)
    ensures fresh({queue, sight} + queue.heap + sight.heap) && Apart(queue, sight)
    ensures queue.contents == sight.contents == [val]
  {
    queue := new List<T>();
    sight := new List<T>();
    Enqueue(queue, sight, val);
  }

  // One iteration: the head leaves the queue and, unless it matches, its edges are followed.
  method Expand<D(==)>(queue: List<Node<D>>, sight: List<Node<D>>, want: D, ghost k: nat) returns (target: Node<D>)
    requires Apart(queue, sight) && k < |sight.contents| && queue.contents == sight.contents[k..]
    requires sight.contents[k].Counted()
    modifies queue, queue.heap, sight, sight.heap
    ensures Apart(queue, sight)
    ensures fresh(queue.heap - old(queue.heap)) && fresh(sight.heap - old(sight.heap))
    ensures target == old(sight.contents)[k]
    ensures target.data != want ==>
              && sight.contents == Visit(old(sight.contents), target.connections)
              && queue.contents == sight.contents[k + 1..]
  {
    hide List.Valid, List.Chained;
    target := Dequeue(queue);
    if target.data == want {
    } else {
      FollowEdges(queue, sight, target, k + 1);
    }
  }

  lemma GraphFacts<D>(nodes: set<Node<D>>)
    requires WellLinked(nodes)
    ensures Closed(Graph(nodes)) && Graph(nodes).Keys == nodes
    ensures forall n :: n in nodes ==> Graph(nodes)[n] == n.connections && n.Counted()
  {
  }

  // The loop, which steps exactly as Order does. All along the queue is a block of nodes at
  // one distance followed by a block at the next, and nodes - seen + queue drops by one.
  method RunSearch<D(==)>(queue: List<Node<D>>, sight: List<Node<D>>, graph: Node<D>, want: D,
                          ghost g: Adjacency<Node<D>>)
      returns (target: Node<D>, ghost order: seq<Node<D>>)
    requires Apart(queue, sight) && queue.contents == sight.contents == [graph]
    requires Closed(g) && graph in g && SearchState(g, [graph], 0) && |g.Keys| > 0
    requires forall n :: n in g ==> g[n] == n.connections && n.Counted()
    modifies queue, queue.heap, sight, sight.heap
    ensures order == Order(g, [graph], 0, want) && order != [] && target == order[|order| - 1]
  {
    hide Apart, SearchState, Visit, Closed, Elems, Searching, InBlocks;
    target := graph;
    ghost var k: nat, d: nat, m: nat := 0, 0, 1;
    SearchStarts(g, graph);
    TwoBlocks(g, graph, [graph], 0, 0, 1);
    while queue.size > 0
      invariant Apart(queue, sight)
      invariant fresh(queue.heap - old(queue.heap)) && fresh(sight.heap - old(sight.heap))
      invariant SearchState(g, sight.contents, k) && k <= |sight.contents| <= |g.Keys|
      invariant queue.contents == sight.contents[k..]
      invariant Searching(g, graph, sight.contents, k, d, m) && InBlocks(g, graph, queue.contents, d, m - k)
      invariant |g.Keys| - |sight.contents| + |queue.contents| == |g.Keys| - k
      invariant Order(g, sight.contents, k, want) == Order(g, [graph], 0, want)
      invariant if k == 0 then sight.contents != [] else target == sight.contents[k - 1]
      decreases |g.Keys| - |sight.contents| + |queue.contents|
    {
      ghost var seen := sight.contents;
      StateAdvances(g, seen, k);
      target := Expand(queue, sight, want, k);
      if target.data == want {
        order := seen[..k + 1];
        return;
      }
      d, m := SearchGoesOn(g, graph, seen, k, d, m);
      k := k + 1;
    }
    order := sight.contents;
  }
}
