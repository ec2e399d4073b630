/**
 The name server: manage_graph deals every connected client its peers.
 The socket is a sequence of deliveries; `rand` is an arbitrary sequence of draws.
 */
module NameServer {
  import opened Wrappers
  import opened Sequences
  import opened LinkedList
  import opened PeerGraph
  import opened GraphSearch
  import opened Shuffle
  import opened PeerText

  const PEER_POOL_SIZE := 5
  const MIN_CONNECTIONS := 4

  class Client {
    const socketFd: int
    const address: string
    var port: string

    constructor (socketFd: int, address: string, port: string)
      ensures this.socketFd == socketFd && this.address == address && this.port == port
    {
      this.socketFd, this.address, this.port := socketFd, address, port;
    }

    function Endpoint(): Endpoint
      reads this
    {
      PeerText.Endpoint(address, port)
    }
  }

  datatype Delivery = Delivery(socketFd: int, text: string)

  function Endpoints(cs: seq<Client>): (r: seq<Endpoint>)
    reads cs
    ensures |r| == |cs|
    ensures forall k :: 0 <= k < |r| ==> r[k] == PeerText.Endpoint(cs[k].address, cs[k].port)
  {
    seq(|cs|, k requires 0 <= k < |cs| reads cs => cs[k].Endpoint())
  }

  function Holders(nodes: seq<Node<Client>>): (r: seq<Client>)
    ensures |r| == |nodes|
    ensures forall k :: 0 <= k < |r| ==> r[k] == nodes[k].data
  {
    seq(|nodes|, k requires 0 <= k < |nodes| => nodes[k].data)
  }

  // ----- the two ways to write a peer list

  // client_peers_rand: the connections of the node that the search returned.
  method ClientPeersRand(graph: Node<Client>) returns (msg: string)
    requires graph.Counted()
    ensures msg == Format(Endpoints(Holders(graph.connections)))
  {
    ghost var cs := Holders(graph.connections);
    msg := "";
    for i := 0 to graph.numConnections
      invariant msg == Spaced(Endpoints(cs[..i]))
    {
      var c := graph.connections[i].data;
      msg := msg + c.address;
      msg := msg + ":";
      msg := msg + c.port;
      msg := msg + " ";
      OneMore(cs, i);
    }
    assert cs[..|cs|] == cs;
    SpacedIsFormat(Endpoints(cs));
    if |msg| > 0 {
      msg := msg[..|msg| - 1];
    }
  }

  lemma OneMore(cs: seq<Client>, i: nat)
    requires i < |cs|
    ensures Spaced(Endpoints(cs[..i + 1]))
            == Spaced(Endpoints(cs[..i])) + cs[i].address + ":" + cs[i].port + " "
  {
    var e := Endpoints(cs[..i + 1]);
    assert e[..i] == Endpoints(cs[..i]);
    assert e[i] == cs[i].Endpoint();
  }

  // Everyone in the list with another socket.
  function Others(cs: seq<Client>, socketFd: int): seq<Client> {
    if cs == [] then []
    else
      var c := cs[|cs| - 1];
      Others(cs[..|cs| - 1], socketFd) + if c.socketFd == socketFd then [] else [c]
  }

  lemma OneMoreOther(cs: seq<Client>, i: nat, socketFd: int)
    requires i < |cs|
    ensures var before := Spaced(Endpoints(Others(cs[..i], socketFd)));
            Spaced(Endpoints(Others(cs[..i + 1], socketFd)))
            == if cs[i].socketFd == socketFd then before
               else before + cs[i].address + ":" + cs[i].port + " "
  {
    assert cs[..i + 1][..i] == cs[..i];
    var os := Others(cs[..i + 1], socketFd);
    if cs[i].socketFd == socketFd {
      assert os == Others(cs[..i], socketFd);
    } else {
      assert os == Others(cs[..i], socketFd) + [cs[i]];
      OneMore(os, |os| - 1);
      assert os[..|os| - 1 + 1] == os && os[..|os| - 1] == Others(cs[..i], socketFd);
    }
  }

  lemma EmptyText(socketFd: int)
    ensures Spaced(Endpoints(Others([], socketFd))) == ""
  {
  }

  // client_peers_static: the whole list but the requester; NULL when there is nobody else.
  method ClientPeersStatic(me: Client, clientList: List<Client>) returns (msg: Option<string>)
    requires clientList.Valid()
    ensures msg.None? <==> |clientList.contents| == 1
    ensures msg.Some? ==> msg.value == Format(Endpoints(Others(clientList.contents, me.socketFd)))
  {
    hide List.Chained, Others, Spaced, Format;
    ghost var cs := clientList.contents;
    EmptyText(me.socketFd);
    if clientList.size == 1 {
      return None;
    }
    var text := "";
    assert cs[..0] == [];
    for i := 0 to clientList.size
      invariant text == Spaced(Endpoints(Others(cs[..i], me.socketFd)))
    {
      ghost var sofar := Endpoints(Others(cs[..i], me.socketFd));
      var item := clientList.ItemAt(i);
      var c := item.value;
      assert sofar == Endpoints(Others(cs[..i], me.socketFd));
      OneMoreOther(cs, i, me.socketFd);
      if c.socketFd == me.socketFd {
        continue;
      }
      text := text + c.address;
      text := text + ":";
      text := text + c.port;
      text := text + " ";
    }
    assert cs[..|cs|] == cs;
    SpacedIsFormat(Endpoints(Others(cs, me.socketFd)));
    if |text| > 0 {
      text := text[..|text| - 1];
    }
    return Some(text);
  }

  // client_send_peers: what goes to the client, if anything.
  method ClientSendPeers(me: Client, clientList: List<Client>, graph: Node<Client>) returns (msg: Option<Delivery>)
    requires clientList.Valid() && graph.Counted()
    ensures msg.None? <==> |clientList.contents| == 1
    ensures msg.Some? ==>
              msg.value == Delivery(me.socketFd, "PEERS " + Format(Endpoints(
                if PEER_POOL_SIZE > |clientList.contents| then Others(clientList.contents, me.socketFd)
                else Holders(graph.connections))))
  {
    var text := "PEERS ";
    if PEER_POOL_SIZE > clientList.size {
      var toCat := ClientPeersStatic(me, clientList);
      if toCat == None {
        return None;
      }
      text := text + toCat.value;
    } else {
      var toCat := ClientPeersRand(graph);
      text := text + toCat;
    }
    return Some(Delivery(me.socketFd, text));
  }

  // ----- parts 1 and 2 of manage_graph: shuffled nodes, connected

  // group holds one node per client, in the order p, connected as tree.c connects them.
  ghost predicate Built(group: seq<Node<Client>>, clients: seq<Client>, p: seq<nat>)
    reads group
  {
    && |group| == |clients| == |p|
    && Distinct(group) && Distinct(p)
    && (forall x :: 0 <= x < |p| ==> x in p)
    && (forall k :: 0 <= k < |p| ==> p[k] < |clients| && group[k].data == clients[p[k]])
    && (forall k :: 0 <= k < |group| ==> ConnectedAs(group, k))
  }

  ghost predicate ConnectedAs(group: seq<Node<Client>>, k: nat)
    requires k < |group|
    reads group
  {
    var near := Neighbours(MIN_CONNECTIONS, |group|, k);
    && group[k].Counted()
    && (forall x :: 0 <= x < |near| ==> near[x] < |group|)
    && group[k].connections == Pick(group, near)
  }

  // Turns the linked list into unconnected nodes.
  method CreateNodes(clientList: List<Client>) returns (nodes: seq<Node<Client>>)
    requires clientList.Valid()
    ensures |nodes| == |clientList.contents| && Distinct(nodes) && fresh(nodes)
    ensures forall k :: 0 <= k < |nodes| ==>
              nodes[k].data == clientList.contents[k] && nodes[k].Counted() && nodes[k].connections == []
  {
    nodes := [];
    var counter := 0;
    var here := clientList.head;
    while counter < clientList.size
      invariant 0 <= counter == |nodes| <= |clientList.elems|
      invariant here == if counter < |clientList.elems| then clientList.elems[counter] else null
      invariant Distinct(nodes) && fresh(nodes)
      invariant forall k :: 0 <= k < |nodes| ==>
                  nodes[k].data == clientList.contents[k] && nodes[k].Counted() && nodes[k].connections == []
    {
      var n := new Node(here.val);
      nodes := nodes + [n];
      here := here.next;
      counter := counter + 1;
    }
  }

  // Part 1: the nodes in an array, shuffled in place.
  method RandomArray(clientList: List<Client>, draws: seq<nat>) returns (group: seq<Node<Client>>)
    requires clientList.Valid() && |draws| == |clientList.contents|
    ensures |group| == |draws| && Distinct(group) && fresh(group)
    ensures forall k :: 0 <= k < |group| ==>
              && group[k].data == clientList.contents[Origins(Residues(draws))[k]]
              && group[k].Counted() && group[k].connections == []
  {
    hide Shuffled, Origins, List.Valid, List.Chained;
    var nodes := CreateNodes(clientList);
    var n := |nodes|;
    var randArray := new Node<Client>[n](i requires 0 <= i < n => nodes[i]);
    assert randArray[..] == nodes;
    ShuffleInPlace(randArray, draws);
    ShuffledByOrigins(nodes, Residues(draws));
    NoneStays(Residues(draws));
    group := randArray[..];
    assert forall k :: 0 <= k < n ==> group[k] == nodes[Origins(Residues(draws))[k]];
  }

  method BuildGraph(clientList: List<Client>, draws: seq<nat>)
      returns (graph: Node<Client>, ghost group: seq<Node<Client>>, ghost p: seq<nat>)
    requires clientList.Valid() && |clientList.contents| >= 1 && |draws| == |clientList.contents|
    ensures fresh(group) && Built(group, clientList.contents, p)
    ensures p == Origins(Residues(draws))
    ensures graph == group[|group| - 1]
  {
    hide Origins, List.Valid, List.Chained, Neighbours, Shuffle.IsNums, Pick;
    var arranged := RandomArray(clientList, draws);
    p := Origins(Residues(draws));
    group := arranged;
    NoneStays(Residues(draws));
    graph := CombineNodesToGraph(arranged, MIN_CONNECTIONS);
    forall k | 0 <= k < |group| ensures ConnectedAs(group, k) {
      AddNothing(Pick(group, Neighbours(MIN_CONNECTIONS, |group|, k)));
    }
  }

  // ----- part 3: the search finds the client's own node

  lemma OwnNodeReachable(group: seq<Node<Client>>, clients: seq<Client>, p: seq<nat>, k: nat)
    requires Built(group, clients, p) && k < |group|
    ensures WellLinked(set n | n in group)
    ensures Reachable(Graph(set n | n in group), group[|group| - 1], group[k])
  {
    var nodes := set n | n in group;
    var g := Graph(nodes);
    var last := |group| - 1;
    var head := group[last];
    forall n | n in nodes ensures n.Counted() && forall x :: 0 <= x < |n.connections| ==> n.connections[x] in nodes {
      var j :| 0 <= j < |group| && group[j] == n;
      assert ConnectedAs(group, j);
    }
    if k == last {
      assert head in Ball(g, head, 0);
    } else {
      assert ConnectedAs(group, last);
      ExactMultigraph(MIN_CONNECTIONS, |group|, last, k);
      var near := Neighbours(MIN_CONNECTIONS, |group|, last);
      assert k in near;
      var x :| 0 <= x < |near| && near[x] == k;
      assert head.connections[x] == group[k];
      assert head in Ball(g, head, 0) && group[k] in g[head];
      assert group[k] in Ball(g, head, 1);
    }
  }

  // The node a search for a listed client ends on is that client's own.
  method FindOwnNode(graph: Node<Client>, want: Client, ghost group: seq<Node<Client>>, ghost clients: seq<Client>,
                     ghost p: seq<nat>, ghost k: nat) returns (target: Node<Client>)
    requires Built(group, clients, p) && Distinct(clients) && k < |group|
    requires graph == group[|group| - 1] && want == clients[p[k]]
    ensures target == group[k]
  {
    ghost var nodes := set n | n in group;
    OwnNodeReachable(group, clients, p, k);
    ghost var order;
    target, order := FindNode(graph, want, nodes);
    hide Reachable, LevelOrder;
    assert group[k] in nodes && group[k].data == want;
    OnlyNodeOf(group, clients, p, k, target);
  }

  lemma OnlyNodeOf(group: seq<Node<Client>>, clients: seq<Client>, p: seq<nat>, k: nat, n: Node<Client>)
    requires Built(group, clients, p) && Distinct(clients) && k < |group|
    requires n in group && n.data == clients[p[k]]
    ensures n == group[k]
  {
    hide ConnectedAs;
    var j :| 0 <= j < |group| && group[j] == n;
    assert clients[p[j]] == clients[p[k]];
  }

  // ----- what is dealt

  // The list of client i of n names every other client once, or twice with a pool's worth
  // of clients, and never i itself.
  ghost predicate DealtTo(deal: seq<nat>, n: nat, i: nat) {
    && (forall k :: 0 <= k < |deal| ==> deal[k] < n)
    && (forall j :: 0 <= j < n ==> Count(deal, j) == if j == i then 0 else if n < PEER_POOL_SIZE then 1 else 2)
  }

  lemma DealNotEmpty(deal: seq<nat>, n: nat, i: nat)
    requires DealtTo(deal, n, i) && n >= 2
    ensures deal != []
  {
    assert Count(deal, if i == 0 then 1 else 0) > 0;
  }

  // Every client has the list it is to be dealt.
  ghost predicate Dealt(deals: seq<seq<nat>>) {
    forall i :: 0 <= i < |deals| ==> DealtTo(deals[i], |deals|, i)
  }

  lemma {:induction false} PickCount(p: seq<nat>, s: seq<nat>, x: nat)
    requires Distinct(p) && x < |p|
    requires forall k :: 0 <= k < |s| ==> s[k] < |p|
    ensures Count(Pick(p, s), p[x]) == Count(s, x)
  {
    hide Count;
    if s == [] {
      CountOne([], x, 0);
      CountOne([], p[x], 0);
    } else {
      var m := |s| - 1;
      PickCount(p, s[..m], x);
      CountOne(s[..m], x, s[m]);
      CountOne(Pick(p, s[..m]), p[x], p[s[m]]);
      assert s == s[..m] + [s[m]];
      assert Pick(p, s) == Pick(p, s[..m]) + [p[s[m]]];
    }
  }

  lemma CountOne(s: seq<nat>, x: nat, y: nat)
    ensures Count(s + [y], x) == Count(s, x) + if y == x then 1 else 0
    ensures Count([], x) == 0
  {
  }

  // The client nodes at the places that node k is connected to.
  function GraphDeal(p: seq<nat>, k: nat): seq<nat> {
    NeighboursInRange(MIN_CONNECTIONS, |p|, k);
    Pick(p, Neighbours(MIN_CONNECTIONS, |p|, k))
  }

  lemma RandDeal(group: seq<Node<Client>>, clients: seq<Client>, p: seq<nat>, k: nat)
    requires Built(group, clients, p) && k < |group| && |clients| >= PEER_POOL_SIZE
    ensures DealtTo(GraphDeal(p, k), |clients|, p[k])
    ensures Holders(group[k].connections) == Pick(clients, GraphDeal(p, k))
  {
    assert ConnectedAs(group, k);
    var near := Neighbours(MIN_CONNECTIONS, |group|, k);
    var deal := GraphDeal(p, k);
    forall j | 0 <= j < |p| ensures Count(deal, j) == if j == p[k] then 0 else 2 {
      assert j in p;
      var x :| 0 <= x < |p| && p[x] == j;
      PickCount(p, near, x);
      ExactMultigraph(MIN_CONNECTIONS, |group|, k, x);
    }
  }

  function OtherIndices(n: nat, i: nat): seq<nat> {
    if n == 0 then [] else OtherIndices(n - 1, i) + if n - 1 == i then [] else [n - 1]
  }

  // 0, .., i - 1, i + 1, .., n - 1
  lemma {:induction false} OthersByPlace(n: nat, i: nat)
    ensures |OtherIndices(n, i)| == if i < n then n - 1 else n
    ensures forall k :: 0 <= k < |OtherIndices(n, i)| ==> OtherIndices(n, i)[k] == if k < i then k else k + 1
  {
    if n > 0 {
      OthersByPlace(n - 1, i);
    }
  }

  lemma {:induction false} StaticDeal(clients: seq<Client>, m: nat, i: nat)
    requires m <= |clients| && i < |clients|
    requires forall a, b :: 0 <= a < b < |clients| ==> clients[a].socketFd != clients[b].socketFd
    ensures forall k :: 0 <= k < |OtherIndices(m, i)| ==> OtherIndices(m, i)[k] < m
    ensures Others(clients[..m], clients[i].socketFd) == Pick(clients, OtherIndices(m, i))
  {
    if m > 0 {
      StaticDeal(clients, m - 1, i);
      assert clients[..m][..m - 1] == clients[..m - 1];
    }
  }

  lemma {:induction false} OtherCount(m: nat, i: nat, j: nat)
    ensures Count(OtherIndices(m, i), j) == if j < m && j != i then 1 else 0
  {
    hide Count;
    CountOne([], j, 0);
    if m > 0 {
      OtherCount(m - 1, i, j);
      var s := OtherIndices(m - 1, i);
      CountOne(s, j, m - 1);
      assert s + [] == s;
    }
  }

  // What client i is dealt, given where the shuffle has put everyone: few clients are listed
  // in the order of the client list, more in the order of the graph.
  function DealFor(p: seq<nat>, i: nat): seq<nat> {
    if |p| < PEER_POOL_SIZE then OtherIndices(|p|, i) else GraphDeal(p, IndexOf(p, i))
  }

  // Both ways to write the list deal the same clients.
  lemma Deal(group: seq<Node<Client>>, clients: seq<Client>, p: seq<nat>, k: nat)
    requires Built(group, clients, p) && k < |group|
    requires forall a, b :: 0 <= a < b < |clients| ==> clients[a].socketFd != clients[b].socketFd
    ensures DealtTo(DealFor(p, p[k]), |clients|, p[k])
    ensures Pick(clients, DealFor(p, p[k]))
            == if PEER_POOL_SIZE > |clients| then Others(clients, clients[p[k]].socketFd)
               else Holders(group[k].connections)
  {
    hide GraphDeal, DealtTo, OtherIndices, Others, ConnectedAs;
    if |clients| < PEER_POOL_SIZE {
      StaticDeal(clients, |clients|, p[k]);
      assert clients[..|clients|] == clients;
      EachOther(|clients|, p[k]);
    } else {
      RandDeal(group, clients, p, k);
      PlaceOf(p, k);
    }
  }

  lemma PlaceOf(p: seq<nat>, k: nat)
    requires Distinct(p) && k < |p|
    ensures IndexOf(p, p[k]) == k
  {
  }

  lemma EachOther(n: nat, i: nat)
    requires i < n < PEER_POOL_SIZE
    ensures DealtTo(OtherIndices(n, i), n, i)
  {
    hide Count;
    OthersByPlace(n, i);
    forall j | 0 <= j < n ensures Count(OtherIndices(n, i), j) == if j == i then 0 else 1 {
      OtherCount(n, i, j);
    }
  }

  ghost predicate SentTo(d: Delivery, clients: seq<Client>, i: nat, deal: seq<nat>)
    requires i < |clients|
    reads clients
  {
    && d.socketFd == clients[i].socketFd
    && DealtTo(deal, |clients|, i)
    && d.text == "PEERS " + Format(Endpoints(Pick(clients, deal)))
  }

  /** Deals every client its peers, in list order. With one client nothing is sent. Whatever
      rand() returns, and on either path, client i's list names every other client: once
      with fewer than PEER_POOL_SIZE clients, twice otherwise. In which order is a function of
      the draws. */
  method ManageGraph(clientList: List<Client>, draws: seq<nat>)
      returns (sent: seq<Delivery>, ghost deals: seq<seq<nat>>)
    requires clientList.Valid() && |clientList.contents| >= 1 && |draws| == |clientList.contents|
    requires forall a, b :: 0 <= a < b < |clientList.contents| ==>
               clientList.contents[a].socketFd != clientList.contents[b].socketFd
    ensures |clientList.contents| == 1 ==> sent == []
    ensures |clientList.contents| >= 2 ==>
              && |sent| == |deals| == |clientList.contents| && Dealt(deals)
              && forall i :: 0 <= i < |sent| ==>
                   && SentTo(sent[i], clientList.contents, i, deals[i])
                   && deals[i] == DealFor(Origins(Residues(draws)), i)
  {
    hide SentTo, DealFor, Neighbours, ConnectedAs, Origins;
    ghost var clients := clientList.contents;
    var graph;
    ghost var group, p;
    graph, group, p := BuildGraph(clientList, draws);
    sent, deals := [], [];
    var here := clientList.head;
    ghost var i := 0;
    while here != null
      invariant 0 <= i <= |clients|
      invariant here == if i < |clients| then clientList.elems[i] else null
      invariant Built(group, clients, p)
      invariant |clients| == 1 ==> sent == []
      invariant |clients| >= 2 ==> |sent| == |deals| == i
      invariant forall x :: 0 <= x < |sent| ==>
                  x < |deals| && SentTo(sent[x], clients, x, deals[x]) && deals[x] == DealFor(p, x)
      decreases |clients| - i
    {
      assert i in p;
      ghost var k :| 0 <= k < |p| && p[k] == i;
      var msg := DealOne(clientList, here.val, graph, group, p, k);
      if msg.Some? {
        sent, deals := sent + [msg.value], deals + [DealFor(p, i)];
      }
      here := here.next;
      i := i + 1;
    }
    if |clients| >= 2 {
      AllDealt(sent, clients, deals);
    }
  }

  lemma AllDealt(sent: seq<Delivery>, clients: seq<Client>, deals: seq<seq<nat>>)
    requires |sent| == |deals| == |clients|
    requires forall i :: 0 <= i < |sent| ==> SentTo(sent[i], clients, i, deals[i])
    ensures Dealt(deals)
  {
    hide DealtTo;
  }

  // One round of the loop over the clients.
  method DealOne(clientList: List<Client>, me: Client, graph: Node<Client>, ghost group: seq<Node<Client>>,
                 ghost p: seq<nat>, ghost k: nat) returns (msg: Option<Delivery>)
    requires clientList.Valid() && Built(group, clientList.contents, p)
    requires forall a, b :: 0 <= a < b < |clientList.contents| ==>
               clientList.contents[a].socketFd != clientList.contents[b].socketFd
    requires k < |group| && graph == group[|group| - 1] && me == clientList.contents[p[k]]
    ensures msg.None? <==> |clientList.contents| == 1
    ensures msg.Some? ==> SentTo(msg.value, clientList.contents, p[k], DealFor(p, p[k]))
  {
    hide List.Valid, List.Chained, Others, DealtTo, DealFor, Format, Neighbours;
    ghost var clients := clientList.contents;
    var target := FindOwnNode(graph, me, group, clients, p, k);
    assert target.Counted() by {
      assert ConnectedAs(group, k);
    }
    Deal(group, clients, p, k);
    hide Built, ConnectedAs;
    msg := ClientSendPeers(me, clientList, target);
  }
}
