/**
 One client of ac-client-server/client_server.c: its peer list, its table of seen messages
 and what it sends and prints. Each method is one stretch of code between taking and
 releasing a mutex, or a thread's sequence of them.

 Sending is a sequence of copies, each with the endpoint it is for. Whether a connection
 attempt succeeds is an argument.
 */
module ClientNode {
  import opened Sequences
  import opened LinkedList
  import opened Strtok
  import opened PeerText
  import opened Base64
  import opened Envelope
  import opened Cipher
  import opened SeenTable

  class Peer {
    const peerId: int
    const address: string
    const port: string
    var socketFd: int
    var openCon: bool

    // create_peer
    constructor (peerId: int, address: string, port: string)
      ensures this.peerId == peerId && this.address == address && this.port == port && !openCon
    {
      this.peerId, this.address, this.port, socketFd, openCon := peerId, address, port, -1, false;
    }

    function Endpoint(): Endpoint {
      PeerText.Endpoint(address, port)
    }
  }

  // As create_peer makes them: numbered from `first` on, and not connected.
  ghost predicate Created(peers: seq<Peer>, first: int)
    reads peers
  {
    forall k :: 0 <= k < |peers| ==> peers[k].peerId == first + k && !peers[k].openCon
  }

  // Every entry is connected to the socket that its attempt returned.
  ghost predicate ConnectedTo(peers: seq<Peer>, sockets: nat -> int)
    reads peers
  {
    forall k :: 0 <= k < |peers| ==> peers[k].openCon && peers[k].socketFd == sockets(k)
  }

  function OpenFlags(peers: seq<Peer>): (r: seq<bool>)
    reads peers
    ensures |r| == |peers|
    ensures forall k :: 0 <= k < |r| ==> r[k] == peers[k].openCon
  {
    seq(|peers|, k requires 0 <= k < |peers| reads peers => peers[k].openCon)
  }

  // How many of the peers without an open connection get none; sockets(k) is what connecting
  // to peer k returns, -1 if it fails.
  function Failures(open: seq<bool>, sockets: nat -> int): nat {
    if open == [] then 0
    else
      var k := |open| - 1;
      Failures(open[..k], sockets) + if !open[k] && sockets(k) == -1 then 1 else 0
  }

  lemma NoFailures(open: seq<bool>, sockets: nat -> int)
    ensures Failures(open[..0], sockets) == 0
  {
  }

  lemma NextFailure(open: seq<bool>, sockets: nat -> int, i: nat)
    requires i < |open|
    ensures Failures(open[..i + 1], sockets)
            == Failures(open[..i], sockets) + if !open[i] && sockets(i) == -1 then 1 else 0
  {
    assert open[..i + 1][..i] == open[..i];
  }

  lemma {:induction false} FailuresExactly(open: seq<bool>, sockets: nat -> int)
    ensures Failures(open, sockets) == |set k: nat | k < |open| && !open[k] && sockets(k) == -1|
  {
    var failed := set k: nat | k < |open| && !open[k] && sockets(k) == -1;
    if open == [] {
      assert failed == {};
    } else {
      var m := |open| - 1;
      FailuresExactly(open[..m], sockets);
      OneMoreFailure(open, sockets);
    }
  }

  lemma OneMoreFailure(open: seq<bool>, sockets: nat -> int)
    requires open != []
    ensures var m := |open| - 1;
            (set k: nat | k < |open| && !open[k] && sockets(k) == -1)
            == (set k: nat | k < |open[..m]| && !open[..m][k] && sockets(k) == -1)
             + if !open[m] && sockets(m) == -1 then {m} else {}
  {
  }

  datatype Sent = Sent(to: Endpoint, text: Text)

  function EndpointsOf(peers: seq<Peer>): (r: seq<Endpoint>)
    ensures |r| == |peers|
    ensures forall k :: 0 <= k < |r| ==> r[k] == PeerText.Endpoint(peers[k].address, peers[k].port)
  {
    seq(|peers|, k requires 0 <= k < |peers| => peers[k].Endpoint())
  }

  // One copy to every peer with an open connection, in list order.
  function SendsTo(peers: seq<Peer>, text: Text): seq<Sent>
    reads peers
  {
    if peers == [] then []
    else
      var last := peers[|peers| - 1];
      SendsTo(peers[..|peers| - 1], text) + if last.openCon then [Sent(last.Endpoint(), text)] else []
  }

  // With every connection open, the copies are one for each entry of the list.
  lemma {:induction false} SendsToAll(peers: seq<Peer>, text: Text)
    requires forall p :: p in peers ==> p.openCon
    ensures SendsTo(peers, text) == OneEach(EndpointsOf(peers), text)
  {
    if peers != [] {
      SendsToAll(peers[..|peers| - 1], text);
    }
  }

  // The places of the entries with an open connection.
  function OpenPlaces(peers: seq<Peer>): (r: seq<nat>)
    reads peers
    ensures forall k :: 0 <= k < |r| ==> r[k] < |peers|
  {
    if peers == [] then []
    else OpenPlaces(peers[..|peers| - 1]) + if peers[|peers| - 1].openCon then [|peers| - 1] else []
  }

  // They are in ascending order, and there are no others.
  lemma {:induction false} OpenPlacesExactly(peers: seq<Peer>)
    ensures forall k, l :: 0 <= k < l < |OpenPlaces(peers)| ==> OpenPlaces(peers)[k] < OpenPlaces(peers)[l]
    ensures forall j :: 0 <= j < |peers| ==> (j in OpenPlaces(peers) <==> peers[j].openCon)
  {
    if peers != [] {
      var init := peers[..|peers| - 1];
      OpenPlacesExactly(init);
      forall j | 0 <= j < |peers| ensures j in OpenPlaces(peers) <==> peers[j].openCon {
        assert j < |init| ==> init[j] == peers[j];
      }
    }
  }

  /** The copies are one for each entry with an open connection, in list order, and none for the
      others. */
  lemma {:induction false} SendsToOpen(peers: seq<Peer>, text: Text)
    ensures SendsTo(peers, text) == OneEach(EndpointsOf(Pick(peers, OpenPlaces(peers))), text)
  {
    if peers != [] {
      var m := |peers| - 1;
      var places := OpenPlaces(peers[..m]);
      SendsToOpen(peers[..m], text);
      assert Pick(peers[..m], places) == Pick(peers, places);
      if peers[m].openCon {
        assert OneEach(EndpointsOf(Pick(peers, places + [m])), text)
          == OneEach(EndpointsOf(Pick(peers, places)), text) + [Sent(peers[m].Endpoint(), text)];
      }
    }
  }

  lemma {:induction false} SendsOneText(peers: seq<Peer>, text: Text)
    ensures forall k :: 0 <= k < |SendsTo(peers, text)| ==> SendsTo(peers, text)[k].text == text
  {
    if peers != [] {
      SendsOneText(peers[..|peers| - 1], text);
    }
  }

  // What one received text adds to the client's output.
  function Shown(o: Outcome): seq<seq<byte>> {
    if o.Displayed? then [o.chars] else []
  }

  class Client {
    const peerList: List<Peer>
    const messages: MessageTable
    const suite: Suite
    const privateKey: nat
    const publicKeys: map<seq<byte>, nat>
    var nextPeerId: int
    var outbox: seq<Sent>
    var printed: seq<seq<byte>>

    constructor (suite: Suite, privateKey: nat, publicKeys: map<seq<byte>, nat>)
      ensures peerList.Valid() && peerList.contents == [] && messages.entries == map[]
      ensures outbox == [] && printed == []
      ensures this.suite == suite && this.privateKey == privateKey && this.publicKeys == publicKeys
    {
      this.suite, this.privateKey, this.publicKeys := suite, privateKey, publicKeys;
      peerList := new List<Peer>();
      messages := new MessageTable();
      nextPeerId, outbox, printed := 0, [], [];
    }

    // ----- the flood

    // client_send_to_all_peers
    method SendToAllPeers(text: Text)
      requires peerList.Valid()
      modifies this`outbox
      ensures outbox == old(outbox) + SendsTo(peerList.contents, text)
    {
      hide List.Valid, List.Chained;
      ghost var ps := peerList.contents;
      assert ps[..0] == [];
      for i := 0 to peerList.size
        invariant outbox == old(outbox) + SendsTo(ps[..i], text)
      {
        ghost var sofar := SendsTo(ps[..i], text);
        var item := peerList.ItemAt(i);
        var toSend := item.value;
        assert sofar == SendsTo(ps[..i], text);
        assert ps[..i + 1][..i] == ps[..i];
        if toSend.openCon {
          outbox := outbox + [Sent(toSend.Endpoint(), text)];
        }
      }
      assert ps[..|ps|] == ps;
    }

    // The stretch of client_parse_msg under mht_mutex: check and insert as one step.
    method CheckAndInsert(text: Text, now: int) returns (isNew: bool)
      modifies messages
      ensures isNew == (text !in old(messages.entries))
      ensures messages.entries == if isNew then Added(old(messages.entries), text, now) else old(messages.entries)
    {
      if messages.HasSeenMsg(text) {
        return false;
      }
      messages.HashAddMsg(text, now);
      return true;
    }

    /** The end of client_parse_msg. `alive` is false where the client follows a NULL pointer;
        `rest` is what lies behind the vector of the received envelope. */
    method OpenMsg(text: Text, beyond: seq<byte>) returns (alive: bool, ghost rest: seq<byte>)
      requires |beyond| >= VECTOR_LENGTH
      modifies this`printed
      ensures |rest| >= VECTOR_LENGTH && alive == HasFields(text)
      ensures printed == old(printed) + Shown(Display(suite, privateKey, text, rest))
    {
      hide Receive, HasFields;
      var received;
      received, rest := DecodeMessage(text, beyond);
      if received.Read? {
        var decoded := suite.open(privateKey, received.e);
        if decoded.Some? {
          printed := printed + [CString(decoded.value)];
        }
      }
      alive := !received.NullPointer?;
    }

    /** client_parse_msg: a text seen before is dropped without a trace; a new one is
        remembered, sent on to every peer and, if it is for this client, printed. A new text
        without the three fields is remembered and sent on too, but the client is not alive
        after that. */
    method ParseMsg(text: Text, now: int, beyond: seq<byte>) returns (alive: bool, ghost rest: seq<byte>)
      requires peerList.Valid() && |beyond| >= VECTOR_LENGTH
      modifies messages, this`outbox, this`printed
      ensures text in old(messages.entries) ==>
                alive && messages.entries == old(messages.entries) && outbox == old(outbox) && printed == old(printed)
      ensures text !in old(messages.entries) ==>
                && messages.entries == Added(old(messages.entries), text, now)
                && outbox == old(outbox) + SendsTo(peerList.contents, text)
                && alive == HasFields(text) && |rest| >= VECTOR_LENGTH
                && printed == old(printed) + Shown(Display(suite, privateKey, text, rest))
    {
      hide List.Valid, List.Chained, Display, SendsTo, HasFields;
      var isNew := CheckAndInsert(text, now);
      if !isNew {
        return true, [];
      }
      SendToAllPeers(text);
      alive, rest := OpenMsg(text, beyond);
    }

    // msg_encrypt_encode: seals and prints.
    method MsgEncryptEncode(msg: seq<byte>, key: nat, nonce: nat, past: byte) returns (encoded: seq<byte>)
      ensures encoded == Print(SealText(suite, key, msg, nonce), past)
    {
      hide Print;
      var e := SealText(suite, key, msg, nonce);
      var m := new MessageEncrypted();
      m.encryptedMsg, m.encryptedKey, m.initVector := e.msg, e.key, e.iv;
      m.encryptedMsgLen, m.encryptedKeyLen, m.initVectorLen := |e.msg|, |e.key|, |e.iv|;
      assert m.Value() == e by {
        assert e.msg[..|e.msg|] == e.msg && e.key[..|e.key|] == e.key && e.iv[..|e.iv|] == e.iv;
      }
      encoded := ParseEncryptedMsgStr(m, past);
    }

    /** input_send_msg on `name:message`. Without a key for the name nothing happens;
        otherwise the sealed, printed and padded text is remembered and sent. What goes out has
        always MESSAGE_LENGTH characters; a short text is filled up with characters that rand()
        chooses from '0' to 'w'. */
    method InputSendMsg(input: seq<byte>, now: int, nonce: nat, past: byte, rand: seq<nat>)
        returns (code: int, ghost name: seq<byte>, ghost pad: seq<byte>)
      requires peerList.Valid() && COLON in input && |rand| >= MESSAGE_LENGTH
      modifies messages, this`outbox
      ensures COLON !in name && |name| < |input| && name + [COLON] <= input
      ensures code == if name in publicKeys then 0 else 1
      ensures code == 1 ==> messages.entries == old(messages.entries) && outbox == old(outbox)
      ensures code == 0 ==>
                var text := Broadcast(suite, publicKeys[name], input[|name| + 1..], nonce, past, pad);
                && |text| == MESSAGE_LENGTH && NUL !in text
                && messages.entries == Added(old(messages.entries), text, now)
                && outbox == old(outbox) + SendsTo(peerList.contents, text)
      ensures code == 0 ==>
                var length := |Print(SealText(suite, publicKeys[name], input[|name| + 1..], nonce), past)|;
                length < MESSAGE_LENGTH ==>
                  && |pad| == MESSAGE_LENGTH - length - 1
                  && forall k :: 0 <= k < |pad| ==> pad[k] as int == 48 + rand[k] % 72
    {
      hide List.Valid, List.Chained, Print, Padded, SealText, Added, SendsTo;
      pad := [];
      var colon := FirstColon(input);
      name := input[..colon];
      if input[..colon] !in publicKeys {
        code := 1;
        return;
      }
      var msg := input[colon + 1..];
      var encoded := MsgEncryptEncode(msg, publicKeys[input[..colon]], nonce, past);
      var padded;
      padded, pad := PadMessage(encoded, rand);
      NoTerminatorInside(SealText(suite, publicKeys[input[..colon]], msg, nonce), past, pad);
      messages.HashAddMsg(padded, now);
      SendToAllPeers(padded);
      code := 0;
    }

    // ----- the peer list

    // clean_peers_list
    method CleanPeersList()
      requires peerList.Valid()
      modifies peerList, peerList.heap
      ensures peerList.Valid() && peerList.contents == [] && peerList.heap == old(peerList.heap)
    {
      while peerList.size > 0
        invariant peerList.Valid() && peerList.heap == old(peerList.heap)
        decreases |peerList.contents|
      {
        var item := peerList.ItemAt(0);
        ghost var before := peerList.contents;
        RemoveFirst(item.value);
        assert peerList.contents == before[1..];
      }
    }

    method RemoveFirst(p: Peer)
      requires peerList.Valid() && peerList.contents != [] && p == peerList.contents[0]
      modifies peerList, peerList.heap
      ensures peerList.Valid() && peerList.heap == old(peerList.heap)
      ensures peerList.contents == old(peerList.contents)[1..]
    {
      hide List.Valid, List.Chained;
      var _ := peerList.Remove(p);
      assert old(peerList.BackLinked(0));
    }

    /** parse_peers: replaces the whole list by the entries of the message, in order, none
        connected yet. On a malformed entry the loop does not advance: it has added the
        entries before it and `finished` is false. */
    method ParsePeers(peerMsg: string) returns (code: int, finished: bool)
      requires peerList.Valid()
      modifies this`nextPeerId, peerList, peerList.heap
      ensures peerList.Valid() && fresh(peerList.heap - old(peerList.heap))
      ensures code == if peerMsg == "" then 1 else 0
      ensures peerMsg == "" ==> peerList.contents == old(peerList.contents) && nextPeerId == old(nextPeerId)
      ensures peerMsg == "" ==> finished
      ensures peerMsg != "" ==>
                && EndpointsOf(peerList.contents) == ParseEntries(Tokens(peerMsg, ' '))
                && (finished <==> Finishes(Tokens(peerMsg, ' ')))
                && Distinct(peerList.contents)
                && Created(peerList.contents, old(nextPeerId))
                && nextPeerId == old(nextPeerId) + |peerList.contents|
                && forall k :: 0 <= k < |peerList.contents| ==> fresh(peerList.contents[k])
    {
      hide List.Valid, List.Chained, Tokens, ParseEntries, ParseEntry, Finishes, Created, Distinct, EndpointsOf;
      if |peerMsg| < 1 {
        return 1, true;
      }
      CleanPeersList();
      code := 0;
      finished := ParseTokens(Tokens(peerMsg, ' '));
    }

    // The loop of parse_peers.
    method ParseTokens(toks: seq<string>) returns (finished: bool)
      requires peerList.Valid() && peerList.contents == []
      modifies this`nextPeerId, peerList, peerList.heap
      ensures peerList.Valid() && fresh(peerList.heap - old(peerList.heap))
      ensures EndpointsOf(peerList.contents) == ParseEntries(toks) && (finished <==> Finishes(toks))
      ensures Distinct(peerList.contents) && Created(peerList.contents, old(nextPeerId))
      ensures nextPeerId == old(nextPeerId) + |peerList.contents|
      ensures forall k :: 0 <= k < |peerList.contents| ==> fresh(peerList.contents[k])
    {
      hide List.Valid, List.Chained, Tokens, ParseEntries, ParseEntry, Distinct, Created;
      NoneCreated(nextPeerId);
      var i := 0;
      assert toks[0..] == toks;
      while i < |toks|
        invariant 0 <= i <= |toks|
        invariant peerList.Valid() && fresh(peerList.heap - old(peerList.heap))
        invariant forall k :: 0 <= k < |peerList.contents| ==> fresh(peerList.contents[k])
        invariant Distinct(peerList.contents) && Created(peerList.contents, old(nextPeerId))
        invariant nextPeerId == old(nextPeerId) + |peerList.contents|
        invariant EndpointsOf(peerList.contents) + ParseEntries(toks[i..]) == ParseEntries(toks)
        invariant forall k :: 0 <= k < i ==> ParseEntry(toks[k]).Some?
      {
        var parts := Tokens(toks[i], ':');
        NextEntry(toks, i);
        if |parts| < 2 {
          return false;
        }
        ghost var known := EndpointsOf(peerList.contents);
        AddPeer(parts[0], parts[1]);
        Regroup(known, [PeerText.Endpoint(parts[0], parts[1])], ParseEntries(toks[i + 1..]));
        i := i + 1;
      }
      NextEntry(toks, i);
      return true;
    }

    method AddPeer(address: string, port: string)
      requires peerList.Valid()
      modifies this`nextPeerId, peerList, peerList.heap
      ensures peerList.Valid() && fresh(peerList.heap - old(peerList.heap))
      ensures |peerList.contents| == |old(peerList.contents)| + 1
      ensures peerList.contents[..|old(peerList.contents)|] == old(peerList.contents)
      ensures fresh(peerList.contents[|old(peerList.contents)|])
      ensures !peerList.contents[|old(peerList.contents)|].openCon
      ensures peerList.contents[|old(peerList.contents)|].address == address
      ensures peerList.contents[|old(peerList.contents)|].port == port
      ensures peerList.contents[|old(peerList.contents)|].peerId == old(nextPeerId)
      ensures nextPeerId == old(nextPeerId) + 1
      ensures old(Created(peerList.contents, nextPeerId - |peerList.contents|)) ==>
                Created(peerList.contents, old(nextPeerId - |peerList.contents|))
      ensures old(Distinct(peerList.contents)) ==> Distinct(peerList.contents)
      ensures EndpointsOf(peerList.contents) == EndpointsOf(old(peerList.contents)) + [PeerText.Endpoint(address, port)]
    {
      hide List.Valid, List.Chained;
      var peer := new Peer(nextPeerId, address, port);
      nextPeerId := nextPeerId + 1;
      peerList.Add(peer);
    }

    /** connect_to_peers: tries every peer that has no connection and counts the failures. The
        connection is marked as open in either case, so copies go to a socket of -1 as well. */
    method ConnectToPeers(sockets: nat -> int) returns (failed: nat)
      requires peerList.Valid() && Distinct(peerList.contents)
      modifies peerList.contents
      ensures forall k :: 0 <= k < |peerList.contents| ==>
                && peerList.contents[k].openCon
                && peerList.contents[k].socketFd
                   == if old(peerList.contents[k].openCon) then old(peerList.contents[k].socketFd) else sockets(k)
      ensures failed == Failures(old(OpenFlags(peerList.contents)), sockets)
    {
      hide List.Valid, List.Chained, Failures;
      ghost var ps := peerList.contents;
      ghost var open := OpenFlags(ps);
      failed := 0;
      NoFailures(open, sockets);
      for i := 0 to peerList.size
        invariant forall k :: 0 <= k < i ==>
                    ps[k].openCon && ps[k].socketFd == if open[k] then old(ps[k].socketFd) else sockets(k)
        invariant forall k :: i <= k < |ps| ==> ps[k].openCon == open[k] && ps[k].socketFd == old(ps[k].socketFd)
        invariant failed == Failures(open[..i], sockets)
      {
        var item := peerList.ItemAt(i);
        var toCon := item.value;
        NextFailure(open, sockets, i);
        if !toCon.openCon {
          var res := ConnectToPeer(toCon, sockets(i));
          if res == -1 {
            failed := failed + 1;
          }
        }
      }
      assert open[..|ps|] == open;
    }

    // connect_to_peer
    method ConnectToPeer(peer: Peer, socket: int) returns (res: int)
      modifies peer
      ensures peer.openCon && peer.socketFd == socket && res == socket
    {
      peer.socketFd := socket;
      peer.openCon := true;
      return socket;
    }

    /** The loop body of name_server_handle. A PEERS message with entries replaces the list by
        those it can parse, in order, and then connects to each, unless it is held up at a
        malformed one; the k-th attempt returns sockets(k). Without entries the old list is
        connected. After a message that lists clean endpoints every text goes exactly once to
        each of them, in order. */
    method HandleNameServerMsg(buffer: string, sockets: nat -> int, ghost eps: seq<Endpoint>)
      requires peerList.Valid() && Distinct(peerList.contents)
      modifies this`nextPeerId, peerList, peerList.heap, peerList.contents
      ensures peerList.Valid() && Distinct(peerList.contents) && fresh(peerList.heap - old(peerList.heap))
      ensures !("PEERS " <= buffer) ==> unchanged(this) && unchanged(peerList) && unchanged(peerList.contents)
      ensures "PEERS " < buffer ==>
                var toks := Tokens(buffer[6..], ' ');
                && EndpointsOf(peerList.contents) == ParseEntries(toks)
                && (if Finishes(toks) then ConnectedTo(peerList.contents, sockets)
                    else Created(peerList.contents, old(nextPeerId)))
      ensures buffer == "PEERS " ==>
                && peerList.contents == old(peerList.contents)
                && forall k :: 0 <= k < |peerList.contents| ==>
                     && peerList.contents[k].openCon
                     && peerList.contents[k].socketFd
                        == if old(peerList.contents[k].openCon) then old(peerList.contents[k].socketFd) else sockets(k)
      ensures buffer == "PEERS " + Format(eps) && eps != [] && (forall k :: 0 <= k < |eps| ==> Clean(eps[k])) ==>
                && EndpointsOf(peerList.contents) == eps && ConnectedTo(peerList.contents, sockets)
                && forall text :: SendsTo(peerList.contents, text) == OneEach(eps, text)
    {
      hide List.Valid, List.Chained, Format, Tokens, ParseEntries, Finishes, SendsTo, OneEach;
      if "PEERS " <= buffer {
        assert buffer == "PEERS " + buffer[6..];
        var code, finished := ParsePeers(buffer[6..]);
        if finished {
          var _ := ConnectToPeers(sockets);
        }
        if buffer == "PEERS " + Format(eps) && eps != [] && forall k :: 0 <= k < |eps| ==> Clean(eps[k]) {
          PeersRoundTrip(eps);
          FormatNotEmpty(eps);
          assert buffer[6..] == Format(eps);
          forall text ensures SendsTo(peerList.contents, text) == OneEach(eps, text) {
            SendsToAll(peerList.contents, text);
          }
        }
      }
    }
  }

  lemma NoneCreated(first: int)
    ensures Created([], first) && Distinct<Peer>([])
  {
  }

  // One round of parse_peers.
  lemma NextEntry(toks: seq<string>, i: nat)
    requires i <= |toks|
    ensures ParseEntries(toks[i..])
            == if i < |toks| && |Tokens(toks[i], ':')| >= 2
               then [PeerText.Endpoint(Tokens(toks[i], ':')[0], Tokens(toks[i], ':')[1])] + ParseEntries(toks[i + 1..])
               else []
    ensures i < |toks| ==> (ParseEntry(toks[i]).Some? <==> |Tokens(toks[i], ':')| >= 2)
  {
    hide Tokens;
    if i < |toks| {
      assert toks[i..][1..] == toks[i + 1..];
    }
  }

  // A copy of the text to each of some endpoints.
  function OneEach(eps: seq<Endpoint>, text: Text): (r: seq<Sent>)
    ensures |r| == |eps|
    ensures forall k :: 0 <= k < |r| ==> r[k] == Sent(eps[k], text)
  {
    seq(|eps|, k requires 0 <= k < |eps| => Sent(eps[k], text))
  }

  const COLON: byte := 58

  // strchr(input, ':')
  method FirstColon(input: seq<byte>) returns (i: nat)
    requires COLON in input
    ensures i < |input| && input[i] == COLON && COLON !in input[..i]
  {
    i := 0;
    while input[i] != COLON
      invariant i < |input| && COLON !in input[..i]
      decreases |input| - i
    {
      assert input == input[..i] + [input[i]] + input[i + 1..];
      i := i + 1;
    }
  }

  lemma FormatNotEmpty(eps: seq<Endpoint>)
    requires eps != []
    ensures Format(eps) != ""
  {
    assert |Entry(eps[0])| > 0;
  }
}
