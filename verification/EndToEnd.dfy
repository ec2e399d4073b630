/**
 The parts together: the peer lists that manage_graph deals are the network of the flood,
 and the text that floods it is an envelope.
 */
module EndToEnd {
  import opened Sequences
  import opened PeerText
  import opened PeerGraph
  import opened NameServer
  import opened Base64
  import Envelope
  import opened Cipher
  import opened SeenTable
  import opened Flood
  import opened FloodCoverage
  import opened FloodCost
  import CN = ClientNode
  import CR = ClientRun

  // ----- the lists that manage_graph deals, as a network

  // The length of each dealt list.
  function ListLength(n: nat): int {
    if n < PEER_POOL_SIZE then n - 1 else 2 * (n - 1)
  }

  lemma DealtLists(net: Network, i: nat)
    requires Dealt(net) && i < |net|
    ensures |net[i]| == ListLength(|net|)
    ensures forall j :: 0 <= j < |net| && j != i ==> j in net[i]
  {
    LengthIsSumOfCounts(net[i], |net|);
    CountsOfDeal(net[i], |net|, i, |net|);
    forall j | 0 <= j < |net| && j != i ensures j in net[i] {
      assert Count(net[i], j) > 0;
    }
  }

  lemma {:induction false} CountsOfDeal(deal: seq<nat>, n: nat, i: nat, limit: nat)
    requires DealtTo(deal, n, i) && limit <= n && i < n
    ensures SumOfCounts(deal, limit)
            == (limit - if i < limit then 1 else 0) * if n < PEER_POOL_SIZE then 1 else 2
  {
    if limit > 0 {
      CountsOfDeal(deal, n, i, limit - 1);
    }
  }

  lemma DealtNetwork(net: Network, o: nat, x: nat)
    requires Dealt(net) && o < |net| && x < |net|
    ensures IsNetwork(net) && Reaches(net, o, x)
  {
    ReachesItself(net, o);
    if x != o {
      DealtLists(net, o);
      ReachesPeer(net, o, o, x);
    }
  }

  // ----- from the name server's message to the copies on the wire

  /** A client takes the name server's delivery: it tries to connect to each client of the dealt
      list, in order, and from then on it sends every text to them, in order; and if all
      endpoints are different, as many copies go to each client as the flood says. */
  method TakePeers(d: Delivery, me: CN.Client, sockets: nat -> int, ghost clients: seq<Client>, ghost i: nat,
                   ghost deal: seq<nat>)
    requires me.peerList.Valid() && Distinct(me.peerList.contents)
    requires i < |clients| && |clients| >= 2 && SentTo(d, clients, i, deal)
    requires forall k :: 0 <= k < |clients| ==> Clean(clients[k].Endpoint())
    modifies me`nextPeerId, me.peerList, me.peerList.heap, me.peerList.contents
    ensures me.peerList.Valid() && CN.ConnectedTo(me.peerList.contents, sockets)
    ensures forall text ::
              CN.SendsTo(me.peerList.contents, text) == CN.OneEach(Pick(Endpoints(clients), deal), text)
    ensures Distinct(Endpoints(clients)) ==>
              forall text, x :: 0 <= x < |clients| ==>
                multiset(CN.SendsTo(me.peerList.contents, text))[CN.Sent(clients[x].Endpoint(), text)]
                == Copies(deal, text)[Copy(x, text)]
  {
    hide SentTo, DealtTo, Endpoints, Pick, Format, Clean, Copies, Distinct;
    hide CN.SendsTo, CN.OneEach, CN.EndpointsOf, CN.ConnectedTo, CN.Created, PeerText.ParseEntries, PeerText.Finishes;
    ghost var names := Endpoints(clients);
    DealtEndpoints(d, clients, i, deal);
    me.HandleNameServerMsg(d.text, sockets, Pick(names, deal));
    assert Endpoints(clients) == names;
    if Distinct(names) {
      SendsAreCopies(me.peerList.contents, names, deal);
    }
  }

  // The delivered text lists the endpoints of the dealt clients.
  lemma DealtEndpoints(d: Delivery, clients: seq<Client>, i: nat, deal: seq<nat>)
    requires i < |clients| && |clients| >= 2 && SentTo(d, clients, i, deal)
    requires forall k :: 0 <= k < |clients| ==> Clean(clients[k].Endpoint())
    ensures CR.Named(deal, Endpoints(clients)) && Pick(Endpoints(clients), deal) != []
    ensures d.text == "PEERS " + Format(Pick(Endpoints(clients), deal))
    ensures forall k :: 0 <= k < |Pick(Endpoints(clients), deal)| ==> Clean(Pick(Endpoints(clients), deal)[k])
  {
    hide Format, Clean, Count;
    assert Pick(Endpoints(clients), deal) == Endpoints(Pick(clients, deal));
    DealNotEmpty(deal, |clients|, i);
  }

  lemma SendsAreCopies(peers: seq<CN.Peer>, names: seq<Endpoint>, deal: seq<nat>)
    requires Distinct(names) && CR.Named(deal, names)
    requires forall text :: CN.SendsTo(peers, text) == CN.OneEach(Pick(names, deal), text)
    ensures forall text, x :: 0 <= x < |names| ==>
              multiset(CN.SendsTo(peers, text))[CN.Sent(names[x], text)] == Copies(deal, text)[Copy(x, text)]
  {
    hide Copies, CN.SendsTo, CN.OneEach, Pick;
    forall text, x | 0 <= x < |names|
      ensures multiset(CN.SendsTo(peers, text))[CN.Sent(names[x], text)] == Copies(deal, text)[Copy(x, text)]
    {
      CR.OutboxIsCopies(names, deal, text, text, x);
    }
  }

  // ----- the main theorem

  lemma {:induction false} DealtSums(net: Network, o: nat, limit: nat)
    requires Dealt(net) && o < |net| && limit <= |net|
    ensures ReachedLists(net, o, limit) == limit * ListLength(|net|)
    ensures WholeWork(net, limit) == limit * ListLength(|net|) + 2 * limit
  {
    if limit > 0 {
      DealtSums(net, o, limit - 1);
      DealtNetwork(net, o, limit - 1);
      DealtLists(net, limit - 1);
      var len := ListLength(|net|);
      assert limit * len == (limit - 1) * len + len;
    }
  }

  // The number of copies a flood sends among n clients.
  function Transmissions(n: nat): int {
    if n < PEER_POOL_SIZE then n * (n - 1) else 2 * n * (n - 1)
  }

  lemma DealtReaches(net: Network, o: nat)
    requires Dealt(net) && o < |net|
    ensures IsNetwork(net) && forall n :: 0 <= n < |net| ==> Reaches(net, o, n)
  {
    hide Reaches, Dealt, IsNetwork;
    DealtNetwork(net, o, o);
    forall n | 0 <= n < |net| ensures Reaches(net, o, n) {
      DealtNetwork(net, o, n);
    }
  }

  lemma TransmissionCount(n: nat)
    ensures n * ListLength(n) == Transmissions(n)
  {
    assert n * (2 * (n - 1)) == 2 * n * (n - 1);
  }

  // Among dealt lists, a flood has cost exactly so much once every client is at rest, and
  // never more before.
  lemma SettledAmongDealt(net: Network, steps: seq<Step>, o: nat, text: Text)
    requires Dealt(net) && o < |net|
    requires Legal(net, steps) && NoPurge(steps) && Sole(net, Exec(net, steps), o, text)
    ensures var s := Exec(net, steps);
            && Total(s.sent, text, |net|) <= Transmissions(|net|)
            && (Settled(net, s, text) ==>
                  && Total(s.sent, text, |net|) == Transmissions(|net|)
                  && FloodSteps(steps, text) + Total(s.wire, text, |net|) + Unopened(s, text, |net|)
                     == Transmissions(|net|) + 2 * |net| - 1)
  {
    hide Exec, Legal, NoPurge, Sole, Settled, Reaches, Dealt, IsNetwork;
    DealtReaches(net, o);
    DealtSums(net, o, |net|);
    TransmissionCount(|net|);
    CostNeverMore(net, steps, o, text);
    if Settled(net, Exec(net, steps), text) {
      SettledCost(net, steps, o, text);
      SettledLength(net, steps, o, text);
    }
  }

  /** Among clients with dealt peer lists, client o types a text once. However the handler
      threads of all clients interleave, whatever else is going on, and whichever other clients
      have stopped, at any point and for any reason: once all is quiet at the rest, each of them
      but o has recorded the text exactly once and tried its key on it exactly once, and o has
      done neither. With nobody stopped the flood has taken exactly so many copies and so many
      steps. It can only get there if the text has its three fields. */
  lemma FloodReachesEveryoneOnce(net: Network, steps: seq<Step>, o: nat, text: Text, stopped: set<nat>)
    requires Dealt(net) && o < |net| && o !in stopped
    requires Legal(net, steps) && NoPurge(steps)
    requires Sole(net, Exec(net, steps), o, text) && QuietBut(net, Exec(net, steps), text, stopped)
    ensures var s := Exec(net, steps);
            forall n :: 0 <= n < |net| && n !in stopped ==>
              && text in s.tables[n]
              && Times(s.recorded, n, text) == s.tried[Copy(n, text)] == (if n == o then 0 else 1)
              && (n != o ==> Envelope.HasFields(text))
    ensures var sent := Total(Exec(net, steps).sent, text, |net|);
            && sent <= Transmissions(|net|)
            && (stopped == {} ==>
                  sent == Transmissions(|net|) && FloodSteps(steps, text) == Transmissions(|net|) + 2 * |net| - 1)
  {
    hide Exec, Legal, NoPurge, Sole, Settled, QuietBut, Reaches, Dealt, IsNetwork, Envelope.HasFields;
    var s := Exec(net, steps);
    DealtReaches(net, o);
    forall n | 0 <= n < |net| && n !in stopped
      ensures text in s.tables[n]
      ensures Times(s.recorded, n, text) == s.tried[Copy(n, text)] == if n == o then 0 else 1
      ensures n != o ==> Envelope.HasFields(text)
    {
      var path := DirectPath(net, o, n, stopped);
      OnceAmongTheLiving(net, steps, o, path, text, stopped);
      if !Envelope.HasFields(text) {
        NeverOpened(net, steps, n, text);
      }
    }
    if stopped == {} {
      assert Quiescent(net, s, text);
      QuiescentIsSettled(net, s, text);
      NothingLeft(net, s, text, |net|);
    }
    SettledAmongDealt(net, steps, o, text);
  }

  lemma DirectPath(net: Network, o: nat, n: nat, stopped: set<nat>) returns (path: seq<nat>)
    requires Dealt(net) && o < |net| && n < |net| && o !in stopped && n !in stopped
    ensures IsPath(net, path) && path[0] == o && path[|path| - 1] == n && Avoids(path, stopped)
  {
    path := if n == o then [o] else [o, n];
    DealtLists(net, o);
  }

  /** A text without the three fields reaches everyone as well, at the same cost; but then
      every other client comes to the point of opening it and follows a NULL pointer. It takes
      no step after that, and the copies that were still to come to it stay on the wire. */
  lemma FloodOfMissingField(net: Network, steps: seq<Step>, o: nat, text: Text)
    requires Dealt(net) && o < |net|
    requires Legal(net, steps) && NoPurge(steps)
    requires Sole(net, Exec(net, steps), o, text) && Settled(net, Exec(net, steps), text)
    requires !Envelope.HasFields(text)
    ensures var s := Exec(net, steps);
            && (forall n :: 0 <= n < |net| ==>
                  && text in s.tables[n] && Pending(s, n, text) == 0
                  && s.tried[Copy(n, text)] == 0
                  && Times(s.recorded, n, text) == s.threads[Opening(n, text)] == if n == o then 0 else 1)
            && Total(s.sent, text, |net|) == Transmissions(|net|)
            && FloodSteps(steps, text) + Total(s.wire, text, |net|) == Transmissions(|net|) + |net|
  {
    hide Exec, Legal, NoPurge, Sole, Settled, Reaches, Dealt, IsNetwork, Envelope.HasFields;
    var s := Exec(net, steps);
    DealtReaches(net, o);
    forall n | 0 <= n < |net|
      ensures text in s.tables[n] && Pending(s, n, text) == 0 && s.tried[Copy(n, text)] == 0
      ensures Times(s.recorded, n, text) == s.threads[Opening(n, text)] == if n == o then 0 else 1
    {
      RecordedOnce(net, steps, o, n, text);
      LeftAtMissingField(net, steps, o, n, text);
    }
    SettledAmongDealt(net, steps, o, text);
    UnopenedByOthers(s, o, text, |net|);
  }

  lemma {:induction false} UnopenedByOthers(s: State, o: nat, text: Text, limit: nat)
    requires forall n :: 0 <= n < limit ==> s.threads[Opening(n, text)] == if n == o then 0 else 1
    ensures Unopened(s, text, limit) == limit - if o < limit then 1 else 0
  {
    if limit > 0 {
      UnopenedByOthers(s, o, text, limit - 1);
    }
  }

  // ----- a typed message

  // What a key makes of the broadcast of some typed characters: the holder of the key it was
  // sealed for reads them, with one character wrong if they are more than 462.
  function ReadWith(suite: Suite, holder: nat, key: nat, chars: seq<byte>, nonce: nat): Outcome
    requires |SealText(suite, key, chars, nonce).iv| == Envelope.VECTOR_LENGTH
  {
    if holder != key then NotMeant
    else if |chars| <= 462 then Displayed(chars)
    else Displayed(CString(Garbled(chars, SealText(suite, key, chars, nonce).iv[15])))
  }

  lemma ReadOrDied(suite: Suite, keys: set<nat>, holder: nat, key: nat, chars: seq<byte>, nonce: nat, past: byte,
                   pad: seq<byte>)
    requires Ideal(suite, keys) && key in keys && holder in keys && NUL !in chars
    ensures |SealText(suite, key, chars, nonce).iv| == Envelope.VECTOR_LENGTH
    ensures var text := Broadcast(suite, key, chars, nonce, past, pad);
            && (Envelope.HasFields(text) <==> |chars| <= 478)
            && forall rest: seq<byte> :: |rest| >= Envelope.VECTOR_LENGTH ==>
                 Display(suite, holder, text, rest)
                 == if |chars| <= 478 then ReadWith(suite, holder, key, chars, nonce) else Died
  {
    hide Ideal, Broadcast, Envelope.Receive, Envelope.HasFields, SealText, Garbled, CString;
    var text := Broadcast(suite, key, chars, nonce, past, pad);
    forall rest: seq<byte> | |rest| >= Envelope.VECTOR_LENGTH
      ensures |SealText(suite, key, chars, nonce).iv| == Envelope.VECTOR_LENGTH
      ensures Display(suite, holder, text, rest)
              == if |chars| <= 478 then ReadWith(suite, holder, key, chars, nonce) else Died
      ensures Envelope.HasFields(text) <==> |chars| <= 478
    {
      hide Display;
      DisplayedByKeyHolders(suite, keys, key, chars, nonce, past, pad, holder, rest);
    }
    assert |seq(Envelope.VECTOR_LENGTH, _ => NUL)| >= Envelope.VECTOR_LENGTH;
  }

  /** End to end: the text is a message sealed for one key. Everyone but the originator who has
      not stopped has tried its key on the text exactly once, and in the run client n with key
      `holder` has printed exactly once what was typed, if that is the matching key, and nothing
      for it otherwise. With more than 462 characters one of them may be wrong, and with more
      than 478 the flood cannot have got this far at anyone. */
  lemma MessageArrives(net: Network, steps: seq<Step>, o: nat, stopped: set<nat>, suite: Suite, keys: set<nat>,
                       key: nat, chars: seq<byte>, nonce: nat, past: byte, pad: seq<byte>, n: nat, holder: nat,
                       rests: seq<seq<byte>>)
    requires Dealt(net) && o < |net| && o !in stopped && n < |net| && n !in stopped
    requires Ideal(suite, keys) && key in keys && holder in keys
    requires NUL !in chars && CR.RestsFor(steps, rests)
    requires Legal(net, steps) && NoPurge(steps)
    requires var text := Broadcast(suite, key, chars, nonce, past, pad);
             Sole(net, Exec(net, steps), o, text) && QuietBut(net, Exec(net, steps), text, stopped)
    ensures |SealText(suite, key, chars, nonce).iv| == Envelope.VECTOR_LENGTH
    ensures var text := Broadcast(suite, key, chars, nonce, past, pad);
            && Exec(net, steps).tried[Copy(n, text)] == (if n == o then 0 else 1)
            && (n != o ==> |chars| <= 478)
            && CR.OutputsFor(CR.Log(suite, holder, steps, n, rests), text)
               == if n == o then [] else CR.OutputOf(text, ReadWith(suite, holder, key, chars, nonce))
  {
    hide Exec, Legal, NoPurge, Sole, QuietBut, Dealt, Ideal, Broadcast, Envelope.HasFields, ReadWith;
    hide CR.Log, CR.OutputsFor;
    var text := Broadcast(suite, key, chars, nonce, past, pad);
    ReadOrDied(suite, keys, holder, key, chars, nonce, past, pad);
    var outcome := if |chars| <= 478 then ReadWith(suite, holder, key, chars, nonce) else Died;
    FloodReachesEveryoneOnce(net, steps, o, text, stopped);
    CR.PrintsPerTry(suite, holder, net, steps, n, rests, text, outcome);
    RepeatedOnce(CR.OutputOf(text, outcome));
  }

  lemma RepeatedOnce<T>(s: seq<T>)
    ensures CR.Repeated(s, 0) == [] && CR.Repeated(s, 1) == s
  {
  }

  /** The same of a client object: it takes client n's part in the run and prints, among what
      else it prints, exactly that. */
  method TakePart(me: CN.Client, steps: seq<Step>, n: nat, beyond: seq<byte>, ghost net: Network,
                  ghost names: seq<Endpoint>, ghost o: nat, ghost stopped: set<nat>, ghost keys: set<nat>,
                  ghost key: nat, ghost chars: seq<byte>, ghost nonce: nat, ghost past: byte, ghost pad: seq<byte>)
      returns (ghost log: seq<CR.Output>)
    requires Dealt(net) && o < |net| && o !in stopped && n < |net| && n !in stopped
    requires CR.Plays(me, net, Init(net), n, names) && |beyond| >= Envelope.VECTOR_LENGTH
    requires Ideal(me.suite, keys) && key in keys && me.privateKey in keys
    requires NUL !in chars
    requires Legal(net, steps) && NoPurge(steps)
    requires var text := Broadcast(me.suite, key, chars, nonce, past, pad);
             Sole(net, Exec(net, steps), o, text) && QuietBut(net, Exec(net, steps), text, stopped)
    modifies me.messages, me`outbox, me`printed
    ensures me.printed == old(me.printed) + CR.CharsOf(log)
    ensures |SealText(me.suite, key, chars, nonce).iv| == Envelope.VECTOR_LENGTH
    ensures var text := Broadcast(me.suite, key, chars, nonce, past, pad);
            CR.OutputsFor(log, text)
            == if n == o then [] else CR.OutputOf(text, ReadWith(me.suite, me.privateKey, key, chars, nonce))
  {
    hide CR.Plays, Exec, Legal, NoPurge, Sole, QuietBut, Dealt, Ideal, Broadcast, ReadWith, CR.Log, CR.OutputsFor;
    ghost var rests := CR.FollowRun(me, steps, n, beyond, net, names);
    log := CR.Log(me.suite, me.privateKey, steps, n, rests);
    MessageArrives(net, steps, o, stopped, me.suite, keys, key, chars, nonce, past, pad, n, me.privateKey, rests);
  }

  /** With 479 characters or more the broadcast has lost its third field. It still reaches
      everyone, and every other client, key holder or not, dies of it: it comes to the point of
      opening the text, once, and what opening does is to follow a NULL pointer. */
  lemma TooLongReachesEveryone(net: Network, steps: seq<Step>, o: nat, suite: Suite, keys: set<nat>, holder: nat,
                               key: nat, chars: seq<byte>, nonce: nat, past: byte, pad: seq<byte>, rest: seq<byte>)
    requires Dealt(net) && o < |net|
    requires Ideal(suite, keys) && key in keys && holder in keys
    requires NUL !in chars && |chars| >= 479 && |rest| >= Envelope.VECTOR_LENGTH
    requires Legal(net, steps) && NoPurge(steps)
    requires var text := Broadcast(suite, key, chars, nonce, past, pad);
             Sole(net, Exec(net, steps), o, text) && Settled(net, Exec(net, steps), text)
    ensures var s, text := Exec(net, steps), Broadcast(suite, key, chars, nonce, past, pad);
            && Display(suite, holder, text, rest) == Died
            && (forall n :: 0 <= n < |net| && n != o ==> s.threads[Opening(n, text)] == 1)
            && Total(s.sent, text, |net|) == Transmissions(|net|)
  {
    hide Exec, Legal, NoPurge, Sole, Settled, Dealt, Ideal, Display, Broadcast, Envelope.HasFields;
    ReadOrDied(suite, keys, holder, key, chars, nonce, past, pad);
    FloodOfMissingField(net, steps, o, Broadcast(suite, key, chars, nonce, past, pad));
  }
}
