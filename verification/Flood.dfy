/**
 The flooding protocol of ac-client-server/client_server.c as a state machine over a
 network of clients. Every client may run any number of handler threads; a step is one
 stretch of code under a mutex, so a run is any interleaving of them.

 The last five fields of a state are histories: they record what happened and decide
 nothing.

 A thread that opens a text without the three fields of an envelope follows a NULL pointer
 and takes its client down. There is no step for that: a client that has died, there or for
 any other reason, is one that takes no more steps.
 */
module Flood {
  import opened SeenTable
  import Envelope

  // The peer list of every client, in sending order, repetitions included.
  type Network = seq<seq<nat>>

  ghost predicate IsNetwork(net: Network) {
    forall n, k :: 0 <= n < |net| && 0 <= k < |net[n]| ==> net[n][k] < |net|
  }

  // A thread between recording a text and sending it (`own` if it was typed here), or
  // between sending a received text and trying to decrypt it.
  datatype Thread = Sending(node: nat, text: Text, own: bool) | Opening(node: nat, text: Text)

  datatype Copy = Copy(to: nat, text: Text)

  datatype Recording = Recording(node: nat, text: Text, time: int)

  datatype State = State(
    clock: int,
    tables: seq<Table>,
    threads: multiset<Thread>,
    wire: multiset<Copy>,
    originated: multiset<Copy>,
    recorded: seq<Recording>,
    sent: multiset<Copy>,
    delivered: multiset<Copy>,
    tried: multiset<Copy>)

  datatype Step =
    | Originate(node: nat, text: Text)           // input_send_msg records its text
    | Receive(node: nat, text: Text)             // client_parse_msg: check and insert
    | Forward(node: nat, text: Text, own: bool)  // client_send_to_all_peers
    | Open(node: nat, text: Text)                // client_parse_msg: try to decrypt
    | Purge(node: nat)                           // client_purge_msg
    | Tick(seconds: nat)                         // time passes

  function Init(net: Network): State {
    State(0, seq(|net|, _ => map[]), multiset{}, multiset{}, multiset{}, [], multiset{}, multiset{}, multiset{})
  }

  // One copy to every entry of a peer list.
  function Copies(peers: seq<nat>, text: Text): multiset<Copy> {
    if peers == [] then multiset{}
    else Copies(peers[..|peers| - 1], text) + multiset{Copy(peers[|peers| - 1], text)}
  }

  predicate Enabled(net: Network, s: State, step: Step)
    requires |s.tables| == |net|
  {
    match step
    case Originate(n, text) => n < |net|
    case Receive(n, text) => n < |net| && s.wire[Copy(n, text)] > 0
    case Forward(n, text, own) => n < |net| && s.threads[Sending(n, text, own)] > 0
    case Open(n, text) => n < |net| && s.threads[Opening(n, text)] > 0 && Envelope.HasFields(text)
    case Purge(n) => n < |net|
    case Tick(_) => true
  }

  function Next(net: Network, s: State, step: Step): (s': State)
    requires |s.tables| == |net| && Enabled(net, s, step)
    ensures |s'.tables| == |net|
  {
    match step
    case Originate(n, text) =>
      s.(tables := s.tables[n := Added(s.tables[n], text, s.clock)],
         threads := s.threads + multiset{Sending(n, text, true)},
         originated := s.originated + multiset{Copy(n, text)})
    case Receive(n, text) =>
      var taken := s.(wire := s.wire - multiset{Copy(n, text)}, delivered := s.delivered + multiset{Copy(n, text)});
      if text in s.tables[n] then taken
      else taken.(tables := s.tables[n := Added(s.tables[n], text, s.clock)],
                  threads := s.threads + multiset{Sending(n, text, false)},
                  recorded := s.recorded + [Recording(n, text, s.clock)])
    case Forward(n, text, own) =>
      var gone := s.threads - multiset{Sending(n, text, own)};
      s.(threads := if own then gone else gone + multiset{Opening(n, text)},
         wire := s.wire + Copies(net[n], text),
         sent := s.sent + Copies(net[n], text))
    case Open(n, text) =>
      s.(threads := s.threads - multiset{Opening(n, text)},
         tried := s.tried + multiset{Copy(n, text)})
    case Purge(n) =>
      s.(tables := s.tables[n := Purged(s.tables[n], s.clock)])
    case Tick(seconds) =>
      s.(clock := s.clock + seconds)
  }

  // ----- runs: any sequence of enabled steps from the start

  ghost predicate Legal(net: Network, steps: seq<Step>)
    decreases |steps|, 0
  {
    steps == [] ||
    (&& Legal(net, steps[..|steps| - 1])
     && Enabled(net, Exec(net, steps[..|steps| - 1]), steps[|steps| - 1]))
  }

  ghost function Exec(net: Network, steps: seq<Step>): (s: State)
    requires Legal(net, steps)
    ensures |s.tables| == |net|
    decreases |steps|, 1
  {
    if steps == [] then Init(net)
    else Next(net, Exec(net, steps[..|steps| - 1]), steps[|steps| - 1])
  }

  lemma OneMoreStep(net: Network, steps: seq<Step>, step: Step)
    requires Legal(net, steps) && Enabled(net, Exec(net, steps), step)
    ensures Legal(net, steps + [step])
    ensures Exec(net, steps + [step]) == Next(net, Exec(net, steps), step)
  {
    assert (steps + [step])[..|steps|] == steps;
  }

  // As in main, where the purging thread is never started.
  ghost predicate NoPurge(steps: seq<Step>) {
    forall i :: 0 <= i < |steps| ==> !steps[i].Purge?
  }

  // ----- counting

  // How often a client recorded a received text.
  function Times(rec: seq<Recording>, n: nat, text: Text): nat {
    if rec == [] then 0
    else Times(rec[..|rec| - 1], n, text) +
         if rec[|rec| - 1].node == n && rec[|rec| - 1].text == text then 1 else 0
  }

  lemma TimesAfter(rec: seq<Recording>, r: Recording, n: nat, text: Text)
    ensures Times(rec + [r], n, text) == Times(rec, n, text) + if r.node == n && r.text == text then 1 else 0
  {
    assert (rec + [r])[..|rec|] == rec;
  }

  function Pending(s: State, n: nat, text: Text): nat {
    s.threads[Sending(n, text, true)] + s.threads[Sending(n, text, false)]
  }

  // How often client n has sent the text to its peers.
  function Forwards(s: State, n: nat, text: Text): int {
    s.originated[Copy(n, text)] + Times(s.recorded, n, text) - Pending(s, n, text)
  }

  lemma {:induction false} CopiesCount(peers: seq<nat>, text: Text, c: Copy)
    ensures Copies(peers, text)[c] > 0 <==> c.text == text && c.to in peers
  {
    if peers != [] {
      CopiesCount(peers[..|peers| - 1], text, c);
      assert peers == peers[..|peers| - 1] + [peers[|peers| - 1]];
    }
  }

  // ----- the effect of one step on one client and text

  predicate Fresh(s: State, step: Step, n: nat, text: Text)
    requires n < |s.tables|
  {
    step == Receive(n, text) && text !in s.tables[n]
  }

  // The threads that a step ends, or takes one step further, and those it starts.
  function Ended(step: Step): multiset<Thread> {
    match step
    case Forward(n, text, own) => multiset{Sending(n, text, own)}
    case Open(n, text) => multiset{Opening(n, text)}
    case _ => multiset{}
  }

  function Started(s: State, step: Step): multiset<Thread> {
    match step
    case Originate(n, text) => multiset{Sending(n, text, true)}
    case Receive(n, text) =>
      if n < |s.tables| && text !in s.tables[n] then multiset{Sending(n, text, false)} else multiset{}
    case Forward(n, text, own) => if own then multiset{} else multiset{Opening(n, text)}
    case _ => multiset{}
  }

  lemma ThreadsEffect(net: Network, s: State, step: Step)
    requires |s.tables| == |net| && Enabled(net, s, step)
    ensures Ended(step) <= s.threads
    ensures Next(net, s, step).threads == s.threads - Ended(step) + Started(s, step)
  {
    hide Copies, Added, Purged, Envelope.HasFields;
    if step.Forward? {
      assert s.threads - Ended(step) + multiset{} == s.threads - Ended(step);
    } else if !step.Open? {
      assert s.threads - multiset{} == s.threads;
    }
  }

  lemma SendingEffect(net: Network, s: State, step: Step, n: nat, text: Text)
    requires |s.tables| == |net| && Enabled(net, s, step) && n < |net|
    ensures var s' := Next(net, s, step);
            && s'.threads[Sending(n, text, true)] == s.threads[Sending(n, text, true)]
               + (if step == Originate(n, text) then 1 else if step == Forward(n, text, true) then -1 else 0)
            && s'.threads[Sending(n, text, false)] == s.threads[Sending(n, text, false)]
               + (if Fresh(s, step, n, text) then 1 else if step == Forward(n, text, false) then -1 else 0)
  {
    hide Next, Enabled;
    ThreadsEffect(net, s, step);
  }

  lemma OpeningEffect(net: Network, s: State, step: Step, n: nat, text: Text)
    requires |s.tables| == |net| && Enabled(net, s, step) && n < |net|
    ensures var s' := Next(net, s, step);
            && s'.threads[Opening(n, text)] == s.threads[Opening(n, text)]
               + (if step == Forward(n, text, false) then 1 else if step == Open(n, text) then -1 else 0)
            && s'.tried[Copy(n, text)] == s.tried[Copy(n, text)] + (if step == Open(n, text) then 1 else 0)
  {
    hide Next, Enabled;
    ThreadsEffect(net, s, step);
    TriedEffect(net, s, step);
  }

  lemma TriedEffect(net: Network, s: State, step: Step)
    requires |s.tables| == |net| && Enabled(net, s, step)
    ensures Next(net, s, step).tried
            == s.tried + if step.Open? then multiset{Copy(step.node, step.text)} else multiset{}
  {
    hide Copies, Added, Purged, Envelope.HasFields;
  }

  lemma RecordEffect(net: Network, s: State, step: Step, n: nat, text: Text)
    requires |s.tables| == |net| && Enabled(net, s, step) && n < |net|
    ensures var s' := Next(net, s, step);
            && Times(s'.recorded, n, text) == Times(s.recorded, n, text) + (if Fresh(s, step, n, text) then 1 else 0)
            && s'.originated[Copy(n, text)]
               == s.originated[Copy(n, text)] + (if step == Originate(n, text) then 1 else 0)
            && (!step.Purge? ==>
                  (text in s'.tables[n] <==>
                     text in s.tables[n] || step == Originate(n, text) || step == Receive(n, text)))
  {
    hide Copies, Times, Purged;
    if step.Receive? {
      TimesAfter(s.recorded, Recording(step.node, step.text, s.clock), n, text);
    }
  }

  lemma ForwardsEffect(net: Network, s: State, step: Step, n: nat, text: Text)
    requires |s.tables| == |net| && n < |net| && Enabled(net, s, step)
    ensures Forwards(Next(net, s, step), n, text)
            == Forwards(s, n, text) + if step.Forward? && step.text == text && step.node == n then 1 else 0
  {
    hide Next, Enabled, Times;
    SendingEffect(net, s, step, n, text);
    RecordEffect(net, s, step, n, text);
  }

  lemma WireEffect(net: Network, s: State, step: Step, n: nat, text: Text)
    requires |s.tables| == |net| && Enabled(net, s, step) && n < |net|
    ensures var s' := Next(net, s, step);
            var more := if step.Forward? then Copies(net[step.node], step.text)[Copy(n, text)] else 0;
            && s'.wire[Copy(n, text)] == s.wire[Copy(n, text)] + more - (if step == Receive(n, text) then 1 else 0)
            && s'.sent[Copy(n, text)] == s.sent[Copy(n, text)] + more
  {
    hide Copies, Added, Purged;
  }

  // ----- the effect of one step on a table and the clock

  // The step is one of client n's own.
  predicate IsStepOf(step: Step, n: nat) {
    !step.Tick? && step.node == n
  }

  // What a step of its own does to a client's table.
  function TableAfter(table: Table, step: Step, now: int): Table {
    match step
    case Originate(_, text) => Added(table, text, now)
    case Receive(_, text) => if text in table then table else Added(table, text, now)
    case Purge(_) => Purged(table, now)
    case _ => table
  }

  lemma TableEffect(net: Network, s: State, step: Step, n: nat)
    requires |s.tables| == |net| && n < |net| && Enabled(net, s, step)
    ensures Next(net, s, step).tables[n]
            == if IsStepOf(step, n) then TableAfter(s.tables[n], step, s.clock) else s.tables[n]
  {
    hide Next, TableAfter;
    if step.Forward? || step.Open? || step.Tick? {
      TablesStay(net, s, step);
    } else {
      OneTableChanges(net, s, step);
    }
  }

  lemma TablesStay(net: Network, s: State, step: Step)
    requires |s.tables| == |net| && Enabled(net, s, step) && (step.Forward? || step.Open? || step.Tick?)
    ensures Next(net, s, step).tables == s.tables
    ensures forall table :: TableAfter(table, step, s.clock) == table
  {
    hide Copies, Added, Purged, Envelope.HasFields;
  }

  lemma OneTableChanges(net: Network, s: State, step: Step)
    requires |s.tables| == |net| && Enabled(net, s, step) && (step.Originate? || step.Receive? || step.Purge?)
    ensures step.node < |net|
    ensures Next(net, s, step).tables == s.tables[step.node := TableAfter(s.tables[step.node], step, s.clock)]
  {
    hide Copies, Added, Purged, Envelope.HasFields;
  }

  lemma ClockEffect(net: Network, s: State, step: Step)
    requires |s.tables| == |net| && Enabled(net, s, step)
    ensures Next(net, s, step).clock == s.clock + if step.Tick? then step.seconds else 0
  {
    hide Copies, Envelope.HasFields;
  }

  // ----- what holds in every run, purged or not

  // Nothing is lost or made up on the wire.
  lemma {:induction false} Conservation(net: Network, steps: seq<Step>)
    requires Legal(net, steps)
    ensures var s := Exec(net, steps); s.sent == s.delivered + s.wire
  {
    hide Next, Enabled;
    if steps != [] {
      Conservation(net, steps[..|steps| - 1]);
      ConservationStep(net, Exec(net, steps[..|steps| - 1]), steps[|steps| - 1]);
    }
  }

  lemma ConservationStep(net: Network, s: State, step: Step)
    requires |s.tables| == |net| && Enabled(net, s, step) && s.sent == s.delivered + s.wire
    ensures var s' := Next(net, s, step); s'.sent == s'.delivered + s'.wire
  {
    hide Copies;
    if step.Receive? {
      var c := multiset{Copy(step.node, step.text)};
      assert c + (s.wire - c) == s.wire;
    } else if step.Forward? {
      var more := Copies(net[step.node], step.text);
      assert s.sent + more == s.delivered + (s.wire + more);
    }
  }

  // Every recording is on its way to the peers, waiting for its decryption to be tried, or tried.
  ghost predicate Accounted(s: State, n: nat, text: Text) {
    Times(s.recorded, n, text)
    == s.threads[Sending(n, text, false)] + s.threads[Opening(n, text)] + s.tried[Copy(n, text)]
  }

  // A text typed in is pending at most as often as it was originated.
  ghost predicate OwnAccounted(s: State, n: nat, text: Text) {
    s.threads[Sending(n, text, true)] <= s.originated[Copy(n, text)]
  }

  lemma {:induction false} AlwaysAccounted(net: Network, steps: seq<Step>, n: nat, text: Text)
    requires Legal(net, steps) && n < |net|
    ensures Accounted(Exec(net, steps), n, text) && OwnAccounted(Exec(net, steps), n, text)
  {
    hide Next, Enabled;
    if steps != [] {
      AlwaysAccounted(net, steps[..|steps| - 1], n, text);
      var s, step := Exec(net, steps[..|steps| - 1]), steps[|steps| - 1];
      SendingEffect(net, s, step, n, text);
      OpeningEffect(net, s, step, n, text);
      RecordEffect(net, s, step, n, text);
    }
  }

  // No key is ever tried on a text without fields.
  lemma {:induction false} NeverOpened(net: Network, steps: seq<Step>, n: nat, text: Text)
    requires Legal(net, steps) && n < |net| && !Envelope.HasFields(text)
    ensures Exec(net, steps).tried[Copy(n, text)] == 0
  {
    hide Next, Envelope.HasFields;
    if steps != [] {
      NeverOpened(net, steps[..|steps| - 1], n, text);
      OpeningEffect(net, Exec(net, steps[..|steps| - 1]), steps[|steps| - 1], n, text);
    }
  }

  // ----- what holds in every run without purging

  // A text is in a table exactly if the client originated it or recorded it on receipt,
  // and it is recorded on receipt at most once.
  ghost predicate SeenExactly(s: State, n: nat, text: Text)
    requires n < |s.tables|
  {
    && (text in s.tables[n] <==> s.originated[Copy(n, text)] > 0 || Times(s.recorded, n, text) > 0)
    && Times(s.recorded, n, text) <= 1
  }

  lemma {:induction false} AtMostOnce(net: Network, steps: seq<Step>, n: nat, text: Text)
    requires Legal(net, steps) && NoPurge(steps) && n < |net|
    ensures SeenExactly(Exec(net, steps), n, text)
  {
    hide Next, Enabled;
    if steps != [] {
      AtMostOnce(net, steps[..|steps| - 1], n, text);
      RecordEffect(net, Exec(net, steps[..|steps| - 1]), steps[|steps| - 1], n, text);
    }
  }

  // Each peer of client n has seen the text or has a copy in flight.
  ghost predicate PeersCovered(net: Network, s: State, n: nat, text: Text)
    requires IsNetwork(net) && |s.tables| == |net| && n < |net|
  {
    forall k :: 0 <= k < |net[n]| ==> text in s.tables[net[n][k]] || s.wire[Copy(net[n][k], text)] > 0
  }

  // A client that has seen a text has still to send it or has sent it, and once it has, even
  // if another thread is to send it again, each peer is covered.
  ghost predicate Covered(net: Network, s: State, n: nat, text: Text)
    requires IsNetwork(net) && |s.tables| == |net| && n < |net|
  {
    && (text in s.tables[n] ==> Pending(s, n, text) > 0 || Forwards(s, n, text) > 0)
    && (Forwards(s, n, text) > 0 ==> PeersCovered(net, s, n, text))
  }

  lemma {:induction false} AlwaysCovered(net: Network, steps: seq<Step>, n: nat, text: Text)
    requires IsNetwork(net) && Legal(net, steps) && NoPurge(steps) && n < |net|
    ensures Covered(net, Exec(net, steps), n, text)
  {
    hide Next, Enabled, PeersCovered;
    AtMostOnce(net, steps, n, text);
    if steps != [] {
      AlwaysCovered(net, steps[..|steps| - 1], n, text);
      CoveredStep(net, Exec(net, steps[..|steps| - 1]), steps[|steps| - 1], n, text);
    }
  }

  lemma CoveredStep(net: Network, s: State, step: Step, n: nat, text: Text)
    requires IsNetwork(net) && |s.tables| == |net| && n < |net|
    requires Enabled(net, s, step) && !step.Purge?
    requires Forwards(s, n, text) > 0 ==> PeersCovered(net, s, n, text)
    ensures Forwards(Next(net, s, step), n, text) > 0 ==> PeersCovered(net, Next(net, s, step), n, text)
  {
    hide Next, Enabled, Forwards, Copies;
    var s' := Next(net, s, step);
    ForwardsEffect(net, s, step, n, text);
    if Forwards(s', n, text) > 0 {
      forall k | 0 <= k < |net[n]| ensures text in s'.tables[net[n][k]] || s'.wire[Copy(net[n][k], text)] > 0 {
        RecordEffect(net, s, step, net[n][k], text);
        WireEffect(net, s, step, net[n][k], text);
        if step.Forward? && step.node == n && step.text == text {
          CopiesCount(net[n], text, Copy(net[n][k], text));
        }
      }
    }
  }
}
