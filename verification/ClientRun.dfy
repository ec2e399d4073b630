/**
 One client object in a run of the whole network: it takes the steps of the flood by its own
 code, and what it sends and prints is what the run says.
 */
module ClientRun {
  import opened Sequences
  import opened PeerText
  import opened Base64
  import opened Envelope
  import opened Cipher
  import opened SeenTable
  import F = Flood
  import opened ClientNode

  type Network = F.Network
  type State = F.State
  type Step = F.Step

  // What the flood knows of client n: the client object's table is the one in the state, and
  // it sends to the clients of its list in the network, in order; names are their endpoints.
  ghost predicate Plays(me: Client, net: Network, s: State, n: nat, names: seq<Endpoint>)
    reads me, me.messages, me.peerList, me.peerList.heap, me.peerList.contents
    ensures Plays(me, net, s, n, names) ==> |names| == |net| == |s.tables| && n < |net| && Named(net[n], names)
  {
    && |names| == |net| == |s.tables| && n < |net|
    && me.peerList.Valid()
    && me.messages.entries == s.tables[n]
    && Named(net[n], names)
    && forall text :: SendsTo(me.peerList.contents, text) == OneEach(Pick(names, net[n]), text)
  }

  ghost predicate Named(peers: seq<nat>, names: seq<Endpoint>) {
    forall k :: 0 <= k < |peers| ==> peers[k] < |names|
  }

  // ----- copies to endpoints and copies to clients

  // With different endpoints, as many copies go to client d as it has entries in the list.
  lemma {:induction false} OutboxIsCopies(names: seq<Endpoint>, list: seq<nat>, sent: Text, text: Text, d: nat)
    requires Distinct(names) && d < |names| && Named(list, names)
    ensures multiset(OneEach(Pick(names, list), sent))[Sent(names[d], text)] == F.Copies(list, sent)[F.Copy(d, text)]
  {
    if list != [] {
      OutboxIsCopies(names, list[..|list| - 1], sent, text, d);
      hide Pick, OneEach;
      LastCopy(names, list, sent);
    }
  }

  lemma LastCopy(names: seq<Endpoint>, list: seq<nat>, text: Text)
    requires list != [] && Named(list, names)
    ensures OneEach(Pick(names, list), text)
            == OneEach(Pick(names, list[..|list| - 1]), text) + [Sent(names[list[|list| - 1]], text)]
  {
  }

  // ----- one step

  // What other clients do, and time, leave client n alone.
  lemma OtherStep(me: Client, net: Network, s: State, step: Step, n: nat, names: seq<Endpoint>)
    requires Plays(me, net, s, n, names) && F.Enabled(net, s, step) && !F.IsStepOf(step, n)
    ensures Plays(me, net, F.Next(net, s, step), n, names)
  {
    hide SendsTo, OneEach, Pick, Named, F.Enabled, F.Next;
    F.TableEffect(net, s, step, n);
  }

  /** The code behind a step: a stretch under a mutex, or the attempt to decrypt. `goesOn`
      says whether a thread that took a message from the wire goes on to send it. */
  method RunStep(me: Client, step: Step, now: int, beyond: seq<byte>) returns (goesOn: bool, ghost rest: seq<byte>)
    requires me.peerList.Valid() && |beyond| >= VECTOR_LENGTH
    modifies me.messages, me`outbox, me`printed
    ensures me.messages.entries == F.TableAfter(old(me.messages.entries), step, now)
    ensures goesOn == match step case Receive(_, text) => text !in old(me.messages.entries)
                                 case Open(_, text) => HasFields(text)
                                 case _ => true
    ensures me.outbox == old(me.outbox) + if step.Forward? then SendsTo(me.peerList.contents, step.text) else []
    ensures |rest| >= VECTOR_LENGTH
    ensures me.printed == old(me.printed)
                          + if step.Open? then Shown(Display(me.suite, me.privateKey, step.text, rest)) else []
  {
    hide HasFields, Display, SendsTo, Added, Purged;
    goesOn, rest := true, beyond;
    match step
    case Originate(_, text) =>
      me.messages.HashAddMsg(text, now);
    case Receive(_, text) =>
      goesOn := me.CheckAndInsert(text, now);
    case Forward(_, text, _) =>
      me.SendToAllPeers(text);
    case Open(_, text) =>
      goesOn, rest := me.OpenMsg(text, beyond);
    case Purge(_) =>
      var _ := me.messages.PurgeMsg(now);
    case Tick(_) =>
  }

  // What client n hands to its connections in a step.
  function OutIn(step: Step, n: nat, eps: seq<Endpoint>): seq<Sent> {
    if step.Forward? && step.node == n then OneEach(eps, step.text) else []
  }

  // What it prints: a text and the characters in it.
  datatype Output = Output(text: Text, chars: seq<byte>)

  function PrintedIn(suite: Suite, key: nat, step: Step, n: nat, rest: seq<byte>): seq<Output>
    requires |rest| >= VECTOR_LENGTH
  {
    if step.Open? && step.node == n then OutputOf(step.text, Display(suite, key, step.text, rest)) else []
  }

  function OutputOf(text: Text, o: Outcome): seq<Output> {
    if o.Displayed? then [Output(text, o.chars)] else []
  }

  function CharsOf(log: seq<Output>): (r: seq<seq<byte>>)
    ensures |r| == |log|
    ensures forall k :: 0 <= k < |r| ==> r[k] == log[k].chars
  {
    seq(|log|, k requires 0 <= k < |log| => log[k].chars)
  }

  /** One step of client n by its own code keeps the client in step with the flood: the table
      is the one in the next state, the thread goes on as the flood says, one copy goes to each
      entry of n's list when the flood puts them on the wire, and the client prints what it can
      open. */
  method Perform(me: Client, step: Step, now: int, beyond: seq<byte>, ghost net: Network, ghost s: State,
                 ghost n: nat, ghost names: seq<Endpoint>) returns (goesOn: bool, ghost rest: seq<byte>)
    requires Plays(me, net, s, n, names) && F.Enabled(net, s, step) && F.IsStepOf(step, n)
    requires now == s.clock && |beyond| >= VECTOR_LENGTH
    modifies me.messages, me`outbox, me`printed
    ensures Plays(me, net, F.Next(net, s, step), n, names)
    ensures goesOn == (step.Receive? ==> F.Fresh(s, step, n, step.text))
    ensures me.outbox == old(me.outbox) + OutIn(step, n, Pick(names, net[n]))
    ensures |rest| >= VECTOR_LENGTH
    ensures me.printed == old(me.printed) + CharsOf(PrintedIn(me.suite, me.privateKey, step, n, rest))
  {
    hide SendsTo, OneEach, Pick, Named, F.Enabled, F.Next, F.TableAfter, Display, HasFields;
    F.TableEffect(net, s, step, n);
    OpensFields(net, s, step);
    goesOn, rest := RunStep(me, step, now, beyond);
  }

  lemma OpensFields(net: Network, s: State, step: Step)
    requires |s.tables| == |net| && F.Enabled(net, s, step)
    ensures step.Open? ==> HasFields(step.text)
  {
  }

  // ----- a whole run

  // All that client n sends in a run, as copies to clients and as copies to endpoints.
  function SentBy(net: Network, steps: seq<Step>, n: nat): multiset<F.Copy>
    requires n < |net|
  {
    if steps == [] then multiset{}
    else
      var step := steps[|steps| - 1];
      SentBy(net, steps[..|steps| - 1], n)
      + if step.Forward? && step.node == n then F.Copies(net[n], step.text) else multiset{}
  }

  function OutBy(steps: seq<Step>, n: nat, eps: seq<Endpoint>): seq<Sent> {
    if steps == [] then [] else OutBy(steps[..|steps| - 1], n, eps) + OutIn(steps[|steps| - 1], n, eps)
  }

  lemma {:induction false} OutIsSent(net: Network, steps: seq<Step>, n: nat, names: seq<Endpoint>, text: Text, x: nat)
    requires n < |net| && Distinct(names) && x < |names| && Named(net[n], names)
    ensures multiset(OutBy(steps, n, Pick(names, net[n])))[Sent(names[x], text)]
            == SentBy(net, steps, n)[F.Copy(x, text)]
  {
    hide Pick, OneEach;
    if steps != [] {
      var step := steps[|steps| - 1];
      OutIsSent(net, steps[..|steps| - 1], n, names, text, x);
      if step.Forward? {
        OutboxIsCopies(names, net[n], step.text, text, x);
      }
    }
  }

  ghost predicate RestsFor(steps: seq<Step>, rests: seq<seq<byte>>) {
    |rests| == |steps| && forall k :: 0 <= k < |rests| ==> |rests[k]| >= VECTOR_LENGTH
  }

  // All that client n prints in a run; rests[k] is what lies behind the vector in step k.
  ghost function Log(suite: Suite, key: nat, steps: seq<Step>, n: nat, rests: seq<seq<byte>>): seq<Output>
    requires RestsFor(steps, rests)
  {
    if steps == [] then []
    else
      var k := |steps| - 1;
      Log(suite, key, steps[..k], n, rests[..k]) + PrintedIn(suite, key, steps[k], n, rests[k])
  }

  /** A client object that starts as client n and takes n's part in a run, whatever the
      others do in between: its table is always the one in the state, its outbox gets
      exactly what n sends in the run, and it prints exactly what n can open. */
  method FollowRun(me: Client, steps: seq<Step>, n: nat, beyond: seq<byte>, ghost net: Network,
                   ghost names: seq<Endpoint>) returns (ghost rests: seq<seq<byte>>)
    requires n < |net| && Plays(me, net, F.Init(net), n, names) && F.Legal(net, steps)
    requires |beyond| >= VECTOR_LENGTH
    modifies me.messages, me`outbox, me`printed
    ensures Plays(me, net, F.Exec(net, steps), n, names)
    ensures me.outbox == old(me.outbox) + OutBy(steps, n, Pick(names, net[n]))
    ensures RestsFor(steps, rests)
    ensures me.printed == old(me.printed) + CharsOf(Log(me.suite, me.privateKey, steps, n, rests))
  {
    hide Plays, Pick, F.Next, F.Enabled, OutIn, OutBy, PrintedIn, Log, F.Exec, F.Legal;
    var now := 0;
    rests := [];
    StartOfRun(net, steps);
    StartOfLog(me.suite, me.privateKey, steps, n, Pick(names, net[n]));
    for i := 0 to |steps|
      invariant F.Legal(net, steps[..i]) && now == F.Exec(net, steps[..i]).clock
      invariant Plays(me, net, F.Exec(net, steps[..i]), n, names)
      invariant me.outbox == old(me.outbox) + OutBy(steps[..i], n, Pick(names, net[n]))
      invariant RestsFor(steps[..i], rests)
      invariant me.printed == old(me.printed) + CharsOf(Log(me.suite, me.privateKey, steps[..i], n, rests))
    {
      ghost var s := F.Exec(net, steps[..i]);
      ghost var rest := beyond;
      NextInRun(net, steps, i);
      if F.IsStepOf(steps[i], n) {
        var goesOn;
        goesOn, rest := Perform(me, steps[i], now, beyond, net, s, n, names);
      } else {
        NoPart(me.suite, me.privateKey, steps[i], n, Pick(names, net[n]), rest);
        OtherStep(me, net, s, steps[i], n, names);
      }
      NextInLog(me.suite, me.privateKey, steps, i, n, Pick(names, net[n]), rests, rest);
      rests := rests + [rest];
      now := now + if steps[i].Tick? then steps[i].seconds else 0;
    }
    assert steps[..|steps|] == steps;
  }

  lemma StartOfLog(suite: Suite, key: nat, steps: seq<Step>, n: nat, eps: seq<Endpoint>)
    ensures RestsFor(steps[..0], []) && Log(suite, key, steps[..0], n, []) == [] && OutBy(steps[..0], n, eps) == []
  {
  }

  // A client has no part in a step of another.
  lemma NoPart(suite: Suite, key: nat, step: Step, n: nat, eps: seq<Endpoint>, rest: seq<byte>)
    requires !F.IsStepOf(step, n) && |rest| >= VECTOR_LENGTH
    ensures OutIn(step, n, eps) == [] && PrintedIn(suite, key, step, n, rest) == []
  {
  }

  lemma NextInLog(suite: Suite, key: nat, steps: seq<Step>, i: nat, n: nat, eps: seq<Endpoint>,
                  rests: seq<seq<byte>>, rest: seq<byte>)
    requires i < |steps| && RestsFor(steps[..i], rests) && |rest| >= VECTOR_LENGTH
    ensures RestsFor(steps[..i + 1], rests + [rest])
    ensures OutBy(steps[..i + 1], n, eps) == OutBy(steps[..i], n, eps) + OutIn(steps[i], n, eps)
    ensures var log := Log(suite, key, steps[..i], n, rests);
            && Log(suite, key, steps[..i + 1], n, rests + [rest]) == log + PrintedIn(suite, key, steps[i], n, rest)
            && CharsOf(log + PrintedIn(suite, key, steps[i], n, rest))
               == CharsOf(log) + CharsOf(PrintedIn(suite, key, steps[i], n, rest))
  {
    hide OutIn, PrintedIn;
    assert steps[..i + 1][..i] == steps[..i] && (rests + [rest])[..i] == rests;
  }

  lemma StartOfRun(net: Network, steps: seq<Step>)
    requires F.Legal(net, steps)
    ensures F.Legal(net, steps[..0]) && F.Exec(net, steps[..0]) == F.Init(net)
  {
  }

  lemma NextInRun(net: Network, steps: seq<Step>, i: nat)
    requires F.Legal(net, steps) && i < |steps|
    ensures F.Legal(net, steps[..i]) && F.Legal(net, steps[..i + 1])
    ensures var s, s' := F.Exec(net, steps[..i]), F.Exec(net, steps[..i + 1]);
            && F.Enabled(net, s, steps[i]) && s' == F.Next(net, s, steps[i])
            && s'.clock == s.clock + if steps[i].Tick? then steps[i].seconds else 0
  {
    hide F.Enabled, F.Next;
    LegalPrefix(net, steps, i + 1);
    LegalPrefix(net, steps, i);
    assert steps[..i + 1][..i] == steps[..i];
    F.ClockEffect(net, F.Exec(net, steps[..i]), steps[i]);
  }

  lemma {:induction false} LegalPrefix(net: Network, steps: seq<Step>, i: nat)
    requires F.Legal(net, steps) && i <= |steps|
    ensures F.Legal(net, steps[..i])
  {
    if i < |steps| {
      LegalPrefix(net, steps[..|steps| - 1], i);
      assert steps[..|steps| - 1][..i] == steps[..i];
    } else {
      assert steps[..i] == steps;
    }
  }

  // ----- what is printed for one text

  function OutputsFor(log: seq<Output>, text: Text): seq<Output> {
    if log == [] then []
    else
      OutputsFor(log[..|log| - 1], text) + if log[|log| - 1].text == text then [log[|log| - 1]] else []
  }

  function Repeated<T>(s: seq<T>, times: nat): seq<T> {
    if times == 0 then [] else Repeated(s, times - 1) + s
  }

  // For each time client n has tried its key on a text it prints what it makes of it.
  lemma {:induction false} PrintsPerTry(suite: Suite, key: nat, net: Network, steps: seq<Step>, n: nat,
                                        rests: seq<seq<byte>>, text: Text, o: Outcome)
    requires F.Legal(net, steps) && n < |net| && RestsFor(steps, rests)
    requires forall rest: seq<byte> :: |rest| >= VECTOR_LENGTH ==> Display(suite, key, text, rest) == o
    ensures OutputsFor(Log(suite, key, steps, n, rests), text)
            == Repeated(OutputOf(text, o), F.Exec(net, steps).tried[F.Copy(n, text)])
  {
    if steps != [] {
      hide F.Exec, F.Legal, Display, Log, OutputsFor, OutputOf, PrintedIn;
      var k := |steps| - 1;
      TriedStep(net, steps, n, text);
      LogStep(suite, key, steps, n, rests);
      PrintsPerTry(suite, key, net, steps[..k], n, rests[..k], text, o);
      OutputsOfStep(Log(suite, key, steps[..k], n, rests[..k]), suite, key, steps[k], n, rests[k], text);
      assert Display(suite, key, text, rests[k]) == o;
    }
  }

  lemma TriedStep(net: Network, steps: seq<Step>, n: nat, text: Text)
    requires F.Legal(net, steps) && steps != [] && n < |net|
    ensures F.Legal(net, steps[..|steps| - 1])
    ensures F.Exec(net, steps).tried[F.Copy(n, text)]
            == F.Exec(net, steps[..|steps| - 1]).tried[F.Copy(n, text)]
             + if steps[|steps| - 1] == F.Open(n, text) then 1 else 0
  {
    hide F.Next, F.Enabled;
    F.TriedEffect(net, F.Exec(net, steps[..|steps| - 1]), steps[|steps| - 1]);
  }

  lemma LogStep(suite: Suite, key: nat, steps: seq<Step>, n: nat, rests: seq<seq<byte>>)
    requires RestsFor(steps, rests) && steps != []
    ensures var k := |steps| - 1;
            && RestsFor(steps[..k], rests[..k])
            && Log(suite, key, steps, n, rests)
               == Log(suite, key, steps[..k], n, rests[..k]) + PrintedIn(suite, key, steps[k], n, rests[k])
  {
  }

  lemma OutputsOfStep(log: seq<Output>, suite: Suite, key: nat, step: Step, n: nat, rest: seq<byte>, text: Text)
    requires |rest| >= VECTOR_LENGTH
    ensures OutputsFor(log + PrintedIn(suite, key, step, n, rest), text)
            == OutputsFor(log, text)
             + if step == F.Open(n, text) then OutputOf(text, Display(suite, key, text, rest)) else []
  {
    hide Display;
    var more := PrintedIn(suite, key, step, n, rest);
    if more == [] {
      assert log + more == log;
    } else {
      assert (log + more)[..|log|] == log;
    }
  }

  // ----- one handler thread

  // A handler thread that is not interrupted makes three steps: one table entry, one copy to
  // every entry of the peer list, one attempt to decrypt.
  lemma UninterruptedHandler(net: Network, steps: seq<Step>, n: nat, text: Text)
    requires F.Legal(net, steps) && n < |net|
    requires F.Exec(net, steps).wire[F.Copy(n, text)] > 0 && text !in F.Exec(net, steps).tables[n]
    requires HasFields(text)
    ensures var s := F.Exec(net, steps);
            var all := steps + [F.Receive(n, text)] + [F.Forward(n, text, false)] + [F.Open(n, text)];
            && F.Legal(net, all)
            && var s' := F.Exec(net, all);
            && s'.tables == s.tables[n := Added(s.tables[n], text, s.clock)]
            && s'.recorded == s.recorded + [F.Recording(n, text, s.clock)]
            && s'.sent == s.sent + F.Copies(net[n], text)
            && s'.tried == s.tried + multiset{F.Copy(n, text)}
            && s'.threads == s.threads
  {
    hide F.Copies, F.Exec, F.Legal, HasFields;
    F.OneMoreStep(net, steps, F.Receive(n, text));
    F.OneMoreStep(net, steps + [F.Receive(n, text)], F.Forward(n, text, false));
    F.OneMoreStep(net, steps + [F.Receive(n, text)] + [F.Forward(n, text, false)], F.Open(n, text));
  }

  /** client_parse_msg, uninterrupted, does to the client what those three steps do to the
      network. */
  method HandleMsg(me: Client, text: Text, now: int, beyond: seq<byte>, ghost net: Network,
                   ghost steps: seq<Step>, ghost n: nat, ghost names: seq<Endpoint>)
      returns (alive: bool, ghost rest: seq<byte>, ghost all: seq<Step>)
    requires F.Legal(net, steps) && Plays(me, net, F.Exec(net, steps), n, names)
    requires now == F.Exec(net, steps).clock && |beyond| >= VECTOR_LENGTH
    requires F.Exec(net, steps).wire[F.Copy(n, text)] > 0
    requires text !in F.Exec(net, steps).tables[n] && HasFields(text)
    modifies me.messages, me`outbox, me`printed
    ensures all == steps + [F.Receive(n, text)] + [F.Forward(n, text, false)] + [F.Open(n, text)]
    ensures F.Legal(net, all) && Plays(me, net, F.Exec(net, all), n, names)
    ensures alive && me.outbox == old(me.outbox) + OneEach(Pick(names, net[n]), text)
    ensures |rest| >= VECTOR_LENGTH
    ensures me.printed == old(me.printed) + Shown(Display(me.suite, me.privateKey, text, rest))
  {
    hide F.Exec, F.Legal, SendsTo, OneEach, Pick, Named, F.Copies, Display, HasFields, Added;
    all := steps + [F.Receive(n, text)] + [F.Forward(n, text, false)] + [F.Open(n, text)];
    UninterruptedHandler(net, steps, n, text);
    alive, rest := me.ParseMsg(text, now, beyond);
  }
}
