/**
 Where a flooded text arrives: exactly at the clients reachable from an originator, and at
 each of them once.
 */
module FloodCoverage {
  import opened SeenTable
  import opened Flood
  import Envelope

  // ----- reachability along peer lists

  ghost predicate IsPath(net: Network, path: seq<nat>) {
    && path != []
    && (forall i :: 0 <= i < |path| ==> path[i] < |net|)
    && (forall i :: 0 <= i < |path| - 1 ==> path[i + 1] in net[path[i]])
  }

  ghost predicate PathFromTo(net: Network, path: seq<nat>, a: nat, b: nat) {
    IsPath(net, path) && path[0] == a && path[|path| - 1] == b
  }

  ghost predicate Reaches(net: Network, a: nat, b: nat) {
    exists path :: PathFromTo(net, path, a, b)
  }

  lemma ReachesItself(net: Network, a: nat)
    requires a < |net|
    ensures Reaches(net, a, a)
  {
    assert PathFromTo(net, [a], a, a);
  }

  lemma ReachesPeer(net: Network, a: nat, b: nat, c: nat)
    requires Reaches(net, a, b) && b < |net| && c < |net| && c in net[b]
    ensures Reaches(net, a, c)
  {
    var path :| PathFromTo(net, path, a, b);
    assert PathFromTo(net, path + [c], a, c);
  }

  // ----- a text is only where an originator's flood can carry it

  ghost predicate Present(s: State, n: nat, text: Text)
    requires n < |s.tables|
  {
    text in s.tables[n] || Pending(s, n, text) > 0 || s.wire[Copy(n, text)] > 0
  }

  ghost predicate FromOriginator(net: Network, s: State, n: nat, text: Text) {
    exists o :: 0 <= o < |net| && s.originated[Copy(o, text)] > 0 && Reaches(net, o, n)
  }

  lemma {:induction false} OnlyFromOriginators(net: Network, steps: seq<Step>, text: Text)
    requires IsNetwork(net) && Legal(net, steps) && NoPurge(steps)
    ensures forall n :: 0 <= n < |net| && Present(Exec(net, steps), n, text) ==>
              FromOriginator(net, Exec(net, steps), n, text)
  {
    hide Next, Enabled, Reaches;
    if steps != [] {
      var s, step := Exec(net, steps[..|steps| - 1]), steps[|steps| - 1];
      OnlyFromOriginators(net, steps[..|steps| - 1], text);
      forall n | 0 <= n < |net| && Present(Exec(net, steps), n, text)
        ensures FromOriginator(net, Exec(net, steps), n, text)
      {
        OriginatorStep(net, s, step, n, text);
      }
    }
  }

  lemma OriginatorStep(net: Network, s: State, step: Step, n: nat, text: Text)
    requires IsNetwork(net) && |s.tables| == |net| && n < |net| && Enabled(net, s, step) && !step.Purge?
    requires forall x :: 0 <= x < |net| && Present(s, x, text) ==> FromOriginator(net, s, x, text)
    requires Present(Next(net, s, step), n, text)
    ensures FromOriginator(net, Next(net, s, step), n, text)
  {
    var sender := if step.Forward? then step.node else n;
    assert sender < |net|;
    SendingEffect(net, s, step, n, text);
    RecordEffect(net, s, step, n, text);
    WireEffect(net, s, step, n, text);
    if step == Originate(n, text) {
      ReachesItself(net, n);
      assert Next(net, s, step).originated[Copy(n, text)] > 0;
    } else if Present(s, n, text) {
      OriginatorsStay(net, s, step, n, n, text);
    } else {
      CopiesCount(net[step.node], step.text, Copy(n, text));
      assert Present(s, sender, text);
      OriginatorsStay(net, s, step, sender, n, text);
    }
  }

  // An originator of the flood at a is still one for a, or for a peer b of a.
  lemma OriginatorsStay(net: Network, s: State, step: Step, a: nat, b: nat, text: Text)
    requires |s.tables| == |net| && a < |net| && b < |net| && Enabled(net, s, step)
    requires FromOriginator(net, s, a, text) && (a == b || b in net[a])
    ensures FromOriginator(net, Next(net, s, step), b, text)
  {
    hide Next, Reaches;
    var o :| 0 <= o < |net| && s.originated[Copy(o, text)] > 0 && Reaches(net, o, a);
    RecordEffect(net, s, step, o, text);
    if a != b {
      ReachesPeer(net, o, a, b);
    }
    assert Next(net, s, step).originated[Copy(o, text)] > 0 && Reaches(net, o, b);
  }

  // ----- the end of a flood

  // Client n has nothing of the text to receive or to send, or it has come as far as opening
  // it. A client that dies there takes no more steps, and copies may stay on the wire to it.
  ghost predicate AtRest(s: State, n: nat, text: Text) {
    s.threads[Opening(n, text)] > 0 || (Pending(s, n, text) == 0 && s.wire[Copy(n, text)] == 0)
  }

  ghost predicate Settled(net: Network, s: State, text: Text) {
    forall n :: 0 <= n < |net| ==> AtRest(s, n, text)
  }

  // Nothing about the text is on the wire to client n or left for it to do.
  ghost predicate Quiet(s: State, n: nat, text: Text) {
    Pending(s, n, text) == 0 && s.wire[Copy(n, text)] == 0 && s.threads[Opening(n, text)] == 0
  }

  // All is quiet but at some clients, which have stopped at any point and for any reason.
  ghost predicate QuietBut(net: Network, s: State, text: Text, stopped: set<nat>) {
    forall n :: 0 <= n < |net| && n !in stopped ==> Quiet(s, n, text)
  }

  ghost predicate Quiescent(net: Network, s: State, text: Text) {
    QuietBut(net, s, text, {})
  }

  lemma QuiescentIsSettled(net: Network, s: State, text: Text)
    requires Quiescent(net, s, text)
    ensures Settled(net, s, text)
  {
    forall n | 0 <= n < |net| ensures AtRest(s, n, text) {
      assert Quiet(s, n, text);
    }
  }

  // A client at rest that has seen the text has sent it to its peers.
  lemma RestHasSent(net: Network, steps: seq<Step>, n: nat, text: Text)
    requires IsNetwork(net) && Legal(net, steps) && NoPurge(steps) && n < |net|
    requires AtRest(Exec(net, steps), n, text)
    ensures Exec(net, steps).threads[Opening(n, text)] > 0 ==> text in Exec(net, steps).tables[n]
    ensures text in Exec(net, steps).tables[n] ==> PeersCovered(net, Exec(net, steps), n, text)
  {
    hide Exec, Legal, NoPurge, PeersCovered;
    AlwaysCovered(net, steps, n, text);
    AlwaysAccounted(net, steps, n, text);
    AtMostOnce(net, steps, n, text);
  }

  lemma {:induction false} SeenAlongPath(net: Network, steps: seq<Step>, text: Text, path: seq<nat>)
    requires IsNetwork(net) && Legal(net, steps) && NoPurge(steps) && IsPath(net, path)
    requires forall i :: 0 <= i < |path| ==> AtRest(Exec(net, steps), path[i], text)
    requires text in Exec(net, steps).tables[path[0]]
    ensures text in Exec(net, steps).tables[path[|path| - 1]]
  {
    hide Exec, Legal, NoPurge;
    if |path| > 1 {
      var init := path[..|path| - 1];
      SeenAlongPath(net, steps, text, init);
      var n, m := init[|init| - 1], path[|init|];
      RestHasSent(net, steps, n, text);
      RestHasSent(net, steps, m, text);
      assert m in net[n];
      var k :| 0 <= k < |net[n]| && net[n][k] == m;
    }
  }

  // Full and exact coverage: once every client is at rest, precisely the clients reachable
  // from an originator have seen the text, whatever the interleaving was.
  lemma SeenIffReachable(net: Network, steps: seq<Step>, n: nat, text: Text)
    requires IsNetwork(net) && Legal(net, steps) && NoPurge(steps) && n < |net|
    requires Settled(net, Exec(net, steps), text)
    ensures text in Exec(net, steps).tables[n] <==> FromOriginator(net, Exec(net, steps), n, text)
  {
    hide Exec, Legal, NoPurge, AtRest;
    var s := Exec(net, steps);
    if text in s.tables[n] {
      OnlyFromOriginators(net, steps, text);
      assert Present(s, n, text);
    }
    if FromOriginator(net, s, n, text) {
      var o :| 0 <= o < |net| && s.originated[Copy(o, text)] > 0 && Reaches(net, o, n);
      AtMostOnce(net, steps, o, text);
      var path :| PathFromTo(net, path, o, n);
      SeenAlongPath(net, steps, text, path);
    }
  }

  // ----- one originator

  // Client o alone has originated the text, once.
  ghost predicate Sole(net: Network, s: State, o: nat, text: Text) {
    forall n :: 0 <= n < |net| ==> s.originated[Copy(n, text)] == if n == o then 1 else 0
  }

  // The originator never records its own text when copies come back to it.
  lemma {:induction false} OriginatorNeverRecords(net: Network, steps: seq<Step>, o: nat, text: Text)
    requires IsNetwork(net) && Legal(net, steps) && NoPurge(steps) && o < |net|
    requires Sole(net, Exec(net, steps), o, text)
    ensures Times(Exec(net, steps).recorded, o, text) == 0
  {
    hide Next, Enabled, Reaches;
    if steps != [] {
      var before := steps[..|steps| - 1];
      var s, step := Exec(net, before), steps[|steps| - 1];
      AtMostOnce(net, before, o, text);
      RecordEffect(net, s, step, o, text);
      forall n | 0 <= n < |net| ensures Exec(net, steps).originated[Copy(n, text)]
        == s.originated[Copy(n, text)] + if step == Originate(n, text) then 1 else 0
      {
        RecordEffect(net, s, step, n, text);
      }
      if step == Originate(o, text) {
        OnlyFromOriginators(net, before, text);
        assert !FromOriginator(net, s, o, text);
        assert !Present(s, o, text);
      } else {
        assert Sole(net, s, o, text);
        OriginatorNeverRecords(net, before, o, text);
      }
    }
  }

  // With one originator, once every client is at rest, each client it reaches has recorded the
  // text exactly once, has sent it, and has tried its key on it since or is about to; the
  // originator neither.
  lemma RecordedOnce(net: Network, steps: seq<Step>, o: nat, n: nat, text: Text)
    requires IsNetwork(net) && Legal(net, steps) && NoPurge(steps) && o < |net| && n < |net|
    requires Sole(net, Exec(net, steps), o, text) && Settled(net, Exec(net, steps), text)
    ensures var s := Exec(net, steps);
            && Times(s.recorded, n, text) == (if n != o && Reaches(net, o, n) then 1 else 0)
            && s.tried[Copy(n, text)] + s.threads[Opening(n, text)] == Times(s.recorded, n, text)
            && Pending(s, n, text) == 0
            && (text in s.tables[n] <==> Reaches(net, o, n))
  {
    hide Exec, Legal, NoPurge, Reaches;
    var s := Exec(net, steps);
    AlwaysAccounted(net, steps, n, text);
    AtMostOnce(net, steps, n, text);
    SeenIffReachable(net, steps, n, text);
    OriginatorNeverRecords(net, steps, o, text);
    ReachesItself(net, o);
    assert FromOriginator(net, s, n, text) <==> Reaches(net, o, n);
    assert AtRest(s, n, text);
  }

  // Once all is quiet, it has tried its key on it exactly once.
  lemma ExactlyOnce(net: Network, steps: seq<Step>, o: nat, n: nat, text: Text)
    requires IsNetwork(net) && Legal(net, steps) && NoPurge(steps) && o < |net| && n < |net|
    requires Sole(net, Exec(net, steps), o, text) && Quiescent(net, Exec(net, steps), text)
    ensures var s := Exec(net, steps);
            && Times(s.recorded, n, text) == s.tried[Copy(n, text)]
            && s.tried[Copy(n, text)] == (if n != o && Reaches(net, o, n) then 1 else 0)
            && (text in s.tables[n] <==> Reaches(net, o, n))
  {
    hide Exec, Legal, NoPurge, Reaches, Sole;
    assert Quiet(Exec(net, steps), n, text);
    QuiescentIsSettled(net, Exec(net, steps), text);
    RecordedOnce(net, steps, o, n, text);
  }

  // ----- clients that have stopped

  ghost predicate Avoids(path: seq<nat>, stopped: set<nat>) {
    forall i :: 0 <= i < |path| ==> path[i] !in stopped
  }

  // Whoever else has stopped, each client that the originator reaches along clients that have
  // not has recorded the text exactly once and has tried its key on it exactly once.
  lemma OnceAmongTheLiving(net: Network, steps: seq<Step>, o: nat, path: seq<nat>, text: Text, stopped: set<nat>)
    requires IsNetwork(net) && Legal(net, steps) && NoPurge(steps) && o < |net|
    requires IsPath(net, path) && path[0] == o && Avoids(path, stopped)
    requires Sole(net, Exec(net, steps), o, text) && QuietBut(net, Exec(net, steps), text, stopped)
    ensures var s, n := Exec(net, steps), path[|path| - 1];
            && text in s.tables[n]
            && Times(s.recorded, n, text) == s.tried[Copy(n, text)] == if n == o then 0 else 1
  {
    hide Exec, Legal, NoPurge;
    var s, n := Exec(net, steps), path[|path| - 1];
    AtMostOnce(net, steps, o, text);
    forall i | 0 <= i < |path| ensures AtRest(s, path[i], text) {
      assert Quiet(s, path[i], text);
    }
    SeenAlongPath(net, steps, text, path);
    AlwaysAccounted(net, steps, n, text);
    AtMostOnce(net, steps, n, text);
    OriginatorNeverRecords(net, steps, o, text);
    assert Quiet(s, n, text);
  }

  // All is never quiet about a text without fields that has reached anyone: once every client
  // is at rest, each client it reached is at the point of opening it, or has died there.
  lemma LeftAtMissingField(net: Network, steps: seq<Step>, o: nat, n: nat, text: Text)
    requires IsNetwork(net) && Legal(net, steps) && NoPurge(steps) && o < |net| && n < |net|
    requires Sole(net, Exec(net, steps), o, text) && Settled(net, Exec(net, steps), text)
    requires !Envelope.HasFields(text)
    ensures Exec(net, steps).threads[Opening(n, text)] == if n != o && Reaches(net, o, n) then 1 else 0
    ensures n != o && Reaches(net, o, n) ==> !Quiescent(net, Exec(net, steps), text)
  {
    hide Exec, Legal, NoPurge, Reaches, Sole, Envelope.HasFields;
    RecordedOnce(net, steps, o, n, text);
    NeverOpened(net, steps, n, text);
    assert Quiescent(net, Exec(net, steps), text) ==> Quiet(Exec(net, steps), n, text);
  }
}
