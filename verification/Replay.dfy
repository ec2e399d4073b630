/**
 The replay window: what purging may forget, and for how long it must remember.
 These facts hold in every run of the flooding protocol, with purges at any time.
 */
module Replay {
  import opened SeenTable
  import opened Flood

  // A recording is remembered in the table, or has become old enough to be forgotten.
  ghost predicate Remembered(s: State, r: Recording) {
    && r.time <= s.clock
    && r.node < |s.tables|
    && (|| r.time + MESSAGE_PURGE_TIME <= s.clock
        || (r.text in s.tables[r.node] && r.time + MESSAGE_PURGE_TIME <= s.tables[r.node][r.text]))
  }

  lemma {:induction false} AlwaysRemembered(net: Network, steps: seq<Step>)
    requires Legal(net, steps)
    ensures forall i :: 0 <= i < |Exec(net, steps).recorded| ==>
              Remembered(Exec(net, steps), Exec(net, steps).recorded[i])
  {
    hide Next, Enabled, Remembered;
    if steps != [] {
      var s, step := Exec(net, steps[..|steps| - 1]), steps[|steps| - 1];
      AlwaysRemembered(net, steps[..|steps| - 1]);
      var s' := Exec(net, steps);
      forall i | 0 <= i < |s'.recorded| ensures Remembered(s', s'.recorded[i]) {
        RecordedStep(net, s, step);
        if i < |s.recorded| {
          RememberedStep(net, s, step, s.recorded[i]);
        }
      }
    }
  }

  // A step only ever appends to the recordings, and what it appends is remembered.
  lemma RecordedStep(net: Network, s: State, step: Step)
    requires |s.tables| == |net| && Enabled(net, s, step)
    ensures var s' := Next(net, s, step);
            || s'.recorded == s.recorded
            || (&& step.Receive? && step.text !in s.tables[step.node]
                && s'.recorded == s.recorded + [Recording(step.node, step.text, s.clock)]
                && Remembered(s', Recording(step.node, step.text, s.clock)))
  {
    hide Copies;
  }

  lemma RememberedStep(net: Network, s: State, step: Step, r: Recording)
    requires |s.tables| == |net| && Enabled(net, s, step) && Remembered(s, r)
    ensures Remembered(Next(net, s, step), r)
  {
    hide Next, Enabled;
    TableEffect(net, s, step, r.node);
    ClockEffect(net, s, step);
  }

  // Two recordings of one received text by one client are at least MESSAGE_PURGE_TIME
  // seconds apart.
  ghost predicate Apart(rec: seq<Recording>) {
    forall i, j :: 0 <= i < j < |rec| && rec[i].node == rec[j].node && rec[i].text == rec[j].text ==>
      rec[i].time + MESSAGE_PURGE_TIME <= rec[j].time
  }

  lemma {:induction false} ReplayWindow(net: Network, steps: seq<Step>)
    requires Legal(net, steps)
    ensures Apart(Exec(net, steps).recorded)
  {
    hide Next, Enabled;
    if steps != [] {
      var s, step := Exec(net, steps[..|steps| - 1]), steps[|steps| - 1];
      ReplayWindow(net, steps[..|steps| - 1]);
      AlwaysRemembered(net, steps[..|steps| - 1]);
      RecordedStep(net, s, step);
    }
  }

  // ----- the bound is attained, and recording once really needs tables that are not purged

  const TWICE: Network := [[1, 1], []]

  // Client 1 has the given table and so many copies of the text on their way to it.
  ghost predicate Stage(steps: seq<Step>, text: Text, clock: int, table: Table, copies: nat, rec: seq<Recording>) {
    && Legal(TWICE, steps)
    && var s := Exec(TWICE, steps);
    && s.clock == clock && s.tables[1] == table && s.wire[Copy(1, text)] == copies && s.recorded == rec
  }

  lemma TwoSent(text: Text) returns (steps: seq<Step>)
    ensures Stage(steps, text, 0, map[], 2, [])
  {
    OneMoreStep(TWICE, [], Originate(0, text));
    var one := [] + [Originate(0, text)];
    OneMoreStep(TWICE, one, Forward(0, text, true));
    steps := one + [Forward(0, text, true)];
    TwoCopies(text);
  }

  lemma TwoCopies(text: Text)
    ensures Copies(TWICE[0], text)[Copy(1, text)] == 2
  {
    var peers := TWICE[0];
    assert peers[..1][..0] == [];
    assert Copies(peers[..1], text) == Copies([], text) + multiset{Copy(1, text)};
  }

  lemma OneReceived(steps: seq<Step>, text: Text, clock: int, copies: nat, rec: seq<Recording>)
    requires Stage(steps, text, clock, map[], copies + 1, rec)
    ensures Stage(steps + [Receive(1, text)], text, clock, map[text := clock + MESSAGE_PURGE_TIME], copies,
                  rec + [Recording(1, text, clock)])
  {
    OneMoreStep(TWICE, steps, Receive(1, text));
  }

  lemma Forgotten(steps: seq<Step>, text: Text, copies: nat, rec: seq<Recording>)
    requires Stage(steps, text, 0, map[text := MESSAGE_PURGE_TIME], copies, rec)
    ensures Stage(steps + [Tick(30)] + [Purge(1)], text, MESSAGE_PURGE_TIME, map[], copies, rec)
  {
    OneMoreStep(TWICE, steps, Tick(30));
    OneMoreStep(TWICE, steps + [Tick(30)], Purge(1));
  }

  // Two copies on their way to one client, and a purge after 30 seconds between them.
  lemma WindowIsTight(text: Text) returns (net: Network, steps: seq<Step>)
    ensures IsNetwork(net) && Legal(net, steps)
    ensures Exec(net, steps).recorded == [Recording(1, text, 0), Recording(1, text, MESSAGE_PURGE_TIME)]
  {
    hide Exec, Legal;
    net := TWICE;
    steps := TwoSent(text);
    OneReceived(steps, text, 0, 1, []);
    Forgotten(steps + [Receive(1, text)], text, 1, [] + [Recording(1, text, 0)]);
    steps := steps + [Receive(1, text)] + [Tick(30)] + [Purge(1)];
    OneReceived(steps, text, MESSAGE_PURGE_TIME, 0, [] + [Recording(1, text, 0)]);
    steps := steps + [Receive(1, text)];
  }
}
