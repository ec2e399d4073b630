/**
 What a flood costs: how many copies are sent, and how many steps it takes to end.
 */
module FloodCost {
  import opened SeenTable
  import opened Flood
  import opened FloodCoverage
  import Envelope

  // Copies of the text addressed to the first `limit` clients.
  function Total(b: multiset<Copy>, text: Text, limit: nat): nat {
    if limit == 0 then 0 else Total(b, text, limit - 1) + b[Copy(limit - 1, text)]
  }

  lemma {:induction false} TotalSum(a: multiset<Copy>, b: multiset<Copy>, text: Text, limit: nat)
    ensures Total(a + b, text, limit) == Total(a, text, limit) + Total(b, text, limit)
  {
    if limit > 0 {
      TotalSum(a, b, text, limit - 1);
    }
  }

  lemma {:induction false} TotalOne(c: Copy, text: Text, limit: nat)
    ensures Total(multiset{c}, text, limit) == if c.text == text && c.to < limit then 1 else 0
  {
    if limit > 0 {
      TotalOne(c, text, limit - 1);
    }
  }

  lemma {:induction false} TotalNone(text: Text, limit: nat)
    ensures Total(multiset{}, text, limit) == 0
  {
    if limit > 0 {
      TotalNone(text, limit - 1);
    }
  }

  // One call of client_send_to_all_peers sends as many copies as the list is long.
  lemma {:induction false} TotalCopies(peers: seq<nat>, sentText: Text, text: Text, limit: nat)
    requires forall k :: 0 <= k < |peers| ==> peers[k] < limit
    ensures Total(Copies(peers, sentText), text, limit) == if sentText == text then |peers| else 0
  {
    if peers == [] {
      TotalNone(text, limit);
    } else {
      var init, last := peers[..|peers| - 1], Copy(peers[|peers| - 1], sentText);
      TotalCopies(init, sentText, text, limit);
      TotalSum(Copies(init, sentText), multiset{last}, text, limit);
      TotalOne(last, text, limit);
    }
  }

  // ----- transmissions

  // The sum over the first `limit` clients of list length times sends.
  function FanOut(net: Network, s: State, text: Text, limit: nat): int
    requires limit <= |net|
  {
    if limit == 0 then 0
    else FanOut(net, s, text, limit - 1) + |net[limit - 1]| * Forwards(s, limit - 1, text)
  }

  lemma {:induction false} FanOutAfter(net: Network, s: State, s': State, text: Text, limit: nat, n: nat, one: bool)
    requires limit <= |net| && n < |net|
    requires forall k :: 0 <= k < limit ==>
               Forwards(s', k, text) == Forwards(s, k, text) + if one && k == n then 1 else 0
    ensures FanOut(net, s', text, limit)
            == FanOut(net, s, text, limit) + if one && n < limit then |net[n]| else 0
  {
    hide Forwards;
    if limit > 0 {
      FanOutAfter(net, s, s', text, limit - 1, n, one);
      var f, f' := Forwards(s, limit - 1, text), Forwards(s', limit - 1, text);
      assert |net[limit - 1]| * (f + 1) == |net[limit - 1]| * f + |net[limit - 1]|;
    }
  }

  // In every run, purged or not, and for any number of originations, the copies sent are
  // the list lengths summed over the clients' sends.
  lemma {:induction false} SentIsFanOut(net: Network, steps: seq<Step>, text: Text)
    requires IsNetwork(net) && Legal(net, steps)
    ensures Total(Exec(net, steps).sent, text, |net|) == FanOut(net, Exec(net, steps), text, |net|)
  {
    if steps == [] {
      TotalNone(text, |net|);
      FanOutStarts(net, text, |net|);
    } else {
      hide Next, Enabled, Forwards, Copies;
      SentIsFanOut(net, steps[..|steps| - 1], text);
      FanOutStep(net, Exec(net, steps[..|steps| - 1]), steps[|steps| - 1], text);
    }
  }

  lemma {:induction false} FanOutStarts(net: Network, text: Text, limit: nat)
    requires limit <= |net|
    ensures FanOut(net, Init(net), text, limit) == 0
  {
    if limit > 0 {
      FanOutStarts(net, text, limit - 1);
    }
  }

  lemma FanOutStep(net: Network, s: State, step: Step, text: Text)
    requires IsNetwork(net) && |s.tables| == |net| && Enabled(net, s, step)
    requires Total(s.sent, text, |net|) == FanOut(net, s, text, |net|)
    ensures var s' := Next(net, s, step);
            Total(s'.sent, text, |net|) == FanOut(net, s', text, |net|)
  {
    hide Next, Enabled, Forwards;
    var s' := Next(net, s, step);
    var one := step.Forward? && step.text == text;
    var n := if step.Forward? then step.node else 0;
    SentStep(net, s, step, text);
    forall k | 0 <= k < |net| ensures Forwards(s', k, text) == Forwards(s, k, text) + if one && k == n then 1 else 0 {
      ForwardsEffect(net, s, step, k, text);
    }
    if |net| > 0 {
      FanOutAfter(net, s, s', text, |net|, n, one);
    }
  }

  lemma SentStep(net: Network, s: State, step: Step, text: Text)
    requires IsNetwork(net) && |s.tables| == |net| && Enabled(net, s, step)
    ensures step.Forward? ==> step.node < |net|
    ensures Total(Next(net, s, step).sent, text, |net|)
            == Total(s.sent, text, |net|) + if step.Forward? && step.text == text then |net[step.node]| else 0
  {
    hide Copies, Added, Purged, Envelope.HasFields;
    if step.Forward? {
      TotalSum(s.sent, Copies(net[step.node], step.text), text, |net|);
      TotalCopies(net[step.node], step.text, text, |net|);
    }
  }

  // The sum of the list lengths of the clients that o reaches.
  ghost function ReachedLists(net: Network, o: nat, limit: nat): nat
    requires limit <= |net|
  {
    if limit == 0 then 0
    else ReachedLists(net, o, limit - 1) + if Reaches(net, o, limit - 1) then |net[limit - 1]| else 0
  }

  // A flood from o has cost, when it has settled, the list lengths of everyone o reaches.
  lemma SettledCost(net: Network, steps: seq<Step>, o: nat, text: Text)
    requires IsNetwork(net) && Legal(net, steps) && NoPurge(steps) && o < |net|
    requires Sole(net, Exec(net, steps), o, text) && Settled(net, Exec(net, steps), text)
    ensures Total(Exec(net, steps).sent, text, |net|) == ReachedLists(net, o, |net|)
  {
    SentIsFanOut(net, steps, text);
    CostUpTo(net, steps, o, text, |net|);
  }

  lemma {:induction false} CostUpTo(net: Network, steps: seq<Step>, o: nat, text: Text, limit: nat)
    requires IsNetwork(net) && Legal(net, steps) && NoPurge(steps) && o < |net| && limit <= |net|
    requires Sole(net, Exec(net, steps), o, text) && Settled(net, Exec(net, steps), text)
    ensures FanOut(net, Exec(net, steps), text, limit) == ReachedLists(net, o, limit)
  {
    hide Exec, Legal, NoPurge, Reaches;
    if limit > 0 {
      CostUpTo(net, steps, o, text, limit - 1);
      RecordedOnce(net, steps, o, limit - 1, text);
      ReachesItself(net, o);
      assert Forwards(Exec(net, steps), limit - 1, text) == if Reaches(net, o, limit - 1) then 1 else 0;
    }
  }

  // At no point of a run has a flood from o cost more than that.
  lemma CostNeverMore(net: Network, steps: seq<Step>, o: nat, text: Text)
    requires IsNetwork(net) && Legal(net, steps) && NoPurge(steps) && o < |net|
    requires Sole(net, Exec(net, steps), o, text)
    ensures Total(Exec(net, steps).sent, text, |net|) <= ReachedLists(net, o, |net|)
  {
    SentIsFanOut(net, steps, text);
    CostBound(net, steps, o, text, |net|);
  }

  lemma {:induction false} CostBound(net: Network, steps: seq<Step>, o: nat, text: Text, limit: nat)
    requires IsNetwork(net) && Legal(net, steps) && NoPurge(steps) && o < |net| && limit <= |net|
    requires Sole(net, Exec(net, steps), o, text)
    ensures FanOut(net, Exec(net, steps), text, limit) <= ReachedLists(net, o, limit)
  {
    hide Exec, Legal, NoPurge, Reaches, Forwards, Sole;
    if limit > 0 {
      CostBound(net, steps, o, text, limit - 1);
      OneForward(net, steps, o, limit - 1, text);
      Scaled(|net[limit - 1]|, Forwards(Exec(net, steps), limit - 1, text));
    }
  }

  lemma OneForward(net: Network, steps: seq<Step>, o: nat, n: nat, text: Text)
    requires IsNetwork(net) && Legal(net, steps) && NoPurge(steps) && o < |net| && n < |net|
    requires Sole(net, Exec(net, steps), o, text)
    ensures Forwards(Exec(net, steps), n, text) <= if Reaches(net, o, n) then 1 else 0
  {
    hide Exec, Legal, NoPurge, Reaches;
    var s := Exec(net, steps);
    AtMostOnce(net, steps, n, text);
    OriginatorNeverRecords(net, steps, o, text);
    if Forwards(s, n, text) > 0 {
      OnlyFromOriginators(net, steps, text);
      assert Present(s, n, text);
      assert FromOriginator(net, s, n, text);
    }
  }

  lemma Scaled(w: nat, f: int)
    ensures f <= 0 ==> w * f <= 0
    ensures f <= 1 ==> w * f <= w
  {
  }

  // ----- termination

  // The steps that one client still owes a text, or would owe on seeing it, apart from
  // taking delivery of copies: a send releases as many deliveries as the list is long.
  function Owed(net: Network, s: State, n: nat, text: Text): nat
    requires |s.tables| == |net| && n < |net|
  {
    (|net[n]| + 1) * s.threads[Sending(n, text, true)]
    + (|net[n]| + 2) * s.threads[Sending(n, text, false)]
    + s.threads[Opening(n, text)]
    + if text in s.tables[n] then 0 else |net[n]| + 2
  }

  function OwedBy(net: Network, s: State, text: Text, limit: nat): nat
    requires |s.tables| == |net| && limit <= |net|
  {
    if limit == 0 then 0 else OwedBy(net, s, text, limit - 1) + Owed(net, s, limit - 1, text)
  }

  // All steps that the text can still cause.
  function Work(net: Network, s: State, text: Text): nat
    requires |s.tables| == |net|
  {
    Total(s.wire, text, |net|) + OwedBy(net, s, text, |net|)
  }

  // A step of the flood of the text itself.
  predicate Concerns(step: Step, text: Text) {
    match step
    case Receive(_, t) => t == text
    case Forward(_, t, _) => t == text
    case Open(_, t) => t == text
    case _ => false
  }

  lemma {:induction false} OwedByAfter(net: Network, s: State, s': State, text: Text, limit: nat, n: nat, change: int)
    requires |s.tables| == |s'.tables| == |net| && limit <= |net| && n < |net|
    requires forall k :: 0 <= k < limit ==>
               Owed(net, s', k, text) == Owed(net, s, k, text) + if k == n then change else 0
    ensures OwedBy(net, s', text, limit) == OwedBy(net, s, text, limit) + if n < limit then change else 0
  {
    hide Owed;
    if limit > 0 {
      OwedByAfter(net, s, s', text, limit - 1, n, change);
    }
  }

  // What a step changes in one client's debt.
  function OwedChange(net: Network, s: State, step: Step, text: Text): int
    requires |s.tables| == |net| && Enabled(net, s, step)
  {
    match step
    case Forward(n, t, own) => if t == text then -|net[n]| - 1 else 0
    case Open(n, t) => if t == text then -1 else 0
    case _ => 0
  }

  lemma OwedStep(net: Network, s: State, step: Step, k: nat, text: Text)
    requires |s.tables| == |net| && k < |net| && Enabled(net, s, step)
    requires !step.Purge? && !(step.Originate? && step.text == text)
    ensures Owed(net, Next(net, s, step), k, text)
            == Owed(net, s, k, text)
             + if (step.Forward? || step.Open?) && step.node == k then OwedChange(net, s, step, text) else 0
  {
    hide Next;
    var s' := Next(net, s, step);
    SendingEffect(net, s, step, k, text);
    OpeningEffect(net, s, step, k, text);
    RecordEffect(net, s, step, k, text);
    var a, b := s.threads[Sending(k, text, true)], s.threads[Sending(k, text, false)];
    Bump(|net[k]| + 1, a, s'.threads[Sending(k, text, true)]);
    Bump(|net[k]| + 2, b, s'.threads[Sending(k, text, false)]);
  }

  lemma Bump(w: nat, a: nat, b: nat)
    ensures b == a + 1 ==> w * b == w * a + w
    ensures a == b + 1 ==> w * b == w * a - w
  {
  }

  // Every step of the flood uses up exactly one unit of work, and no other step, short of
  // a purge or of typing the text again, changes the amount.
  lemma WorkStep(net: Network, s: State, step: Step, text: Text)
    requires IsNetwork(net) && |s.tables| == |net| && Enabled(net, s, step)
    requires !step.Purge? && !(step.Originate? && step.text == text)
    ensures Work(net, s, text) == Work(net, Next(net, s, step), text) + if Concerns(step, text) then 1 else 0
  {
    var s' := Next(net, s, step);
    if |net| > 0 {
      var mover := if step.Forward? || step.Open? then step.node else 0;
      var change := if step.Forward? || step.Open? then OwedChange(net, s, step, text) else 0;
      forall k | 0 <= k < |net|
        ensures Owed(net, s', k, text) == Owed(net, s, k, text) + if k == mover then change else 0
      {
        OwedStep(net, s, step, k, text);
      }
      OwedByAfter(net, s, s', text, |net|, mover, change);
      WireStep(net, s, step, text);
    }
  }

  lemma WireStep(net: Network, s: State, step: Step, text: Text)
    requires IsNetwork(net) && |s.tables| == |net| && Enabled(net, s, step)
    ensures Total(Next(net, s, step).wire, text, |net|)
            == Total(s.wire, text, |net|)
             + (if step.Forward? && step.text == text then |net[step.node]| else 0)
             - (if step.Receive? && step.text == text then 1 else 0)
  {
    hide Copies;
    var s' := Next(net, s, step);
    match step
    case Receive(n, t) =>
      TotalSum(s'.wire, multiset{Copy(n, t)}, text, |net|);
      assert s'.wire + multiset{Copy(n, t)} == s.wire;
      TotalOne(Copy(n, t), text, |net|);
    case Forward(n, t, _) =>
      TotalSum(s.wire, Copies(net[n], t), text, |net|);
      TotalCopies(net[n], t, text, |net|);
    case _ =>
  }

  // How many of the steps belong to the flood of the text.
  function FloodSteps(steps: seq<Step>, text: Text): nat {
    if steps == [] then 0
    else FloodSteps(steps[..|steps| - 1], text) + if Concerns(steps[|steps| - 1], text) then 1 else 0
  }

  // From any point of a run on, and however other texts and the clock interleave, the flood
  // takes exactly as many steps as the work it has used up; so at most Work of that point.
  lemma {:induction false} FloodTerminates(net: Network, steps: seq<Step>, more: seq<Step>, text: Text)
    requires IsNetwork(net) && Legal(net, steps + more) && NoPurge(more)
    requires forall i :: 0 <= i < |more| ==> !(more[i].Originate? && more[i].text == text)
    ensures Legal(net, steps)
    ensures FloodSteps(more, text) + Work(net, Exec(net, steps + more), text) == Work(net, Exec(net, steps), text)
  {
    hide Next, Enabled, Work;
    if more == [] {
      assert steps + more == steps;
    } else {
      var init, last := more[..|more| - 1], more[|more| - 1];
      assert (steps + more)[..|steps + more| - 1] == steps + init;
      FloodTerminates(net, steps, init, text);
      WorkStep(net, Exec(net, steps + init), last, text);
    }
  }

  // A flood is over when all is quiet; or, for a text without fields, when there is nothing
  // left but to open it. Clients that have stopped do not matter.
  ghost predicate Over(net: Network, s: State, text: Text, stopped: set<nat>) {
    forall n :: 0 <= n < |net| && n !in stopped ==> Finished(s, n, text)
  }

  ghost predicate Finished(s: State, n: nat, text: Text) {
    && Pending(s, n, text) == 0 && s.wire[Copy(n, text)] == 0
    && (Envelope.HasFields(text) ==> s.threads[Opening(n, text)] == 0)
  }

  predicate IsStepAmong(step: Step, text: Text, stopped: set<nat>) {
    Concerns(step, text) && step.node !in stopped
  }

  // Until then the flood never gets stuck: one of its steps is enabled at a client that has
  // not stopped.
  lemma NeverStuck(net: Network, s: State, text: Text, stopped: set<nat>)
    requires |s.tables| == |net|
    ensures !Over(net, s, text, stopped) <==> exists step :: IsStepAmong(step, text, stopped) && Enabled(net, s, step)
  {
    hide Envelope.HasFields;
    if !Over(net, s, text, stopped) {
      var n :| 0 <= n < |net| && n !in stopped && !Finished(s, n, text);
      var step := if s.wire[Copy(n, text)] > 0 then Receive(n, text)
                  else if Pending(s, n, text) > 0 then Forward(n, text, s.threads[Sending(n, text, true)] > 0)
                  else Open(n, text);
      assert IsStepAmong(step, text, stopped) && Enabled(net, s, step);
    }
    if step :| IsStepAmong(step, text, stopped) && Enabled(net, s, step) {
      assert !Finished(s, step.node, text);
    }
  }

  // ----- the exact length of a flood

  // Before anyone originates the text there is nothing to do about it.
  lemma {:induction false} QuietBefore(net: Network, steps: seq<Step>, text: Text)
    requires IsNetwork(net) && Legal(net, steps) && NoPurge(steps)
    requires forall n :: 0 <= n < |net| ==> Exec(net, steps).originated[Copy(n, text)] == 0
    ensures FloodSteps(steps, text) == 0
    ensures Work(net, Exec(net, steps), text) == Work(net, Init(net), text)
  {
    hide Next, Enabled, Work, Concerns;
    if steps != [] {
      var before := steps[..|steps| - 1];
      var s, step := Exec(net, before), steps[|steps| - 1];
      forall n | 0 <= n < |net| ensures s.originated[Copy(n, text)] == 0 && step != Originate(n, text) {
        RecordEffect(net, s, step, n, text);
      }
      QuietBefore(net, before, text);
      NothingToDo(net, before, step, text);
      WorkStep(net, s, step, text);
    }
  }

  lemma NothingToDo(net: Network, steps: seq<Step>, step: Step, text: Text)
    requires IsNetwork(net) && Legal(net, steps) && NoPurge(steps)
    requires forall n :: 0 <= n < |net| ==> Exec(net, steps).originated[Copy(n, text)] == 0
    requires Enabled(net, Exec(net, steps), step) && forall n :: 0 <= n < |net| ==> step != Originate(n, text)
    ensures !Concerns(step, text) && !(step.Originate? && step.text == text)
  {
    hide Exec, Legal, NoPurge, Reaches;
    var s := Exec(net, steps);
    OnlyFromOriginators(net, steps, text);
    forall n | 0 <= n < |net|
      ensures s.wire[Copy(n, text)] == 0 && s.threads[Opening(n, text)] == 0
      ensures s.threads[Sending(n, text, true)] == 0 && s.threads[Sending(n, text, false)] == 0
    {
      AtMostOnce(net, steps, n, text);
      AlwaysAccounted(net, steps, n, text);
      assert !FromOriginator(net, s, n, text);
      assert !Present(s, n, text);
    }
  }

  // Typing a text nobody has seen in turns one unit of the work into a send.
  lemma OriginateWork(net: Network, s: State, o: nat, text: Text)
    requires |s.tables| == |net| && o < |net| && text !in s.tables[o]
    ensures Work(net, Next(net, s, Originate(o, text)), text) == Work(net, s, text) - 1
  {
    var step := Originate(o, text);
    var s' := Next(net, s, step);
    forall k | 0 <= k < |net| ensures Owed(net, s', k, text) == Owed(net, s, k, text) + if k == o then -1 else 0 {
      hide Next;
      SendingEffect(net, s, step, k, text);
      OpeningEffect(net, s, step, k, text);
      RecordEffect(net, s, step, k, text);
      Bump(|net[k]| + 1, s.threads[Sending(k, text, true)], s'.threads[Sending(k, text, true)]);
    }
    OwedByAfter(net, s, s', text, |net|, o, -1);
  }

  // With one originator the number of steps so far and the work left always add up to the
  // same number.
  lemma {:induction false} FloodLength(net: Network, steps: seq<Step>, o: nat, text: Text)
    requires IsNetwork(net) && Legal(net, steps) && NoPurge(steps) && o < |net|
    requires Sole(net, Exec(net, steps), o, text)
    ensures FloodSteps(steps, text) + Work(net, Exec(net, steps), text) == Work(net, Init(net), text) - 1
  {
    hide Next, Enabled, Work, Reaches;
    if steps != [] {
      var before := steps[..|steps| - 1];
      var s, step := Exec(net, before), steps[|steps| - 1];
      forall n | 0 <= n < |net| ensures Exec(net, steps).originated[Copy(n, text)]
        == s.originated[Copy(n, text)] + if step == Originate(n, text) then 1 else 0
      {
        RecordEffect(net, s, step, n, text);
      }
      if step.Originate? && step.text == text {
        EnabledNode(net, s, step);
        var x := step.node;
        assert step == Originate(x, text);
        assert Exec(net, steps).originated[Copy(x, text)] == s.originated[Copy(x, text)] + 1;
        assert x == o;
        QuietBefore(net, before, text);
        OnlyFromOriginators(net, before, text);
        assert !FromOriginator(net, s, o, text);
        assert !Present(s, o, text);
        OriginateWork(net, s, o, text);
        assert Work(net, Exec(net, steps), text) == Work(net, s, text) - 1;
        assert FloodSteps(steps, text) == 0;
      } else {
        assert Sole(net, s, o, text);
        FloodLength(net, before, o, text);
        WorkStep(net, s, step, text);
      }
    }
  }

  lemma EnabledNode(net: Network, s: State, step: Step)
    requires |s.tables| == |net| && Enabled(net, s, step) && step.Originate?
    ensures step.node < |net|
  {
  }

  // For every client the copies it sends, one delivery each, and two more steps: to
  // forward and to open.
  function WholeWork(net: Network, limit: nat): nat
    requires limit <= |net|
  {
    if limit == 0 then 0 else WholeWork(net, limit - 1) + |net[limit - 1]| + 2
  }

  lemma {:induction false} InitialWork(net: Network, text: Text, limit: nat)
    requires limit <= |net|
    ensures OwedBy(net, Init(net), text, limit) == WholeWork(net, limit)
    ensures Total(Init(net).wire, text, limit) == 0
  {
    if limit > 0 {
      InitialWork(net, text, limit - 1);
    }
  }

  // The threads of the first `limit` clients that are about to open the text.
  function Unopened(s: State, text: Text, limit: nat): nat {
    if limit == 0 then 0 else Unopened(s, text, limit - 1) + s.threads[Opening(limit - 1, text)]
  }

  lemma {:induction false} OwedLeft(net: Network, s: State, text: Text, limit: nat)
    requires |s.tables| == |net| && limit <= |net|
    requires forall n :: 0 <= n < |net| ==> text in s.tables[n] && Pending(s, n, text) == 0
    ensures OwedBy(net, s, text, limit) == Unopened(s, text, limit)
  {
    if limit > 0 {
      OwedLeft(net, s, text, limit - 1);
      assert Pending(s, limit - 1, text) == 0;
    }
  }

  // The exact number of steps of a flood that reaches everyone, in any interleaving, once every
  // client is at rest: what is left is the copies to clients that stopped when they were to
  // open the text, and the opening.
  lemma SettledLength(net: Network, steps: seq<Step>, o: nat, text: Text)
    requires IsNetwork(net) && Legal(net, steps) && NoPurge(steps) && o < |net|
    requires Sole(net, Exec(net, steps), o, text) && Settled(net, Exec(net, steps), text)
    requires forall n :: 0 <= n < |net| ==> Reaches(net, o, n)
    ensures var s := Exec(net, steps);
            FloodSteps(steps, text) + Total(s.wire, text, |net|) + Unopened(s, text, |net|) == WholeWork(net, |net|) - 1
  {
    hide Exec, Legal, NoPurge, Reaches, Sole, Settled;
    forall n | 0 <= n < |net| ensures text in Exec(net, steps).tables[n] && Pending(Exec(net, steps), n, text) == 0 {
      RecordedOnce(net, steps, o, n, text);
    }
    FloodLength(net, steps, o, text);
    InitialWork(net, text, |net|);
    OwedLeft(net, Exec(net, steps), text, |net|);
  }

  lemma {:induction false} NothingLeft(net: Network, s: State, text: Text, limit: nat)
    requires Quiescent(net, s, text) && limit <= |net|
    ensures Unopened(s, text, limit) == 0 && Total(s.wire, text, limit) == 0
  {
    if limit > 0 {
      NothingLeft(net, s, text, limit - 1);
      assert Quiet(s, limit - 1, text);
    }
  }

  // The exact number of steps of a flood that reaches everyone, once all is quiet.
  lemma ExactLength(net: Network, steps: seq<Step>, o: nat, text: Text)
    requires IsNetwork(net) && Legal(net, steps) && NoPurge(steps) && o < |net|
    requires Sole(net, Exec(net, steps), o, text) && Quiescent(net, Exec(net, steps), text)
    requires forall n :: 0 <= n < |net| ==> Reaches(net, o, n)
    ensures FloodSteps(steps, text) == WholeWork(net, |net|) - 1
  {
    hide Exec, Legal, NoPurge, Reaches, Sole, Settled, Quiescent;
    QuiescentIsSettled(net, Exec(net, steps), text);
    SettledLength(net, steps, o, text);
    NothingLeft(net, Exec(net, steps), text, |net|);
  }

  // From any point of any run, and whoever has stopped, the flood can be brought to its end by
  // steps of the others.
  lemma {:induction false} CanFinish(net: Network, steps: seq<Step>, text: Text, stopped: set<nat>)
      returns (more: seq<Step>)
    requires IsNetwork(net) && Legal(net, steps)
    ensures Legal(net, steps + more) && Over(net, Exec(net, steps + more), text, stopped)
    ensures forall i :: 0 <= i < |more| ==> IsStepAmong(more[i], text, stopped)
    ensures forall n :: 0 <= n < |net| ==>
              Exec(net, steps + more).originated[Copy(n, text)] == Exec(net, steps).originated[Copy(n, text)]
    decreases Work(net, Exec(net, steps), text)
  {
    hide Next, Enabled, Work, Exec, Legal, Concerns, Over;
    var s := Exec(net, steps);
    NeverStuck(net, s, text, stopped);
    if Over(net, s, text, stopped) {
      more := [];
      assert steps + more == steps;
    } else {
      var step :| IsStepAmong(step, text, stopped) && Enabled(net, s, step);
      ConcernsKinds(step, text);
      WorkStep(net, s, step, text);
      OneMoreStep(net, steps, step);
      var rest := CanFinish(net, steps + [step], text, stopped);
      more := [step] + rest;
      assert steps + more == steps + [step] + rest;
      forall n | 0 <= n < |net|
        ensures Exec(net, steps + [step]).originated[Copy(n, text)] == s.originated[Copy(n, text)]
      {
        RecordEffect(net, s, step, n, text);
      }
    }
  }

  lemma ConcernsKinds(step: Step, text: Text)
    ensures Concerns(step, text) ==> !step.Purge? && !step.Originate?
  {
  }

  // If clients have died of a text without fields, the flood of it can still settle without
  // another step of theirs.
  lemma CanSettle(net: Network, steps: seq<Step>, text: Text, dead: set<nat>) returns (more: seq<Step>)
    requires IsNetwork(net) && Legal(net, steps) && !Envelope.HasFields(text)
    requires forall n :: 0 <= n < |net| && n in dead ==> Exec(net, steps).threads[Opening(n, text)] > 0
    ensures Legal(net, steps + more) && Settled(net, Exec(net, steps + more), text)
    ensures forall i :: 0 <= i < |more| ==> IsStepAmong(more[i], text, dead)
  {
    hide Exec, Legal, Envelope.HasFields, IsStepAmong;
    more := CanFinish(net, steps, text, dead);
    forall n | 0 <= n < |net| ensures AtRest(Exec(net, steps + more), n, text) {
      if n in dead {
        StillOpening(net, steps, more, n, text);
      } else {
        assert Finished(Exec(net, steps + more), n, text);
      }
    }
  }

  lemma {:induction false} StillOpening(net: Network, steps: seq<Step>, more: seq<Step>, n: nat, text: Text)
    requires Legal(net, steps + more) && n < |net| && !Envelope.HasFields(text)
    ensures Legal(net, steps)
    ensures Exec(net, steps + more).threads[Opening(n, text)] >= Exec(net, steps).threads[Opening(n, text)]
  {
    hide Next, Envelope.HasFields;
    if more == [] {
      assert steps + more == steps;
    } else {
      var init := more[..|more| - 1];
      assert (steps + more)[..|steps + more| - 1] == steps + init;
      StillOpening(net, steps, init, n, text);
      OpeningEffect(net, Exec(net, steps + init), more[|more| - 1], n, text);
    }
  }

  // So the conditions of the theorems above are met by some run for every originator.
  lemma FloodHappens(net: Network, o: nat, text: Text) returns (steps: seq<Step>)
    requires IsNetwork(net) && o < |net|
    ensures Legal(net, steps) && NoPurge(steps)
    ensures Sole(net, Exec(net, steps), o, text) && Over(net, Exec(net, steps), text, {})
  {
    hide Over;
    var start := [Originate(o, text)];
    assert start == [] + [Originate(o, text)];
    OneMoreStep(net, [], Originate(o, text));
    var more := CanFinish(net, start, text, {});
    steps := start + more;
    forall i | 0 <= i < |steps| ensures !steps[i].Purge? {
      if i > 0 {
        assert steps[i] == more[i - 1];
      }
    }
  }
}
