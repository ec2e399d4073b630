/**
 The flood with tables that may forget. With buffers as keys (`BufferKeys`) all that a
 client's table is sure of is this: a text that it has recorded from a connection is known
 when it comes over that connection again, and no text is known that was never inserted. Here
 a check may turn out either way within these limits, whatever the reason; tables keyed by
 text are one case. There is no purging.

 What is left is that a client records a text at most once for each connection it comes over,
 that the text still reaches exactly the clients it should, and that every flood ends.
 */
module ConnectionFlood {
  import opened SeenTable
  import F = Flood
  import opened FloodCoverage

  type Network = F.Network

  // The connection that entry k of client `from`'s peer list stands for.
  datatype Conn = Conn(from: nat, k: nat)

  datatype Copy = Copy(conn: Conn, text: Text)

  datatype Waiting = Waiting(node: nat, text: Text)

  // `noted` is what each client ever inserted. The last three fields are histories.
  datatype State = State(
    noted: seq<set<Text>>,
    waiting: multiset<Waiting>,
    wire: multiset<Copy>,
    originated: multiset<Waiting>,
    recorded: multiset<Copy>,
    sent: multiset<Copy>)

  datatype Step =
    | Originate(node: nat, text: Text)              // input_send_msg records its text
    | Deliver(conn: Conn, text: Text, isNew: bool)  // client_parse_msg: check and insert
    | Forward(node: nat, text: Text)                // client_send_to_all_peers

  predicate IsConn(net: Network, c: Conn) {
    c.from < |net| && c.k < |net[c.from]|
  }

  function Target(net: Network, c: Conn): nat
    requires IsConn(net, c)
  {
    net[c.from][c.k]
  }

  function Init(net: Network): State {
    State(seq(|net|, _ => {}), multiset{}, multiset{}, multiset{}, multiset{}, multiset{})
  }

  // One copy over each of the first k connections of client n.
  function CopiesOut(n: nat, k: nat, text: Text): multiset<Copy> {
    if k == 0 then multiset{} else CopiesOut(n, k - 1, text) + multiset{Copy(Conn(n, k - 1), text)}
  }

  lemma {:induction false} CopiesOutCount(n: nat, k: nat, text: Text, c: Copy)
    ensures CopiesOut(n, k, text)[c] == if c.conn.from == n && c.conn.k < k && c.text == text then 1 else 0
  {
    if k > 0 {
      CopiesOutCount(n, k - 1, text, c);
    }
  }

  ghost predicate Enabled(net: Network, s: State, step: Step)
    requires F.IsNetwork(net) && |s.noted| == |net|
  {
    match step
    case Originate(n, text) => n < |net|
    case Deliver(c, text, isNew) =>
      && IsConn(net, c) && s.wire[Copy(c, text)] > 0
      && (isNew ==> s.recorded[Copy(c, text)] == 0)
      && (!isNew ==> text in s.noted[Target(net, c)])
    case Forward(n, text) => n < |net| && s.waiting[Waiting(n, text)] > 0
  }

  ghost function Next(net: Network, s: State, step: Step): (s': State)
    requires F.IsNetwork(net) && |s.noted| == |net| && Enabled(net, s, step)
    ensures |s'.noted| == |net|
  {
    match step
    case Originate(n, text) =>
      s.(noted := s.noted[n := s.noted[n] + {text}],
         waiting := s.waiting + multiset{Waiting(n, text)},
         originated := s.originated + multiset{Waiting(n, text)})
    case Deliver(c, text, isNew) =>
      var taken := s.(wire := s.wire - multiset{Copy(c, text)});
      var n := Target(net, c);
      if isNew then
        taken.(noted := s.noted[n := s.noted[n] + {text}],
               waiting := s.waiting + multiset{Waiting(n, text)},
               recorded := s.recorded + multiset{Copy(c, text)})
      else taken
    case Forward(n, text) =>
      s.(waiting := s.waiting - multiset{Waiting(n, text)},
         wire := s.wire + CopiesOut(n, |net[n]|, text),
         sent := s.sent + CopiesOut(n, |net[n]|, text))
  }

  ghost predicate Legal(net: Network, steps: seq<Step>)
    requires F.IsNetwork(net)
    decreases |steps|, 0
  {
    steps == [] ||
    (&& Legal(net, steps[..|steps| - 1])
     && Enabled(net, Exec(net, steps[..|steps| - 1]), steps[|steps| - 1]))
  }

  ghost function Exec(net: Network, steps: seq<Step>): (s: State)
    requires F.IsNetwork(net) && Legal(net, steps)
    ensures |s.noted| == |net|
    decreases |steps|, 1
  {
    if steps == [] then Init(net)
    else Next(net, Exec(net, steps[..|steps| - 1]), steps[|steps| - 1])
  }

  // ----- the effect of one step

  lemma WaitingEffect(net: Network, s: State, step: Step, n: nat, text: Text)
    requires F.IsNetwork(net) && |s.noted| == |net| && n < |net| && Enabled(net, s, step)
    ensures Next(net, s, step).waiting[Waiting(n, text)] == s.waiting[Waiting(n, text)]
            + (if step == Originate(n, text) then 1 else 0)
            + (if step.Deliver? && step.isNew && step.text == text && Target(net, step.conn) == n then 1 else 0)
            - (if step == Forward(n, text) then 1 else 0)
    ensures Next(net, s, step).originated[Waiting(n, text)] == s.originated[Waiting(n, text)]
            + (if step == Originate(n, text) then 1 else 0)
  {
    hide CopiesOut;
  }

  lemma NotedEffect(net: Network, s: State, step: Step, n: nat, text: Text)
    requires F.IsNetwork(net) && |s.noted| == |net| && n < |net| && Enabled(net, s, step)
    ensures text in Next(net, s, step).noted[n] <==>
            || text in s.noted[n]
            || step == Originate(n, text)
            || (step.Deliver? && step.text == text && Target(net, step.conn) == n)
  {
    hide CopiesOut;
  }

  lemma WireEffect(net: Network, s: State, step: Step, c: Conn, text: Text)
    requires F.IsNetwork(net) && |s.noted| == |net| && IsConn(net, c) && Enabled(net, s, step)
    ensures var s' := Next(net, s, step);
            && s'.wire[Copy(c, text)] == s.wire[Copy(c, text)]
               + (if step == Forward(c.from, text) then 1 else 0)
               - (if step.Deliver? && step.conn == c && step.text == text then 1 else 0)
            && s'.recorded[Copy(c, text)] == s.recorded[Copy(c, text)]
               + (if step == Deliver(c, text, true) then 1 else 0)
  {
    hide CopiesOut;
    if step.Forward? {
      CopiesOutCount(step.node, |net[step.node]|, step.text, Copy(c, text));
    }
  }

  // ----- at most once for each connection

  lemma {:induction false} AtMostOncePerConnection(net: Network, steps: seq<Step>, c: Conn, text: Text)
    requires F.IsNetwork(net) && Legal(net, steps) && IsConn(net, c)
    ensures Exec(net, steps).recorded[Copy(c, text)] <= 1
    ensures Exec(net, steps).recorded[Copy(c, text)] > 0 ==> text in Exec(net, steps).noted[Target(net, c)]
  {
    hide Next;
    if steps != [] {
      var s, step := Exec(net, steps[..|steps| - 1]), steps[|steps| - 1];
      AtMostOncePerConnection(net, steps[..|steps| - 1], c, text);
      WireEffect(net, s, step, c, text);
      NotedEffect(net, s, step, Target(net, c), text);
    }
  }

  // ----- coverage

  // A client that has noted a text has still to send it, or each of its peers has noted it or
  // has a copy in flight.
  ghost predicate Covered(net: Network, s: State, n: nat, text: Text)
    requires F.IsNetwork(net) && |s.noted| == |net| && n < |net|
  {
    text in s.noted[n] ==>
      || s.waiting[Waiting(n, text)] > 0
      || forall k :: 0 <= k < |net[n]| ==> text in s.noted[net[n][k]] || s.wire[Copy(Conn(n, k), text)] > 0
  }

  lemma {:induction false} AlwaysCovered(net: Network, steps: seq<Step>, n: nat, text: Text)
    requires F.IsNetwork(net) && Legal(net, steps) && n < |net|
    ensures Covered(net, Exec(net, steps), n, text)
  {
    hide Next, Enabled;
    if steps != [] {
      AlwaysCovered(net, steps[..|steps| - 1], n, text);
      CoveredStep(net, Exec(net, steps[..|steps| - 1]), steps[|steps| - 1], n, text);
    }
  }

  lemma CoveredStep(net: Network, s: State, step: Step, n: nat, text: Text)
    requires F.IsNetwork(net) && |s.noted| == |net| && n < |net|
    requires Enabled(net, s, step) && Covered(net, s, n, text)
    ensures Covered(net, Next(net, s, step), n, text)
  {
    hide Next;
    var s' := Next(net, s, step);
    WaitingEffect(net, s, step, n, text);
    NotedEffect(net, s, step, n, text);
    if text in s'.noted[n] && s'.waiting[Waiting(n, text)] == 0 {
      forall k | 0 <= k < |net[n]| ensures text in s'.noted[net[n][k]] || s'.wire[Copy(Conn(n, k), text)] > 0 {
        NotedEffect(net, s, step, net[n][k], text);
        WireEffect(net, s, step, Conn(n, k), text);
      }
    }
  }

  // ----- a text is only where an originator's flood can carry it

  ghost predicate FromOriginator(net: Network, s: State, n: nat, text: Text) {
    exists o :: 0 <= o < |net| && s.originated[Waiting(o, text)] > 0 && Reaches(net, o, n)
  }

  ghost predicate Present(net: Network, s: State, n: nat, text: Text)
    requires F.IsNetwork(net) && |s.noted| == |net| && n < |net|
  {
    || text in s.noted[n] || s.waiting[Waiting(n, text)] > 0
    || exists c :: IsConn(net, c) && Target(net, c) == n && s.wire[Copy(c, text)] > 0
  }

  lemma {:induction false} OnlyFromOriginators(net: Network, steps: seq<Step>, text: Text)
    requires F.IsNetwork(net) && Legal(net, steps)
    ensures forall n :: 0 <= n < |net| && Present(net, Exec(net, steps), n, text) ==>
              FromOriginator(net, Exec(net, steps), n, text)
  {
    hide Next, Enabled, Present, FromOriginator;
    if steps == [] {
      NothingPresent(net, text);
    } else {
      var s, step := Exec(net, steps[..|steps| - 1]), steps[|steps| - 1];
      OnlyFromOriginators(net, steps[..|steps| - 1], text);
      forall n | 0 <= n < |net| && Present(net, Exec(net, steps), n, text)
        ensures FromOriginator(net, Exec(net, steps), n, text)
      {
        OriginatorStep(net, s, step, n, text);
      }
    }
  }

  lemma NothingPresent(net: Network, text: Text)
    requires F.IsNetwork(net)
    ensures forall n :: 0 <= n < |net| ==> !Present(net, Init(net), n, text)
  {
  }

  lemma OriginatorStep(net: Network, s: State, step: Step, n: nat, text: Text)
    requires F.IsNetwork(net) && |s.noted| == |net| && n < |net| && Enabled(net, s, step)
    requires forall x :: 0 <= x < |net| && Present(net, s, x, text) ==> FromOriginator(net, s, x, text)
    requires Present(net, Next(net, s, step), n, text)
    ensures FromOriginator(net, Next(net, s, step), n, text)
  {
    hide Next, Reaches, FromOriginator;
    var s' := Next(net, s, step);
    if step == Originate(n, text) {
      IsOriginator(net, s, n, text);
    } else if Present(net, s, n, text) {
      OriginatorsStay(net, s, step, n, n, text);
    } else {
      WaitingEffect(net, s, step, n, text);
      NotedEffect(net, s, step, n, text);
      var c :| IsConn(net, c) && Target(net, c) == n && s'.wire[Copy(c, text)] > 0;
      WireEffect(net, s, step, c, text);
      assert Present(net, s, c.from, text);
      OriginatorsStay(net, s, step, c.from, n, text);
    }
  }

  lemma IsOriginator(net: Network, s: State, n: nat, text: Text)
    requires F.IsNetwork(net) && |s.noted| == |net| && n < |net|
    ensures FromOriginator(net, Next(net, s, Originate(n, text)), n, text)
  {
    hide Reaches;
    ReachesItself(net, n);
    assert Next(net, s, Originate(n, text)).originated[Waiting(n, text)] > 0;
  }

  // An originator of the flood at a is still one for a, or for a peer b of a.
  lemma OriginatorsStay(net: Network, s: State, step: Step, a: nat, b: nat, text: Text)
    requires F.IsNetwork(net) && |s.noted| == |net| && a < |net| && b < |net| && Enabled(net, s, step)
    requires FromOriginator(net, s, a, text) && (a == b || b in net[a])
    ensures FromOriginator(net, Next(net, s, step), b, text)
  {
    hide Next, Reaches;
    var o :| 0 <= o < |net| && s.originated[Waiting(o, text)] > 0 && Reaches(net, o, a);
    WaitingEffect(net, s, step, o, text);
    if a != b {
      ReachesPeer(net, o, a, b);
    }
    assert Next(net, s, step).originated[Waiting(o, text)] > 0 && Reaches(net, o, b);
  }

  lemma {:induction false} OriginatorsNote(net: Network, steps: seq<Step>, o: nat, text: Text)
    requires F.IsNetwork(net) && Legal(net, steps) && o < |net|
    requires Exec(net, steps).originated[Waiting(o, text)] > 0
    ensures text in Exec(net, steps).noted[o]
  {
    hide Next, Enabled;
    if steps != [] {
      var s, step := Exec(net, steps[..|steps| - 1]), steps[|steps| - 1];
      WaitingEffect(net, s, step, o, text);
      NotedEffect(net, s, step, o, text);
      if step != Originate(o, text) {
        OriginatorsNote(net, steps[..|steps| - 1], o, text);
      }
    }
  }

  // ----- the end of a flood

  ghost predicate Settled(net: Network, s: State, text: Text) {
    && (forall n :: 0 <= n < |net| ==> s.waiting[Waiting(n, text)] == 0)
    && (forall c :: IsConn(net, c) ==> s.wire[Copy(c, text)] == 0)
  }

  lemma {:induction false} NotedAlongPath(net: Network, steps: seq<Step>, text: Text, path: seq<nat>)
    requires F.IsNetwork(net) && Legal(net, steps) && IsPath(net, path)
    requires Settled(net, Exec(net, steps), text) && text in Exec(net, steps).noted[path[0]]
    ensures text in Exec(net, steps).noted[path[|path| - 1]]
  {
    hide Exec, Legal;
    if |path| > 1 {
      var init := path[..|path| - 1];
      NotedAlongPath(net, steps, text, init);
      var n := init[|init| - 1];
      AlwaysCovered(net, steps, n, text);
      var k :| 0 <= k < |net[n]| && net[n][k] == path[|init|];
      assert IsConn(net, Conn(n, k));
    }
  }

  /** Forgetting costs copies, but nobody is left out and nobody is let in: once nothing is left
      to be sent or received, exactly the clients reachable from an originator have the text. */
  lemma NotedIffReachable(net: Network, steps: seq<Step>, n: nat, text: Text)
    requires F.IsNetwork(net) && Legal(net, steps) && n < |net| && Settled(net, Exec(net, steps), text)
    ensures text in Exec(net, steps).noted[n] <==> FromOriginator(net, Exec(net, steps), n, text)
  {
    hide Exec, Legal, Settled;
    var s := Exec(net, steps);
    if text in s.noted[n] {
      OnlyFromOriginators(net, steps, text);
      assert Present(net, s, n, text);
    }
    if FromOriginator(net, s, n, text) {
      var o :| 0 <= o < |net| && s.originated[Waiting(o, text)] > 0 && Reaches(net, o, n);
      OriginatorsNote(net, steps, o, text);
      var path :| PathFromTo(net, path, o, n);
      NotedAlongPath(net, steps, text, path);
    }
  }

  // ----- every flood ends

  ghost function Sum(f: nat -> int, k: nat): int {
    if k == 0 then 0 else Sum(f, k - 1) + f(k - 1)
  }

  lemma {:induction false} SumOfTwo(f: nat -> int, g: nat -> int, h: nat -> int, k: nat)
    requires forall i: nat :: i < k ==> h(i) == f(i) + g(i)
    ensures Sum(h, k) == Sum(f, k) + Sum(g, k)
  {
    if k > 0 {
      SumOfTwo(f, g, h, k - 1);
    }
  }

  lemma {:induction false} SumOfOne(f: nat -> int, k: nat, i: nat, v: int)
    requires forall j: nat :: j < k ==> f(j) == if j == i then v else 0
    ensures Sum(f, k) == if i < k then v else 0
  {
    if k > 0 {
      SumOfOne(f, k - 1, i, v);
    }
  }

  lemma {:induction false} SumOfSame(f: nat -> int, k: nat, v: int)
    requires forall j: nat :: j < k ==> f(j) == v
    ensures Sum(f, k) == k * v
  {
    if k > 0 {
      SumOfSame(f, k - 1, v);
      assert (k - 1) * v + v == k * v;
    }
  }

  // A send and the copies it makes.
  function Weight(net: Network, n: nat): int
    requires n < |net|
  {
    |net[n]| + 1
  }

  // What a connection can still cause: the copies on it, and a recording at its end.
  function ConnDebt(net: Network, s: State, text: Text, c: Conn): int
    requires F.IsNetwork(net) && IsConn(net, c)
  {
    s.wire[Copy(c, text)] + if s.recorded[Copy(c, text)] == 0 then Weight(net, Target(net, c)) else 0
  }

  function ConnDebts(net: Network, s: State, text: Text, n: nat): nat -> int
    requires F.IsNetwork(net) && n < |net|
  {
    (k: nat) => if k < |net[n]| then ConnDebt(net, s, text, Conn(n, k)) else 0
  }

  ghost function Debts(net: Network, s: State, text: Text): nat -> int
    requires F.IsNetwork(net)
  {
    (n: nat) => if n < |net|
      then Sum(ConnDebts(net, s, text, n), |net[n]|) + s.waiting[Waiting(n, text)] * Weight(net, n)
      else 0
  }

  // All steps that the text can still cause.
  ghost function Work(net: Network, s: State, text: Text): int
    requires F.IsNetwork(net)
  {
    Sum(Debts(net, s, text), |net|)
  }

  predicate Concerns(step: Step, text: Text) {
    !step.Originate? && step.text == text
  }

  // What a step changes in the debt of connection c, and of client n's sends.
  function ConnChange(net: Network, step: Step, text: Text, c: Conn): int
    requires F.IsNetwork(net) && IsConn(net, c)
  {
    if step == Forward(c.from, text) then 1
    else if step == Deliver(c, text, false) then -1
    else if step == Deliver(c, text, true) then -1 - Weight(net, Target(net, c))
    else 0
  }

  function SendChange(net: Network, step: Step, text: Text, n: nat): int
    requires F.IsNetwork(net) && n < |net|
  {
    if step == Forward(n, text) then -Weight(net, n)
    else if step.Deliver? && step.isNew && step.text == text && IsConn(net, step.conn) && Target(net, step.conn) == n
    then Weight(net, n)
    else 0
  }

  lemma ConnStep(net: Network, s: State, step: Step, text: Text, c: Conn)
    requires F.IsNetwork(net) && |s.noted| == |net| && IsConn(net, c) && Enabled(net, s, step)
    ensures ConnDebt(net, Next(net, s, step), text, c)
            == ConnDebt(net, s, text, c) + ConnChange(net, step, text, c)
  {
    hide Next;
    WireEffect(net, s, step, c, text);
  }

  // The change of all connections of one client together.
  function ListChange(net: Network, step: Step, text: Text, n: nat): int
    requires F.IsNetwork(net) && n < |net|
  {
    if step == Forward(n, text) then |net[n]|
    else if step.Deliver? && step.text == text && step.conn.from == n && IsConn(net, step.conn)
    then ConnChange(net, step, text, step.conn)
    else 0
  }

  lemma ListStep(net: Network, s: State, step: Step, text: Text, n: nat)
    requires F.IsNetwork(net) && |s.noted| == |net| && n < |net| && Enabled(net, s, step)
    ensures Sum(ConnDebts(net, Next(net, s, step), text, n), |net[n]|)
            == Sum(ConnDebts(net, s, text, n), |net[n]|) + ListChange(net, step, text, n)
  {
    hide Next, ConnDebt;
    var s', k := Next(net, s, step), |net[n]|;
    var change: nat -> int := (j: nat) => if j < |net[n]| then ConnChange(net, step, text, Conn(n, j)) else 0;
    forall j: nat | j < k
      ensures ConnDebts(net, s', text, n)(j) == ConnDebts(net, s, text, n)(j) + change(j)
    {
      ConnStep(net, s, step, text, Conn(n, j));
    }
    SumOfTwo(ConnDebts(net, s, text, n), change, ConnDebts(net, s', text, n), k);
    if step == Forward(n, text) {
      SumOfSame(change, k, 1);
    } else if step.Deliver? && step.text == text && step.conn.from == n {
      SumOfOne(change, k, step.conn.k, ConnChange(net, step, text, step.conn));
    } else {
      SumOfSame(change, k, 0);
    }
  }

  lemma DebtStep(net: Network, s: State, step: Step, text: Text, n: nat)
    requires F.IsNetwork(net) && |s.noted| == |net| && n < |net|
    requires Enabled(net, s, step) && !(step.Originate? && step.text == text)
    ensures Debts(net, Next(net, s, step), text)(n)
            == Debts(net, s, text)(n) + ListChange(net, step, text, n) + SendChange(net, step, text, n)
  {
    hide Next, Sum, ListChange;
    var s' := Next(net, s, step);
    ListStep(net, s, step, text, n);
    WaitingEffect(net, s, step, n, text);
    var a, b := s.waiting[Waiting(n, text)], s'.waiting[Waiting(n, text)];
    assert b == a + 1 ==> b * Weight(net, n) == a * Weight(net, n) + Weight(net, n);
    assert a == b + 1 ==> b * Weight(net, n) == a * Weight(net, n) - Weight(net, n);
  }

  /** Every step of the flood uses up exactly one unit of work, and no other step, short of
      typing the text again, changes the amount. */
  lemma WorkStep(net: Network, s: State, step: Step, text: Text)
    requires F.IsNetwork(net) && |s.noted| == |net|
    requires Enabled(net, s, step) && !(step.Originate? && step.text == text)
    ensures Work(net, s, text) == Work(net, Next(net, s, step), text) + if Concerns(step, text) then 1 else 0
  {
    hide Next, Debts, ListChange, SendChange;
    var s' := Next(net, s, step);
    var lists: nat -> int := (n: nat) => if n < |net| then ListChange(net, step, text, n) else 0;
    var sends: nat -> int := (n: nat) => if n < |net| then SendChange(net, step, text, n) else 0;
    var both: nat -> int := (n: nat) => lists(n) + sends(n);
    forall n: nat | n < |net| ensures Debts(net, s', text)(n) == Debts(net, s, text)(n) + both(n) {
      DebtStep(net, s, step, text, n);
    }
    SumOfTwo(Debts(net, s, text), both, Debts(net, s', text), |net|);
    SumOfTwo(lists, sends, both, |net|);
    ChangesAddUp(net, s, step, text, lists, sends);
  }

  lemma ChangesAddUp(net: Network, s: State, step: Step, text: Text, lists: nat -> int, sends: nat -> int)
    requires F.IsNetwork(net) && |s.noted| == |net|
    requires Enabled(net, s, step) && !(step.Originate? && step.text == text)
    requires forall n: nat :: n < |net| ==> lists(n) == ListChange(net, step, text, n)
    requires forall n: nat :: n < |net| ==> sends(n) == SendChange(net, step, text, n)
    ensures Sum(lists, |net|) + Sum(sends, |net|) == if Concerns(step, text) then -1 else 0
  {
    if !Concerns(step, text) {
      SumOfSame(lists, |net|, 0);
      SumOfSame(sends, |net|, 0);
    } else if step.Forward? {
      SumOfOne(lists, |net|, step.node, |net[step.node]|);
      SumOfOne(sends, |net|, step.node, -Weight(net, step.node));
    } else {
      SumOfOne(lists, |net|, step.conn.from, ConnChange(net, step, text, step.conn));
      var n := Target(net, step.conn);
      SumOfOne(sends, |net|, n, if step.isNew then Weight(net, n) else 0);
    }
  }

  // How many of the steps belong to the flood of the text.
  function FloodSteps(steps: seq<Step>, text: Text): nat {
    if steps == [] then 0
    else FloodSteps(steps[..|steps| - 1], text) + if Concerns(steps[|steps| - 1], text) then 1 else 0
  }

  /** From any point of a run on, the flood takes exactly as many steps as the work it uses up,
      and there is always some work or none left: so it takes at most Work of that point. */
  lemma {:induction false} FloodTerminates(net: Network, steps: seq<Step>, more: seq<Step>, text: Text)
    requires F.IsNetwork(net) && Legal(net, steps + more)
    requires forall i :: 0 <= i < |more| ==> !(more[i].Originate? && more[i].text == text)
    ensures Legal(net, steps)
    ensures FloodSteps(more, text) + Work(net, Exec(net, steps + more), text) == Work(net, Exec(net, steps), text)
    ensures Work(net, Exec(net, steps + more), text) >= 0
  {
    hide Next, Enabled, Work;
    WorkIsNatural(net, Exec(net, steps + more), text);
    if more == [] {
      assert steps + more == steps;
    } else {
      var init, last := more[..|more| - 1], more[|more| - 1];
      assert (steps + more)[..|steps + more| - 1] == steps + init;
      FloodTerminates(net, steps, init, text);
      WorkStep(net, Exec(net, steps + init), last, text);
    }
  }

  lemma WorkIsNatural(net: Network, s: State, text: Text)
    requires F.IsNetwork(net)
    ensures Work(net, s, text) >= 0
  {
    forall n: nat | n < |net| ensures Debts(net, s, text)(n) >= 0 {
      SumIsNatural(ConnDebts(net, s, text, n), |net[n]|);
    }
    SumIsNatural(Debts(net, s, text), |net|);
  }

  lemma {:induction false} SumIsNatural(f: nat -> int, k: nat)
    requires forall i: nat :: i < k ==> f(i) >= 0
    ensures Sum(f, k) >= 0
  {
    if k > 0 {
      SumIsNatural(f, k - 1);
    }
  }

  // The sends that typing the text has started.
  function Typed(net: Network, steps: seq<Step>, text: Text): int {
    if steps == [] then 0
    else
      var step := steps[|steps| - 1];
      Typed(net, steps[..|steps| - 1], text)
      + if step.Originate? && step.text == text && step.node < |net| then Weight(net, step.node) else 0
  }

  lemma OriginateWork(net: Network, s: State, o: nat, text: Text)
    requires F.IsNetwork(net) && |s.noted| == |net| && o < |net|
    ensures Work(net, Next(net, s, Originate(o, text)), text) == Work(net, s, text) + Weight(net, o)
  {
    var s' := Next(net, s, Originate(o, text));
    var change: nat -> int := (n: nat) => if n == o then Weight(net, o) else 0;
    forall n: nat | n < |net| ensures Debts(net, s', text)(n) == Debts(net, s, text)(n) + change(n) {
      SameDebts(net, s, s', text, n, |net[n]|);
      var a := s.waiting[Waiting(n, text)];
      assert (a + 1) * Weight(net, n) == a * Weight(net, n) + Weight(net, n);
    }
    SumOfTwo(Debts(net, s, text), change, Debts(net, s', text), |net|);
    SumOfOne(change, |net|, o, Weight(net, o));
  }

  lemma {:induction false} SameDebts(net: Network, s: State, s': State, text: Text, n: nat, k: nat)
    requires F.IsNetwork(net) && n < |net| && k <= |net[n]| && s'.wire == s.wire && s'.recorded == s.recorded
    ensures Sum(ConnDebts(net, s', text, n), k) == Sum(ConnDebts(net, s, text, n), k)
  {
    if k > 0 {
      SameDebts(net, s, s', text, n, k - 1);
    }
  }

  // The steps so far and the work left add up to the work at the start and what typing added.
  lemma {:induction false} FloodLength(net: Network, steps: seq<Step>, text: Text)
    requires F.IsNetwork(net) && Legal(net, steps)
    ensures FloodSteps(steps, text) + Work(net, Exec(net, steps), text)
            == Work(net, Init(net), text) + Typed(net, steps, text)
  {
    hide Next, Enabled, Work;
    if steps != [] {
      var s, step := Exec(net, steps[..|steps| - 1]), steps[|steps| - 1];
      FloodLength(net, steps[..|steps| - 1], text);
      if step.Originate? && step.text == text {
        EnabledNode(net, s, step);
        OriginateWork(net, s, step.node, text);
      } else {
        WorkStep(net, s, step, text);
      }
    }
  }

  lemma EnabledNode(net: Network, s: State, step: Step)
    requires F.IsNetwork(net) && |s.noted| == |net| && Enabled(net, s, step) && step.Originate?
    ensures step.node < |net|
  {
  }

  /** With lists of one length, as they are dealt, a text that has been typed at most once, which
      starts one send and its copies, takes at most so many steps, however much is forgotten. */
  lemma LongestFlood(net: Network, steps: seq<Step>, text: Text, len: nat)
    requires F.IsNetwork(net) && Legal(net, steps)
    requires forall n :: 0 <= n < |net| ==> |net[n]| == len
    requires Typed(net, steps, text) <= len + 1
    ensures FloodSteps(steps, text) <= |net| * (len * (len + 1)) + len + 1
  {
    hide Work, Exec, Legal;
    FloodLength(net, steps, text);
    WorkIsNatural(net, Exec(net, steps), text);
    InitialWork(net, text, len);
  }

  lemma InitialWork(net: Network, text: Text, len: nat)
    requires F.IsNetwork(net) && forall n :: 0 <= n < |net| ==> |net[n]| == len
    ensures Work(net, Init(net), text) == |net| * (len * (len + 1))
  {
    forall n: nat | n < |net| ensures Debts(net, Init(net), text)(n) == len * (len + 1) {
      SumOfSame(ConnDebts(net, Init(net), text, n), |net[n]|, len + 1);
    }
    SumOfSame(Debts(net, Init(net), text), |net|, len * (len + 1));
  }
}
