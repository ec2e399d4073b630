/**
 The connections of each node in order: the lists that the two graph builders of ac-lib/tree.c
 make, by place.
 */
module PeerOrder {
  import opened Sequences
  import opened PeerGraph

  // a, a + 1, .., b - 1
  function Range(a: nat, b: nat): seq<nat> {
    seq(if a < b then b - a else 0, k => a + k)
  }

  // a, a, a + 1, a + 1, .., b - 1, b - 1
  function Twice(a: nat, b: nat): seq<nat> {
    seq(if a < b then 2 * (b - a) else 0, k => a + k / 2)
  }

  lemma RangeMore(a: nat, b: nat)
    requires a <= b
    ensures Range(a, b + 1) == Range(a, b) + [b]
  {
  }

  lemma TwiceMore(a: nat, b: nat)
    requires a <= b
    ensures Twice(a, b + 1) == Twice(a, b) + [b, b]
  {
  }

  lemma NoneInRange(a: nat, b: nat)
    requires b <= a
    ensures Range(a, b) == Twice(a, b) == []
  {
  }

  // ----- the list of a node, row by row of the outer loop

  function Repeat(x: nat, times: nat): seq<nat> {
    seq(times, _ => x)
  }

  lemma RepeatFew(x: nat)
    ensures Repeat(x, 0) == [] && Repeat(x, 1) == [x] && Repeat(x, 2) == [x, x]
  {
  }

  lemma RepeatMore(x: nat, times: nat)
    ensures Repeat(x, times + 1) == Repeat(x, times) + [x]
  {
  }

  // t without i.
  function Avoid(t: seq<nat>, i: nat): seq<nat> {
    if t == [] then [] else Avoid(t[..|t| - 1], i) + if t[|t| - 1] == i then [] else [t[|t| - 1]]
  }

  // What row c adds to node i's list: its own row every target but itself, any other row that
  // row's node as often as it has i for a target.
  function RowPart(minConnections: int, size: nat, i: nat, c: nat): seq<nat>
    requires c < size
  {
    var t := Targets(minConnections, size, c);
    if c == i then Avoid(t, i) else Repeat(c, Count(t, i))
  }

  function Parts(minConnections: int, size: nat, i: nat, n: nat): seq<nat>
    requires n <= size
  {
    if n == 0 then [] else Parts(minConnections, size, i, n - 1) + RowPart(minConnections, size, i, n - 1)
  }

  lemma {:induction false} OwnRow(c: nat, t: seq<nat>)
    ensures Incident(Row(c, t), c) == Avoid(t, c)
  {
    if t != [] {
      OwnRow(c, t[..|t| - 1]);
      assert Row(c, t)[..|t| - 1] == Row(c, t[..|t| - 1]);
    }
  }

  lemma {:induction false} OtherRow(c: nat, t: seq<nat>, i: nat)
    requires c != i
    ensures Incident(Row(c, t), i) == Repeat(c, Count(t, i))
  {
    if t == [] {
      RepeatFew(c);
    } else {
      var init, last := t[..|t| - 1], t[|t| - 1];
      OtherRow(c, init, i);
      RepeatMore(c, Count(init, i));
      RowMore(c, init, last);
      assert t == init + [last];
      LastIncident(Row(c, init), Edge(c, last), i);
    }
  }

  lemma RowMore(c: nat, t: seq<nat>, x: nat)
    ensures Row(c, t + [x]) == Row(c, t) + [Edge(c, x)]
  {
  }

  lemma {:induction false} CallsByRow(minConnections: int, size: nat, i: nat, n: nat)
    requires n <= size
    ensures Incident(Calls(AllTargets(minConnections, size)[..n]), i) == Parts(minConnections, size, i, n)
  {
    hide Targets, Incident, Row, Count, Avoid, Repeat;
    var tt := AllTargets(minConnections, size);
    if n == 0 {
      NoCalls(i);
    } else {
      CallsByRow(minConnections, size, i, n - 1);
      assert tt[..n][..n - 1] == tt[..n - 1];
      IncidentConcat(Calls(tt[..n - 1]), Row(n - 1, tt[n - 1]), i);
      if n - 1 == i {
        OwnRow(i, tt[i]);
      } else {
        OtherRow(n - 1, tt[n - 1], i);
      }
    }
  }

  lemma NoCalls(i: nat)
    ensures Incident(Calls([]), i) == []
  {
  }

  lemma NeighboursByRow(minConnections: int, size: nat, i: nat)
    ensures Neighbours(minConnections, size, i) == Parts(minConnections, size, i, size)
  {
    CallsByRow(minConnections, size, i, size);
    assert AllTargets(minConnections, size)[..size] == AllTargets(minConnections, size);
  }

  // ----- leaving a node out of a range

  lemma {:induction false} AvoidConcat(s: seq<nat>, t: seq<nat>, i: nat)
    ensures Avoid(s + t, i) == Avoid(s, i) + Avoid(t, i)
  {
    if t == [] {
      AddNothing(s);
    } else {
      hide Avoid;
      var init, x := t[..|t| - 1], t[|t| - 1];
      AvoidConcat(s, init, i);
      LastApart(t);
      Regroup(s, init, [x]);
      AvoidOneMore(s + init, x, i);
      AvoidOneMore(init, x, i);
      AddNothing(Avoid(s, i) + Avoid(init, i));
      Regroup(Avoid(s, i), Avoid(init, i), [x]);
    }
  }

  function RangeBut(a: nat, b: nat, i: nat): seq<nat> {
    if a <= i < b then Range(a, i) + Range(i + 1, b) else Range(a, b)
  }

  lemma {:induction false} AvoidRange(a: nat, b: nat, i: nat)
    ensures Avoid(Range(a, b), i) == RangeBut(a, b, i)
  {
    hide Range;
    if b <= a {
      NoneInRange(a, b);
    } else {
      hide Avoid;
      AvoidRange(a, b - 1, i);
      RangeMore(a, b - 1);
      AvoidOneMore(Range(a, b - 1), b - 1, i);
      if a <= i < b - 1 {
        RangeMore(i + 1, b - 1);
        Regroup(Range(a, i), Range(i + 1, b - 1), [b - 1]);
      } else if i == b - 1 {
        NoneInRange(i + 1, b);
      }
    }
  }

  lemma AvoidOneMore(t: seq<nat>, x: nat, i: nat)
    ensures Avoid(t + [x], i) == if x == i then Avoid(t, i) else Avoid(t, i) + [x]
  {
    assert (t + [x])[..|t|] == t;
  }

  // ----- the all-pairs branch

  lemma {:induction false} AllPairsBefore(minConnections: int, size: nat, i: nat, n: nat)
    requires size >= minConnections - 1 && n <= i < size
    ensures Parts(minConnections, size, i, n) == Range(0, n)
  {
    hide Range, RowPart;
    if n == 0 {
      NoneInRange(0, 0);
    } else {
      AllPairsBefore(minConnections, size, i, n - 1);
      AllPairsRow(minConnections, size, i, n - 1);
      RangeMore(0, n - 1);
    }
  }

  function AllPairsFront(size: nat, i: nat): seq<nat> {
    Range(0, i) + RangeBut(0, size, i)
  }

  lemma {:induction false} AllPairsAfter(minConnections: int, size: nat, i: nat, n: nat)
    requires size >= minConnections - 1 && i < n <= size
    ensures Parts(minConnections, size, i, n) == AllPairsFront(size, i) + Range(i + 1, n)
  {
    hide Range, RowPart, RangeBut;
    AllPairsRow(minConnections, size, i, n - 1);
    if n - 1 == i {
      AllPairsBefore(minConnections, size, i, i);
      NoneInRange(i + 1, n);
      AddNothing(AllPairsFront(size, i));
    } else {
      hide AllPairsFront;
      AllPairsAfter(minConnections, size, i, n - 1);
      RangeMore(i + 1, n - 1);
      Regroup(AllPairsFront(size, i), Range(i + 1, n - 1), [n - 1]);
    }
  }

  lemma AllPairsRow(minConnections: int, size: nat, i: nat, c: nat)
    requires size >= minConnections - 1 && i < size && c < size
    ensures RowPart(minConnections, size, i, c) == if c == i then RangeBut(0, size, i) else [c]
  {
    hide Count, Avoid;
    assert UpTo(size) == Range(0, size);
    if c == i {
      AvoidRange(0, size, i);
    } else {
      CountUpTo(size, i);
      RepeatFew(c);
    }
  }

  /** With enough nodes, node i's list is the nodes before it, then all others, then the nodes
      after it, each in ascending order. */
  lemma AllPairsByPlace(minConnections: int, size: nat, i: nat)
    requires size >= minConnections - 1 && i < size
    ensures Neighbours(minConnections, size, i)
            == Range(0, i) + (Range(0, i) + Range(i + 1, size)) + Range(i + 1, size)
  {
    hide Range;
    NeighboursByRow(minConnections, size, i);
    AllPairsAfter(minConnections, size, i, size);
  }

  // ----- the ring branch

  lemma RingRow(size: nat, i: nat)
    requires i < size
    ensures RingTargets(size, i, size - 1) == Range(i + 1, size) + Range(size - i, size)
  {
  }

  // Node i's own row: everyone after it, and then the last i nodes but itself.
  lemma RingOwn(size: nat, i: nat)
    requires i < size
    ensures Avoid(RingTargets(size, i, size - 1), i) == Range(i + 1, size) + RangeBut(size - i, size, i)
  {
    hide Range, Avoid, RangeBut;
    RingRow(size, i);
    AvoidTwoRanges(size, i);
  }

  lemma AvoidTwoRanges(size: nat, i: nat)
    requires i < size
    ensures Avoid(Range(i + 1, size) + Range(size - i, size), i) == Range(i + 1, size) + RangeBut(size - i, size, i)
  {
    hide Range, Avoid;
    AvoidConcat(Range(i + 1, size), Range(size - i, size), i);
    AvoidRange(i + 1, size, i);
    AvoidRange(size - i, size, i);
  }

  function Min(a: int, b: int): int {
    if a < b then a else b
  }

  function Max(a: int, b: int): int {
    if a < b then b else a
  }

  lemma RingOther(minConnections: int, size: nat, i: nat, c: nat)
    requires size < minConnections - 1 && i < size && c < size && c != i
    ensures RowPart(minConnections, size, i, c)
            == if c < i then (if c < size - i then [c] else [c, c])
               else if c < size - i then [] else [c]
  {
    hide Count, Avoid;
    CountTargets(minConnections, size, c, i);
    RepeatFew(c);
  }

  // The rows before node i's own: each connects its node to i, those from size - i on twice.
  lemma {:induction false} RingBefore(minConnections: int, size: nat, i: nat, n: nat)
    requires size < minConnections - 1 && n <= i < size
    ensures Parts(minConnections, size, i, n) == Range(0, Min(n, size - i)) + Twice(size - i, n)
  {
    hide Range, Twice, RowPart;
    if n == 0 {
      NoneInRange(0, 0);
      NoneInRange(size - i, 0);
    } else {
      RingBefore(minConnections, size, i, n - 1);
      RingOther(minConnections, size, i, n - 1);
      if n - 1 < size - i {
        RangeMore(0, n - 1);
        NoneInRange(size - i, n - 1);
        NoneInRange(size - i, n);
      } else {
        TwiceMore(size - i, n - 1);
        Regroup(Range(0, size - i), Twice(size - i, n - 1), [n - 1, n - 1]);
      }
    }
  }

  function RingFront(size: nat, i: nat): seq<nat>
    requires i < size
  {
    Range(0, Min(i, size - i)) + Twice(size - i, i) + (Range(i + 1, size) + RangeBut(size - i, size, i))
  }

  lemma RingUpToOwn(minConnections: int, size: nat, i: nat)
    requires size < minConnections - 1 && i < size
    ensures Parts(minConnections, size, i, i + 1) == RingFront(size, i)
  {
    hide Avoid, Range, Twice, RangeBut;
    RingBefore(minConnections, size, i, i);
    RingOwn(size, i);
  }

  // The rows after it connect their nodes to i from size - i on.
  lemma {:induction false} RingAfter(minConnections: int, size: nat, i: nat, n: nat)
    requires size < minConnections - 1 && i < n <= size
    ensures Parts(minConnections, size, i, n) == RingFront(size, i) + Range(Max(i + 1, size - i), n)
  {
    hide Range, RingFront, RowPart;
    var from := Max(i + 1, size - i);
    if n - 1 == i {
      RingUpToOwn(minConnections, size, i);
      NoneInRange(from, n);
      AddNothing(RingFront(size, i));
    } else {
      RingAfter(minConnections, size, i, n - 1);
      RingOther(minConnections, size, i, n - 1);
      if n - 1 + i >= size {
        RangeMore(from, n - 1);
        Regroup(RingFront(size, i), Range(from, n - 1), [n - 1]);
      } else {
        NoneInRange(from, n - 1);
        NoneInRange(from, n);
        AddNothing(RingFront(size, i));
      }
    }
  }

  /** With few nodes, node i's list is the nodes before it, those from size - i on twice; the
      nodes after it; the last i nodes but itself; and the nodes after it from size - i on. */
  lemma RingByPlace(minConnections: int, size: nat, i: nat)
    requires size < minConnections - 1 && i < size
    ensures Neighbours(minConnections, size, i)
            == Range(0, Min(i, size - i)) + Twice(size - i, i)
             + (Range(i + 1, size) + RangeBut(size - i, size, i))
             + Range(Max(i + 1, size - i), size)
  {
    hide Range, Twice, RangeBut;
    NeighboursByRow(minConnections, size, i);
    RingAfter(minConnections, size, i, size);
  }
}
