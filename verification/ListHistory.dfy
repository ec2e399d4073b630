/**
 When a removal from the list of ac-lib/list.c works, in terms of the operations before it.
 `prev` is set once, when an element is appended, to the element that is last then; so a
 removal works exactly if that one has not left the list, or if the element is the head.
 */
module ListHistory {
  import opened Wrappers
  import opened LinkedList

  datatype Op<T> = Append(val: T) | Remove(val: T)

  // A value in the list, the number of its append, and the number of what was last then,
  // or -1 if the list was empty.
  datatype Item<T> = Item(val: T, number: nat, after: int)

  datatype History<T> = History(items: seq<Item<T>>, appended: nat)

  function Vals<T>(items: seq<Item<T>>): (r: seq<T>)
    ensures |r| == |items|
    ensures forall k :: 0 <= k < |r| ==> r[k] == items[k].val
  {
    seq(|items|, k requires 0 <= k < |items| => items[k].val)
  }

  predicate Linked<T>(items: seq<Item<T>>, k: nat)
    requires k < |items|
  {
    k == 0 || items[k].after == items[k - 1].number
  }

  function LastNumber<T>(items: seq<Item<T>>): int {
    if items == [] then -1 else items[|items| - 1].number
  }

  // The history after one more operation; None once a removal has missed the list.
  function After<T(==)>(h: History<T>, op: Op<T>): Option<History<T>> {
    match op
    case Append(v) =>
      Some(History(h.items + [Item(v, h.appended, LastNumber(h.items))], h.appended + 1))
    case Remove(v) =>
      var k := IndexOf(Vals(h.items), v);
      if k == |h.items| then Some(h)
      else if Linked(h.items, k) then Some(History(Without(h.items, k), h.appended))
      else None
  }

  function Run<T(==)>(ops: seq<Op<T>>): Option<History<T>> {
    if ops == [] then Some(History([], 0))
    else
      match Run(ops[..|ops| - 1])
      case None => None
      case Some(h) => After(h, ops[|ops| - 1])
  }

  // ----- the order of the numbers

  ghost predicate Ordered<T>(h: History<T>) {
    && (forall i :: 0 <= i < |h.items| ==> h.items[i].after < h.items[i].number < h.appended)
    && (forall i, j :: 0 <= i < j < |h.items| ==> h.items[i].number < h.items[j].number)
    && (forall i :: 1 <= i < |h.items| ==> h.items[i - 1].number <= h.items[i].after)
  }

  lemma AfterIsOrdered<T>(h: History<T>, op: Op<T>)
    requires Ordered(h) && After(h, op).Some?
    ensures Ordered(After(h, op).value)
  {
    hide Ordered;
    if op.Remove? {
      var k := IndexOf(Vals(h.items), op.val);
      if k < |h.items| {
        WithoutIsOrdered(h, k);
      }
    } else {
      AppendIsOrdered(h, op.val);
    }
  }

  lemma AppendIsOrdered<T>(h: History<T>, v: T)
    requires Ordered(h)
    ensures Ordered(History(h.items + [Item(v, h.appended, LastNumber(h.items))], h.appended + 1))
  {
  }

  lemma WithoutIsOrdered<T>(h: History<T>, k: nat)
    requires Ordered(h) && k < |h.items|
    ensures Ordered(History(Without(h.items, k), h.appended))
  {
    hide Without;
    var items := Without(h.items, k);
    forall i, j | 0 <= i < j < |items| ensures items[i].number < items[j].number {
      assert items[i] == h.items[if i < k then i else i + 1] && items[j] == h.items[if j < k then j else j + 1];
    }
    forall i | 1 <= i < |items| ensures items[i - 1].number <= items[i].after {
      var j := if i < k then i else i + 1;
      assert items[i] == h.items[j] && h.items[j - 1].number <= h.items[j].after;
      assert items[i - 1] == h.items[if i <= k then i - 1 else i];
    }
  }

  lemma {:induction false} RunIsOrdered<T>(ops: seq<Op<T>>)
    ensures Run(ops).Some? ==> Ordered(Run(ops).value)
  {
    hide After, Ordered;
    if ops == [] {
      assert Run<T>([]).value.items == [];
      EmptyIsOrdered(Run(ops).value);
    } else {
      RunIsOrdered(ops[..|ops| - 1]);
      var before := Run(ops[..|ops| - 1]);
      if before.Some? && After(before.value, ops[|ops| - 1]).Some? {
        AfterIsOrdered(before.value, ops[|ops| - 1]);
      }
    }
  }

  lemma EmptyIsOrdered<T>(h: History<T>)
    requires h.items == []
    ensures Ordered(h)
  {
  }

  // ----- when a removal works

  // The element that was last when element k was appended has not left the list.
  ghost predicate StillThere<T>(items: seq<Item<T>>, k: nat)
    requires k < |items|
  {
    exists i :: 0 <= i < |items| && items[i].number == items[k].after
  }

  lemma LinkedExactly<T>(h: History<T>, k: nat)
    requires Ordered(h) && k < |h.items|
    ensures Linked(h.items, k) <==> k == 0 || StillThere(h.items, k)
  {
    if k > 0 && StillThere(h.items, k) {
      var i :| 0 <= i < |h.items| && h.items[i].number == h.items[k].after;
      assert h.items[k - 1].number <= h.items[i].number < h.items[k].number;
      assert i == k - 1;
    }
  }

  // After any operations that worked, a removal works if and only if the value is not there
  // at all, or is at the head, or the element that was last when it was appended still is.
  lemma RemovalWorks<T>(ops: seq<Op<T>>, v: T)
    requires Run(ops).Some?
    ensures var items := Run(ops).value.items;
            var k := IndexOf(Vals(items), v);
            Run(ops + [Remove(v)]).Some? <==> k == |items| || k == 0 || StillThere(items, k)
  {
    hide StillThere, Ordered, Linked;
    assert (ops + [Remove(v)])[..|ops|] == ops;
    RunIsOrdered(ops);
    var h := Run(ops).value;
    var k := IndexOf(Vals(h.items), v);
    if k < |h.items| {
      LinkedExactly(h, k);
    }
  }

  // ----- a list used at its ends only

  ghost predicate AtEnds<T>(ops: seq<Op<T>>) {
    forall i :: 0 <= i < |ops| && ops[i].Remove? && Run(ops[..i]).Some? ==>
      var vals := Vals(Run(ops[..i]).value.items);
      IndexOf(vals, ops[i].val) == 0 || IndexOf(vals, ops[i].val) >= |vals| - 1
  }

  ghost predicate AllLinked<T>(items: seq<Item<T>>) {
    forall k :: 0 <= k < |items| ==> Linked(items, k)
  }

  // Appends, and removals at either end, always work, and leave every `prev` sound.
  lemma {:induction false} EndsAreSafe<T>(ops: seq<Op<T>>)
    requires AtEnds(ops)
    ensures Run(ops).Some? && AllLinked(Run(ops).value.items)
  {
    if ops != [] {
      var init, op := ops[..|ops| - 1], ops[|ops| - 1];
      forall i | 0 <= i < |init| ensures init[..i] == ops[..i] && init[i] == ops[i] {
      }
      EndsAreSafe(init);
      EndIsSafe(Run(init).value, op);
    }
  }

  lemma TracksAppend<T>(items: seq<Item<T>>, item: Item<T>)
    requires item.after == LastNumber(items)
    ensures Vals(items + [item]) == Vals(items) + [item.val]
    ensures Linked(items + [item], |items|)
    ensures forall k :: 0 <= k < |items| ==> (Linked(items + [item], k) <==> Linked(items, k))
  {
  }

  lemma EndIsSafe<T>(h: History<T>, op: Op<T>)
    requires AllLinked(h.items)
    requires op.Remove? ==> IndexOf(Vals(h.items), op.val) == 0 || IndexOf(Vals(h.items), op.val) >= |h.items| - 1
    ensures After(h, op).Some? && AllLinked(After(h, op).value.items)
  {
    if op.Append? {
      TracksAppend(h.items, Item(op.val, h.appended, LastNumber(h.items)));
    } else {
      var k := IndexOf(Vals(h.items), op.val);
      if k < |h.items| {
        var items := Without(h.items, k);
        forall i | 0 <= i < |items| ensures Linked(items, i) {
          assert Linked(h.items, if i < k then i else i + 1);
        }
      }
    }
  }

  // ----- the list on the heap

  // The list holds the items, and its `prev` links are sound where the history says so.
  ghost predicate Tracks<T>(l: List<T>, items: seq<Item<T>>)
    reads l, l.heap
  {
    && l.Valid()
    && l.contents == Vals(items)
    && forall k :: 0 <= k < |items| ==> (l.BackLinked(k) <==> Linked(items, k))
  }

  lemma LinkedWithout<T>(h: History<T>, k: nat, j: nat)
    requires Ordered(h) && k < |h.items| && j < |h.items| - 1
    ensures Linked(Without(h.items, k), j) <==> j == 0 || (j != k && Linked(h.items, if j < k then j else j + 1))
  {
    var items := Without(h.items, k);
    if j > 0 {
      assert items[j] == h.items[if j < k then j else j + 1];
      assert items[j - 1] == h.items[if j <= k then j - 1 else j];
      if j == k {
        assert h.items[k - 1].number < h.items[k].number <= h.items[k + 1].after;
      }
    }
  }

  lemma TracksRemove<T>(h: History<T>, k: nat)
    requires Ordered(h) && k < |h.items|
    ensures Vals(Without(h.items, k)) == Without(Vals(h.items), k)
    ensures forall j :: 0 <= j < |h.items| - 1 ==>
              (Linked(Without(h.items, k), j) <==> j == 0 || (j != k && Linked(h.items, if j < k then j else j + 1)))
  {
    hide Ordered, Linked;
    forall j | 0 <= j < |h.items| - 1
      ensures Linked(Without(h.items, k), j) <==> j == 0 || (j != k && Linked(h.items, if j < k then j else j + 1))
    {
      LinkedWithout(h, k, j);
    }
  }

  /** One operation on the heap list goes as the history says. */
  method Apply<T(==)>(l: List<T>, op: Op<T>, ghost h: History<T>)
    requires Tracks(l, h.items) && Ordered(h)
    modifies l, l.heap
    ensures fresh(l.heap - old(l.heap))
    ensures After(h, op).Some? ==> Tracks(l, After(h, op).value.items)
    ensures After(h, op).None? ==> !l.Valid() && l.contents == old(l.contents)
  {
    hide List.Valid, List.Chained, Linked, Ordered;
    match op
    case Append(v) =>
      TracksAppend(h.items, Item(v, h.appended, LastNumber(h.items)));
      l.Add(v);
    case Remove(v) =>
      ApplyRemove(l, v, h);
  }

  method ApplyRemove<T(==)>(l: List<T>, v: T, ghost h: History<T>)
    requires Tracks(l, h.items) && Ordered(h)
    modifies l, l.heap
    ensures fresh(l.heap - old(l.heap))
    ensures After(h, Remove(v)).Some? ==> Tracks(l, After(h, Remove(v)).value.items)
    ensures After(h, Remove(v)).None? ==> !l.Valid() && l.contents == old(l.contents)
  {
    hide List.Valid, List.Chained, Linked, Ordered, Without, IndexOf, Vals;
    ghost var k := IndexOf(Vals(h.items), v);
    var _ := l.Remove(v);
    if k < |h.items| {
      TracksRemove(h, k);
      if old(l.BackLinked(k)) {
        l.RemovalKeepsLinks(k);
      }
    }
  }

  lemma {:induction false} RunPrefix<T>(ops: seq<Op<T>>, i: nat)
    requires Run(ops).Some? && i <= |ops|
    ensures Run(ops[..i]).Some?
  {
    if i < |ops| {
      RunPrefix(ops[..|ops| - 1], i);
      assert ops[..|ops| - 1][..i] == ops[..i];
    } else {
      assert ops[..i] == ops;
    }
  }

  /** From an empty list on, a heap list that goes through any operations that all work holds
      exactly what the history holds. */
  method ApplyAll<T(==)>(l: List<T>, ops: seq<Op<T>>)
    requires l.Valid() && l.contents == [] && Run(ops).Some?
    modifies l, l.heap
    ensures Tracks(l, Run(ops).value.items)
  {
    hide List.Valid, List.Chained, After, Ordered, Linked;
    for i := 0 to |ops|
      invariant Run(ops[..i]).Some? && Tracks(l, Run(ops[..i]).value.items)
      invariant fresh(l.heap - old(l.heap))
    {
      RunPrefix(ops, i + 1);
      assert ops[..i + 1][..i] == ops[..i];
      RunIsOrdered(ops[..i]);
      Apply(l, ops[i], Run(ops[..i]).value);
    }
    assert ops[..|ops|] == ops;
  }
}
