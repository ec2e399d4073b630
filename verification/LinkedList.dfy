/**
 The doubly linked list of ac-lib/list.c, updated in place.

 Two links are not kept up to date by the code. Removing the head leaves the new head's
 `prev` on the removed element, and `tail` is left alone when the last element goes.
 Removing a middle element does not correct its successor's `prev` either. `Valid` says
 what still holds; `BackLinked` says where `prev` can be trusted.
 */
module LinkedList {
  import opened Wrappers

  class ListElm<T> {
    var val: T
    var next: ListElm?<T>
    var prev: ListElm?<T>

    constructor (val: T)
      ensures this.val == val && next == null && prev == null
    {
      this.val := val;
      next, prev := null, null;
    }
  }

  // The position of the first v in s, or |s| when there is none.
  function IndexOf<T(==)>(s: seq<T>, v: T): (i: nat)
    ensures i <= |s|
    ensures i < |s| ==> s[i] == v
    ensures forall k :: 0 <= k < i ==> s[k] != v
  {
    if s == [] || s[0] == v then 0 else 1 + IndexOf(s[1..], v)
  }

  function Without<T>(s: seq<T>, i: nat): (r: seq<T>)
    requires i < |s|
    ensures |r| == |s| - 1
    ensures forall k :: 0 <= k < |r| ==> r[k] == s[if k < i then k else k + 1]
  {
    s[..i] + s[i + 1..]
  }

  // What `next` of element i must be.
  ghost function NextOf<T>(elems: seq<ListElm<T>>, i: nat): ListElm?<T>
    requires i < |elems|
  {
    if i + 1 < |elems| then elems[i + 1] else null
  }

  class List<T(==)> {
    var head: ListElm?<T>
    var tail: ListElm?<T>
    var size: int

    // The values in order, the linked elements in order, every element ever linked, and those unlinked again.
    ghost var contents: seq<T>
    ghost var elems: seq<ListElm<T>>
    ghost var heap: set<ListElm<T>>
    ghost var dead: set<ListElm<T>>

    // The forward chain from `head` is exactly `elems`.
    ghost predicate Chained()
      reads this, heap
    {
      && |contents| == |elems|
      && (forall i :: 0 <= i < |elems| ==> elems[i] in heap - dead && elems[i].val == contents[i])
      && (forall i, j :: 0 <= i < j < |elems| ==> elems[i] != elems[j])
      && head == (if elems == [] then null else elems[0])
      && (forall i {:trigger elems[i].next} :: 0 <= i < |elems| ==>
            elems[i].next == NextOf(elems, i))
    }

    ghost predicate Valid()
      reads this, heap
      ensures Valid() ==> Chained() && size == |contents| == |elems|
    {
      && Chained()
      && size == |elems|
      && (elems != [] ==> tail == elems[|elems| - 1])
      && (forall i {:trigger elems[i].prev} :: 1 <= i < |elems| ==>
            && elems[i].prev != null
            && elems[i].prev in heap
            && (elems[i].prev == elems[i - 1] || elems[i].prev in dead))
    }

    // Element i can be unlinked: it is the head, or its `prev` is not stale.
    ghost predicate BackLinked(i: nat)
      requires i < |elems|
      reads this, elems
    {
      i == 0 || elems[i].prev == elems[i - 1]
    }

    // No `prev` is stale, except possibly the head's.
    ghost predicate FullyLinked()
      reads this, elems
    {
      forall i :: 0 <= i < |elems| ==> BackLinked(i)
    }

    constructor ()
      ensures Valid() && FullyLinked() && contents == [] && heap == {}
    {
      head, tail, size := null, null, 0;
      contents, elems, heap, dead := [], [], {}, {};
    }

    method Add(val: T)
      requires Valid()
      modifies this, heap
      ensures Valid() && fresh(heap - old(heap)) && old(heap) <= heap
      ensures contents == old(contents) + [val]
      ensures LinksKept()
      ensures old(FullyLinked()) ==> FullyLinked()
    {
      hide Valid, Chained, FullyLinked, LinksKept;
      var elm := new ListElm(val);
      Link(elm);
      AppendedChained();
      AppendedBack();
    }

    // The writes of list_add, once it has its element.
    method Link(elm: ListElm<T>)
      requires Valid() && elm !in heap && elm !in dead && elm.next == null && elm.prev == null
      modifies this, heap, elm
      ensures Appended() && elems == old(elems) + [elm] && contents == old(contents) + [elm.val]
      ensures elm.val == old(elm.val)
    {
      if size == 0 {
        elm.next, elm.prev := null, null;
        head := elm;
        tail := elm;
      } else {
        var curTail := tail;
        curTail.next := elm;
        elm.prev := curTail;
        tail := elm;
      }
      size := size + 1;
      contents, elems := contents + [elm.val], elems + [elm];
      heap := heap + {elm};
    }

    // What Add has written: the last element is new and hangs on the one that was last.
    twostate predicate Appended()
      requires old(Valid())
      reads this, heap
    {
      var n := |old(elems)|;
      && |elems| == |contents| == n + 1 && size == n + 1
      && (forall i :: 0 <= i < n ==> elems[i] == old(elems)[i] && contents[i] == old(contents)[i])
      && dead == old(dead) && elems[n] !in dead
      && heap == old(heap) + {elems[n]} && elems[n] !in old(heap)
      && elems[n].val == contents[n] && elems[n].next == null && tail == elems[n]
      && elems[n].prev == (if n == 0 then null else old(elems)[n - 1])
      && head == (if n == 0 then elems[n] else old(head))
      && (forall e :: e in old(heap) ==> e.val == old(e.val) && e.prev == old(e.prev))
      && (forall e :: e in old(heap) ==> e.next == if n > 0 && e == old(elems)[n - 1] then elems[n] else old(e.next))
    }

    twostate lemma AppendedChained()
      requires old(Valid()) && Appended()
      ensures Chained()
    {
      forall i | 0 <= i < |elems| ensures elems[i].next == NextOf(elems, i) {
        assert i < |old(elems)| ==> old(elems[i].next) == NextOf(old(elems), i);
      }
    }

    twostate lemma AppendedBack()
      requires old(Valid()) && Appended() && Chained()
      ensures Valid() && LinksKept() && (old(FullyLinked()) ==> FullyLinked())
    {
      forall i | 1 <= i < |elems|
        ensures elems[i].prev != null && elems[i].prev in heap
        ensures elems[i].prev == elems[i - 1] || elems[i].prev in dead
      {
        assert i < |old(elems)| ==> elems[i].prev == old(elems[i].prev);
      }
      forall i | 0 <= i < |old(elems)| ensures BackLinked(i) <==> old(BackLinked(i)) {
        assert elems[i].prev == old(elems[i].prev);
      }
      assert BackLinked(|old(elems)|);
      forall i | 0 <= i < |elems| && old(FullyLinked()) ensures BackLinked(i) {
        assert i < |old(elems)| ==> old(BackLinked(i));
      }
    }

    // The last element is linked back, the others as they were.
    twostate predicate LinksKept()
      requires old(Valid())
      reads this, elems
    {
      && |elems| == |old(elems)| + 1 && BackLinked(|old(elems)|)
      && forall i :: 0 <= i < |old(elems)| ==> (BackLinked(i) <==> old(BackLinked(i)))
    }

    // The traversal of list_remove and list_contains: it stops on the first `val` or at
    // the end, and follows `next` links only.
    method Find(val: T) returns (curr: ListElm?<T>, ghost k: nat)
      requires Chained()
      ensures k == IndexOf(contents, val)
      ensures curr == if k < |elems| then elems[k] else null
      ensures curr != null <==> val in contents
    {
      curr, k := head, 0;
      while curr != null && curr.val != val
        invariant 0 <= k <= |elems|
        invariant curr == if k < |elems| then elems[k] else null
        invariant forall j :: 0 <= j < k ==> contents[j] != val
        decreases |elems| - k
      {
        curr := curr.next;
        k := k + 1;
      }
    }

    /** Removes the first `val`. The list stays consistent exactly when that element is
        the head or its `prev` is not stale; otherwise the write through the stale `prev`
        misses the list: the element stays linked while `size` drops. */
    method Remove(val: T) returns (ret: Option<T>)
      requires Valid()
      modifies this, heap
      ensures heap == old(heap)
      ensures ret == if val in old(contents) then Some(val) else None
      ensures ret.None? ==> Valid() && unchanged(this) && unchanged(heap)
      ensures ret.Some? ==> Unlinked(IndexOf(old(contents), val))
    {
      if size < 1 {
        return None;
      }
      var curr, k := Find(val);
      ret := None;
      if curr != null {
        ret := Some(curr.val);
        if curr == head {
          UnlinkHead();
        } else {
          UnlinkInner(curr, k);
        }
      }
    }

    // With every `prev` sound, removal is safe anywhere, and leaves every `prev` sound
    // exactly when it was at one end.
    twostate lemma RemovalFromFullyLinked(k: nat)
      requires old(Valid()) && k < |old(elems)| && heap == old(heap)
      requires old(FullyLinked()) && Unlinked(k)
      ensures Valid() && contents == Without(old(contents), k)
      ensures FullyLinked() <==> k == 0 || k == |old(elems)| - 1
    {
      assert old(BackLinked(k));
      forall j | 0 <= j < |elems|
        ensures BackLinked(j) <==> j != k || k == 0
      {
        assert old(BackLinked(if j < k then j else j + 1));
      }
      assert k < |elems| ==> (BackLinked(k) <==> k == 0);
    }

    // A removal that works leaves every `prev` as sound or stale as it was, except that the
    // successor's, unless it is the head now, is stale.
    twostate lemma RemovalKeepsLinks(k: nat)
      requires old(Valid()) && k < |old(elems)| && heap == old(heap)
      requires old(BackLinked(k)) && Unlinked(k)
      ensures Valid() && contents == Without(old(contents), k)
      ensures forall j :: 0 <= j < |elems| ==>
                (BackLinked(j) <==> j == 0 || (j != k && old(BackLinked(if j < k then j else j + 1))))
    {
      forall j | 0 <= j < |elems|
        ensures BackLinked(j) <==> j == 0 || (j != k && old(BackLinked(if j < k then j else j + 1)))
      {
        assert elems[j].prev == old(elems[if j < k then j else j + 1].prev);
        assert j == k && k > 0 ==> elems[k - 1] == old(elems)[k - 1] != old(elems)[k];
      }
    }

    method UnlinkHead()
      requires Valid() && elems != []
      modifies this
      ensures heap == old(heap) && Unlinked(0)
    {
      contents, elems, dead := Without(contents, 0), Without(elems, 0), dead + {head};
      head := head.next;
      size := size - 1;
    }

    method UnlinkInner(curr: ListElm<T>, ghost k: nat)
      requires Valid() && 0 < k < |elems| && curr == elems[k]
      modifies this, curr.prev
      ensures heap == old(heap) && Unlinked(k)
    {
      ghost var sound := BackLinked(k);
      if sound {
        contents, elems, dead := Without(contents, k), Without(elems, k), dead + {curr};
      }
      curr.prev.next := curr.next;
      if curr.next == null {
        tail := curr.prev;
      }
      size := size - 1;
      if sound {
        InnerGone(k);
      } else {
        InnerMissed(k);
      }
    }

    // What UnlinkInner has written.
    twostate predicate Relinked(k: nat)
      requires old(Valid()) && 0 < k < |old(elems)| && heap == old(heap)
      reads this, heap
    {
      && head == old(head) && size == |old(elems)| - 1
      && tail == (if old(elems[k].next) == null then old(elems[k].prev) else old(tail))
      && (forall e :: e in heap ==> e.val == old(e.val) && e.prev == old(e.prev))
      && (forall e :: e in heap ==>
            e.next == if e == old(elems[k].prev) then old(elems[k].next) else old(e.next))
    }

    // The `prev` was sound: element k is off the chain.
    twostate lemma InnerGone(k: nat)
      requires old(Valid()) && 0 < k < |old(elems)| && heap == old(heap) && Relinked(k)
      requires old(BackLinked(k)) && dead == old(dead) + {old(elems)[k]}
      requires contents == Without(old(contents), k) && elems == Without(old(elems), k)
      ensures Unlinked(k)
    {
      GoneNext(k);
      GoneChained(k);
      GonePrev(k);
      hide Chained;
      assert Valid();
    }

    twostate lemma GoneNext(k: nat)
      requires old(Valid()) && 0 < k < |old(elems)| && heap == old(heap) && Relinked(k)
      requires old(BackLinked(k)) && elems == Without(old(elems), k)
      ensures forall i {:trigger elems[i].next} :: 0 <= i < |elems| ==> elems[i].next == NextOf(elems, i)
    {
      forall i | 0 <= i < |elems| ensures elems[i].next == NextOf(elems, i) {
        assert old(elems)[if i < k then i else i + 1] == elems[i];
        assert old(elems[if i < k then i else i + 1].next) == NextOf(old(elems), if i < k then i else i + 1);
        assert old(elems[k].next) == NextOf(old(elems), k);
      }
    }

    twostate lemma GoneChained(k: nat)
      requires old(Valid()) && 0 < k < |old(elems)| && heap == old(heap) && Relinked(k)
      requires dead == old(dead) + {old(elems)[k]}
      requires contents == Without(old(contents), k) && elems == Without(old(elems), k)
      requires forall i {:trigger elems[i].next} :: 0 <= i < |elems| ==> elems[i].next == NextOf(elems, i)
      ensures Chained()
    {
      forall i | 0 <= i < |elems| ensures elems[i] in heap - dead && elems[i].val == contents[i] {
        assert old(elems)[if i < k then i else i + 1] == elems[i];
      }
    }

    twostate lemma GonePrev(k: nat)
      requires old(Valid()) && 0 < k < |old(elems)| && heap == old(heap) && Relinked(k)
      requires dead == old(dead) + {old(elems)[k]} && elems == Without(old(elems), k)
      ensures forall i {:trigger elems[i].prev} :: 1 <= i < |elems| ==>
                && elems[i].prev != null && elems[i].prev in heap
                && (elems[i].prev == elems[i - 1] || elems[i].prev in dead)
    {
      forall i | 1 <= i < |elems|
        ensures elems[i].prev != null && elems[i].prev in heap
        ensures elems[i].prev == elems[i - 1] || elems[i].prev in dead
      {
        assert elems[i].prev == old(elems[if i < k then i else i + 1].prev);
      }
    }

    // The `prev` was stale: the write missed the chain.
    twostate lemma InnerMissed(k: nat)
      requires old(Valid()) && 0 < k < |old(elems)| && heap == old(heap) && Relinked(k)
      requires !old(BackLinked(k)) && dead == old(dead)
      requires contents == old(contents) && elems == old(elems)
      ensures Unlinked(k)
    {
      assert old(elems[k].prev) in dead;
      forall i | 0 <= i < |elems| ensures elems[i].next == NextOf(elems, i) {
        assert old(elems[i].next) == NextOf(old(elems), i);
      }
    }

    // The effect of removing element k. Either it goes, its successor's `prev` is now stale
    // and every other link is as before; or nothing goes and `size` is wrong.
    twostate predicate Unlinked(k: nat)
      requires old(Valid()) && k < |old(elems)| && heap == old(heap)
      reads this, heap
    {
      && Chained()
      && size == |old(elems)| - 1
      && (Valid() <==> old(BackLinked(k)))
      && contents == (if old(BackLinked(k)) then Without(old(contents), k) else old(contents))
      && elems == (if old(BackLinked(k)) then Without(old(elems), k) else old(elems))
      && (forall i :: 0 <= i < |old(elems)| ==> old(elems[i]).prev == old(elems[i].prev))
    }

    method ItemAt(pos: int) returns (val: Option<T>)
      requires Valid()
      ensures val == if 0 <= pos < |contents| then Some(contents[pos]) else None
    {
      if pos >= size || pos < 0 {
        return None;
      }
      var elm := head;
      for i := 0 to pos
        invariant elm == elems[i]
      {
        elm := elm.next;
      }
      val := Some(elm.val);
    }

    // Follows `next` links only, so it needs no more than the forward chain.
    method Contains(val: T) returns (found: bool)
      requires Chained()
      ensures found <==> val in contents
    {
      var spot, k := Find(val);
      return spot != null;
    }
  }

  /** Four appends and the removal of two neighbours: the second removal reports success
      and leaves its element in the list. */
  method StaleRemoval<T(==)>(a: T, b: T, c: T, d: T) returns (ret: Option<T>, stillThere: bool, size: int)
    requires a != b && a != c && b != c && a != d && b != d && c != d
    ensures ret == Some(c) && stillThere && size == 2
  {
    hide List.Valid, List.Chained, List.FullyLinked, List.LinksKept;
    var l := new List<T>();
    l.Add(a);
    l.Add(b);
    l.Add(c);
    l.Add(d);
    assert l.contents == [a, b, c, d];
    ret, stillThere, size := RemoveTwo(l, b, c);
  }

  method RemoveTwo<T(==)>(l: List<T>, b: T, c: T) returns (ret: Option<T>, stillThere: bool, size: int)
    requires l.Valid() && l.FullyLinked() && |l.contents| == 4
    requires b == l.contents[1] && c == l.contents[2]
    requires l.contents[0] != b && l.contents[0] != c && b != c
    modifies l, l.heap
    ensures ret == Some(c) && stillThere && size == 2
  {
    ghost var es := l.elems;
    assert l.BackLinked(1) && l.BackLinked(2);
    ret := l.Remove(b);
    assert l.elems == [es[0], es[2], es[3]] && l.elems[1].prev == es[1];
    ret, stillThere := RemoveMissed(l, c);
    size := l.size;
  }

  // A removal that finds its element but misses the list.
  method RemoveMissed<T(==)>(l: List<T>, v: T) returns (ret: Option<T>, stillThere: bool)
    requires l.Valid() && v in l.contents && !l.BackLinked(IndexOf(l.contents, v))
    modifies l, l.heap
    ensures ret == Some(v) && stillThere
    ensures l.contents == old(l.contents) && l.size == |l.contents| - 1
  {
    ret := l.Remove(v);
    stillThere := l.Contains(v);
  }
}
