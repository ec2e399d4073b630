/**
 The shuffle loop of manage_graph. It draws `rand() % counter`, never `counter` itself,
 so it is Sattolo's variant of the Fisher-Yates shuffle: it produces exactly the
 rearrangements by one n-cycle, each from exactly one choice of draws.

 `draws[c]` is what rand() returns while the loop counter is c; `draws[0]` is never used.
 `nums[c]` is the residue of that draw, the place exchanged with place c.
 */
module Shuffle {

  function Swap<T>(s: seq<T>, i: nat, j: nat): seq<T>
    requires i < |s| && j < |s|
  {
    s[i := s[j]][j := s[i]]
  }

  // nums[c] is the place exchanged with place c: the residue of a draw modulo c.
  ghost predicate IsNums(nums: seq<nat>) {
    forall c :: 0 <= c < |nums| ==> if c == 0 then nums[c] == 0 else nums[c] < c
  }

  function Residues(draws: seq<nat>): (nums: seq<nat>)
    ensures |nums| == |draws| && IsNums(nums)
    ensures forall c :: 1 <= c < |nums| ==> nums[c] == draws[c] % c
  {
    seq(|draws|, c requires 0 <= c < |draws| => if c == 0 then 0 else draws[c] % c)
  }

  // What the remaining iterations do while the counter runs from |nums| - 1 down to 1.
  function Shuffled<T>(s: seq<T>, nums: seq<nat>): (r: seq<T>)
    requires |nums| <= |s| && IsNums(nums)
    ensures |r| == |s|
    decreases |nums|
  {
    var c := |nums| - 1;
    if c <= 0 then s else Shuffled(Swap(s, nums[c], c), nums[..c])
  }

  // The position that each of the first |nums| places is filled from.
  function Origins(nums: seq<nat>): (p: seq<nat>)
    requires IsNums(nums)
    ensures |p| == |nums|
    ensures forall k :: 0 <= k < |p| ==> p[k] < |p|
    decreases |nums|
  {
    var c := |nums| - 1;
    if c <= 0 then nums else Extended(Origins(nums[..c]), nums[c])
  }

  // Swapping places num and |q| before q rearranges the places below |q|.
  function Extended(q: seq<nat>, num: nat): (p: seq<nat>)
    ensures |p| == |q| + 1 && p[|q|] == num
    ensures forall k :: 0 <= k < |q| ==> p[k] == if q[k] == num then |q| else q[k]
  {
    seq(|q|, k requires 0 <= k < |q| => if q[k] == num then |q| else q[k]) + [num]
  }

  // w lists all positions in the order in which p visits them, coming back to the start.
  ghost predicate CycleOf(p: seq<nat>, w: seq<nat>) {
    && |w| == |p|
    && (forall i :: 0 <= i < |w| ==> w[i] < |p|)
    && (forall i, j :: 0 <= i < j < |w| ==> w[i] != w[j])
    && (forall x :: 0 <= x < |p| ==> x in w)
    && (forall i :: 0 <= i < |w| ==> p[w[i]] == w[Succ(i, |w|)])
  }

  // Where x stands on the cycle.
  lemma CyclePos(p: seq<nat>, w: seq<nat>, x: nat) returns (i: nat)
    requires CycleOf(p, w) && x < |p|
    ensures i < |w| && w[i] == x && p[x] == w[Succ(i, |w|)]
  {
    assert x in w;
    i :| i < |w| && w[i] == x;
  }

  function Succ(i: nat, n: nat): nat {
    if i + 1 < n then i + 1 else 0
  }

  ghost predicate SingleCycle(p: seq<nat>) {
    exists w :: CycleOf(p, w)
  }

  // ----- the in-place loop

  method ShuffleInPlace<T>(a: array<T>, draws: seq<nat>)
    requires |draws| == a.Length
    modifies a
    ensures a[..] == Shuffled(old(a[..]), Residues(draws))
  {
    ghost var nums := Residues(draws);
    var counter := a.Length - 1;
    assert nums[..|nums|] == nums;
    while counter > 0
      invariant -1 <= counter < a.Length
      invariant Shuffled(a[..], nums[..counter + 1]) == Shuffled(old(a[..]), nums)
    {
      ghost var before := a[..];
      var num := draws[counter] % counter;
      var temp := a[num];
      a[num] := a[counter];
      a[counter] := temp;
      assert a[..] == Swap(before, num, counter);
      assert nums[..counter + 1][..counter] == nums[..counter];
      counter := counter - 1;
    }
    assert a.Length > 0 ==> Shuffled(a[..], nums[..1]) == a[..];
  }

  // ----- the result is the original rearranged by Origins

  lemma {:induction false} ShuffledByOrigins<T>(s: seq<T>, nums: seq<nat>)
    requires |nums| <= |s| && IsNums(nums)
    ensures forall k :: 0 <= k < |s| ==>
              Shuffled(s, nums)[k] == s[if k < |nums| then Origins(nums)[k] else k]
    decreases |nums|
  {
    var c := |nums| - 1;
    if c > 0 {
      ShuffledByOrigins(Swap(s, nums[c], c), nums[..c]);
    }
  }

  // ----- every result is a single cycle

  lemma {:induction false} OriginsCycle(nums: seq<nat>) returns (w: seq<nat>)
    requires IsNums(nums)
    ensures CycleOf(Origins(nums), w)
    decreases |nums|
  {
    var c := |nums| - 1;
    if c <= 0 {
      w := nums;
    } else {
      var v := OriginsCycle(nums[..c]);
      var j := CyclePos(Origins(nums[..c]), v, nums[c]);
      w := v[..j] + [c] + v[j..];
      Spliced(Origins(nums[..c]), v, j, Origins(nums), w);
    }
  }

  // Putting c in front of v[j] on the cycle v of q gives a cycle of the extended p.
  lemma Spliced(q: seq<nat>, v: seq<nat>, j: nat, p: seq<nat>, w: seq<nat>)
    requires CycleOf(q, v) && j < |v|
    requires |p| == |q| + 1 && p[|q|] == v[j]
    requires forall k :: 0 <= k < |q| ==> p[k] == if q[k] == v[j] then |q| else q[k]
    requires w == v[..j] + [|q|] + v[j..]
    ensures CycleOf(p, w)
  {
    forall x | 0 <= x < |p| ensures x in w {
      if x == |q| {
        assert w[j] == x;
      } else {
        var i := CyclePos(q, v, x);
        assert w[if i < j then i else i + 1] == x;
      }
    }
    forall i | 0 <= i < |w| ensures p[w[i]] == w[Succ(i, |w|)] {
      SplicedStep(q, v, j, p, w, i);
    }
  }

  lemma SplicedStep(q: seq<nat>, v: seq<nat>, j: nat, p: seq<nat>, w: seq<nat>, i: nat)
    requires CycleOf(q, v) && j < |v|
    requires |p| == |q| + 1 && p[|q|] == v[j]
    requires forall k :: 0 <= k < |q| ==> p[k] == if q[k] == v[j] then |q| else q[k]
    requires w == v[..j] + [|q|] + v[j..] && i < |w|
    ensures w[i] < |p| && p[w[i]] == w[Succ(i, |w|)]
  {
    if i != j {
      var k := if i < j then i else i - 1;
      assert w[i] == v[k] && q[v[k]] == v[Succ(k, |v|)];
    }
  }

  // ----- every single cycle is a result

  lemma {:induction false} CycleNums(p: seq<nat>, w: seq<nat>) returns (nums: seq<nat>)
    requires CycleOf(p, w)
    ensures IsNums(nums) && Origins(nums) == p
    decreases |p|
  {
    var c := |p| - 1;
    if c <= 0 {
      assert |p| == 1 ==> 0 in w && w[0] == 0;
      nums := p;
    } else {
      var j := CyclePos(p, w, c);
      var q := seq(c, k requires 0 <= k < c => if p[k] == c then p[c] else p[k]);
      var v := w[..j] + w[j + 1..];
      Cut(p, w, j, q, v);
      var d := CycleNums(q, v);
      nums := d + [p[c]];
      OneMoreDraw(d, p[c]);
      CutThenExtended(p, w, q);
    }
  }

  lemma OneMoreDraw(d: seq<nat>, num: nat)
    requires IsNums(d) && num < |d|
    ensures Origins(d + [num]) == Extended(Origins(d), num)
  {
    assert (d + [num])[..|d|] == d;
  }

  lemma CutThenExtended(p: seq<nat>, w: seq<nat>, q: seq<nat>)
    requires CycleOf(p, w) && |p| == |q| + 1
    requires forall k :: 0 <= k < |q| ==> q[k] == if p[k] == |q| then p[|q|] else p[k]
    ensures Extended(q, p[|q|]) == p
  {
    forall k | 0 <= k < |q| ensures Extended(q, p[|q|])[k] == p[k] {
      CycleInjective(p, w, k, |q|);
    }
  }

  // Taking the last position c off the cycle leaves a cycle of the others.
  lemma Cut(p: seq<nat>, w: seq<nat>, j: nat, q: seq<nat>, v: seq<nat>)
    requires CycleOf(p, w) && |p| >= 2 && j < |w| && w[j] == |p| - 1
    requires |q| == |p| - 1
    requires forall k :: 0 <= k < |q| ==> q[k] == if p[k] == |q| then p[|q|] else p[k]
    requires v == w[..j] + w[j + 1..]
    ensures p[|q|] < |q| && CycleOf(q, v)
  {
    assert p[w[j]] == w[Succ(j, |w|)];
    assert w[Succ(j, |w|)] != w[j];
    forall i | 0 <= i < |v| ensures v[i] < |q| {
      assert v[i] == w[if i < j then i else i + 1];
    }
    forall x | 0 <= x < |q| ensures x in v {
      StillOnCycle(p, w, j, v, x);
    }
    forall i | 0 <= i < |v| ensures q[v[i]] == v[Succ(i, |v|)] {
      CutStep(p, w, j, q, v, i);
    }
  }

  lemma StillOnCycle(p: seq<nat>, w: seq<nat>, j: nat, v: seq<nat>, x: nat)
    requires CycleOf(p, w) && j < |w| && v == w[..j] + w[j + 1..] && x < |p| && x != w[j]
    ensures x in v
  {
    var i := CyclePos(p, w, x);
    assert v[if i < j then i else i - 1] == x;
  }

  lemma CutStep(p: seq<nat>, w: seq<nat>, j: nat, q: seq<nat>, v: seq<nat>, i: nat)
    requires CycleOf(p, w) && |p| >= 2 && j < |w| && w[j] == |p| - 1
    requires |q| == |p| - 1
    requires forall k :: 0 <= k < |q| ==> q[k] == if p[k] == |q| then p[|q|] else p[k]
    requires v == w[..j] + w[j + 1..] && i < |v| && v[i] < |q|
    ensures q[v[i]] == v[Succ(i, |v|)]
  {
    var k := if i < j then i else i + 1;
    assert v[i] == w[k] && p[w[k]] == w[Succ(k, |w|)] && p[w[j]] == w[Succ(j, |w|)];
  }

  lemma CycleInjective(p: seq<nat>, w: seq<nat>, x: nat, y: nat)
    requires CycleOf(p, w) && x < |p| && y < |p|
    ensures p[x] == p[y] ==> x == y
  {
    var i := CyclePos(p, w, x);
    var j := CyclePos(p, w, y);
  }

  // ----- main results

  // The residues of a choice of draws can be any, for example those of themselves as draws.
  lemma ResiduesOfNums(nums: seq<nat>)
    requires IsNums(nums)
    ensures Residues(nums) == nums
  {
  }

  // The shuffle reaches exactly the single n-cycles.
  lemma ReachesExactlyTheCycles(p: seq<nat>)
    ensures SingleCycle(p) <==> exists draws :: Origins(Residues(draws)) == p
    ensures SingleCycle(p) <==> exists nums :: IsNums(nums) && Origins(nums) == p
  {
    if w :| CycleOf(p, w) {
      var nums := CycleNums(p, w);
      ResiduesOfNums(nums);
    }
    if draws :| Origins(Residues(draws)) == p {
      var w := OriginsCycle(Residues(draws));
    }
    if nums :| IsNums(nums) && Origins(nums) == p {
      var w := OriginsCycle(nums);
    }
  }

  // The last draw and what there was before it can be told from the result.
  lemma SameBefore(p: seq<nat>, q: seq<nat>, num: nat, r: seq<nat>, num': nat)
    requires |q| == |r| && p == Extended(q, num) == Extended(r, num')
    requires forall k :: 0 <= k < |q| ==> q[k] < |q| && r[k] < |r|
    ensures num == num' && q == r
  {
    forall k | 0 <= k < |q| ensures q[k] == r[k] {
      assert p[k] == (if q[k] == num then |q| else q[k]) == (if r[k] == num then |q| else r[k]);
    }
  }

  // Each n-cycle comes from one choice of residues, so if these are uniform and independent
  // all (n-1)! cycles are equally likely.
  lemma {:induction false} NumsAreUnique(d: seq<nat>, e: seq<nat>)
    requires IsNums(d) && IsNums(e) && Origins(d) == Origins(e)
    ensures d == e
    decreases |d|
  {
    var c := |d| - 1;
    assert |e| == |d|;
    if c > 0 {
      SameBefore(Origins(d), Origins(d[..c]), d[c], Origins(e[..c]), e[c]);
      NumsAreUnique(d[..c], e[..c]);
      assert d == d[..c] + [d[c]] && e == e[..c] + [e[c]];
    }
  }

  // Of two or more elements none keeps its place, and no two come from one place.
  lemma NoneStays(nums: seq<nat>)
    requires IsNums(nums)
    ensures |nums| >= 2 ==> forall k :: 0 <= k < |nums| ==> Origins(nums)[k] != k
    ensures forall j, k :: 0 <= j < k < |nums| ==> Origins(nums)[j] != Origins(nums)[k]
    ensures forall x :: 0 <= x < |nums| ==> x in Origins(nums)
  {
    var p := Origins(nums);
    var w := OriginsCycle(nums);
    forall j, k | 0 <= j < k < |p| ensures p[j] != p[k] {
      CycleInjective(p, w, j, k);
    }
    forall k | 0 <= k < |p| && |p| >= 2 ensures p[k] != k {
      var i := CyclePos(p, w, k);
      assert w[i] != w[Succ(i, |w|)];
    }
    forall x | 0 <= x < |p| ensures x in p {
      var i := CyclePos(p, w, x);
      var before := if i > 0 then i - 1 else |w| - 1;
      assert Succ(before, |w|) == i;
      assert p[w[before]] == x;
    }
  }
}
