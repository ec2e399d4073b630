/**
 Tokenising with `strtok`: the non-empty runs between occurrences of one delimiter.
 The hidden cursor of the C function is a function argument here.
 */
module Strtok {

  predicate Free<T(==)>(s: seq<T>, d: T) {
    d !in s
  }

  // A token as strtok can return it: not empty and without the delimiter.
  predicate IsToken<T(==)>(s: seq<T>, d: T) {
    s != [] && Free(s, d)
  }

  function SkipDelims<T(==)>(s: seq<T>, d: T): (r: seq<T>)
    ensures |r| <= |s|
    ensures r != [] ==> r[0] != d
  {
    if s != [] && s[0] == d then SkipDelims(s[1..], d) else s
  }

  function FirstRun<T(==)>(s: seq<T>, d: T): (r: seq<T>)
    ensures r <= s && Free(r, d)
    ensures |r| < |s| ==> s[|r|] == d
  {
    if s == [] || s[0] == d then [] else [s[0]] + FirstRun(s[1..], d)
  }

  // Every token that repeated calls of strtok return, in order.
  function Tokens<T(==)>(s: seq<T>, d: T): (r: seq<seq<T>>)
    ensures forall k :: 0 <= k < |r| ==> IsToken(r[k], d)
    decreases |s|
  {
    var t := SkipDelims(s, d);
    if t == [] then [] else
      var head := FirstRun(t, d);
      [head] + Tokens(t[|head|..], d)
  }

  function Join<T>(ts: seq<seq<T>>, d: T): seq<T> {
    if ts == [] then []
    else if |ts| == 1 then ts[0]
    else ts[0] + [d] + Join(ts[1..], d)
  }

  lemma {:induction false} FirstRunStops<T>(t: seq<T>, rest: seq<T>, d: T)
    requires Free(t, d)
    requires rest == [] || rest[0] == d
    ensures FirstRun(t + rest, d) == t
  {
    if t == [] {
      assert t + rest == rest;
    } else {
      assert (t + rest)[1..] == t[1..] + rest;
      FirstRunStops(t[1..], rest, d);
    }
  }

  // One call of strtok: it returns the leading token and leaves the rest.
  lemma FirstToken<T>(t: seq<T>, rest: seq<T>, d: T)
    requires IsToken(t, d)
    requires rest == [] || rest[0] == d
    ensures Tokens(t + rest, d) == [t] + Tokens(rest, d)
  {
    FirstRunStops(t, rest, d);
    assert SkipDelims(t + rest, d) == t + rest;
    assert (t + rest)[|t|..] == rest;
  }

  lemma LeadingDelim<T>(rest: seq<T>, d: T)
    ensures Tokens([d] + rest, d) == Tokens(rest, d)
  {
    assert ([d] + rest)[1..] == rest;
  }

  // Splitting undoes joining exactly for lists of proper tokens.
  lemma {:induction false} TokensOfJoin<T>(ts: seq<seq<T>>, d: T)
    ensures Tokens(Join(ts, d), d) == ts <==> forall k :: 0 <= k < |ts| ==> IsToken(ts[k], d)
  {
    if forall k :: 0 <= k < |ts| ==> IsToken(ts[k], d) {
      TokensOfJoinTokens(ts, d);
    }
  }

  lemma {:induction false} TokensOfJoinTokens<T>(ts: seq<seq<T>>, d: T)
    requires forall k :: 0 <= k < |ts| ==> IsToken(ts[k], d)
    ensures Tokens(Join(ts, d), d) == ts
  {
    if ts == [] {
    } else if |ts| == 1 {
      FirstToken(ts[0], [], d);
      assert ts[0] + [] == ts[0];
      assert ts == [ts[0]];
    } else {
      var rest := Join(ts[1..], d);
      TokensOfJoinTokens(ts[1..], d);
      assert ts[0] + [d] + rest == ts[0] + ([d] + rest);
      FirstToken(ts[0], [d] + rest, d);
      LeadingDelim(rest, d);
      assert ts == [ts[0]] + ts[1..];
    }
  }
}
