/**
 The text of a PEERS message: `address:port` entries separated by single spaces, as the
 name server writes them and as the client reads them back.
 */
module PeerText {
  import opened Wrappers
  import opened Strtok

  datatype Endpoint = Endpoint(address: string, port: string)

  // An endpoint that survives the trip: both parts non-empty and without the separators.
  predicate Clean(e: Endpoint) {
    && IsToken(e.address, ' ') && IsToken(e.address, ':')
    && IsToken(e.port, ' ') && IsToken(e.port, ':')
  }

  function Entry(e: Endpoint): string {
    e.address + ":" + e.port
  }

  function Entries(eps: seq<Endpoint>): (r: seq<string>)
    ensures |r| == |eps|
    ensures forall k :: 0 <= k < |r| ==> r[k] == Entry(eps[k])
  {
    seq(|eps|, k requires 0 <= k < |eps| => Entry(eps[k]))
  }

  function Format(eps: seq<Endpoint>): string {
    Join(Entries(eps), ' ')
  }

  // What the loops of the name server build: every entry followed by a space.
  function Spaced(eps: seq<Endpoint>): string {
    if eps == [] then "" else Spaced(eps[..|eps| - 1]) + Entry(eps[|eps| - 1]) + " "
  }

  // Dropping the last space of the built text gives the joined entries.
  lemma {:induction false} SpacedIsFormat(eps: seq<Endpoint>)
    ensures eps == [] ==> Spaced(eps) == Format(eps) == ""
    ensures eps != [] ==> Spaced(eps) == Format(eps) + " "
  {
    if |eps| > 1 {
      var init, last := eps[..|eps| - 1], eps[|eps| - 1];
      SpacedIsFormat(init);
      assert Entries(eps) == Entries(init) + [Entry(last)];
      JoinSnoc(Entries(init), Entry(last), ' ');
      assert Format(eps) == Format(init) + " " + Entry(last);
      assert Spaced(eps) == Format(init) + " " + Entry(last) + " ";
    } else if |eps| == 1 {
      assert eps[..0] == [];
    }
  }

  // The length of an entry with its space.
  function EntryWidth(e: Endpoint): nat {
    |e.address| + |e.port| + 2
  }

  lemma SpacedLength(eps: seq<Endpoint>)
    ensures eps == [] ==> |Spaced(eps)| == 0
    ensures eps != [] ==>
              |Spaced(eps)| == |Spaced(eps[..|eps| - 1])| + EntryWidth(eps[|eps| - 1])
  {
  }

  lemma {:induction false} JoinSnoc<T>(ts: seq<seq<T>>, t: seq<T>, d: T)
    requires ts != []
    ensures Join(ts + [t], d) == Join(ts, d) + [d] + t
  {
    if |ts| == 1 {
      assert (ts + [t])[1..] == [t];
    } else {
      assert (ts + [t])[1..] == ts[1..] + [t];
      JoinSnoc(ts[1..], t, d);
    }
  }

  // The first two parts of an entry, or None where parse_peers finds fewer than two.
  function ParseEntry(tok: string): Option<Endpoint> {
    var parts := Tokens(tok, ':');
    if |parts| < 2 then None else Some(Endpoint(parts[0], parts[1]))
  }

  // The peers up to the first malformed entry.
  function ParseEntries(toks: seq<string>): seq<Endpoint> {
    if toks == [] || ParseEntry(toks[0]).None? then []
    else [ParseEntry(toks[0]).value] + ParseEntries(toks[1..])
  }

  // The loop of parse_peers gets past every entry; otherwise its `continue` retries the
  // first malformed one for ever.
  predicate Finishes(toks: seq<string>) {
    forall k :: 0 <= k < |toks| ==> ParseEntry(toks[k]).Some?
  }

  lemma EntryRoundTrip(e: Endpoint)
    requires Clean(e)
    ensures ParseEntry(Entry(e)) == Some(e)
    ensures IsToken(Entry(e), ' ')
  {
    assert Entry(e) == e.address + ([':'] + e.port);
    FirstToken(e.address, [':'] + e.port, ':');
    LeadingDelim(e.port, ':');
    assert e.port == e.port + [];
    FirstToken(e.port, [], ':');
  }

  // Whatever follows a second colon is ignored.
  lemma FurtherParts(e: Endpoint, more: string)
    requires Clean(e)
    ensures ParseEntry(Entry(e) + ":" + more) == Some(e)
  {
    var rest := e.port + ([':'] + more);
    assert Entry(e) + ":" + more == e.address + ([':'] + rest);
    FirstToken(e.address, [':'] + rest, ':');
    LeadingDelim(rest, ':');
    FirstToken(e.port, [':'] + more, ':');
  }

  lemma {:induction false} EntriesRoundTrip(eps: seq<Endpoint>)
    requires forall k :: 0 <= k < |eps| ==> Clean(eps[k])
    ensures ParseEntries(Entries(eps)) == eps && Finishes(Entries(eps))
    ensures forall k :: 0 <= k < |eps| ==> IsToken(Entries(eps)[k], ' ')
  {
    hide Clean, IsToken, ParseEntry, Entry;
    if eps != [] {
      EntryRoundTrip(eps[0]);
      EntriesRoundTrip(eps[1..]);
      assert Entries(eps)[1..] == Entries(eps[1..]);
      assert Entries(eps) == [Entry(eps[0])] + Entries(eps[1..]);
    }
  }

  // The client reads back exactly what the name server wrote, precisely for clean endpoints.
  lemma PeersRoundTrip(eps: seq<Endpoint>)
    ensures (var toks := Tokens(Format(eps), ' ');
             Finishes(toks) && ParseEntries(toks) == eps)
            <==> forall k :: 0 <= k < |eps| ==> Clean(eps[k])
  {
    var toks := Tokens(Format(eps), ' ');
    if forall k :: 0 <= k < |eps| ==> Clean(eps[k]) {
      EntriesRoundTrip(eps);
      TokensOfJoin(Entries(eps), ' ');
    }
    if Finishes(toks) && ParseEntries(toks) == eps {
      ParsedAreClean(toks);
    }
  }

  // The port ":", which a client can give itself, is one that does not get through: the
  // client that parses the list stays at this entry for ever, with the entries before it.
  lemma ColonPortNeverFinishes(eps: seq<Endpoint>, i: nat)
    requires i < |eps| && eps[i].port == ":" && IsToken(eps[i].address, ' ') && IsToken(eps[i].address, ':')
    requires forall k :: 0 <= k < |eps| && k != i ==> Clean(eps[k])
    ensures var toks := Tokens(Format(eps), ' ');
            !Finishes(toks) && ParseEntries(toks) == eps[..i]
  {
    hide Tokens, ParseEntry, Clean, IsToken, ParseEntries;
    var toks := Entries(eps);
    ColonEntry(eps[i]);
    forall k | 0 <= k < |toks|
      ensures IsToken(toks[k], ' ') && (k != i ==> ParseEntry(toks[k]) == Some(eps[k]))
    {
      if k != i {
        EntryRoundTrip(eps[k]);
      }
    }
    TokensOfJoin(toks, ' ');
    StopsAt(toks, eps, i);
  }

  lemma ColonEntry(e: Endpoint)
    requires e.port == ":" && IsToken(e.address, ' ') && IsToken(e.address, ':')
    ensures ParseEntry(Entry(e)).None? && IsToken(Entry(e), ' ')
  {
    assert Entry(e) == e.address + [':', ':'];
    FirstToken(e.address, [':', ':'], ':');
    assert [':', ':'][1..] == [':'] && [':'][1..] == [];
  }

  lemma {:induction false} StopsAt(toks: seq<string>, eps: seq<Endpoint>, i: nat)
    requires i < |toks| && i <= |eps| && ParseEntry(toks[i]).None?
    requires forall k :: 0 <= k < i ==> ParseEntry(toks[k]) == Some(eps[k])
    ensures ParseEntries(toks) == eps[..i]
  {
    hide ParseEntry;
    if i > 0 {
      StopsAt(toks[1..], eps[1..], i - 1);
      assert eps[..i] == [eps[0]] + eps[1..][..i - 1];
    }
  }

  lemma {:induction false} ParsedAreClean(toks: seq<string>)
    requires forall k :: 0 <= k < |toks| ==> IsToken(toks[k], ' ')
    ensures forall k :: 0 <= k < |ParseEntries(toks)| ==> Clean(ParseEntries(toks)[k])
  {
    if toks != [] && ParseEntry(toks[0]).Some? {
      PartsAvoid(toks[0], ':', ' ');
      ParsedAreClean(toks[1..]);
    }
  }

  // A character that is not in the text is in none of its tokens.
  lemma {:induction false} PartsAvoid<T>(s: seq<T>, d: T, c: T)
    requires c !in s
    ensures forall k :: 0 <= k < |Tokens(s, d)| ==> c !in Tokens(s, d)[k]
    decreases |s|
  {
    SkipIsSuffix(s, d);
    var t := SkipDelims(s, d);
    if t != [] {
      PartsAvoid(t[|FirstRun(t, d)|..], d, c);
    }
  }

  lemma {:induction false} SkipIsSuffix<T>(s: seq<T>, d: T)
    ensures forall x :: x in SkipDelims(s, d) ==> x in s
  {
    if s != [] && s[0] == d {
      SkipIsSuffix(s[1..], d);
    }
  }
}
