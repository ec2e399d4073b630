/**
 How long the PEERS messages are that the name server builds, and when they fit into its
 buffers. The methods of `NameServer` build the whole text; the code has SERVER_MAX_MESSAGE
 bytes for it, and passes that size to strncat as if it were the space left.
 */
module PeersLength {
  import opened Sequences
  import opened PeerText
  import opened PeerGraph
  import opened NameServer

  const SERVER_MAX_MESSAGE := 512

  // client_peers_rand and client_peers_static build the list, with a space after the last entry
  // and a terminator, in a buffer of this size.
  const LIST_BUFFER := SERVER_MAX_MESSAGE - 2 - 6

  function Widths(eps: seq<Endpoint>): (r: seq<nat>)
    ensures |r| == |eps|
    ensures forall k :: 0 <= k < |r| ==> r[k] == EntryWidth(eps[k])
  {
    seq(|eps|, k requires 0 <= k < |eps| => EntryWidth(eps[k]))
  }

  function Sum(s: seq<nat>): nat {
    if s == [] then 0 else Sum(s[..|s| - 1]) + s[|s| - 1]
  }

  lemma {:induction false} SpacedIsSum(eps: seq<Endpoint>)
    ensures |Spaced(eps)| == Sum(Widths(eps))
  {
    SpacedLength(eps);
    if eps != [] {
      SpacedIsSum(eps[..|eps| - 1]);
      assert Widths(eps)[..|eps| - 1] == Widths(eps[..|eps| - 1]);
    }
  }

  // ----- summing by place and by client

  function Weighted(w: seq<nat>, idx: seq<nat>, limit: nat): nat
    requires limit <= |w|
  {
    if limit == 0 then 0 else Weighted(w, idx, limit - 1) + Count(idx, limit - 1) * w[limit - 1]
  }

  lemma {:induction false} WeightedMore(w: seq<nat>, idx: seq<nat>, x: nat, limit: nat)
    requires limit <= |w|
    ensures Weighted(w, idx + [x], limit) == Weighted(w, idx, limit) + if x < limit then w[x] else 0
  {
    hide Count;
    if limit > 0 {
      var j := limit - 1;
      WeightedMore(w, idx, x, j);
      CountOne(idx, j, x);
      assert (Count(idx, j) + 1) * w[j] == Count(idx, j) * w[j] + w[j];
    }
  }

  lemma {:induction false} NothingWeighted(w: seq<nat>, limit: nat)
    requires limit <= |w|
    ensures Weighted(w, [], limit) == 0
  {
    if limit > 0 {
      NothingWeighted(w, limit - 1);
    }
  }

  lemma {:induction false} SumIsWeighted(w: seq<nat>, idx: seq<nat>)
    requires forall k :: 0 <= k < |idx| ==> idx[k] < |w|
    ensures Sum(Pick(w, idx)) == Weighted(w, idx, |w|)
  {
    hide Weighted;
    if idx == [] {
      NothingWeighted(w, |w|);
    } else {
      var init, x := idx[..|idx| - 1], idx[|idx| - 1];
      SumIsWeighted(w, init);
      WeightedMore(w, init, x, |w|);
      assert idx == init + [x];
      assert Pick(w, idx)[..|init|] == Pick(w, init);
    }
  }

  // How often each other client is named.
  function Share(n: nat): nat {
    if n < PEER_POOL_SIZE then 1 else 2
  }

  lemma {:induction false} WeightedDeal(w: seq<nat>, deal: seq<nat>, i: nat, limit: nat)
    requires DealtTo(deal, |w|, i) && limit <= |w| && i < |w|
    ensures Weighted(w, deal, limit) == Share(|w|) * (Sum(w[..limit]) - if i < limit then w[i] else 0)
  {
    hide Count;
    if limit > 0 {
      WeightedDeal(w, deal, i, limit - 1);
      assert w[..limit][..limit - 1] == w[..limit - 1];
    } else {
      assert w[..0] == [];
    }
  }

  // ----- main results

  // The width of all entries but client i's.
  function OthersWidth(eps: seq<Endpoint>, i: nat): int
    requires i < |eps|
  {
    Sum(Widths(eps)) - EntryWidth(eps[i])
  }

  predicate Fits(text: string) {
    // with its last space and a terminator, and without "PEERS "
    |text| - 6 + 2 <= LIST_BUFFER
  }

  lemma SpacedDeal(clients: seq<Client>, deal: seq<nat>, i: nat)
    requires DealtTo(deal, |clients|, i) && i < |clients|
    ensures |Spaced(Endpoints(Pick(clients, deal)))| == Share(|clients|) * OthersWidth(Endpoints(clients), i)
  {
    hide Spaced, Sum, Weighted, Count;
    var w := Widths(Endpoints(clients));
    var dealt := Endpoints(Pick(clients, deal));
    assert Widths(dealt) == Pick(w, deal);
    SpacedIsSum(dealt);
    SumIsWeighted(w, deal);
    WeightedDeal(w, deal, i, |w|);
    assert w[..|w|] == w;
  }

  /** The length of client i's PEERS message depends on the list of clients alone, not on the
      shuffle; and it fits exactly if the entries of all others, once or twice, are shorter than
      the 504 bytes of the buffer. */
  lemma PeersTextLength(d: Delivery, clients: seq<Client>, i: nat, deal: seq<nat>)
    requires i < |clients| && |clients| >= 2 && SentTo(d, clients, i, deal)
    ensures |d.text| == 5 + Share(|clients|) * OthersWidth(Endpoints(clients), i)
    ensures Fits(d.text) <==> Share(|clients|) * OthersWidth(Endpoints(clients), i) < 504
  {
    hide Count, OthersWidth, Share, Pick, Spaced, Format, Endpoints;
    SpacedDeal(clients, deal, i);
    DealNotEmpty(deal, |clients|, i);
    SpacedIsFormat(Endpoints(Pick(clients, deal)));
  }

  // With entries of one length, as with addresses and ports of a fixed number of digits.
  lemma UniformLength(d: Delivery, clients: seq<Client>, i: nat, deal: seq<nat>, width: nat)
    requires i < |clients| && |clients| >= 2 && SentTo(d, clients, i, deal)
    requires forall k :: 0 <= k < |clients| ==> EntryWidth(clients[k].Endpoint()) == width
    ensures Fits(d.text) <==> Share(|clients|) * ((|clients| - 1) * width) < 504
  {
    PeersTextLength(d, clients, i, deal);
    UniformSum(Widths(Endpoints(clients)), width);
    assert |clients| * width - width == (|clients| - 1) * width;
  }

  lemma {:induction false} UniformSum(w: seq<nat>, width: nat)
    requires forall k :: 0 <= k < |w| ==> w[k] == width
    ensures Sum(w) == |w| * width
  {
    if w != [] {
      UniformSum(w[..|w| - 1], width);
      assert (|w| - 1) * width + width == |w| * width;
    }
  }

  // Entries of 20 characters, such as 192.168.100.200:4758, fit for up to 12 clients.
  lemma TwelveFit(d: Delivery, clients: seq<Client>, i: nat, deal: seq<nat>)
    requires i < |clients| && |clients| >= 2 && SentTo(d, clients, i, deal)
    requires forall k :: 0 <= k < |clients| ==> EntryWidth(clients[k].Endpoint()) == 21
    ensures Fits(d.text) <==> |clients| <= 12
  {
    UniformLength(d, clients, i, deal, 21);
  }
}
