/**
 Small inputs with what the code makes of them, written out. They tie the constants and
 functions of the other modules to literal texts, lists and numbers.
 */
module WorkedExamples {
  import opened Strtok
  import opened PeerText
  import opened Shuffle
  import opened PeerGraph
  import opened PeerOrder
  import opened NameServer
  import opened Base64
  import opened Envelope
  import opened Cipher
  import opened SeenTable
  import CN = ClientNode
  import E = EndToEnd

  // ----- characters

  predicate IsText(b: seq<byte>, s: string) {
    |b| == |s| && forall k :: 0 <= k < |s| ==> b[k] as int == s[k] as int
  }

  lemma Characters()
    ensures SPACE as int == ' ' as int && CN.COLON as int == ':' as int
    ensures PAD as int == '=' as int && NUL as int == 0
  {
  }

  // A C string ends at its first NUL.
  lemma StringEnds()
    ensures CString([104, 105, 0, 33, 0]) == [104, 105]
  {
  }

  // ----- base64: the examples of section 10 of RFC 4648

  lemma Vector1()
    ensures IsText(Encode([102]), "Zg==")
  {
  }

  lemma Vector2()
    ensures IsText(Encode([102, 111]), "Zm8=")
  {
  }

  lemma Vector3()
    ensures IsText(Encode([102, 111, 111]), "Zm9v")
  {
  }

  // A printed envelope: message and one byte more, key and vector, with spaces between.
  lemma PrintedEnvelope()
    ensures IsText(Print(Sealed([102], [102], [102, 111, 111]), 111), "Zm8= Zg== Zm9v")
  {
    Vector1();
    Vector2();
    Vector3();
    IsSpace();
    assert [102] + [111] == [102, 111];
    hide Encode, IsText;
    Joined(Encode([102, 111]), "Zm8=", [SPACE], " ");
    Joined(Encode([102, 111]) + [SPACE], "Zm8=" + " ", Encode([102]), "Zg==");
    Joined(Encode([102, 111]) + [SPACE] + Encode([102]), "Zm8=" + " " + "Zg==", [SPACE], " ");
    Joined(Encode([102, 111]) + [SPACE] + Encode([102]) + [SPACE], "Zm8=" + " " + "Zg==" + " ",
           Encode([102, 111, 111]), "Zm9v");
    WholeText();
  }

  lemma WholeText()
    ensures "Zm8=" + " " + "Zg==" + " " + "Zm9v" == "Zm8= Zg== Zm9v"
  {
  }

  lemma IsSpace()
    ensures IsText([SPACE], " ")
  {
  }

  lemma Joined(a: seq<byte>, s: string, b: seq<byte>, t: string)
    requires IsText(a, s) && IsText(b, t)
    ensures IsText(a + b, s + t)
  {
  }

  // ----- the shuffle, and the lists of five clients

  lemma FiveShuffled()
    ensures Origins(Residues([0, 0, 0, 0, 3])) == [1, 2, 4, 0, 3]
  {
    ResiduesOfNums([0, 0, 0, 0, 3]);
    hide *;
    FourZeros();
    OneMoreDraw([0, 0, 0, 0], 3);
    assert [0, 0, 0, 0] + [3] == [0, 0, 0, 0, 3];
    assert Extended([1, 2, 3, 0], 3) == [1, 2, 4, 0, 3];
  }

  // Swapping every place with the first one turns the whole list by one place.
  lemma FourZeros()
    ensures Origins([0, 0, 0, 0]) == [1, 2, 3, 0]
  {
    hide *;
    ThreeZeros();
    OneMoreDraw([0, 0, 0], 0);
    assert [0, 0, 0] + [0] == [0, 0, 0, 0];
    assert Extended([1, 2, 0], 0) == [1, 2, 3, 0];
  }

  lemma ThreeZeros()
    ensures Origins([0, 0, 0]) == [1, 2, 0]
  {
    assert [0, 0, 0][..2] == [0, 0] && [0, 0][..1] == [0];
    assert Extended([0], 0) == [1, 0];
    assert Extended([1, 0], 0) == [1, 2, 0];
  }

  lemma FiveConnected()
    ensures Neighbours(MIN_CONNECTIONS, 5, 0) == [1, 2, 3, 4, 1, 2, 3, 4]
    ensures Neighbours(MIN_CONNECTIONS, 5, 3) == [0, 1, 2, 0, 1, 2, 4, 4]
  {
    hide Neighbours;
    AllPairsByPlace(MIN_CONNECTIONS, 5, 0);
    AllPairsByPlace(MIN_CONNECTIONS, 5, 3);
  }

  // Two are connected by the ring branch, three by the other.
  lemma TwoConnected()
    ensures Neighbours(MIN_CONNECTIONS, 2, 0) == [1]
  {
    hide Neighbours;
    RingByPlace(MIN_CONNECTIONS, 2, 0);
  }

  lemma ThreeConnected()
    ensures Neighbours(MIN_CONNECTIONS, 3, 0) == [1, 2, 1, 2]
  {
    hide Neighbours;
    AllPairsByPlace(MIN_CONNECTIONS, 3, 0);
  }

  // With these draws client 0 is at place 3 and is dealt the clients of the places 0 1 2 0 1 2 4 4.
  lemma FiveDealt()
    ensures DealFor(Origins(Residues([0, 0, 0, 0, 3])), 0) == [1, 2, 4, 1, 2, 4, 3, 3]
  {
    FiveShuffled();
    FiveConnected();
  }

  // Four clients are listed in their own order, whatever the draws.
  lemma FourDealt(draws: seq<nat>)
    requires |draws| == 4
    ensures DealFor(Origins(Residues(draws)), 2) == [0, 1, 3]
  {
    OthersByPlace(4, 2);
  }

  lemma CopiesOfAFlood()
    ensures E.Transmissions(4) == 12 && E.Transmissions(5) == 40
  {
  }

  // ----- the text of a PEERS message

  lemma PeersText()
    ensures Format([Endpoint("10.0.0.1", "4758"), Endpoint("10.0.0.2", "80")]) == "10.0.0.1:4758 10.0.0.2:80"
  {
  }

  lemma TokensOfText()
    ensures Tokens("a::b:", ':') == ["a", "b"]
  {
    hide Tokens;
    LastTokens();
    assert "a::b:" == "a" + "::b:";
    FirstToken("a", "::b:", ':');
    assert "::b:" == [':'] + ([':'] + "b:");
    LeadingDelim([':'] + "b:", ':');
    LeadingDelim("b:", ':');
  }

  lemma LastTokens()
    ensures Tokens("b:", ':') == ["b"]
  {
    assert "b:" == "b" + ":";
    FirstToken("b", ":", ':');
    assert ":"[1..] == "";
  }

  // ----- the table of seen messages

  lemma PurgedAfterThirtySeconds(text: Text, now: int)
    ensures text in Purged(Added(map[], text, now), now + 29)
    ensures Purged(Added(map[], text, now), now + 30) == map[]
  {
  }
}
