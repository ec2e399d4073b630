/**
 Encryption as the client uses it: OpenSSL is an abstract pair of functions, and what is
 assumed of it is written in Ideal. The round trip from typed text to displayed text.
 */
module Cipher {
  import opened Wrappers
  import opened Base64
  import opened Envelope

  // Sealing for a public key, with whatever randomness is used, and opening with a private
  // key. A key pair is one number.
  datatype Suite = Suite(seal: (nat, seq<byte>, nat) -> Sealed, open: (nat, Sealed) -> Option<seq<byte>>)

  // What the key of the right holder makes of the first block, if it opens an envelope that
  // was sealed with vector `iv` with another one: in CBC the vector is added to that block.
  function FirstBlockMixed(plain: seq<byte>, iv: seq<byte>, other: seq<byte>): (r: seq<byte>)
    requires |iv| == VECTOR_LENGTH && |other| == VECTOR_LENGTH
    ensures |r| == |plain|
    ensures forall i :: 0 <= i < |r| ==> r[i] == MixedAt(plain, iv, other, i)
  {
    seq(|plain|, i requires 0 <= i < |plain| => MixedAt(plain, iv, other, i))
  }

  function MixedAt(plain: seq<byte>, iv: seq<byte>, other: seq<byte>, i: nat): byte
    requires |iv| == VECTOR_LENGTH && |other| == VECTOR_LENGTH && i < |plain|
  {
    if i < VECTOR_LENGTH then Mixed(Mixed(plain[i], iv[i]), other[i]) else plain[i]
  }

  function Mixed(a: byte, b: byte): byte {
    a ^ b
  }

  function WithVector(e: Sealed, iv: seq<byte>): Sealed {
    Sealed(e.msg, e.key, iv)
  }

  // e is `plain`, sealed for key: of the keys in use this one alone opens it, and still
  // does with another vector as long as the last block, which has the padding, is not the first.
  ghost predicate SealedFor(c: Suite, keys: set<nat>, key: nat, plain: seq<byte>, e: Sealed) {
    && AesSizes(e, |plain|)
    && (forall k :: k in keys ==> c.open(k, e) == if k == key then Some(plain) else None)
    && (|plain| >= 16 ==> forall k, iv: seq<byte> ::
          k in keys && |iv| == VECTOR_LENGTH ==>
            c.open(k, WithVector(e, iv)) == if k == key then Some(FirstBlockMixed(plain, e.iv, iv)) else None)
  }

  // The assumption on the keys in use. The fields have the sizes of AES-256-CBC with a
  // 4096-bit RSA key.
  ghost predicate Ideal(c: Suite, keys: set<nat>) {
    forall k, plain, nonce :: k in keys ==> SealedFor(c, keys, k, plain, c.seal(k, plain, nonce))
  }

  // client_encrypt_msg seals a C string with its terminator.
  function SealText(c: Suite, key: nat, chars: seq<byte>, nonce: nat): Sealed {
    c.seal(key, chars + [NUL], nonce)
  }

  // The text that input_send_msg broadcasts.
  function Broadcast(c: Suite, key: nat, chars: seq<byte>, nonce: nat, past: byte, pad: seq<byte>): seq<byte> {
    Padded(Print(SealText(c, key, chars, nonce), past), pad)
  }

  // A C string ends before its first NUL.
  function CString(s: seq<byte>): (r: seq<byte>)
    ensures r <= s && NUL !in r
  {
    if s == [] || s[0] == NUL then [] else [s[0]] + CString(s[1..])
  }

  lemma {:induction false} CStringTerminated(s: seq<byte>)
    ensures CString(s + [NUL]) == CString(s)
    ensures NUL !in s ==> CString(s) == s
  {
    if s == [] {
      assert s + [NUL] == [NUL];
    } else {
      assert (s + [NUL])[1..] == s[1..] + [NUL];
      CStringTerminated(s[1..]);
    }
  }

  // What client_parse_msg does with a text it has not seen, once it has sent it on: it
  // prints it, it says that the text was not meant for it, or it follows a NULL pointer.
  datatype Outcome = Displayed(chars: seq<byte>) | NotMeant | Died

  function Display(c: Suite, key: nat, text: seq<byte>, rest: seq<byte>): (r: Outcome)
    requires |rest| >= VECTOR_LENGTH
    ensures r.Died? <==> !HasFields(text)
  {
    match Receive(text, rest)
    case NullPointer => Died
    case NoMessage => NotMeant
    case Read(e) =>
      match c.open(key, e)
      case None => NotMeant
      case Some(plain) => Displayed(CString(plain))
  }

  // The characters that come out of a broadcast whose vector lost its last byte.
  function Garbled(chars: seq<byte>, lost: byte): seq<byte> {
    if |chars| < 16 then chars else chars[15 := Mixed(chars[15], lost)]
  }

  // What a broadcast does to each client that receives it. Up to 462 characters it is
  // displayed by exactly the holders of its key, as it was typed; up to 478 one character
  // may be wrong, and with 479 or more every receiver follows a NULL pointer.
  lemma DisplayedByKeyHolders(c: Suite, keys: set<nat>, key: nat, chars: seq<byte>, nonce: nat, past: byte,
                              pad: seq<byte>, holder: nat, rest: seq<byte>)
    requires Ideal(c, keys) && key in keys && holder in keys && |rest| >= VECTOR_LENGTH
    requires NUL !in chars
    ensures |SealText(c, key, chars, nonce).iv| == VECTOR_LENGTH
    ensures Display(c, holder, Broadcast(c, key, chars, nonce, past, pad), rest)
            == if |chars| >= 479 then Died
               else if holder != key then NotMeant
               else if |chars| <= 462 then Displayed(chars)
               else Displayed(CString(Garbled(chars, SealText(c, key, chars, nonce).iv[15])))
  {
    hide Receive, Padded, Print;
    var e := SealText(c, key, chars, nonce);
    assert SealedFor(c, keys, key, chars + [NUL], e);
    ReceivedExactly(e, past, pad, rest, |chars|);
    CStringTerminated(chars);
    if 462 < |chars| <= 478 {
      var cut := e.iv[..VECTOR_LENGTH - 1] + [NUL];
      MixedIsGarbled(chars, e.iv);
      CStringTerminated(Garbled(chars, e.iv[15]));
      assert c.open(holder, WithVector(e, cut))
        == if holder == key then Some(FirstBlockMixed(chars + [NUL], e.iv, cut)) else None;
    }
  }

  lemma MixedIsGarbled(chars: seq<byte>, iv: seq<byte>)
    requires |chars| >= 16 && |iv| == VECTOR_LENGTH
    ensures FirstBlockMixed(chars + [NUL], iv, iv[..VECTOR_LENGTH - 1] + [NUL]) == Garbled(chars, iv[15]) + [NUL]
  {
    var cut := iv[..VECTOR_LENGTH - 1] + [NUL];
    forall i | 0 <= i < |chars| + 1
      ensures FirstBlockMixed(chars + [NUL], iv, cut)[i] == (Garbled(chars, iv[15]) + [NUL])[i]
    {
      if i < 15 {
        MixedTwice((chars + [NUL])[i], iv[i]);
      } else if i == 15 {
        MixedWithNul(Mixed(chars[15], iv[15]));
      }
    }
  }

  lemma MixedTwice(a: byte, b: byte)
    ensures Mixed(Mixed(a, b), b) == a
  {
  }

  lemma MixedWithNul(a: byte)
    ensures Mixed(a, NUL) == a
  {
  }

  // So a text is displayed as it was typed exactly to holders of the key, and if it has at
  // most 462 characters, or at most 478 and a vector that happens to end in a NUL.
  lemma DisplayedAsTyped(c: Suite, keys: set<nat>, key: nat, chars: seq<byte>, nonce: nat, past: byte,
                         pad: seq<byte>, holder: nat, rest: seq<byte>)
    requires Ideal(c, keys) && key in keys && holder in keys && |rest| >= VECTOR_LENGTH
    requires NUL !in chars
    ensures |SealText(c, key, chars, nonce).iv| == VECTOR_LENGTH
    ensures Display(c, holder, Broadcast(c, key, chars, nonce, past, pad), rest) == Displayed(chars)
            <==> && holder == key
                 && (|chars| <= 462 || (|chars| <= 478 && SealText(c, key, chars, nonce).iv[15] == NUL))
  {
    hide Display, Broadcast, Ideal;
    DisplayedByKeyHolders(c, keys, key, chars, nonce, past, pad, holder, rest);
    if 462 < |chars| <= 478 {
      var lost := SealText(c, key, chars, nonce).iv[15];
      var out := Garbled(chars, lost);
      SameOnlyWithNul(chars[15], lost);
      if lost == NUL {
        CStringTerminated(chars);
        assert out == chars;
      } else {
        assert CString(out) <= out && out[15] != chars[15];
      }
    }
  }

  lemma SameOnlyWithNul(a: byte, b: byte)
    ensures Mixed(a, b) == a <==> b == NUL
  {
  }

  // ----- the assumption can be met

  // A toy pair with fields of the right sizes: the key and the number of fill bytes are
  // written in unary.
  function Unary(n: nat, size: nat): (r: seq<byte>)
    ensures |r| == size
  {
    seq(size, i => if i < n then 1 else 0)
  }

  function Ones(s: seq<byte>): nat {
    if s == [] || s[0] != 1 then 0 else 1 + Ones(s[1..])
  }

  lemma {:induction false} UnaryRoundTrip(n: nat, size: nat)
    requires n <= size
    ensures Ones(Unary(n, size)) == n
  {
    if n > 0 {
      assert Unary(n, size)[1..] == Unary(n - 1, size - 1);
      UnaryRoundTrip(n - 1, size - 1);
    }
  }

  const ZEROS: seq<byte> := Fill(0, VECTOR_LENGTH)

  // Each fill byte holds the number of fill bytes.
  function Fill(value: byte, size: nat): (r: seq<byte>)
    ensures |r| == size
  {
    seq(size, _ => value)
  }

  function FillSize(plain: seq<byte>): (n: nat)
    ensures 1 <= n <= 16
  {
    CipherLen(|plain|) - |plain|
  }

  function ToySeal(key: nat, plain: seq<byte>): Sealed {
    Sealed(plain + Fill(FillSize(plain) as byte, FillSize(plain)), Unary(key, 512), ZEROS)
  }

  function LastByte(s: seq<byte>): nat {
    if s == [] then 0 else s[|s| - 1] as int
  }

  function ToyOpen(key: nat, e: Sealed): Option<seq<byte>> {
    if Ones(e.key) != key || |e.iv| != VECTOR_LENGTH || |e.msg| < LastByte(e.msg) then None
    else Some(FirstBlockMixed(e.msg[..|e.msg| - LastByte(e.msg)], ZEROS, e.iv))
  }

  lemma IdealExists(keys: set<nat>)
    requires forall k :: k in keys ==> k <= 512
    ensures exists c :: Ideal(c, keys)
  {
    var c := Suite((k: nat, plain: seq<byte>, _: nat) => ToySeal(k, plain), (k: nat, e: Sealed) => ToyOpen(k, e));
    forall k, plain: seq<byte>, nonce: nat | k in keys
      ensures SealedFor(c, keys, k, plain, c.seal(k, plain, nonce))
    {
      ToySealedFor(c, keys, k, plain);
    }
    assert Ideal(c, keys);
  }

  lemma ToySealedFor(c: Suite, keys: set<nat>, key: nat, plain: seq<byte>)
    requires key <= 512 && forall k, e :: c.open(k, e) == ToyOpen(k, e)
    ensures SealedFor(c, keys, key, plain, ToySeal(key, plain))
  {
    hide ToyOpen;
    var e := ToySeal(key, plain);
    forall k, iv: seq<byte> | |iv| == VECTOR_LENGTH
      ensures ToyOpen(k, WithVector(e, iv)) == if k == key then Some(FirstBlockMixed(plain, ZEROS, iv)) else None
    {
      ToyRoundTrip(key, k, plain, iv);
    }
    forall i | 0 <= i < |plain| && i < VECTOR_LENGTH ensures Mixed(Mixed(plain[i], ZEROS[i]), ZEROS[i]) == plain[i] {
      MixedTwice(plain[i], ZEROS[i]);
    }
    assert FirstBlockMixed(plain, ZEROS, ZEROS) == plain;
    assert WithVector(e, ZEROS) == e;
  }

  lemma ToyRoundTrip(key: nat, k: nat, plain: seq<byte>, iv: seq<byte>)
    requires key <= 512 && |iv| == VECTOR_LENGTH
    ensures ToyOpen(k, WithVector(ToySeal(key, plain), iv))
            == if k == key then Some(FirstBlockMixed(plain, ZEROS, iv)) else None
  {
    hide FirstBlockMixed;
    var e := ToySeal(key, plain);
    var fill := FillSize(plain);
    UnaryRoundTrip(key, 512);
    FillByte(fill);
    assert e.msg[|e.msg| - 1] == fill as byte;
    assert e.msg[..|e.msg| - fill] == plain;
  }

  lemma FillByte(fill: nat)
    requires fill <= 16
    ensures (fill as byte) as int == fill
  {
  }
}
