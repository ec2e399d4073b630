/**
 The wire envelope of ac-lib/enc.c and its padding in input_send_msg: three byte fields in
 base64, separated by spaces, padded to MESSAGE_LENGTH characters.

 The printer encodes one byte past the end of the encrypted message, whatever it is
 (`past`), and the reader drops one byte again.
 */
module Envelope {
  import opened Wrappers
  import opened Strtok
  import opened Base64

  const SPACE: byte := 32
  const MESSAGE_LENGTH := 1350
  const VECTOR_LENGTH := 16  // EVP_MAX_IV_LENGTH

  // The message, the sealed key and the initialisation vector.
  datatype Sealed = Sealed(msg: seq<byte>, key: seq<byte>, iv: seq<byte>)

  // ----- printing and reading

  function Print(e: Sealed, past: byte): seq<byte> {
    Encode(e.msg + [past]) + [SPACE] + Encode(e.key) + [SPACE] + Encode(e.iv)
  }

  function Field(tok: seq<byte>): seq<byte> {
    Decode(Digits(tok))
  }

  // strtok returns all three tokens that the reader asks for.
  predicate HasFields(text: seq<byte>) {
    |Tokens(text, SPACE)| >= 3
  }

  // None where strtok returns NULL for one of the three fields, which the code then follows.
  function ParseFields(text: seq<byte>): (r: Option<Sealed>)
    ensures r.Some? <==> HasFields(text)
  {
    var toks := Tokens(text, SPACE);
    if |toks| < 3 then None else Some(Sealed(Field(toks[0]), Field(toks[1]), Field(toks[2])))
  }

  // NoMessage: an empty message has no byte to lose, and its length becomes -1.
  datatype Reading = NullPointer | NoMessage | Read(e: Sealed)

  // msg_decode_decrypt up to the decryption: the message loses its last byte.
  function Unpacked(text: seq<byte>): (r: Reading)
    ensures r.NullPointer? <==> !HasFields(text)
  {
    match ParseFields(text)
    case None => NullPointer
    case Some(e) => if e.msg == [] then NoMessage else Read(e.(msg := e.msg[..|e.msg| - 1]))
  }

  // The initialisation vector as EVP_OpenInit takes it: always 16 bytes from the start of
  // its buffer, whatever the length of the field. Base64decode left a terminator behind the
  // field; `rest` is what lies behind that.
  function VectorRead(iv: seq<byte>, rest: seq<byte>): (r: seq<byte>)
    requires |rest| >= VECTOR_LENGTH
    ensures |r| == VECTOR_LENGTH
  {
    (iv + [NUL] + rest)[..VECTOR_LENGTH]
  }

  // The envelope that is decrypted.
  function Receive(text: seq<byte>, rest: seq<byte>): (r: Reading)
    requires |rest| >= VECTOR_LENGTH
    ensures r.NullPointer? <==> !HasFields(text)
  {
    match Unpacked(text)
    case Read(e) => Read(e.(iv := VectorRead(e.iv, rest)))
    case other => other
  }

  // input_send_msg: a short text is filled up with a space and random characters, a long
  // one is cut.
  function Padded(encoded: seq<byte>, pad: seq<byte>): seq<byte> {
    if |encoded| < MESSAGE_LENGTH then encoded + [SPACE] + pad else encoded[..MESSAGE_LENGTH]
  }

  // ----- fields are tokens

  lemma {:induction false} EncodeAlphabet(s: seq<byte>)
    ensures forall k :: 0 <= k < |Encode(s)| ==> InAlphabet(Encode(s)[k]) || Encode(s)[k] == PAD
    decreases |s|
  {
    hide Group, Sextet, Digit;
    if s != [] {
      var g := Group(s[0], if |s| > 1 then s[1] else 0, if |s| > 2 then s[2] else 0);
      UnGroupDigits(g);
      if |s| >= 3 {
        EncodeAlphabet(s[3..]);
      }
    }
  }

  lemma EncodeHasNo(s: seq<byte>, c: byte)
    requires !InAlphabet(c) && c != PAD
    ensures c !in Encode(s)
  {
    hide Encode;
    EncodeAlphabet(s);
  }

  lemma EncodedIsToken(s: seq<byte>)
    requires s != []
    ensures IsToken(Encode(s), SPACE) && Field(Encode(s)) == s
  {
    assert !InAlphabet(SPACE);
    EncodeHasNo(s, SPACE);
    RoundTrip(s, []);
    assert Encode(s) + [] == Encode(s);
  }

  // A printed envelope, alone or followed by a space and anything, reads as its fields.
  lemma PrintedFields(e: Sealed, past: byte, rest: seq<byte>)
    requires e.key != [] && e.iv != [] && (rest == [] || rest[0] == SPACE)
    ensures ParseFields(Print(e, past) + rest) == Some(Sealed(e.msg + [past], e.key, e.iv))
  {
    hide Encode, Field;
    var f1, f2, f3 := Encode(e.msg + [past]), Encode(e.key), Encode(e.iv);
    EncodedIsToken(e.msg + [past]);
    EncodedIsToken(e.key);
    EncodedIsToken(e.iv);
    var t3 := f3 + rest;
    var t2 := f2 + ([SPACE] + t3);
    assert Print(e, past) + rest == f1 + ([SPACE] + t2);
    FirstToken(f1, [SPACE] + t2, SPACE);
    LeadingDelim(t2, SPACE);
    FirstToken(f2, [SPACE] + t3, SPACE);
    LeadingDelim(t3, SPACE);
    FirstToken(f3, rest, SPACE);
  }

  // Whatever the message, the byte past it and the padding, an envelope that fits comes back.
  lemma EnvelopeRoundTrip(e: Sealed, past: byte, pad: seq<byte>)
    requires e.key != [] && e.iv != [] && |Print(e, past)| <= MESSAGE_LENGTH
    ensures Unpacked(Padded(Print(e, past), pad)) == Read(e)
  {
    hide Print, ParseFields;
    var text := Print(e, past);
    if |text| < MESSAGE_LENGTH {
      PrintedFields(e, past, [SPACE] + pad);
      assert text + [SPACE] + pad == text + ([SPACE] + pad);
    } else {
      PrintedFields(e, past, []);
      assert text + [] == text[..MESSAGE_LENGTH];
    }
    assert (e.msg + [past])[..|e.msg|] == e.msg;
  }

  // What is broadcast has no terminator in it, so all of it is sent.
  lemma NoTerminatorInside(e: Sealed, past: byte, pad: seq<byte>)
    requires NUL !in pad
    ensures NUL !in Padded(Print(e, past), pad)
  {
    hide Encode;
    assert !InAlphabet(NUL);
    EncodeHasNo(e.msg + [past], NUL);
    EncodeHasNo(e.key, NUL);
    EncodeHasNo(e.iv, NUL);
  }

  // ----- what fits, with a 512-byte key field, a 16-byte IV and 16-byte cipher blocks

  // The length of the encrypted message for `plain` bytes.
  function CipherLen(plain: nat): nat {
    (plain / 16 + 1) * 16
  }

  predicate AesSizes(e: Sealed, plain: nat) {
    |e.msg| == CipherLen(plain) && |e.key| == 512 && |e.iv| == VECTOR_LENGTH
  }

  lemma PrintLength(e: Sealed, past: byte, plain: nat)
    requires AesSizes(e, plain)
    ensures |Print(e, past)| == (CipherLen(plain) + 3) / 3 * 4 + 710
  {
    EncodeLength(e.msg + [past]);
    EncodeLength(e.key);
    EncodeLength(e.iv);
  }

  // A text of `chars` characters is sealed with its terminator. Up to 462 characters the
  // broadcast fits. With up to 478 the cut takes the last group, and so the last byte, off
  // the initialisation vector; beyond that it takes the whole third field.
  lemma FitsExactly(e: Sealed, past: byte, pad: seq<byte>, chars: nat)
    requires AesSizes(e, chars + 1)
    ensures |Print(e, past)| < MESSAGE_LENGTH <==> chars <= 462
    ensures Unpacked(Padded(Print(e, past), pad))
            == if chars <= 462 then Read(e)
               else if chars <= 478 then Read(e.(iv := e.iv[..VECTOR_LENGTH - 1]))
               else NullPointer
  {
    hide Print, Unpacked;
    PrintLength(e, past, chars + 1);
    CipherLenBounds(chars + 1);
    if chars <= 462 {
      EnvelopeRoundTrip(e, past, pad);
    } else if chars <= 478 {
      CutVector(e, past);
    } else {
      CutField(e, past);
    }
  }

  lemma CipherLenBounds(plain: nat)
    ensures CipherLen(plain) % 16 == 0
    ensures CipherLen(plain) <= 464 <==> plain <= 463
    ensures CipherLen(plain) <= 480 <==> plain <= 479
  {
  }

  // What is decrypted after all: the terminator stands in for the lost byte.
  lemma ReceivedExactly(e: Sealed, past: byte, pad: seq<byte>, rest: seq<byte>, chars: nat)
    requires AesSizes(e, chars + 1) && |rest| >= VECTOR_LENGTH
    ensures Receive(Padded(Print(e, past), pad), rest)
            == if chars <= 462 then Read(e)
               else if chars <= 478 then Read(e.(iv := e.iv[..VECTOR_LENGTH - 1] + [NUL]))
               else NullPointer
  {
    hide Print, Unpacked, Padded;
    FitsExactly(e, past, pad, chars);
    assert VectorRead(e.iv, rest) == e.iv;
    assert VectorRead(e.iv[..VECTOR_LENGTH - 1], rest) == e.iv[..VECTOR_LENGTH - 1] + [NUL];
  }

  lemma CutVector(e: Sealed, past: byte)
    requires |e.msg| == 480 && |e.key| == 512 && |e.iv| == VECTOR_LENGTH
    ensures |Print(e, past)| > MESSAGE_LENGTH
    ensures Unpacked(Print(e, past)[..MESSAGE_LENGTH]) == Read(e.(iv := e.iv[..VECTOR_LENGTH - 1]))
  {
    hide Encode, Decode, Digits;
    EncodeLength(e.msg + [past]);
    EncodeLength(e.key);
    EncodeLength(e.iv);
    var short := e.(iv := e.iv[..VECTOR_LENGTH - 1]);
    FirstGroups(e.iv, 5);
    assert Print(e, past)[..MESSAGE_LENGTH] == Print(short, past);
    PrintedFields(short, past, []);
    assert Print(short, past) + [] == Print(short, past);
    assert (e.msg + [past])[..480] == e.msg;
  }

  // Whole groups are encoded one by one.
  lemma {:induction false} FirstGroups(s: seq<byte>, n: nat)
    requires |s| >= 3 * n
    ensures |Encode(s)| >= 4 * n && Encode(s)[..4 * n] == Encode(s[..3 * n])
  {
    hide Quad, Group, Encode;
    if n > 0 {
      var front := s[..3 * n];
      var q := Quad(Group(s[0], s[1], s[2]));
      assert Encode(s) == q + Encode(s[3..]) by {
        assert s[0..] == s;
        EncodeHead(s, 0);
      }
      assert Encode(front) == q + Encode(front[3..]) by {
        assert front[0..] == front;
        EncodeHead(front, 0);
      }
      FirstGroups(s[3..], n - 1);
      assert s[3..][..3 * (n - 1)] == front[3..];
      QuadLength(Group(s[0], s[1], s[2]));
      assert Encode(s)[..4 * n] == q + Encode(s[3..])[..4 * (n - 1)];
    } else {
      NothingEncoded();
    }
  }

  lemma QuadLength(g: bv24)
    ensures |Quad(g)| == 4
  {
  }

  // A text cut before the third field has no more than two.
  lemma CutField(e: Sealed, past: byte)
    requires |e.msg| >= 496 && |e.key| == 512
    ensures |Print(e, past)| >= MESSAGE_LENGTH && !HasFields(Print(e, past)[..MESSAGE_LENGTH])
  {
    hide Encode;
    var f1, f2 := Encode(e.msg + [past]), Encode(e.key);
    EncodeLength(e.msg + [past]);
    EncodeLength(e.key);
    EncodedIsToken(e.msg + [past]);
    EncodedIsToken(e.key);
    assert f1 + [SPACE] + f2 + [SPACE] <= Print(e, past);
    TwoTokens(f1, f2, Print(e, past)[..MESSAGE_LENGTH], SPACE);
  }

  lemma TwoTokens<T>(t: seq<T>, u: seq<T>, s: seq<T>, d: T)
    requires IsToken(t, d) && IsToken(u, d) && s <= t + [d] + u + [d]
    ensures |Tokens(s, d)| <= 2
  {
    hide Tokens, IsToken;
    if |s| <= |t| {
      OneToken(t, s, d);
    } else {
      var rest := s[|t| + 1..];
      var whole := t + [d] + u + [d];
      assert s == t + ([d] + rest) by {
        assert whole[..|s|] == s;
      }
      assert rest <= u + [d] by {
        assert whole[|t| + 1..] == u + [d];
      }
      OneToken(u, rest, d);
      LeadingDelim(rest, d);
      FirstToken(t, [d] + rest, d);
    }
  }

  lemma OneToken<T>(t: seq<T>, s: seq<T>, d: T)
    requires IsToken(t, d) && s <= t + [d]
    ensures |Tokens(s, d)| <= 1
  {
    if |s| > |t| {
      assert s == t + [d];
      FirstToken(t, [d], d);
      assert [d][1..] == [];
    } else if s != [] {
      assert s + [] == s;
      FirstToken(s, [], d);
    }
  }

  // ----- the code that does it

  class MessageEncrypted {
    var encryptedMsg: seq<byte>
    var encryptedKey: seq<byte>
    var initVector: seq<byte>
    var encryptedMsgLen: int
    var encryptedKeyLen: int
    var initVectorLen: int

    constructor ()
      ensures Valid() && Value() == Sealed([], [], [])
    {
      encryptedMsg, encryptedKey, initVector := [], [], [];
      encryptedMsgLen, encryptedKeyLen, initVectorLen := 0, 0, 0;
    }

    predicate Valid()
      reads this
    {
      && 0 <= encryptedMsgLen <= |encryptedMsg|
      && 0 <= encryptedKeyLen <= |encryptedKey|
      && 0 <= initVectorLen <= |initVector|
    }

    // The front of each buffer, as far as its length says.
    function Value(): Sealed
      reads this
      requires Valid()
    {
      Sealed(encryptedMsg[..encryptedMsgLen], encryptedKey[..encryptedKeyLen], initVector[..initVectorLen])
    }
  }

  // Base64encode into a scratch buffer of the right size, read back as a C string.
  method EncodeField(s: seq<byte>, len: nat) returns (text: seq<byte>)
    requires len <= |s|
    ensures text == Encode(s[..len])
  {
    hide Encode;
    var tmp := new byte[Base64EncodeLen(len)];
    var n := Base64Encode(tmp, s, len);
    text := tmp[..n][..n - 1];
  }

  /** parse_encrypted_msg_str: reads one byte more of the message than there is. */
  method ParseEncryptedMsgStr(m: MessageEncrypted, past: byte) returns (dest: seq<byte>)
    requires m.Valid()
    ensures dest == Print(m.Value(), past)
  {
    hide Encode;
    var beyond := m.encryptedMsg[..m.encryptedMsgLen] + [past];
    dest := EncodeField(beyond, m.encryptedMsgLen + 1);
    assert beyond[..m.encryptedMsgLen + 1] == beyond;
    dest := dest + [SPACE];
    var tmp := EncodeField(m.encryptedKey, m.encryptedKeyLen);
    dest := dest + tmp;
    dest := dest + [SPACE];
    tmp := EncodeField(m.initVector, m.initVectorLen);
    dest := dest + tmp;
  }

  // Base64decode of one token into a buffer of its own; the token ends with its terminator.
  method DecodeField(tok: seq<byte>) returns (buffer: seq<byte>, n: int)
    ensures 0 <= n < |buffer| && buffer[..n] == Field(tok) && buffer[n] == NUL
  {
    hide Decode, Pr2Six;
    TerminatorStops(tok);
    var coded := tok + [NUL];
    var len := Base64DecodeLen(coded);
    var plain := new byte[len];
    n := Base64Decode(plain, coded);
    buffer := plain[..];
    assert buffer[..n] == plain[..n + 1][..n] && buffer[n] == plain[..n + 1][n];
  }

  lemma {:induction false} TerminatorStops(tok: seq<byte>)
    ensures Digits(tok + [NUL]) == Digits(tok) && Stopped(tok + [NUL])
  {
    if tok == [] {
      assert !InAlphabet(NUL);
      assert tok + [NUL] == [NUL];
    } else {
      assert (tok + [NUL])[1..] == tok[1..] + [NUL];
      TerminatorStops(tok[1..]);
    }
  }

  /** parse_str_encrypted_msg. `ok` is false where strtok has no token left and the code
      follows a NULL pointer. */
  method ParseStrEncryptedMsg(text: seq<byte>, res: MessageEncrypted) returns (ok: bool)
    modifies res
    ensures ok <==> HasFields(text)
    ensures ok ==> res.Valid() && Some(res.Value()) == ParseFields(text)
    ensures ok ==> res.initVectorLen < |res.initVector| && res.initVector[res.initVectorLen] == NUL
  {
    hide Decode, Digits;
    var toks := Tokens(text, SPACE);
    if |toks| < 3 {
      return false;
    }
    res.encryptedMsg, res.encryptedMsgLen := DecodeField(toks[0]);
    res.encryptedKey, res.encryptedKeyLen := DecodeField(toks[1]);
    res.initVector, res.initVectorLen := DecodeField(toks[2]);
    return true;
  }

  /** msg_decode_decrypt up to the call of EVP_OpenInit, which reads past the vector's buffer
      into `beyond` if the buffer is too short. */
  method DecodeMessage(text: seq<byte>, beyond: seq<byte>) returns (r: Reading, ghost rest: seq<byte>)
    requires |beyond| >= VECTOR_LENGTH
    ensures |rest| >= VECTOR_LENGTH && r == Receive(text, rest)
  {
    hide ParseFields;
    rest := beyond;
    var m := new MessageEncrypted();
    var ok := ParseStrEncryptedMsg(text, m);
    if !ok {
      return NullPointer, rest;
    }
    ghost var e := m.Value();
    m.encryptedMsgLen := m.encryptedMsgLen - 1;
    if m.encryptedMsgLen < 0 {
      return NoMessage, rest;
    }
    var n := m.initVectorLen;
    rest := m.initVector[n + 1..] + beyond;
    assert m.initVector + beyond == m.initVector[..n] + [NUL] + rest;
    assert m.encryptedMsg[..m.encryptedMsgLen] == e.msg[..|e.msg| - 1];
    r := Read(m.Value().(iv := (m.initVector + beyond)[..VECTOR_LENGTH]));
  }

  // One character of str_rand: '0' + rand() % 72, which ends on 'w'.
  function RandomByte(rand: nat): (c: byte)
    ensures c as int == 48 + rand % 72
  {
    InByteRange(rand % 72);
    (48 + rand % 72) as byte
  }

  lemma InByteRange(r: nat)
    requires r < 72
    ensures ((48 + r) as byte) as int == 48 + r
  {
  }

  // str_rand
  method StrRand(len: nat, rand: seq<nat>) returns (dest: seq<byte>)
    requires |rand| >= len
    ensures |dest| == len
    ensures forall k :: 0 <= k < len ==> dest[k] as int == 48 + rand[k] % 72
  {
    dest := [];
    for i := 0 to len
      invariant |dest| == i
      invariant forall k :: 0 <= k < i ==> dest[k] as int == 48 + rand[k] % 72
    {
      dest := dest + [RandomByte(rand[i])];
    }
  }

  // The padding step of input_send_msg.
  method PadMessage(encoded: seq<byte>, rand: seq<nat>) returns (padded: seq<byte>, ghost pad: seq<byte>)
    requires |rand| >= MESSAGE_LENGTH
    ensures padded == Padded(encoded, pad)
    ensures |encoded| < MESSAGE_LENGTH ==>
              && |pad| == MESSAGE_LENGTH - |encoded| - 1
              && forall k :: 0 <= k < |pad| ==> pad[k] as int == 48 + rand[k] % 72
    ensures |padded| == MESSAGE_LENGTH && NUL !in pad
  {
    pad := [];
    padded := if |encoded| < MESSAGE_LENGTH then encoded else encoded[..MESSAGE_LENGTH];
    if |encoded| < MESSAGE_LENGTH {
      var padLen := MESSAGE_LENGTH - |encoded| - 1;
      var padStr := StrRand(padLen, rand);
      padded := padded + [SPACE];
      padded := padded + padStr;
      pad := padStr;
    }
  }
}
