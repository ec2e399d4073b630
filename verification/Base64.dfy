/**
 Base64 over byte buffers (ac-lib/base64.c), against section 4 of RFC 4648.

 Bytes are bv8, so shifts, masks and `|` are the C operators on unsigned char. The
 encoder's input is `char`, signed or not; each of its shifts is masked to bits that
 sign extension does not reach.
 */
module Base64 {

  type byte = bv8

  const PAD: byte := 61  // '='
  const NUL: byte := 0

  // ----- the alphabet (Table 1 of RFC 4648) as basis_64 and pr2six hold it

  function Basis64(v: byte): byte
    requires v < 64
  {
    if v < 26 then v + 65        // A-Z
    else if v < 52 then v + 71   // a-z
    else if v < 62 then v - 4    // 0-9
    else if v == 62 then 43      // +
    else 47                      // /
  }

  function Pr2Six(c: byte): byte {
    if 65 <= c <= 90 then c - 65
    else if 97 <= c <= 122 then c - 71
    else if 48 <= c <= 57 then c + 4
    else if c == 43 then 62
    else if c == 47 then 63
    else 64
  }

  predicate InAlphabet(c: byte) {
    Pr2Six(c) <= 63
  }

  lemma AlphabetIsBijective(v: byte, c: byte)
    ensures v < 64 ==> InAlphabet(Basis64(v)) && Pr2Six(Basis64(v)) == v
    ensures InAlphabet(c) ==> Basis64(Pr2Six(c)) == c
  {
  }

  // basis_64 as the code spells it, which is Table 1 of RFC 4648.
  const UPPER := "ABCDEFGHIJKLM" + "NOPQRSTUVWXYZ"
  const LOWER := "abcdefghijklm" + "nopqrstuvwxyz"
  const LETTERS := UPPER + LOWER + "0123456789+/"

  lemma UpperAt(i: nat)
    requires i < 26
    ensures |UPPER| == 26 && UPPER[i] as int == 65 + i
  {
    assert UPPER[i] == if i < 13 then "ABCDEFGHIJKLM"[i] else "NOPQRSTUVWXYZ"[i - 13];
  }

  lemma LowerAt(i: nat)
    requires i < 26
    ensures |LOWER| == 26 && LOWER[i] as int == 97 + i
  {
    assert LOWER[i] == if i < 13 then "abcdefghijklm"[i] else "nopqrstuvwxyz"[i - 13];
  }

  lemma RestAt(i: nat)
    requires i < 12
    ensures "0123456789+/"[i] as int == if i < 10 then 48 + i else if i == 10 then 43 else 47
  {
  }

  lemma LetterAt(i: nat)
    requires i < 64
    ensures |LETTERS| == 64
    ensures LETTERS[i] as int
            == if i < 26 then i + 65 else if i < 52 then i + 71 else if i < 62 then i - 4
               else if i == 62 then 43 else 47
  {
    hide UPPER, LOWER;
    UpperAt(if i < 26 then i else 0);
    LowerAt(if 26 <= i < 52 then i - 26 else 0);
    RestAt(if 52 <= i then i - 52 else 0);
  }

  lemma BasisIsInt(v: byte)
    requires v < 64
    ensures Basis64(v) as int
            == var i := v as int;
               if i < 26 then i + 65 else if i < 52 then i + 71 else if i < 62 then i - 4
               else if i == 62 then 43 else 47
  {
  }

  // c is the character for value v.
  ghost predicate IsLetter(c: byte, v: byte) {
    v < 64 && |LETTERS| == 64 && c as int == LETTERS[v as int] as int
  }

  lemma BasisIsLetter(v: byte)
    requires v < 64
    ensures IsLetter(Basis64(v), v)
  {
    hide Basis64;
    BasisIsInt(v);
    LetterAt(v as int);
  }

  // ----- RFC 4648: three bytes make a 24-bit group, read as four 6-bit groups

  function Group(a: byte, b: byte, c: byte): bv24 {
    (a as bv24 << 16) | (b as bv24 << 8) | c as bv24
  }

  function Sextet(g: bv24, k: nat): byte
    requires k < 4
  {
    if k == 0 then ((g >> 18) & 0x3F) as byte
    else if k == 1 then ((g >> 12) & 0x3F) as byte
    else if k == 2 then ((g >> 6) & 0x3F) as byte
    else (g & 0x3F) as byte
  }

  function Digit(g: bv24, k: nat): byte
    requires k < 4
  {
    var v := Sextet(g, k);
    SextetIsSmall(g, k);
    Basis64(v)
  }

  lemma SextetIsSmall(g: bv24, k: nat)
    requires k < 4
    ensures Sextet(g, k) < 64
  {
  }

  // The encoding of section 4, with its two special cases at the end of the data.
  function Encode(s: seq<byte>): seq<byte> {
    if s == [] then []
    else if |s| == 1 then
      var g := Group(s[0], 0, 0);
      [Digit(g, 0), Digit(g, 1), PAD, PAD]
    else if |s| == 2 then
      var g := Group(s[0], s[1], 0);
      [Digit(g, 0), Digit(g, 1), Digit(g, 2), PAD]
    else
      var g := Group(s[0], s[1], s[2]);
      [Digit(g, 0), Digit(g, 1), Digit(g, 2), Digit(g, 3)] + Encode(s[3..])
  }

  // A byte of the data, or the zero bits that are added at the right.
  function ByteAt(s: seq<byte>, i: nat): byte {
    if i < |s| then s[i] else 0
  }

  // The value of digit j by the shifts and masks that the code has for it.
  function SextetAt(s: seq<byte>, j: nat): byte {
    var i := j / 4 * 3;
    SextetOf(ByteAt(s, i), ByteAt(s, i + 1), ByteAt(s, i + 2), j % 4)
  }

  function SextetOf(a: byte, b: byte, c: byte, k: nat): byte {
    if k == 0 then (a >> 2) & 0x3F
    else if k == 1 then ((a & 0x3) << 4) | ((b & 0xF0) >> 4)
    else if k == 2 then ((b & 0xF) << 2) | ((c & 0xC0) >> 6)
    else c & 0x3F
  }

  // The digits before the first character outside the alphabet.
  function Digits(t: seq<byte>): (r: seq<byte>)
    ensures r <= t
    ensures forall k :: 0 <= k < |r| ==> InAlphabet(r[k])
    ensures |r| < |t| ==> !InAlphabet(t[|r|])
  {
    if t == [] || !InAlphabet(t[0]) then [] else [t[0]] + Digits(t[1..])
  }

  function Sextets(a: byte, b: byte, c: byte, d: byte): bv24 {
    (a as bv24 << 18) | (b as bv24 << 12) | (c as bv24 << 6) | d as bv24
  }

  function UnGroup(t: seq<byte>): bv24
    requires |t| == 4
  {
    Sextets(Pr2Six(t[0]), Pr2Six(t[1]), Pr2Six(t[2]), Pr2Six(t[3]))
  }

  function Octet(g: bv24, k: nat): byte
    requires k < 3
  {
    if k == 0 then ((g >> 16) & 0xFF) as byte
    else if k == 1 then ((g >> 8) & 0xFF) as byte
    else (g & 0xFF) as byte
  }

  // The bytes that a run of digits stands for; the unused low bits of the last digit and a
  // single left-over digit are ignored. A missing digit counts as zero bits, written 'A'.
  function Decode(d: seq<byte>): seq<byte> {
    if |d| < 2 then []
    else if |d| == 2 then
      [Octet(UnGroup(d + [65, 65]), 0)]
    else if |d| == 3 then
      var g := UnGroup(d + [65]);
      [Octet(g, 0), Octet(g, 1)]
    else
      var g := UnGroup(d[..4]);
      [Octet(g, 0), Octet(g, 1), Octet(g, 2)] + Decode(d[4..])
  }

  // ----- the operations of the code compute the groups

  lemma EncodeOp0(a: byte, b: byte, c: byte)
    ensures Sextet(Group(a, b, c), 0) == (a >> 2) & 0x3F
  {
  }

  lemma EncodeOp1(a: byte, b: byte, c: byte)
    ensures Sextet(Group(a, b, c), 1) == ((a & 0x3) << 4) | ((b & 0xF0) >> 4)
  {
  }

  lemma EncodeOp2(a: byte, b: byte, c: byte)
    ensures Sextet(Group(a, b, c), 2) == ((b & 0xF) << 2) | ((c & 0xC0) >> 6)
  {
  }

  lemma EncodeOp3(a: byte, b: byte, c: byte)
    ensures Sextet(Group(a, b, c), 3) == c & 0x3F
  {
  }

  lemma EncodeOps(a: byte, b: byte, c: byte)
    ensures Sextet(Group(a, b, c), 0) == (a >> 2) & 0x3F
    ensures Sextet(Group(a, b, c), 1) == ((a & 0x3) << 4) | ((b & 0xF0) >> 4)
    ensures Sextet(Group(a, b, c), 2) == ((b & 0xF) << 2) | ((c & 0xC0) >> 6)
    ensures Sextet(Group(a, b, c), 3) == c & 0x3F
  {
    hide Sextet, Group;
    EncodeOp0(a, b, c);
    EncodeOp1(a, b, c);
    EncodeOp2(a, b, c);
    EncodeOp3(a, b, c);
  }

  lemma DecodeOps(t: seq<byte>)
    requires |t| == 4 && forall k :: 0 <= k < 4 ==> InAlphabet(t[k])
    ensures Octet(UnGroup(t), 0) == (Pr2Six(t[0]) << 2) | (Pr2Six(t[1]) >> 4)
    ensures Octet(UnGroup(t), 1) == (Pr2Six(t[1]) << 4) | (Pr2Six(t[2]) >> 2)
    ensures Octet(UnGroup(t), 2) == (Pr2Six(t[2]) << 6) | Pr2Six(t[3])
  {
    OctetOps(Pr2Six(t[0]), Pr2Six(t[1]), Pr2Six(t[2]), Pr2Six(t[3]));
  }

  lemma OctetOps(a: byte, b: byte, c: byte, d: byte)
    requires a <= 63 && b <= 63 && c <= 63 && d <= 63
    ensures Octet(Sextets(a, b, c, d), 0) == (a << 2) | (b >> 4)
    ensures Octet(Sextets(a, b, c, d), 1) == (b << 4) | (c >> 2)
    ensures Octet(Sextets(a, b, c, d), 2) == (c << 6) | d
  {
  }

  lemma DigitIsLetter(g: bv24, k: nat)
    requires k < 4
    ensures IsLetter(Digit(g, k), Sextet(g, k))
  {
    hide Sextet, IsLetter;
    SextetIsSmall(g, k);
    BasisIsLetter(Sextet(g, k));
  }

  /** The text by place: each character is the letter of its digit, and with one byte left over
      the last two are '=', with two the last one. */
  lemma {:induction false} EncodeAt(s: seq<byte>, j: nat)
    requires j < |Encode(s)|
    ensures |s| % 3 == 0 || j < |Encode(s)| - (3 - |s| % 3) ==> IsLetter(Encode(s)[j], SextetAt(s, j))
    ensures |s| % 3 == 1 && j >= |Encode(s)| - 2 ==> Encode(s)[j] as int == '=' as int
    ensures |s| % 3 == 2 && j >= |Encode(s)| - 1 ==> Encode(s)[j] as int == '=' as int
    decreases |s|
  {
    hide Group, IsLetter, SextetAt, Digit;
    EncodeLength(s);
    if |s| >= 3 && j >= 4 {
      EncodeAt(s[3..], j - 4);
      SextetLater(s, j);
    } else {
      EncodeFirst(s, j);
    }
  }

  lemma SextetLater(s: seq<byte>, j: nat)
    requires |s| >= 3 && j >= 4
    ensures SextetAt(s, j) == SextetAt(s[3..], j - 4)
  {
    assert j / 4 * 3 == (j - 4) / 4 * 3 + 3 && j % 4 == (j - 4) % 4;
  }

  lemma SextetFirst(s: seq<byte>, j: nat)
    requires s != [] && j < 4
    ensures SextetAt(s, j) == Sextet(Group(s[0], ByteAt(s, 1), ByteAt(s, 2)), j)
  {
    hide SextetOf, Sextet, Group;
    assert j / 4 * 3 == 0 && j % 4 == j;
    SextetOfGroup(s[0], ByteAt(s, 1), ByteAt(s, 2), j);
  }

  lemma SextetOfGroup(a: byte, b: byte, c: byte, k: nat)
    requires k < 4
    ensures SextetOf(a, b, c, k) == Sextet(Group(a, b, c), k)
  {
    hide Sextet, Group;
    EncodeOps(a, b, c);
  }

  lemma EncodeFirst(s: seq<byte>, j: nat)
    requires s != [] && j < 4 && j < |Encode(s)|
    ensures |s| >= 3 || j <= |s| ==> IsLetter(Encode(s)[j], SextetAt(s, j))
    ensures |s| < 3 && j > |s| ==> Encode(s)[j] as int == '=' as int
  {
    hide Sextet, Group, IsLetter, SextetAt, Digit;
    SextetFirst(s, j);
    DigitIsLetter(Group(s[0], ByteAt(s, 1), ByteAt(s, 2)), j);
  }

  lemma SextetsOfGroup(g: bv24)
    ensures Sextets(Sextet(g, 0), Sextet(g, 1), Sextet(g, 2), Sextet(g, 3)) == g
  {
  }

  lemma GroupOfOctets(g: bv24)
    ensures Group(Octet(g, 0), Octet(g, 1), Octet(g, 2)) == g
  {
  }

  lemma SextetsBack(a: byte, b: byte, c: byte, d: byte)
    requires a <= 63 && b <= 63 && c <= 63 && d <= 63
    ensures var g := Sextets(a, b, c, d);
            Sextet(g, 0) == a && Sextet(g, 1) == b && Sextet(g, 2) == c && Sextet(g, 3) == d
  {
  }

  lemma OctetsOfGroup(a: byte, b: byte, c: byte)
    ensures Octet(Group(a, b, c), 0) == a && Octet(Group(a, b, c), 1) == b && Octet(Group(a, b, c), 2) == c
  {
  }

  lemma DigitInverts(g: bv24, k: nat)
    requires k < 4
    ensures InAlphabet(Digit(g, k)) && Pr2Six(Digit(g, k)) == Sextet(g, k)
  {
    hide Sextet;
    SextetIsSmall(g, k);
    AlphabetIsBijective(Sextet(g, k), 0);
  }

  function Quad(g: bv24): seq<byte> {
    [Digit(g, 0), Digit(g, 1), Digit(g, 2), Digit(g, 3)]
  }

  lemma UnGroupDigits(g: bv24)
    ensures forall k :: 0 <= k < 4 ==> InAlphabet(Digit(g, k))
    ensures UnGroup(Quad(g)) == g
  {
    hide Sextet, Digit, Pr2Six;
    DigitInverts(g, 0);
    DigitInverts(g, 1);
    DigitInverts(g, 2);
    DigitInverts(g, 3);
    SextetsOfGroup(g);
  }

  lemma ZeroDigits(a: byte, b: byte)
    ensures Digit(Group(a, 0, 0), 2) == 65 && Digit(Group(a, 0, 0), 3) == 65
    ensures Digit(Group(a, b, 0), 3) == 65
  {
    hide Sextet, Group;
    EncodeOps(a, 0, 0);
    EncodeOps(a, b, 0);
  }

  // ----- lengths

  function Base64EncodeLen(len: nat): nat {
    (len + 2) / 3 * 4 + 1
  }

  lemma {:induction false} EncodeLength(s: seq<byte>)
    ensures |Encode(s)| + 1 == Base64EncodeLen(|s|)
    decreases |s|
  {
    if |s| >= 3 {
      EncodeLength(s[3..]);
    }
  }

  lemma {:induction false} DecodeLength(d: seq<byte>)
    ensures |Decode(d)| == |d| / 4 * 3 + (if |d| % 4 == 0 then 0 else |d| % 4 - 1)
    ensures |Decode(d)| < (|d| + 3) / 4 * 3 + 1
    decreases |d|
  {
    if |d| >= 4 {
      DecodeLength(d[4..]);
    }
  }

  // ----- round trips

  // Encoded data followed by anything but a digit: scanning stops after the digits.
  lemma {:induction false} RoundTrip(s: seq<byte>, rest: seq<byte>)
    requires rest != [] ==> !InAlphabet(rest[0])
    ensures Decode(Digits(Encode(s) + rest)) == s
    decreases |s|
  {
    hide InAlphabet, Sextet, Group, Octet, UnGroup, Digit, Decode, Quad;
    if s == [] {
      assert Encode(s) + rest == rest;
      NothingDecoded();
    } else if |s| < 3 {
      RoundTripTail(s, rest);
    } else {
      var g := Group(s[0], s[1], s[2]);
      OctetsOfGroup(s[0], s[1], s[2]);
      RoundTrip(s[3..], rest);
      FirstGroup(s, rest);
      DecodeQuad(g, Digits(Encode(s[3..]) + rest));
      assert s == [s[0], s[1], s[2]] + s[3..];
    }
  }

  lemma NothingDecoded()
    ensures Decode([]) == []
  {
  }

  lemma FirstGroup(s: seq<byte>, rest: seq<byte>)
    requires |s| >= 3
    ensures Digits(Encode(s) + rest) == Quad(Group(s[0], s[1], s[2])) + Digits(Encode(s[3..]) + rest)
  {
    hide Group, Digit, InAlphabet, Encode, Digits, UnGroup;
    var g := Group(s[0], s[1], s[2]);
    UnGroupDigits(g);
    EncodeHead(s, 0);
    assert s[0..] == s;
    DigitsGoOn(Quad(g), Encode(s[3..]) + rest);
    assert Encode(s) + rest == Quad(g) + (Encode(s[3..]) + rest);
  }

  lemma DecodeQuad(g: bv24, d: seq<byte>)
    ensures Decode(Quad(g) + d) == [Octet(g, 0), Octet(g, 1), Octet(g, 2)] + Decode(d)
  {
    hide Digit, Octet, UnGroup;
    UnGroupDigits(g);
    assert (Quad(g) + d)[..4] == Quad(g) && (Quad(g) + d)[4..] == d;
  }

  lemma RoundTripTail(s: seq<byte>, rest: seq<byte>)
    requires |s| == 1 || |s| == 2
    ensures Decode(Digits(Encode(s) + rest)) == s
  {
    hide Sextet, Group, Octet, UnGroup, Digit;
    assert !InAlphabet(PAD);
    var b := if |s| == 2 then s[1] else 0;
    var g := Group(s[0], b, 0);
    UnGroupDigits(g);
    OctetsOfGroup(s[0], b, 0);
    ZeroDigits(s[0], b);
    var n := |s| + 1;
    DigitsThenStop(Quad(g)[..n], (if |s| == 1 then [PAD, PAD] else [PAD]) + rest);
    assert Encode(s) + rest == Quad(g)[..n] + ((if |s| == 1 then [PAD, PAD] else [PAD]) + rest);
    assert Quad(g)[..n] + (if |s| == 1 then [65, 65] else [65]) == Quad(g);
  }

  lemma {:induction false} DigitsGoOn(d: seq<byte>, t: seq<byte>)
    requires forall k :: 0 <= k < |d| ==> InAlphabet(d[k])
    ensures Digits(d + t) == d + Digits(t)
  {
    if d == [] {
      assert d + t == t;
    } else {
      assert (d + t)[1..] == d[1..] + t;
      DigitsGoOn(d[1..], t);
    }
  }

  lemma DigitsThenStop(d: seq<byte>, t: seq<byte>)
    requires forall k :: 0 <= k < |d| ==> InAlphabet(d[k])
    requires t != [] && !InAlphabet(t[0])
    ensures Digits(d + t) == d
  {
    DigitsGoOn(d, t);
  }

  // Whole groups, the last one padded, with zero pad bits (section 3.5 of RFC 4648).
  predicate Canonical(t: seq<byte>) {
    t == [] ||
    (&& |t| >= 4 && InAlphabet(t[0]) && InAlphabet(t[1])
     && if t[2..] == [PAD, PAD] then Pr2Six(t[1]) & 0xF == 0
        else if t[3..] == [PAD] then InAlphabet(t[2]) && Pr2Six(t[2]) & 0x3 == 0
        else InAlphabet(t[2]) && InAlphabet(t[3]) && Canonical(t[4..]))
  }

  // Encoding undoes decoding exactly on the canonical texts.
  lemma CanonicalRoundTrip(t: seq<byte>)
    ensures Encode(Decode(Digits(t))) == t <==> Canonical(t)
  {
    EncodeIsCanonical(Decode(Digits(t)));
    if Canonical(t) {
      ReEncode(t);
    }
  }

  lemma {:induction false} EncodeIsCanonical(s: seq<byte>)
    ensures Canonical(Encode(s))
    decreases |s|
  {
    hide InAlphabet, Sextet, Group, Digit;
    if s != [] {
      var b, c := if |s| > 1 then s[1] else 0, if |s| > 2 then s[2] else 0;
      var g := Group(s[0], b, c);
      UnGroupDigits(g);
      DigitInverts(g, 1);
      DigitInverts(g, 2);
      EncodeOps(s[0], b, c);
      PadIsNoDigit(g);
      if |s| == 1 {
        assert Encode(s)[2..] == [PAD, PAD];
      } else if |s| == 2 {
        assert Encode(s)[3..] == [PAD];
      } else {
        assert Encode(s)[4..] == Encode(s[3..]);
        EncodeIsCanonical(s[3..]);
      }
    }
  }

  lemma PadIsNoDigit(g: bv24)
    ensures Digit(g, 2) != PAD && Digit(g, 3) != PAD
  {
    hide Sextet, Digit;
    assert !InAlphabet(PAD);
    DigitInverts(g, 2);
    DigitInverts(g, 3);
  }

  lemma {:induction false} ReEncode(t: seq<byte>)
    requires Canonical(t)
    ensures Encode(Decode(Digits(t))) == t
    decreases |t|
  {
    hide Sextet, Group, Octet, UnGroup, Digit;
    if t == [] {
    } else if t[2..] == [PAD, PAD] || t[3..] == [PAD] {
      ReEncodeTail(t);
    } else {
      hide InAlphabet, Pr2Six, Decode, Encode, Quad;
      var g := UnGroup(t[..4]);
      DigitsGoOn(t[..4], t[4..]);
      assert t == t[..4] + t[4..];
      ReGroup(t[..4]);
      QuadOf(t[..4], g);
      DecodeQuad(g, Digits(t[4..]));
      ReEncode(t[4..]);
      EncodeThree(Octet(g, 0), Octet(g, 1), Octet(g, 2), Decode(Digits(t[4..])));
    }
  }

  lemma QuadOf(t: seq<byte>, g: bv24)
    requires |t| == 4 && forall k :: 0 <= k < 4 ==> Digit(g, k) == t[k]
    ensures Quad(g) == t
  {
  }

  lemma EncodeThree(a: byte, b: byte, c: byte, s: seq<byte>)
    ensures Encode([a, b, c] + s) == Quad(Group(a, b, c)) + Encode(s)
  {
    hide Digit, Group;
    assert ([a, b, c] + s)[3..] == s;
  }

  lemma ReEncodeTail(t: seq<byte>)
    requires Canonical(t) && t != [] && (t[2..] == [PAD, PAD] || t[3..] == [PAD])
    ensures Encode(Decode(Digits(t))) == t
  {
    hide Sextet, Group, Octet, UnGroup, Digit;
    assert !InAlphabet(PAD) && Pr2Six(65) == 0;
    var n := if t[2..] == [PAD, PAD] then 2 else 3;
    var q := t[..n] + if n == 2 then [65, 65] else [65];
    DigitsThenStop(t[..n], t[n..]);
    assert t == t[..n] + t[n..];
    ReGroup(q);
    DecodeOps(q);
  }

  // Grouping the octets of four digits gives the digits back.
  lemma ReGroup(t: seq<byte>)
    requires |t| == 4 && forall k :: 0 <= k < 4 ==> InAlphabet(t[k])
    ensures var g := UnGroup(t);
            Group(Octet(g, 0), Octet(g, 1), Octet(g, 2)) == g
    ensures forall k :: 0 <= k < 4 ==> Digit(UnGroup(t), k) == t[k]
  {
    hide Sextet, Sextets, Group, Octet;
    GroupOfOctets(UnGroup(t));
    SextetsBack(Pr2Six(t[0]), Pr2Six(t[1]), Pr2Six(t[2]), Pr2Six(t[3]));
    forall k | 0 <= k < 4 ensures Digit(UnGroup(t), k) == t[k] {
      AlphabetIsBijective(0, t[k]);
    }
  }

  // ----- the encoder's buffer

  // The four writes of one loop iteration.
  method PutQuad(encoded: array<byte>, p: nat, a: byte, b: byte, c: byte)
    requires p + 4 <= encoded.Length
    modifies encoded
    ensures encoded[..p + 4] == old(encoded[..p]) + Quad(Group(a, b, c))
    ensures forall k :: p + 4 <= k < encoded.Length ==> encoded[k] == old(encoded[k])
  {
    hide Sextet, Group, Basis64;
    EncodeOps(a, b, c);
    DigitsAreCoded(Group(a, b, c));
    encoded[p] := Basis64((a >> 2) & 0x3F);
    encoded[p + 1] := Basis64(((a & 0x3) << 4) | ((b & 0xF0) >> 4));
    encoded[p + 2] := Basis64(((b & 0xF) << 2) | ((c & 0xC0) >> 6));
    encoded[p + 3] := Basis64(c & 0x3F);
  }

  // The writes for one or two left-over bytes: a, and b unless `single`.
  method PutTail(encoded: array<byte>, p: nat, a: byte, b: byte, single: bool)
    requires p + 4 <= encoded.Length
    modifies encoded
    ensures encoded[..p + 4] == old(encoded[..p]) + Encode(if single then [a] else [a, b])
    ensures forall k :: p + 4 <= k < encoded.Length ==> encoded[k] == old(encoded[k])
  {
    hide Sextet, Group, Basis64;
    EncodeOps(a, if single then 0 else b, 0);
    DigitsAreCoded(Group(a, if single then 0 else b, 0));
    encoded[p] := Basis64((a >> 2) & 0x3F);
    if single {
      encoded[p + 1] := Basis64((a & 0x3) << 4);
      encoded[p + 2] := PAD;
    } else {
      encoded[p + 1] := Basis64(((a & 0x3) << 4) | ((b & 0xF0) >> 4));
      encoded[p + 2] := Basis64((b & 0xF) << 2);
    }
    encoded[p + 3] := PAD;
  }

  lemma DigitsAreCoded(g: bv24)
    ensures forall k :: 0 <= k < 4 ==> Sextet(g, k) < 64 && Digit(g, k) == Basis64(Sextet(g, k))
  {
    hide Sextet, Basis64;
    forall k | 0 <= k < 4 ensures Sextet(g, k) < 64 {
      SextetIsSmall(g, k);
    }
  }

  lemma EncodeHead(data: seq<byte>, i: nat)
    requires i + 3 <= |data|
    ensures Encode(data[i..]) == Quad(Group(data[i], data[i + 1], data[i + 2])) + Encode(data[i + 3..])
  {
    hide Digit, Group;
    assert data[i..][3..] == data[i + 3..];
  }

  // The loop of Base64encode: it leaves at most two bytes.
  method EncodeGroups(encoded: array<byte>, s: seq<byte>, len: nat) returns (i: nat, p: nat)
    requires len <= |s| && encoded.Length >= Base64EncodeLen(len)
    modifies encoded
    ensures len - 2 <= i <= len && i % 3 == 0 && p == i / 3 * 4 <= encoded.Length
    ensures encoded[..p] + Encode(s[i..len]) == Encode(s[..len])
    ensures forall k :: p <= k < encoded.Length ==> encoded[k] == old(encoded[k])
  {
    hide Encode, Quad, Group;
    ghost var data := s[..len];
    assert data[0..] == data;
    i, p := 0, 0;
    while i < len - 2
      invariant 0 <= i <= len && i % 3 == 0 && p == i / 3 * 4 <= encoded.Length
      invariant encoded[..p] + Encode(data[i..]) == Encode(data)
      invariant forall k :: p <= k < encoded.Length ==> encoded[k] == old(encoded[k])
    {
      EncodeHead(data, i);
      PutQuad(encoded, p, s[i], s[i + 1], s[i + 2]);
      i, p := i + 3, p + 4;
    }
    assert s[i..len] == data[i..];
  }

  /** Base64encode: fills the front of `encoded` with the encoding of the first `len` bytes
      and a terminator, leaves the rest alone, and returns how much it wrote. */
  method Base64Encode(encoded: array<byte>, s: seq<byte>, len: nat) returns (n: nat)
    requires len <= |s| && encoded.Length >= Base64EncodeLen(len)
    modifies encoded
    ensures n == Base64EncodeLen(len)
    ensures encoded[..n] == Encode(s[..len]) + [NUL]
    ensures forall k :: n <= k < encoded.Length ==> encoded[k] == old(encoded[k])
  {
    hide Encode, Quad, Group;
    EncodeLength(s[..len]);
    var i, p := EncodeGroups(encoded, s, len);
    if i < len {
      assert s[i..len] == if i == len - 1 then [s[i]] else [s[i], s[i + 1]];
      PutTail(encoded, p, s[i], if i == len - 1 then 0 else s[i + 1], i == len - 1);
      p := p + 4;
    } else {
      assert s[i..len] == [];
      NothingEncoded();
    }
    assert encoded[..p] == Encode(s[..len]);
    encoded[p] := NUL;
    n := p + 1;
  }

  lemma NothingEncoded()
    ensures Encode([]) == []
  {
  }

  // ----- the decoder's buffers

  // A C string always holds a character outside the alphabet: its terminator.
  ghost predicate Stopped(bufcoded: seq<byte>) {
    |Digits(bufcoded)| < |bufcoded|
  }

  // The empty loop that both functions start with; it reads the digits and their stopper.
  method ScanDigits(bufcoded: seq<byte>) returns (nprbytes: nat)
    requires Stopped(bufcoded)
    ensures nprbytes == |Digits(bufcoded)|
  {
    hide Pr2Six, InAlphabet;
    var bufin := 0;
    assert bufcoded[0..] == bufcoded;
    while true
      invariant bufin <= |Digits(bufcoded)|
      decreases |bufcoded| - bufin
    {
      var c := bufcoded[bufin];
      bufin := bufin + 1;
      if !InAlphabet(c) {
        break;
      }
    }
    nprbytes := bufin - 1;
  }

  // ((nprbytes + 3) / 4) * 3 of the code: room for whole groups.
  function Room(nprbytes: nat): nat {
    (nprbytes + 3) / 4 * 3
  }

  method Base64DecodeLen(bufcoded: seq<byte>) returns (n: nat)
    requires Stopped(bufcoded)
    ensures n == (|Digits(bufcoded)| + 3) / 4 * 3 + 1
    ensures n > |Decode(Digits(bufcoded))|
  {
    var nprbytes := ScanDigits(bufcoded);
    DecodeLength(Digits(bufcoded));
    n := Room(nprbytes) + 1;
  }

  // The writes for the last nprbytes <= 4 digits.
  method PutRest(bufplain: array<byte>, o: nat, d: seq<byte>) returns (m: nat)
    requires |d| <= 4 && (d != [] ==> o + 3 <= bufplain.Length)
    requires forall k :: 0 <= k < |d| ==> InAlphabet(d[k])
    requires o <= bufplain.Length
    modifies bufplain
    ensures m == o + (if |d| < 2 then 0 else |d| - 1) <= bufplain.Length
    ensures bufplain[..m] == old(bufplain[..o]) + Decode(d)
    ensures forall k :: m <= k < bufplain.Length ==> bufplain[k] == old(bufplain[k])
  {
    hide Octet, UnGroup, Pr2Six, InAlphabet;
    m := o;
    if |d| > 1 {
      RestOps(d);
      bufplain[m] := (Pr2Six(d[0]) << 2) | (Pr2Six(d[1]) >> 4);
      m := m + 1;
    }
    if |d| > 2 {
      bufplain[m] := (Pr2Six(d[1]) << 4) | (Pr2Six(d[2]) >> 2);
      m := m + 1;
    }
    if |d| > 3 {
      bufplain[m] := (Pr2Six(d[2]) << 6) | Pr2Six(d[3]);
      m := m + 1;
    }
  }

  lemma RestOps(d: seq<byte>)
    requires 2 <= |d| <= 4 && forall k :: 0 <= k < |d| ==> InAlphabet(d[k])
    ensures |Decode(d)| == |d| - 1
    ensures Decode(d)[0] == (Pr2Six(d[0]) << 2) | (Pr2Six(d[1]) >> 4)
    ensures |d| > 2 ==> Decode(d)[1] == (Pr2Six(d[1]) << 4) | (Pr2Six(d[2]) >> 2)
    ensures |d| > 3 ==> Decode(d)[2] == (Pr2Six(d[2]) << 6) | Pr2Six(d[3])
  {
    hide Octet, UnGroup;
    assert InAlphabet(65);
    DecodeOps(if |d| == 2 then d + [65, 65] else if |d| == 3 then d + [65] else d[..4]);
  }

  // The writes of one loop iteration.
  method PutThree(bufplain: array<byte>, o: nat, d: seq<byte>)
    requires |d| == 4 && o + 3 <= bufplain.Length
    requires forall k :: 0 <= k < |d| ==> InAlphabet(d[k])
    modifies bufplain
    ensures bufplain[..o + 3] == old(bufplain[..o]) + Decode(d)
    ensures forall k :: o + 3 <= k < bufplain.Length ==> bufplain[k] == old(bufplain[k])
  {
    hide Octet, UnGroup, Pr2Six, InAlphabet;
    RestOps(d);
    bufplain[o] := (Pr2Six(d[0]) << 2) | (Pr2Six(d[1]) >> 4);
    bufplain[o + 1] := (Pr2Six(d[1]) << 4) | (Pr2Six(d[2]) >> 2);
    bufplain[o + 2] := (Pr2Six(d[2]) << 6) | Pr2Six(d[3]);
  }

  lemma DecodeHead(d: seq<byte>, i: nat)
    requires i + 4 <= |d|
    ensures Decode(d[i..]) == Decode(d[i..i + 4]) + Decode(d[i + 4..])
  {
    hide Octet, UnGroup;
    assert d[i..][4..] == d[i + 4..] && d[i..][..4] == d[i..i + 4] && d[i..i + 4][..4] == d[i..i + 4];
    assert d[i..i + 4][4..] == [];
  }

  // q groups of four and r more digits.
  lemma WholeGroups(n: nat, q: nat, r: nat)
    requires n == 4 * q + r && (q > 0 ==> r > 0)
    ensures r <= 4 ==> Room(n) == if r > 0 then 3 * q + 3 else 3 * q
    ensures r <= 4 ==> (4 - r) % 4 == if r > 0 then 4 - r else 0
    ensures r > 4 ==> Room(n) >= 3 * q + 3
  {
  }

  // The loop of Base64decode: it leaves at most four digits, and none only if there were none.
  method DecodeGroups(bufplain: array<byte>, bufcoded: seq<byte>, digits: nat)
      returns (bufin: nat, bufout: nat, nprbytes: nat, ghost q: nat)
    requires digits <= |bufcoded| && bufplain.Length > Room(digits)
    requires forall k :: 0 <= k < digits ==> InAlphabet(bufcoded[k])
    modifies bufplain
    ensures nprbytes == digits - bufin <= 4 && bufin == 4 * q && bufout == 3 * q < bufplain.Length
    ensures q > 0 ==> nprbytes > 0
    ensures bufplain[..bufout] + Decode(bufcoded[bufin..digits]) == Decode(bufcoded[..digits])
    ensures forall k :: bufout <= k < bufplain.Length ==> bufplain[k] == old(bufplain[k])
  {
    hide Decode, InAlphabet, Room;
    ghost var d := bufcoded[..digits];
    assert d[0..] == d;
    bufin, bufout, nprbytes, q := 0, 0, digits, 0;
    while nprbytes > 4
      invariant 0 <= nprbytes == digits - bufin && bufin == 4 * q && bufout == 3 * q < bufplain.Length
      invariant q > 0 ==> nprbytes > 0
      invariant bufplain[..bufout] + Decode(d[bufin..]) == Decode(d)
      invariant forall k :: bufout <= k < bufplain.Length ==> bufplain[k] == old(bufplain[k])
    {
      DecodeHead(d, bufin);
      WholeGroups(digits, q, nprbytes);
      assert bufcoded[bufin..bufin + 4] == d[bufin..bufin + 4];
      PutThree(bufplain, bufout, bufcoded[bufin..bufin + 4]);
      bufin, bufout, nprbytes := bufin + 4, bufout + 3, nprbytes - 4;
      q := q + 1;
    }
    assert bufcoded[bufin..digits] == d[bufin..];
  }

  /** Base64decode: fills the front of `bufplain` with what the digits stand for and a
      terminator, leaves the rest alone, and returns the number of bytes decoded, for every
      number of digits, even one left over. */
  method Base64Decode(bufplain: array<byte>, bufcoded: seq<byte>) returns (nbytesdecoded: int)
    requires Stopped(bufcoded)
    requires bufplain.Length > Room(|Digits(bufcoded)|)
    modifies bufplain
    ensures nbytesdecoded == |Decode(Digits(bufcoded))| < bufplain.Length
    ensures bufplain[..nbytesdecoded + 1] == Decode(Digits(bufcoded)) + [NUL]
    ensures forall k :: nbytesdecoded < k < bufplain.Length ==> bufplain[k] == old(bufplain[k])
  {
    hide Decode, InAlphabet, Digits, Room;
    ghost var d := Digits(bufcoded);
    assert bufcoded[..|d|] == d;
    var nprbytes := ScanDigits(bufcoded);
    nbytesdecoded := Room(nprbytes);
    var bufin, bufout;
    ghost var q;
    bufin, bufout, nprbytes, q := DecodeGroups(bufplain, bufcoded, nprbytes);
    WholeGroups(|d|, q, nprbytes);
    bufout := PutRest(bufplain, bufout, bufcoded[bufin..bufin + nprbytes]);
    assert bufplain[..bufout] == Decode(d);
    bufplain[bufout] := NUL;
    nbytesdecoded := nbytesdecoded - (4 - nprbytes) % 4;  // `& 3` on 0..4
  }
}
