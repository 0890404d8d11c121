/** The language isUTF8 accepts, and that reading and writing undo each other.
 */
module Utf8Language {
  import opened Bytes
  import opened Utf8

  // ---- one character ----

  /** The first character of a string that begins with an encoding is the encoded value,
      unless it is one that may not occur. */
  lemma DecodeEncoding(c: nat, rest: seq<Byte>)
    requires c < LIMIT && !Surrogate(c)
    ensures Decode(Encoding(c) + rest) == (if Valid(c) then c else INVALID, |Encoding(c)|)
  {
    var s := Encoding(c) + rest;
    var size := |Encoding(c)|;
    assert forall i | 0 <= i < size :: s[i] == Encoding(c)[i];
    assert Announced(s[0]) == size;
    assert Extent(s, size) == size;
    PayloadEncoding(c, rest);
  }

  // ---- digits to base 64 ----

  lemma Peel(c: nat)
    ensures c == c / 64 * 64 + c % 64
    ensures c / 4096 == c / 64 / 64
    ensures c / 0x4_0000 == c / 4096 / 64
    ensures c / 0x100_0000 == c / 0x4_0000 / 64
    ensures c / 0x4000_0000 == c / 0x100_0000 / 64
  {}

  lemma Digit(high: nat, low: nat)
    requires low < 64
    ensures (high * 64 + low) / 64 == high && (high * 64 + low) % 64 == low
  {}

  /** The digits of a value, and the value back from its digits. */
  lemma Digits(c: nat)
    ensures var q1, q2, q3, q4, q5 := c / 64, c / 4096, c / 0x4_0000, c / 0x100_0000, c / 0x4000_0000;
            && c == q1 * 64 + c % 64
            && q1 == q2 * 64 + q1 % 64
            && q2 == q3 * 64 + q2 % 64
            && q3 == q4 * 64 + q3 % 64
            && q4 == q5 * 64 + q4 % 64
  {
    Peel(c);
    Peel(c / 64);
    Peel(c / 4096);
    Peel(c / 0x4_0000);
    Peel(c / 0x100_0000);
  }

  lemma LowOfContinuation(d: nat)
    requires d < 64
    ensures Low(d + 0x80, 64) == d
  {}

  lemma LowOfLead(d: nat)
    ensures d < 32 ==> Low(d + 0xc0, 32) == d
    ensures d < 16 ==> Low(d + 0xe0, 16) == d
    ensures d < 8 ==> Low(d + 0xf0, 8) == d
    ensures d < 4 ==> Low(d + 0xf8, 4) == d
    ensures d < 2 ==> Low(d + 0xfc, 2) == d
  {}

  /** A value fits the leading byte of its encoding. */
  lemma LeadDigit(c: nat)
    requires c < LIMIT
    ensures c < 0x800 ==> c / 64 < 32
    ensures c < 0x1_0000 ==> c / 4096 < 16
    ensures c < 0x20_0000 ==> c / 0x4_0000 < 8
    ensures c < 0x400_0000 ==> c / 0x100_0000 < 4
    ensures c / 0x4000_0000 < 2
  {}

  lemma PayloadEncoding(c: nat, rest: seq<Byte>)
    requires c < LIMIT
    ensures Payload(Encoding(c) + rest, |Encoding(c)|) == c >= MinChar(|Encoding(c)|)
  {
    var e := Encoding(c);
    var s := e + rest;
    assert forall i | 0 <= i < |e| :: s[i] == e[i];
    Digits(c);
    LeadDigit(c);
    if c < 0x80 {
    } else if c < 0x800 {
      LowOfLead(c / 64);
      LowOfContinuation(c % 64);
    } else if c < 0x1_0000 {
      LowOfLead(c / 4096);
      LowOfContinuation(c / 64 % 64);
      LowOfContinuation(c % 64);
    } else {
      LongPayload(c, s);
    }
  }

  lemma PayloadFour(c: nat, s: seq<Byte>)
    requires 0x1_0000 <= c < 0x20_0000
    requires |s| >= |Encoding(c)| && forall i | 0 <= i < |Encoding(c)| :: s[i] == Encoding(c)[i]
    ensures |Encoding(c)| == 4 && Payload(s, 4) == c
  {
    var q := c / 0x4_0000;
    var d0 := c % 64;
    var d1 := c / 64 % 64;
    var d2 := c / 4096 % 64;
    Digits(c);
    LeadDigit(c);
    LowOfLead(q);
    LowOfContinuation(d0);
    LowOfContinuation(d1);
    LowOfContinuation(d2);
    assert Encoding(c) == [q + 0xf0, d2 + 0x80, d1 + 0x80, d0 + 0x80];
  }

  lemma PayloadFive(c: nat, s: seq<Byte>)
    requires 0x20_0000 <= c < 0x400_0000
    requires |s| >= |Encoding(c)| && forall i | 0 <= i < |Encoding(c)| :: s[i] == Encoding(c)[i]
    ensures |Encoding(c)| == 5 && Payload(s, 5) == c
  {
    var q := c / 0x100_0000;
    var d0 := c % 64;
    var d1 := c / 64 % 64;
    var d2 := c / 4096 % 64;
    var d3 := c / 0x4_0000 % 64;
    Digits(c);
    LeadDigit(c);
    LowOfLead(q);
    LowOfContinuation(d0);
    LowOfContinuation(d1);
    LowOfContinuation(d2);
    LowOfContinuation(d3);
    assert Encoding(c) == [q + 0xf8, d3 + 0x80, d2 + 0x80, d1 + 0x80, d0 + 0x80];
  }

  lemma PayloadSix(c: nat, s: seq<Byte>)
    requires 0x400_0000 <= c < LIMIT
    requires |s| >= |Encoding(c)| && forall i | 0 <= i < |Encoding(c)| :: s[i] == Encoding(c)[i]
    ensures |Encoding(c)| == 6 && Payload(s, 6) == c
  {
    var q := c / 0x4000_0000;
    var d0 := c % 64;
    var d1 := c / 64 % 64;
    var d2 := c / 4096 % 64;
    var d3 := c / 0x4_0000 % 64;
    var d4 := c / 0x100_0000 % 64;
    Digits(c);
    LeadDigit(c);
    LowOfLead(q);
    LowOfContinuation(d0);
    LowOfContinuation(d1);
    LowOfContinuation(d2);
    LowOfContinuation(d3);
    LowOfContinuation(d4);
    assert Encoding(c) == [q + 0xfc, d4 + 0x80, d3 + 0x80, d2 + 0x80, d1 + 0x80, d0 + 0x80];
  }

  lemma LongPayload(c: nat, s: seq<Byte>)
    requires 0x1_0000 <= c < LIMIT
    requires |s| >= |Encoding(c)| && forall i | 0 <= i < |Encoding(c)| :: s[i] == Encoding(c)[i]
    ensures Payload(s, |Encoding(c)|) == c
  {
    if c < 0x20_0000 {
      PayloadFour(c, s);
    } else if c < 0x400_0000 {
      PayloadFive(c, s);
    } else {
      PayloadSix(c, s);
    }
  }

  /** The bytes of a well-formed character of two or more bytes, from its digits. */
  lemma DigitsBack(d5: nat, d4: nat, d3: nat, d2: nat, d1: nat, d0: nat)
    requires d4 < 64 && d3 < 64 && d2 < 64 && d1 < 64 && d0 < 64
    ensures var c := d5 * 0x4000_0000 + d4 * 0x100_0000 + d3 * 0x4_0000 + d2 * 4096 + d1 * 64 + d0;
            && c / 0x4000_0000 == d5 && c / 0x100_0000 % 64 == d4 && c / 0x4_0000 % 64 == d3
            && c / 4096 % 64 == d2 && c / 64 % 64 == d1 && c % 64 == d0
            && c / 0x100_0000 == d5 * 64 + d4
            && c / 0x4_0000 == (d5 * 64 + d4) * 64 + d3
            && c / 4096 == ((d5 * 64 + d4) * 64 + d3) * 64 + d2
            && c / 64 == (((d5 * 64 + d4) * 64 + d3) * 64 + d2) * 64 + d1
  {
    var h4 := d5 * 64 + d4;
    var h3 := h4 * 64 + d3;
    var h2 := h3 * 64 + d2;
    var h1 := h2 * 64 + d1;
    var c := h1 * 64 + d0;
    Digit(h1, d0);
    Digit(h2, d1);
    Digit(h3, d2);
    Digit(h4, d3);
    Digit(d5, d4);
    Peel(c);
  }

  lemma LowIs(b: Byte)
    ensures Continuation(b) ==> Low(b, 64) == b - 0x80
    ensures 0xe0 <= b < 0xf0 ==> Low(b, 16) == b - 0xe0
    ensures 0xf0 <= b < 0xf8 ==> Low(b, 8) == b - 0xf0
    ensures 0xf8 <= b < 0xfc ==> Low(b, 4) == b - 0xf8
    ensures 0xfc <= b < 0xfe ==> Low(b, 2) == b - 0xfc
  {}

  // The encoding of the value of two to six well-formed bytes.

  lemma Back2(b0: Byte, b1: Byte)
    requires 0xc0 <= b0 < 0xe0 && Continuation(b1)
    ensures var c := Low(b0, 32) * 64 + Low(b1, 64);
            c < 0x800 && (c >= 0x80 ==> Encoding(c) == [b0, b1])
  {
    var high, low := Low(b0, 32), Low(b1, 64);
    assert high == b0 - 0xc0 && low == b1 - 0x80;
    Digit(high, low);
  }

  lemma Back3(b0: Byte, b1: Byte, b2: Byte)
    requires 0xe0 <= b0 < 0xf0 && Continuation(b1) && Continuation(b2)
    ensures var c := Low(b0, 16) * 4096 + Low(b1, 64) * 64 + Low(b2, 64);
            c < 0x1_0000 && (c >= 0x800 ==> Encoding(c) == [b0, b1, b2])
  {
    LowIs(b0);
    LowIs(b1);
    LowIs(b2);
    DigitsBack(0, 0, 0, b0 - 0xe0, b1 - 0x80, b2 - 0x80);
  }

  lemma Back4(b0: Byte, b1: Byte, b2: Byte, b3: Byte)
    requires 0xf0 <= b0 < 0xf8 && Continuation(b1) && Continuation(b2) && Continuation(b3)
    ensures var c := Low(b0, 8) * 0x4_0000 + Low(b1, 64) * 4096 + Low(b2, 64) * 64 + Low(b3, 64);
            c < 0x20_0000 && (c >= 0x1_0000 ==> Encoding(c) == [b0, b1, b2, b3])
  {
    LowIs(b0);
    LowIs(b1);
    LowIs(b2);
    LowIs(b3);
    DigitsBack(0, 0, b0 - 0xf0, b1 - 0x80, b2 - 0x80, b3 - 0x80);
  }

  lemma Back5(b0: Byte, b1: Byte, b2: Byte, b3: Byte, b4: Byte)
    requires 0xf8 <= b0 < 0xfc
    requires Continuation(b1) && Continuation(b2) && Continuation(b3) && Continuation(b4)
    ensures var c := Low(b0, 4) * 0x100_0000 + Low(b1, 64) * 0x4_0000 + Low(b2, 64) * 4096 + Low(b3, 64) * 64
                     + Low(b4, 64);
            c < 0x400_0000 && (c >= 0x20_0000 ==> Encoding(c) == [b0, b1, b2, b3, b4])
  {
    LowIs(b0);
    LowIs(b1);
    LowIs(b2);
    LowIs(b3);
    LowIs(b4);
    DigitsBack(0, b0 - 0xf8, b1 - 0x80, b2 - 0x80, b3 - 0x80, b4 - 0x80);
  }

  lemma Back6(b0: Byte, b1: Byte, b2: Byte, b3: Byte, b4: Byte, b5: Byte)
    requires 0xfc <= b0 < 0xfe
    requires Continuation(b1) && Continuation(b2) && Continuation(b3) && Continuation(b4) && Continuation(b5)
    ensures var c := Low(b0, 2) * 0x4000_0000 + Low(b1, 64) * 0x100_0000 + Low(b2, 64) * 0x4_0000
                     + Low(b3, 64) * 4096 + Low(b4, 64) * 64 + Low(b5, 64);
            c < LIMIT && (c >= 0x400_0000 ==> Encoding(c) == [b0, b1, b2, b3, b4, b5])
  {
    LowIs(b0);
    LowIs(b1);
    LowIs(b2);
    LowIs(b3);
    LowIs(b4);
    LowIs(b5);
    DigitsBack(b0 - 0xfc, b1 - 0x80, b2 - 0x80, b3 - 0x80, b4 - 0x80, b5 - 0x80);
  }

  /** The bytes a well-formed character is made of. */
  ghost predicate WellFormed(s: seq<Byte>, size: nat) {
    && 1 <= size <= |s| && size == Announced(s[0])
    && (forall i | 1 <= i < size :: Continuation(s[i]))
    && Payload(s, size) >= MinChar(size)
  }

  lemma ShortEncoding(s: seq<Byte>, size: nat)
    requires WellFormed(s, size) && size <= 3
    ensures Payload(s, size) < LIMIT && Encoding(Payload(s, size)) == s[..size]
  {
    match size
    case 1 => assert s[..1] == [s[0]];
    case 2 => Back2(s[0], s[1]); assert s[..2] == [s[0], s[1]];
    case _ => Back3(s[0], s[1], s[2]); assert s[..3] == [s[0], s[1], s[2]];
  }

  lemma LongEncoding(s: seq<Byte>, size: nat)
    requires WellFormed(s, size) && size > 3
    ensures Payload(s, size) < LIMIT && Encoding(Payload(s, size)) == s[..size]
  {
    match size
    case 4 => Back4(s[0], s[1], s[2], s[3]); assert s[..4] == [s[0], s[1], s[2], s[3]];
    case 5 => Back5(s[0], s[1], s[2], s[3], s[4]); assert s[..5] == [s[0], s[1], s[2], s[3], s[4]];
    case _ => Back6(s[0], s[1], s[2], s[3], s[4], s[5]); assert s[..6] == [s[0], s[1], s[2], s[3], s[4], s[5]];
  }

  /** A character that is not malformed is the encoding of its value. */
  lemma EncodingDecode(s: seq<Byte>)
    requires s != [] && Decode(s).0 != INVALID
    ensures Valid(Decode(s).0)
    ensures Encoding(Decode(s).0) == s[..Decode(s).1]
  {
    var size := Decode(s).1;
    assert Extent(s, size) == size;
    assert WellFormed(s, size);
    if size <= 3 {
      ShortEncoding(s, size);
    } else {
      LongEncoding(s, size);
    }
  }

  // ---- strings ----

  predicate AllValid(cs: seq<nat>) {
    forall i | 0 <= i < |cs| :: Valid(cs[i])
  }

  /** Values toUTF8 writes as they are. */
  predicate AllWritable(cs: seq<nat>) {
    forall i | 0 <= i < |cs| :: cs[i] < LIMIT && !Surrogate(cs[i])
  }

  /** What is read back of written values: each of them, or INVALID for U+FFFE and U+FFFF. */
  function ReadBack(cs: seq<nat>): seq<nat> {
    if cs == [] then [] else [if Valid(cs[0]) then cs[0] else INVALID] + ReadBack(cs[1..])
  }

  lemma {:induction false} DecodeEncodeAll(cs: seq<nat>)
    requires AllWritable(cs)
    ensures DecodeAll(EncodeAll(cs)) == ReadBack(cs)
  {
    if cs != [] {
      var e := Encoding(cs[0]);
      var rest := EncodeAll(cs[1..]);
      DecodeEncoding(cs[0], rest);
      assert (e + rest)[|e|..] == rest;
      DecodeEncodeAll(cs[1..]);
    }
  }

  lemma {:induction false} ReadBackValid(cs: seq<nat>)
    ensures AllValid(cs) ==> ReadBack(cs) == cs
    ensures INVALID !in ReadBack(cs) <==> AllValid(cs)
  {
    if cs != [] {
      ReadBackValid(cs[1..]);
      var first := if Valid(cs[0]) then cs[0] else INVALID;
      assert ReadBack(cs) == [first] + ReadBack(cs[1..]);
      assert AllValid(cs) <==> Valid(cs[0]) && AllValid(cs[1..]) by {
        assert cs == [cs[0]] + cs[1..];
      }
      assert Valid(cs[0]) ==> cs[0] != INVALID;
    }
  }

  /** The first character of a string and what is left of it. */
  lemma FirstCharacter(s: seq<Byte>) returns (c: nat, rest: seq<Byte>)
    requires s != []
    ensures |rest| < |s| && DecodeAll(s) == [c] + DecodeAll(rest)
    ensures c != INVALID ==> Valid(c) && s == Encoding(c) + rest
  {
    c := Decode(s).0;
    var size := Decode(s).1;
    rest := s[size..];
    if c != INVALID {
      EncodingDecode(s);
      assert s == s[..size] + rest;
    }
  }

  lemma {:induction false} EncodeDecodeAll(s: seq<Byte>)
    requires Accepted(s)
    ensures AllValid(DecodeAll(s))
    ensures EncodeAll(DecodeAll(s)) == s
    decreases |s|
  {
    if s != [] {
      var c, rest := FirstCharacter(s);
      EncodeDecodeAll(rest);
      assert DecodeAll(s)[0] == c && DecodeAll(s)[1..] == DecodeAll(rest);
    }
  }

  /** isUTF8 accepts exactly the concatenations of the encodings of valid values, and
      reads those values back. */
  lemma AcceptedLanguage(s: seq<Byte>)
    ensures Accepted(s) <==> exists cs: seq<nat> :: AllValid(cs) && s == EncodeAll(cs)
    ensures forall cs: seq<nat> | AllValid(cs) && s == EncodeAll(cs) :: DecodeAll(s) == cs
  {
    forall cs: seq<nat> | AllValid(cs) && s == EncodeAll(cs) ensures DecodeAll(s) == cs && Accepted(s) {
      DecodeEncodeAll(cs);
      ReadBackValid(cs);
    }
    if Accepted(s) {
      EncodeDecodeAll(s);
    }
  }

  /** Reading one character of any string takes at least one of its bytes and no more
      than there are, so there are never more characters than bytes. */
  lemma {:induction false} NoMoreCharactersThanBytes(s: seq<Byte>)
    ensures |DecodeAll(s)| <= |s|
    decreases |s|
  {
    if s != [] {
      NoMoreCharactersThanBytes(s[Decode(s).1..]);
    }
  }

  lemma {:induction false} EncodeConcat(a: seq<nat>, b: seq<nat>)
    requires AllWritable(a) && AllWritable(b)
    ensures EncodeAll(a + b) == EncodeAll(a) + EncodeAll(b)
  {
    if a == [] {
      assert a + b == b;
    } else {
      assert (a + b)[1..] == a[1..] + b;
      EncodeConcat(a[1..], b);
    }
  }
}
