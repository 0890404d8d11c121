/** UTF-8 as Unicode.cpp reads and writes it: sequences of one to six bytes for values
    below 2^31, in the style of section 2 of RFC 2279, without surrogates and without
    U+FFFE and U+FFFF.

    The program masks, shifts and ors unsigned values; for them `& 0x3f` is `% 64`,
    `<< 6` is `* 64`, and `|` of values without common bits is `+`.
 */
module Utf8 {
  import opened Bytes

  /** s_invalid and s_replacement */
  const INVALID: nat := 0xffff
  const REPLACEMENT: nat := 0xfffd

  const LIMIT: nat := 0x8000_0000

  predicate Surrogate(c: nat) {
    0xd800 <= c <= 0xdfff
  }

  /** The values isUTF8 admits. */
  predicate Valid(c: nat) {
    c < LIMIT && !Surrogate(c) && !(0xfffe <= c <= 0xffff)
  }

  // ---- writing ----

  /** What toUTF8 appends for a value in its range. */
  function Encoding(c: nat): (r: seq<Byte>)
    requires c < LIMIT
    ensures 1 <= |r| <= 6
  {
    if c < 0x80 then [c]
    else if c < 0x800 then [c / 64 % 32 + 0xc0, c % 64 + 0x80]
    else if c < 0x1_0000 then [c / 4096 % 16 + 0xe0, c / 64 % 64 + 0x80, c % 64 + 0x80]
    else if c < 0x20_0000 then
      [c / 0x4_0000 % 8 + 0xf0, c / 4096 % 64 + 0x80, c / 64 % 64 + 0x80, c % 64 + 0x80]
    else if c < 0x400_0000 then
      [c / 0x100_0000 % 4 + 0xf8, c / 0x4_0000 % 64 + 0x80, c / 4096 % 64 + 0x80, c / 64 % 64 + 0x80, c % 64 + 0x80]
    else
      [c / 0x4000_0000 % 2 + 0xfc, c / 0x100_0000 % 64 + 0x80, c / 0x4_0000 % 64 + 0x80, c / 4096 % 64 + 0x80,
       c / 64 % 64 + 0x80, c % 64 + 0x80]
  }

  function EncodeAll(cs: seq<nat>): seq<Byte>
    requires forall i | 0 <= i < |cs| :: cs[i] < LIMIT
  {
    if cs == [] then [] else Encoding(cs[0]) + EncodeAll(cs[1..])
  }

  /** toUTF8, with its replacement of what it cannot write. */
  function Writable(c: nat): (r: nat)
    ensures r < LIMIT
  {
    if Surrogate(c) || c >= LIMIT then REPLACEMENT else c
  }

  method ToUTF8(dst: seq<Byte>, c: nat, errors: bool) returns (dst': seq<Byte>, errors': bool)
    ensures dst' == dst + Encoding(Writable(c))
    ensures errors' == (errors || Surrogate(c) || c >= LIMIT)
  {
    var v := c;
    errors' := errors;
    if (0xd800 <= c && c <= 0xdfff) || c >= LIMIT {
      errors' := true;
      v := REPLACEMENT;
    }
    var data := EncodedBytes(v);
    dst' := dst + data;
  }

  /** The one to six bytes of a value. */
  method EncodedBytes(v: nat) returns (data: seq<Byte>)
    requires v < LIMIT
    ensures data == Encoding(v)
  {
    if v < 0x80 {
      data := [v];
    } else if v < 0x800 {
      data := [v / 64 % 32 + 0xc0, v % 64 + 0x80];
    } else if v < 0x1_0000 {
      data := [v / 4096 % 16 + 0xe0, v / 64 % 64 + 0x80, v % 64 + 0x80];
    } else if v < 0x20_0000 {
      data := [v / 0x4_0000 % 8 + 0xf0, v / 4096 % 64 + 0x80, v / 64 % 64 + 0x80, v % 64 + 0x80];
    } else if v < 0x400_0000 {
      data := [v / 0x100_0000 % 4 + 0xf8, v / 0x4_0000 % 64 + 0x80, v / 4096 % 64 + 0x80, v / 64 % 64 + 0x80,
               v % 64 + 0x80];
    } else {
      data := [v / 0x4000_0000 % 2 + 0xfc, v / 0x100_0000 % 64 + 0x80, v / 0x4_0000 % 64 + 0x80,
               v / 4096 % 64 + 0x80, v / 64 % 64 + 0x80, v % 64 + 0x80];
    }
  }

  // ---- reading ----

  /** The length a leading byte announces, 0 for a byte that cannot lead. */
  function Announced(lead: Byte): (size: nat)
    ensures size <= 6
  {
    if lead < 0x80 then 1
    else if lead < 0xc0 then 0
    else if lead < 0xe0 then 2
    else if lead < 0xf0 then 3
    else if lead < 0xf8 then 4
    else if lead < 0xfc then 5
    else if lead < 0xfe then 6
    else 0
  }

  predicate Continuation(b: Byte) {
    0x80 <= b < 0xc0
  }

  /** How many of the bytes belong to the character: all, or those before the first that
      is not a continuation byte. */
  function Extent(s: seq<Byte>, size: nat, from: nat := 1): (r: nat)
    requires 1 <= from <= size <= |s|
    ensures from <= r <= size
    ensures forall i | from <= i < r :: Continuation(s[i])
    ensures r < size ==> !Continuation(s[r])
    decreases size - from
  {
    if from == size || !Continuation(s[from]) then from else Extent(s, size, from + 1)
  }

  /** The bits of a byte below `m`, a power of two. */
  function Low(b: Byte, m: nat): nat
    requires m > 0
  {
    b % m
  }

  /** The value in the low bits of the bytes. */
  function Payload(s: seq<Byte>, size: nat): nat
    requires 1 <= size <= 6 && size <= |s|
  {
    match size
    case 1 => s[0] as nat
    case 2 => Low(s[0], 32) * 64 + Low(s[1], 64)
    case 3 => Low(s[0], 16) * 4096 + Low(s[1], 64) * 64 + Low(s[2], 64)
    case 4 => Low(s[0], 8) * 0x4_0000 + Low(s[1], 64) * 4096 + Low(s[2], 64) * 64 + Low(s[3], 64)
    case 5 => Low(s[0], 4) * 0x100_0000 + Low(s[1], 64) * 0x4_0000 + Low(s[2], 64) * 4096 + Low(s[3], 64) * 64
              + Low(s[4], 64)
    case 6 => Low(s[0], 2) * 0x4000_0000 + Low(s[1], 64) * 0x100_0000 + Low(s[2], 64) * 0x4_0000 + Low(s[3], 64) * 4096
              + Low(s[4], 64) * 64 + Low(s[5], 64)
  }

  /** s_minChar */
  function MinChar(size: nat): nat
    requires 1 <= size <= 6
  {
    [0, 0, 0x80, 0x800, 0x1_0000, 0x20_0000, 0x400_0000][size]
  }

  /** fromUTF8: the value of the first character, or INVALID, and how many bytes it takes. */
  function Decode(s: seq<Byte>): (r: (nat, nat))
    requires s != []
    ensures 1 <= r.1 <= |s|
  {
    var size := Announced(s[0]);
    if size == 0 then (INVALID, 1)
    else if size > |s| then (INVALID, |s|)
    else
      var extent := Extent(s, size);
      if extent < size then (INVALID, extent)
      else
        var c := Payload(s, size);
        (if c < MinChar(size) || Surrogate(c) || 0xfffe <= c <= 0xffff then INVALID else c, size)
  }

  /** The value in the low bits of the bytes from `pos`. */
  method ReadPayload(s: seq<Byte>, pos: nat, size: nat) returns (c: nat)
    requires 1 <= size <= 6 && pos + size <= |s|
    ensures c == Payload(s[pos..], size)
  {
    var lead := s[pos];
    if size == 1 {
      c := lead;
    } else if size == 2 {
      c := Low(lead, 32) * 64 + Low(s[pos + 1], 64);
    } else if size == 3 {
      c := Low(lead, 16) * 4096 + Low(s[pos + 1], 64) * 64 + Low(s[pos + 2], 64);
    } else if size == 4 {
      c := Low(lead, 8) * 0x4_0000 + Low(s[pos + 1], 64) * 4096 + Low(s[pos + 2], 64) * 64 + Low(s[pos + 3], 64);
    } else if size == 5 {
      c := Low(lead, 4) * 0x100_0000 + Low(s[pos + 1], 64) * 0x4_0000 + Low(s[pos + 2], 64) * 4096
           + Low(s[pos + 3], 64) * 64 + Low(s[pos + 4], 64);
    } else {
      c := Low(lead, 2) * 0x4000_0000 + Low(s[pos + 1], 64) * 0x100_0000 + Low(s[pos + 2], 64) * 0x4_0000
           + Low(s[pos + 3], 64) * 4096 + Low(s[pos + 4], 64) * 64 + Low(s[pos + 5], 64);
    }
  }

  /** How many of the announced bytes belong to the character, going back from the last. */
  method FindExtent(s: seq<Byte>, pos: nat, announced: nat) returns (size: nat, truncated: bool)
    requires 1 <= announced <= 6 && pos + announced <= |s|
    ensures size == Extent(s[pos..], announced) && truncated == (size < announced)
  {
    size, truncated := announced, false;
    if announced >= 6 && !Continuation(s[pos + 5]) {
      truncated, size := true, 5;
    }
    if announced >= 5 && !Continuation(s[pos + 4]) {
      truncated, size := true, 4;
    }
    if announced >= 4 && !Continuation(s[pos + 3]) {
      truncated, size := true, 3;
    }
    if announced >= 3 && !Continuation(s[pos + 2]) {
      truncated, size := true, 2;
    }
    if announced >= 2 && !Continuation(s[pos + 1]) {
      truncated, size := true, 1;
    }
    ghost var t := s[pos..];
    assert forall i | 1 <= i < size :: Continuation(t[i]);
    assert truncated ==> !Continuation(t[size]);
  }

  /** fromUTF8 on the bytes from `pos`, where it finds `n` of them; both are advanced.
      It takes at least one byte and at most those there are. */
  method FromUTF8(s: seq<Byte>, pos: nat, n: nat) returns (c: nat, pos': nat, n': nat)
    requires 0 < n && pos + n == |s|
    ensures (c, pos' - pos) == Decode(s[pos..])
    ensures n' < n && pos' + n' == |s|
  {
    pos', n' := pos, n;
    ghost var t := s[pos..];
    var lead := s[pos];
    var size: nat;
    // the leading byte says how many there are to be
    if lead < 0x80 {
      size := 1;
    } else if lead < 0xc0 {
      // a byte from within a character
      return INVALID, pos + 1, n - 1;
    } else if lead < 0xe0 {
      size := 2;
    } else if lead < 0xf0 {
      size := 3;
    } else if lead < 0xf8 {
      size := 4;
    } else if lead < 0xfc {
      size := 5;
    } else if lead < 0xfe {
      size := 6;
    } else {
      return INVALID, pos + 1, n - 1;
    }
    if size > n {
      return INVALID, pos + n, 0;
    }
    c := ReadPayload(s, pos, size);
    var truncated;
    size, truncated := FindExtent(s, pos, size);
    pos', n' := pos + size, n - size;
    if truncated {
      return INVALID, pos', n';
    }
    // an encoding that is longer than it need be, or of no character
    if c < MinChar(size) {
      c := INVALID;
    } else if c >= 0xd800 && c <= 0xdfff {
      c := INVALID;
    } else if c >= 0xfffe && c <= 0xffff {
      c := INVALID;
    }
  }

  /** What fromUTF8 returns for the string, character by character. */
  function DecodeAll(s: seq<Byte>): seq<nat> {
    if s == [] then [] else
      var (c, size) := Decode(s);
      [c] + DecodeAll(s[size..])
  }

  predicate Accepted(s: seq<Byte>) {
    INVALID !in DecodeAll(s)
  }

  lemma AcceptedStep(s: seq<Byte>)
    requires s != []
    ensures Accepted(s) <==> Decode(s).0 != INVALID && Accepted(s[Decode(s).1..])
  {
    var rest := DecodeAll(s[Decode(s).1..]);
    assert DecodeAll(s) == [Decode(s).0] + rest;
  }

  method IsUTF8(s: seq<Byte>) returns (ok: bool)
    ensures ok <==> Accepted(s)
  {
    var pos: nat, n: nat := 0, |s|;
    assert s[0..] == s;
    while n > 0
      invariant pos + n == |s|
      invariant Accepted(s) <==> Accepted(s[pos..])
    {
      var c, pos', n' := FromUTF8(s, pos, n);
      AcceptedStep(s[pos..]);
      assert s[pos..][pos' - pos..] == s[pos'..];
      pos, n := pos', n';
      if c == INVALID {
        return false;
      }
    }
    return true;
  }
}
