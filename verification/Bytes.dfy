/** Bytes, and the big-endian 32-bit integers of IClipboard.cpp.
 */
module Bytes {

  type Byte = b: int | 0 <= b < 256

  const UINT32: nat := 0x1_0000_0000

  /** The last n base-256 digits of a value, most significant first. */
  function Digits(v: nat, n: nat): (r: seq<Byte>)
    ensures |r| == n
  {
    if n == 0 then [] else Digits(v / 256, n - 1) + [v % 256]
  }

  /** writeUInt32: what is appended for the value, truncated to 32 bits. */
  function Write32(v: nat): (r: seq<Byte>)
    ensures |r| == 4
  {
    Digits(v, 4)
  }

  /** readUInt32 at a position. */
  function Read32(s: seq<Byte>, pos: nat): (v: nat)
    requires pos + 4 <= |s|
    ensures v < UINT32
  {
    (s[pos] as nat) * 0x100_0000 + (s[pos + 1] as nat) * 0x1_0000 + (s[pos + 2] as nat) * 256 + s[pos + 3]
  }

  lemma DigitsAre(v: nat)
    ensures Digits(v, 4) == [v / 256 / 256 / 256 % 256, v / 256 / 256 % 256, v / 256 % 256, v % 256]
  {
    assert Digits(v / 256, 3) == Digits(v / 256 / 256, 2) + [v / 256 % 256];
    assert Digits(v / 256 / 256, 2) == Digits(v / 256 / 256 / 256, 1) + [v / 256 / 256 % 256];
    assert Digits(v / 256 / 256 / 256, 1) == [v / 256 / 256 / 256 % 256];
  }

  /** Four digits are the last four. */
  lemma FourDigits(v: nat)
    ensures v == v / 256 / 256 / 256 / 256 * UINT32 + v / 256 / 256 / 256 % 256 * 0x100_0000
                 + v / 256 / 256 % 256 * 0x1_0000 + v / 256 % 256 * 256 + v % 256
  {
    var q1 := v / 256;
    var q2 := q1 / 256;
    var q3 := q2 / 256;
    assert q3 == q3 / 256 * 256 + q3 % 256;
  }

  lemma Remainder(v: nat, q: nat, r: nat)
    requires v == q * UINT32 + r && r < UINT32
    ensures v % UINT32 == r
  {
  }

  /** What is written is read back, modulo 2^32. */
  lemma ReadWrite32(v: nat, s: seq<Byte>, pos: nat)
    requires pos + 4 <= |s| && s[pos..pos + 4] == Write32(v)
    ensures Read32(s, pos) == v % UINT32
  {
    var w := s[pos..pos + 4];
    DigitsAre(v);
    assert s[pos] == w[0] && s[pos + 1] == w[1] && s[pos + 2] == w[2] && s[pos + 3] == w[3];
    FourDigits(v);
    Remainder(v, v / 256 / 256 / 256 / 256, Read32(s, pos));
  }

  /** A value cut to 32 bits. */
  function Low32(v: nat): (r: nat)
    ensures r < UINT32
    ensures v < UINT32 ==> r == v
  {
    if v < UINT32 then v else Low32(v - UINT32)
  }

  lemma {:induction false} Low32IsModulo(v: nat)
    ensures Low32(v) == v % UINT32
  {
    if v >= UINT32 {
      Low32IsModulo(v - UINT32);
    }
  }

  lemma ReadWritten(v: nat, s: seq<Byte>, pos: nat)
    requires v < UINT32
    requires pos + 4 <= |s| && s[pos..pos + 4] == Write32(v)
    ensures Read32(s, pos) == v
  {
    ReadWrite32(v, s, pos);
  }
}
