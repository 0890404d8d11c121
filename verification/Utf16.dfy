/** UTF-16 as Unicode.cpp writes and reads it on a little-endian host (sections 2.1 and
    2.2 of RFC 2781), and its conversions to and from UTF-8.
 */
module Utf16 {
  import opened Bytes
  import opened Utf8
  import opened Utf8Language

  type Word = w: int | 0 <= w < 0x1_0000

  const BOM: nat := 0xfeff
  const SWAPPED_BOM: nat := 0xfffe
  const PLANES: nat := 0x11_0000

  /** What UTF-16 can carry of a value fromUTF8 returns. */
  function Narrow(c: nat): (r: nat)
    ensures r < PLANES
    ensures r == c || r == REPLACEMENT
  {
    if c == INVALID || c >= PLANES then REPLACEMENT else c
  }

  function Units(c: nat): (r: seq<Word>)
    requires c < PLANES
  {
    if c < 0x1_0000 then [c] else [(c - 0x1_0000) / 1024 + 0xd800, (c - 0x1_0000) % 1024 + 0xdc00]
  }

  function UnitsOf(cs: seq<nat>): seq<Word> {
    if cs == [] then [] else Units(Narrow(cs[0])) + UnitsOf(cs[1..])
  }

  /** A word as bytes in memory. */
  function WordBytes(w: Word): seq<Byte> {
    [w % 256, w / 256]
  }

  function BytesOf(ws: seq<Word>): seq<Byte> {
    if ws == [] then [] else WordBytes(ws[0]) + BytesOf(ws[1..])
  }

  predicate TooWide(cs: seq<nat>) {
    exists i | 0 <= i < |cs| :: cs[i] >= PLANES
  }

  function EncodeUtf16(s: seq<Byte>): seq<Byte> {
    BytesOf(UnitsOf(DecodeAll(s)))
  }

  lemma {:induction false} UnitsOfConcat(a: seq<nat>, b: seq<nat>)
    ensures UnitsOf(a + b) == UnitsOf(a) + UnitsOf(b)
  {
    if a == [] {
      assert a + b == b;
    } else {
      assert (a + b)[1..] == a[1..] + b;
      UnitsOfConcat(a[1..], b);
    }
  }

  lemma {:induction false} BytesOfConcat(a: seq<Word>, b: seq<Word>)
    ensures BytesOf(a + b) == BytesOf(a) + BytesOf(b)
  {
    if a == [] {
      assert a + b == b;
    } else {
      assert (a + b)[1..] == a[1..] + b;
      BytesOfConcat(a[1..], b);
    }
  }

  lemma WriteStep(read: seq<nat>, c: nat)
    ensures BytesOf(UnitsOf(read + [c])) == BytesOf(UnitsOf(read)) + BytesOf(Units(Narrow(c)))
  {
    UnitsOfConcat(read, [c]);
    assert [c][1..] == [];
    assert UnitsOf([c]) == Units(Narrow(c)) + [];
    assert UnitsOf([c]) == Units(Narrow(c));
    BytesOfConcat(UnitsOf(read), Units(Narrow(c)));
  }

  lemma WideStep(read: seq<nat>, c: nat)
    ensures TooWide(read + [c]) <==> TooWide(read) || c >= PLANES
  {
    if TooWide(read) {
      var i :| 0 <= i < |read| && read[i] >= PLANES;
      assert (read + [c])[i] >= PLANES;
    }
    assert (read + [c])[|read|] == c;
  }

  lemma UnitBytes(c: nat)
    requires c < PLANES
    ensures c < 0x1_0000 ==> BytesOf(Units(c)) == WordBytes(c)
    ensures c >= 0x1_0000 ==>
              BytesOf(Units(c)) == WordBytes((c - 0x1_0000) / 1024 + 0xd800)
                                   + WordBytes((c - 0x1_0000) % 1024 + 0xdc00)
  {
    var ws := Units(c);
    assert BytesOf([]) == [];
    if c >= 0x1_0000 {
      assert ws[1..] == [ws[1]];
      assert BytesOf([ws[1]]) == WordBytes(ws[1]) + BytesOf([]);
    }
  }

  /** UTF8ToUTF16 has read `read`, up to `pos`, and written it. */
  ghost predicate Written(src: seq<Byte>, pos: nat, read: seq<nat>, dst: seq<Byte>, errors: bool) {
    && pos <= |src|
    && DecodeAll(src) == read + DecodeAll(src[pos..])
    && dst == BytesOf(UnitsOf(read))
    && (errors <==> TooWide(read))
  }

  lemma ReadStep(s: seq<Byte>, pos: nat, c: nat, pos': nat)
    requires pos < |s| && (c, pos' - pos) == Decode(s[pos..])
    ensures pos' <= |s| && DecodeAll(s[pos..]) == [c] + DecodeAll(s[pos'..])
  {
    assert s[pos..][pos' - pos..] == s[pos'..];
  }

  lemma Regroup(read: seq<nat>, c: nat, rest: seq<nat>)
    ensures (read + [c]) + rest == read + ([c] + rest)
  {
  }

  lemma WrittenStep(src: seq<Byte>, pos: nat, read: seq<nat>, dst: seq<Byte>, errors: bool, c: nat, pos': nat)
    requires Written(src, pos, read, dst, errors) && pos < pos' <= |src|
    requires DecodeAll(src[pos..]) == [c] + DecodeAll(src[pos'..])
    ensures Written(src, pos', read + [c], dst + BytesOf(Units(Narrow(c))), errors || c >= PLANES)
  {
    WriteStep(read, c);
    WideStep(read, c);
    Regroup(read, c, DecodeAll(src[pos'..]));
  }

  /** Appends one character, replacing what UTF-16 cannot carry. */
  method AppendUtf16(before: seq<Byte>, value: nat, failed: bool) returns (dst: seq<Byte>, errors: bool)
    ensures dst == before + BytesOf(Units(Narrow(value)))
    ensures errors == (failed || value >= PLANES)
  {
    var c := value;
    dst, errors := before, failed;
    UnitBytes(Narrow(value));
    if c == INVALID {
      c := REPLACEMENT;
    } else if c >= PLANES {
      errors := true;
      c := REPLACEMENT;
    }
    if c < 0x1_0000 {
      dst := dst + WordBytes(c);
    } else {
      c := c - 0x1_0000;
      dst := dst + WordBytes(c / 1024 + 0xd800);
      dst := dst + WordBytes(c % 1024 + 0xdc00);
    }
  }

  /** UTF8ToUTF16.  It reports an error exactly when some character is beyond UTF-16;
      malformed input is replaced silently. */
  method UTF8ToUTF16(src: seq<Byte>) returns (dst: seq<Byte>, errors: bool)
    ensures dst == EncodeUtf16(src)
    ensures errors <==> TooWide(DecodeAll(src))
  {
    dst, errors := [], false;
    var pos: nat, n: nat := 0, |src|;
    ghost var read: seq<nat> := [];
    assert src[0..] == src;
    while n > 0
      invariant pos + n == |src|
      invariant Written(src, pos, read, dst, errors)
    {
      var c, pos', n' := FromUTF8(src, pos, n);
      ReadStep(src, pos, c, pos');
      WrittenStep(src, pos, read, dst, errors, c, pos');
      dst, errors := AppendUtf16(dst, c, errors);
      read, pos, n := read + [c], pos', n';
    }
    assert read + [] == read;
  }

  // ---- reading ----

  /** decode16 */
  function Decode16(lo: Byte, hi: Byte, swapped: bool): Word {
    if swapped then hi + 256 * lo else lo + 256 * hi
  }

  /** The words of the data, without an odd last byte. */
  function WordsOf(data: seq<Byte>, swapped: bool): seq<Word> {
    if |data| < 2 then [] else [Decode16(data[0], data[1], swapped)] + WordsOf(data[2..], swapped)
  }

  function Join(high: Word, low: Word): (c: nat)
    requires 0xd800 <= high <= 0xdbff && 0xdc00 <= low <= 0xdfff
    ensures 0x1_0000 <= c < PLANES
  {
    (high - 0xd800) * 1024 + (low - 0xdc00) + 0x1_0000
  }

  /** The values of a word sequence.  A word without its partner becomes the replacement
      character; a leading surrogate takes the word after it with it, whatever it is. */
  function CodePoints(ws: seq<Word>): seq<nat> {
    if ws == [] then []
    else if !Surrogate(ws[0]) then [ws[0]] + CodePoints(ws[1..])
    else if |ws| == 1 then [REPLACEMENT]
    else if ws[0] <= 0xdbff then
      [if 0xdc00 <= ws[1] <= 0xdfff then Join(ws[0], ws[1]) else REPLACEMENT] + CodePoints(ws[2..])
    else [REPLACEMENT] + CodePoints(ws[1..])
  }

  /** Every surrogate is one of a pair. */
  predicate Paired(ws: seq<Word>) {
    if ws == [] then true
    else if !Surrogate(ws[0]) then Paired(ws[1..])
    else |ws| >= 2 && ws[0] <= 0xdbff && 0xdc00 <= ws[1] <= 0xdfff && Paired(ws[2..])
  }

  lemma {:induction false} CodePointsWritable(ws: seq<Word>)
    ensures AllWritable(CodePoints(ws))
    ensures forall i | 0 <= i < |CodePoints(ws)| :: CodePoints(ws)[i] < PLANES
    decreases |ws|
  {
    if ws != [] && !Surrogate(ws[0]) {
      CodePointsWritable(ws[1..]);
    } else if |ws| > 1 && ws[0] <= 0xdbff {
      CodePointsWritable(ws[2..]);
    } else if |ws| > 1 {
      CodePointsWritable(ws[1..]);
    }
  }

  /** The words to convert, once a byte order mark is taken off and obeyed. */
  function Ordered(data: seq<Byte>): seq<Word> {
    var ws := WordsOf(data, false);
    if ws == [] then []
    else if ws[0] == BOM then ws[1..]
    else if ws[0] == SWAPPED_BOM then WordsOf(data, true)[1..]
    else ws
  }

  function DecodeUtf16(data: seq<Byte>): seq<Byte> {
    CodePointsWritable(Ordered(data));
    EncodeAll(CodePoints(Ordered(data)))
  }

  lemma {:induction false} WordsOfDrop(data: seq<Byte>, swapped: bool, k: nat)
    requires 2 * k <= |data|
    ensures k <= |WordsOf(data, swapped)| == |data| / 2
    ensures WordsOf(data, swapped)[k..] == WordsOf(data[2 * k..], swapped)
  {
    if |data| >= 2 {
      WordsOfDrop(data[2..], swapped, if k == 0 then 0 else k - 1);
      assert k > 0 ==> data[2..][2 * (k - 1)..] == data[2 * k..];
      assert k == 0 ==> data[2 * k..] == data;
    } else {
      assert data[2 * k..] == data;
    }
  }

  /** The words from a position on. */
  function Rest(src: seq<Byte>, pos: nat, swapped: bool): seq<Word>
    requires pos <= |src|
  {
    WordsOf(src[pos..], swapped)
  }

  lemma RestStep(src: seq<Byte>, pos: nat, swapped: bool)
    requires pos + 2 <= |src|
    ensures Rest(src, pos, swapped)
            == [Decode16(src[pos], src[pos + 1], swapped)] + Rest(src, pos + 2, swapped)
    ensures |Rest(src, pos, swapped)| == (|src| - pos) / 2
  {
    assert src[pos..][2..] == src[pos + 2..];
    WordsOfDrop(src[pos..], swapped, 0);
  }

  /** The words to convert, as the start of doUTF16ToUTF8 finds them. */
  lemma OrderedRest(src: seq<Byte>)
    ensures |src| < 2 ==> Ordered(src) == [] == Rest(src, 0, false)
    ensures |src| >= 2 ==>
              var first := Decode16(src[0], src[1], false);
              Ordered(src) == if first == BOM then Rest(src, 2, false)
                              else if first == SWAPPED_BOM then Rest(src, 2, true)
                              else Rest(src, 0, false)
  {
    assert src[0..] == src;
    if |src| >= 2 {
      RestStep(src, 0, false);
      RestStep(src, 0, true);
    }
  }

  /** One turn of doUTF16ToUTF8's loop reads a value, from one word or from two. */
  method ReadUtf16(src: seq<Byte>, pos: nat, n: nat, swapped: bool)
    returns (v: nat, pos': nat, n': nat, bad: bool)
    requires 0 < n && pos <= |src| && n == (|src| - pos) / 2
    ensures pos < pos' <= |src| && n' == (|src| - pos') / 2 && n' < n
    ensures CodePoints(Rest(src, pos, swapped)) == [v] + CodePoints(Rest(src, pos', swapped))
    ensures Paired(Rest(src, pos, swapped)) <==> !bad && Paired(Rest(src, pos', swapped))
  {
    pos', n', bad := pos, n, false;
    RestStep(src, pos, swapped);
    var c := Decode16(src[pos], src[pos + 1], swapped);
    if c < 0xd800 || c > 0xdfff {
      v := c;
    } else if n == 1 {
      // a pair cut short
      bad := true;
      v := REPLACEMENT;
      assert Rest(src, pos + 2, swapped) == [];
    } else if c >= 0xd800 && c <= 0xdbff {
      pos', n' := pos' + 2, n' - 1;
      RestStep(src, pos', swapped);
      var c2 := Decode16(src[pos'], src[pos' + 1], swapped);
      if c2 < 0xdc00 || c2 > 0xdfff {
        // a first half without its second
        bad := true;
        v := REPLACEMENT;
      } else {
        v := (c - 0xd800) * 1024 + (c2 - 0xdc00) + 0x1_0000;
      }
      assert Rest(src, pos, swapped)[2..] == Rest(src, pos + 4, swapped);
    } else {
      // a second half without its first
      bad := true;
      v := REPLACEMENT;
    }
    pos', n' := pos' + 2, n' - 1;
  }

  /** Writing the next of the values to be written. */
  lemma WriteNext(all: seq<nat>, cs: seq<nat>, left: seq<nat>, v: nat, left': seq<nat>)
    requires AllWritable(all) && all == cs + left && left == [v] + left'
    ensures all == (cs + [v]) + left'
    ensures v < LIMIT && !Surrogate(v) && AllWritable(cs) && AllWritable(cs + [v])
    ensures EncodeAll(cs + [v]) == EncodeAll(cs) + Encoding(v)
  {
    assert all[|cs|] == v;
    assert forall i | 0 <= i < |cs| :: cs[i] == all[i];
    WriteUtf8Step(cs, v);
  }

  /** Takes a byte order mark off and notes what it says. */
  method TakeMark(src: seq<Byte>) returns (pos: nat, n: nat, swapped: bool)
    ensures pos <= |src| && n == (|src| - pos) / 2
    ensures Rest(src, pos, swapped) == Ordered(src)
  {
    pos, n, swapped := 0, |src| / 2, false;
    OrderedRest(src);
    // a mark in either byte order is skipped
    if n >= 1 {
      var first := Decode16(src[0], src[1], false);
      if first == BOM {
        pos, n := 2, n - 1;
      } else if first == SWAPPED_BOM {
        swapped := true;
        pos, n := 2, n - 1;
      }
    }
  }

  /** UTF16ToUTF8, which is doUTF16ToUTF8 on the whole words.  It reports an error exactly
      when some surrogate is not one of a pair. */
  method UTF16ToUTF8(src: seq<Byte>) returns (dst: seq<Byte>, errors: bool)
    ensures dst == DecodeUtf16(src)
    ensures errors <==> !Paired(Ordered(src))
  {
    dst, errors := [], false;
    var pos: nat, n: nat, swapped := TakeMark(src);
    ghost var ws := Ordered(src);
    ghost var all, cs: seq<nat> := CodePoints(ws), [];
    CodePointsWritable(ws);
    while n > 0
      invariant pos <= |src| && n == (|src| - pos) / 2
      invariant AllWritable(cs) && dst == EncodeAll(cs)
      invariant all == cs + CodePoints(Rest(src, pos, swapped))
      invariant Paired(ws) <==> !errors && Paired(Rest(src, pos, swapped))
    {
      var v, pos', n', bad := ReadUtf16(src, pos, n, swapped);
      WriteNext(all, cs, CodePoints(Rest(src, pos, swapped)), v, CodePoints(Rest(src, pos', swapped)));
      if bad {
        errors := true;
      }
      dst, errors := ToUTF8(dst, v, errors);
      cs, pos, n := cs + [v], pos', n';
    }
    NoWords(src, pos, swapped);
    assert cs + [] == cs;
  }

  lemma NoWords(src: seq<Byte>, pos: nat, swapped: bool)
    requires pos <= |src| < pos + 2
    ensures Rest(src, pos, swapped) == []
  {}

  lemma WriteUtf8Step(cs: seq<nat>, v: nat)
    requires AllWritable(cs) && v < LIMIT && !Surrogate(v)
    ensures AllWritable(cs + [v]) && EncodeAll(cs + [v]) == EncodeAll(cs) + Encoding(v)
  {
    EncodeConcat(cs, [v]);
    assert [v][1..] == [];
    assert EncodeAll([v]) == Encoding(v) + [];
  }
}
