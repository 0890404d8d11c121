/** Converting UTF-8 to UTF-16 and back, and UTF-16 to UTF-8 and back.
 */
module Utf16RoundTrip {
  import opened Bytes
  import opened Utf8
  import opened Utf8Language
  import opened Utf16

  /** UTF-16 and back. */
  function ThroughUtf16(s: seq<Byte>): seq<Byte> {
    DecodeUtf16(EncodeUtf16(s))
  }

  /** What UTF-16 carries of the characters of a string. */
  function Narrowed(cs: seq<nat>): seq<nat> {
    if cs == [] then [] else [Narrow(cs[0])] + Narrowed(cs[1..])
  }

  /** Values UTF-8 and UTF-16 can both carry as they are. */
  predicate Carried(cs: seq<nat>) {
    AllValid(cs) && forall i | 0 <= i < |cs| :: cs[i] < PLANES
  }

  predicate MarkFirst(cs: seq<nat>) {
    cs != [] && cs[0] == BOM
  }

  /** The values left when a leading byte order mark is taken off. */
  function Unmarked(cs: seq<nat>): seq<nat> {
    if MarkFirst(cs) then cs[1..] else cs
  }

  // ---- words and bytes ----

  lemma {:induction false} WordsOfBytes(ws: seq<Word>)
    ensures WordsOf(BytesOf(ws), false) == ws
    ensures |BytesOf(ws)| == 2 * |ws|
  {
    if ws != [] {
      WordsOfBytes(ws[1..]);
      assert BytesOf(ws)[2..] == BytesOf(ws[1..]);
      assert Decode16(ws[0] % 256, ws[0] / 256, false) == ws[0];
    }
  }

  lemma UnitsJoin(c: nat)
    requires 0x1_0000 <= c < PLANES
    ensures 0xd800 <= Units(c)[0] <= 0xdbff && 0xdc00 <= Units(c)[1] <= 0xdfff
    ensures Join(Units(c)[0], Units(c)[1]) == c
  {}

  /** The words of narrowed values are read back as those values. */
  lemma {:induction false} CodePointsOfUnits(cs: seq<nat>)
    requires forall i | 0 <= i < |cs| :: !Surrogate(cs[i])
    ensures CodePoints(UnitsOf(cs)) == Narrowed(cs)
    ensures Paired(UnitsOf(cs))
  {
    if cs != [] {
      var c := Narrow(cs[0]);
      var rest := UnitsOf(cs[1..]);
      CodePointsOfUnits(cs[1..]);
      if c < 0x1_0000 {
        assert ([c] + rest)[1..] == rest;
      } else {
        UnitsJoin(c);
        assert (Units(c) + rest)[2..] == rest;
      }
    }
  }

  lemma {:induction false} DecodeAllUnits(s: seq<Byte>, i: nat)
    requires i < |DecodeAll(s)|
    ensures Valid(DecodeAll(s)[i]) || DecodeAll(s)[i] == INVALID
    decreases |s|
  {
    var (c, size) := Decode(s);
    if i == 0 {
      if c != INVALID { EncodingDecode(s); }
    } else {
      DecodeAllUnits(s[size..], i - 1);
    }
  }

  lemma {:induction false} NarrowedCarried(cs: seq<nat>)
    requires forall i | 0 <= i < |cs| :: Valid(cs[i]) || cs[i] == INVALID
    ensures Carried(Narrowed(cs)) && |Narrowed(cs)| == |cs|
    ensures cs != [] ==> Narrowed(cs)[0] == Narrow(cs[0])
  {
    if cs != [] {
      NarrowedCarried(cs[1..]);
      assert Valid(Narrow(cs[0]));
    }
  }

  lemma {:induction false} NarrowedSame(cs: seq<nat>)
    requires Carried(cs)
    ensures Narrowed(cs) == cs
  {
    if cs != [] {
      NarrowedSame(cs[1..]);
    }
  }

  /** Whatever the bytes, converting them to UTF-16 and back writes the characters that
      were read, the malformed and the too large ones replaced, without a leading byte
      order mark.  No mark is mistaken for a swapped one. */
  lemma ThroughUtf16Is(s: seq<Byte>)
    ensures var cs := Narrowed(DecodeAll(s));
            && Carried(cs)
            && ThroughUtf16(s) == EncodeAll(Unmarked(cs))
  {
    var ds := DecodeAll(s);
    forall i | 0 <= i < |ds| ensures Valid(ds[i]) || ds[i] == INVALID { DecodeAllUnits(s, i); }
    var cs, ws := Narrowed(ds), UnitsOf(ds);
    NarrowedCarried(ds);
    WordsOfBytes(ws);
    CodePointsOfUnits(ds);
    FirstUnit(ds);
    if ws != [] && ws[0] == BOM {
      assert Ordered(EncodeUtf16(s)) == ws[1..];
      assert CodePoints(ws) == [BOM] + CodePoints(ws[1..]);
      assert CodePoints(ws[1..]) == cs[1..];
    }
  }

  /** The first word tells whether the first character is a byte order mark. */
  lemma FirstUnit(ds: seq<nat>)
    requires forall i | 0 <= i < |ds| :: Valid(ds[i]) || ds[i] == INVALID
    ensures UnitsOf(ds) == [] <==> ds == []
    ensures ds != [] ==> UnitsOf(ds)[0] != SWAPPED_BOM
    ensures ds != [] ==> (UnitsOf(ds)[0] == BOM <==> Narrow(ds[0]) == BOM)
  {
    if ds != [] {
      var c := Narrow(ds[0]);
      assert UnitsOf(ds) == Units(c) + UnitsOf(ds[1..]);
      if c >= 0x1_0000 { UnitsJoin(c); }
    }
  }

  // ---- UTF-8 to UTF-16 to UTF-8 ----

  lemma {:induction false} EncodeAllInjective(a: seq<nat>, b: seq<nat>)
    requires AllValid(a) && AllValid(b) && EncodeAll(a) == EncodeAll(b)
    ensures a == b
  {
    DecodeEncodeAll(a);
    ReadBackValid(a);
    DecodeEncodeAll(b);
    ReadBackValid(b);
  }

  lemma {:induction false} NarrowedDiffers(cs: seq<nat>, i: nat)
    requires i < |cs|
    ensures |Narrowed(cs)| == |cs| && Narrowed(cs)[i] == Narrow(cs[i])
  {
    if i > 0 {
      NarrowedDiffers(cs[1..], i - 1);
    } else if |cs| > 1 {
      NarrowedDiffers(cs[1..], 0);
    }
  }

  /** An accepted string survives the trip through UTF-16 exactly when its characters are
      all within UTF-16 and it does not begin with a byte order mark. */
  lemma ThroughUtf16Preserves(s: seq<Byte>)
    requires Accepted(s)
    ensures ThroughUtf16(s) == s <==>
            (forall i | 0 <= i < |DecodeAll(s)| :: DecodeAll(s)[i] < PLANES) && !MarkFirst(DecodeAll(s))
  {
    var ds := DecodeAll(s);
    var cs := Narrowed(ds);
    EncodeDecodeAll(s);
    ThroughUtf16Is(s);
    if (forall i | 0 <= i < |ds| :: ds[i] < PLANES) && !MarkFirst(ds) {
      NarrowedSame(ds);
    }
    if ThroughUtf16(s) == s {
      EncodeAllInjective(Unmarked(cs), ds);
      forall i | 0 <= i < |ds| ensures cs[i] == Narrow(ds[i]) && |cs| == |ds| { NarrowedDiffers(ds, i); }
      assert !MarkFirst(cs);
      assert cs == ds;
    }
  }

  /** Whatever the bytes, what comes back from UTF-16 is UTF-8 that isUTF8 accepts. */
  lemma ThroughUtf16Accepted(s: seq<Byte>)
    ensures Accepted(ThroughUtf16(s))
    ensures DecodeAll(ThroughUtf16(s)) == Unmarked(Narrowed(DecodeAll(s)))
  {
    ThroughUtf16Is(s);
    var cs := Unmarked(Narrowed(DecodeAll(s)));
    DecodeEncodeAll(cs);
    ReadBackValid(cs);
  }

  /** A second trip changes nothing more, except that it takes off another leading byte
      order mark if there is one. */
  lemma ThroughUtf16Idempotent(s: seq<Byte>)
    ensures var t := ThroughUtf16(s);
            ThroughUtf16(t) == t <==> !MarkFirst(DecodeAll(t))
  {
    var t := ThroughUtf16(s);
    ThroughUtf16Is(s);
    ThroughUtf16Accepted(s);
    ThroughUtf16Preserves(t);
  }

  // ---- the size of the output ----

  lemma {:induction false} UnitsPerByte(s: seq<Byte>)
    ensures |UnitsOf(DecodeAll(s))| <= |s|
    decreases |s|
  {
    if s != [] {
      var (c, size) := Decode(s);
      UnitsPerByte(s[size..]);
      if Narrow(c) >= 0x1_0000 {
        EncodingDecode(s);
      }
    }
  }

  /** UTF8ToUTF16 never outgrows the 2 * n bytes it reserves. */
  lemma OutputFitsReserve(s: seq<Byte>)
    ensures |EncodeUtf16(s)| <= 2 * |s|
  {
    UnitsPerByte(s);
    WordsOfBytes(UnitsOf(DecodeAll(s)));
  }

  // ---- UTF-16 to UTF-8 to UTF-16 ----

  /** What UTF-16 data becomes is accepted UTF-8 exactly when no value in it is one of
      those isUTF8 refuses. */
  lemma FromUtf16Accepted(data: seq<Byte>)
    ensures Accepted(DecodeUtf16(data)) <==> AllValid(CodePoints(Ordered(data)))
  {
    CodePointsWritable(Ordered(data));
    DecodeEncodeAll(CodePoints(Ordered(data)));
    ReadBackValid(CodePoints(Ordered(data)));
  }

  lemma JoinUnits(high: Word, low: Word)
    requires 0xd800 <= high <= 0xdbff && 0xdc00 <= low <= 0xdfff
    ensures Units(Join(high, low)) == [high, low]
  {
    var c := (high - 0xd800) * 1024 + (low - 0xdc00);
    assert c / 1024 == high - 0xd800 && c % 1024 == low - 0xdc00;
  }

  /** Well-paired words are the units of the values they stand for. */
  lemma {:induction false} UnitsOfCodePoints(ws: seq<Word>)
    requires Paired(ws) && AllValid(CodePoints(ws))
    ensures UnitsOf(CodePoints(ws)) == ws
    decreases |ws|
  {
    if ws != [] {
      var cs := CodePoints(ws);
      var width := if Surrogate(ws[0]) then 2 else 1;
      assert cs == [cs[0]] + CodePoints(ws[width..]);
      assert cs[1..] == CodePoints(ws[width..]);
      UnitsOfCodePoints(ws[width..]);
      assert ws == ws[..width] + ws[width..];
      if width == 2 {
        JoinUnits(ws[0], ws[1]);
        assert ws[..2] == [ws[0], ws[1]];
      } else {
        assert ws[..1] == [ws[0]];
      }
    }
  }

  /** Reading words and writing what was read takes no more words than there were. */
  lemma {:induction false} UnitsNoLonger(ws: seq<Word>)
    ensures |UnitsOf(ReadBack(CodePoints(ws)))| <= |ws|
    decreases |ws|
  {
    if ws != [] {
      var cs := CodePoints(ws);
      var width := if Surrogate(ws[0]) && ws[0] <= 0xdbff && |ws| > 1 then 2 else 1;
      assert cs == [cs[0]] + CodePoints(ws[width..]);
      UnitsNoLonger(ws[width..]);
      var first := if Valid(cs[0]) then cs[0] else INVALID;
      assert ReadBack(cs) == [first] + ReadBack(CodePoints(ws[width..]));
      assert UnitsOf(ReadBack(cs)) == Units(Narrow(first)) + UnitsOf(ReadBack(CodePoints(ws[width..])));
    }
  }

  /** What the data reads as once it is UTF-8. */
  lemma ReadAsUtf8(data: seq<Byte>)
    ensures DecodeAll(DecodeUtf16(data)) == ReadBack(CodePoints(Ordered(data)))
  {
    CodePointsWritable(Ordered(data));
    DecodeEncodeAll(CodePoints(Ordered(data)));
  }

  /** Words written for any string are well paired and stand for values isUTF8 admits. */
  lemma WrittenWellFormed(s: seq<Byte>)
    ensures var ws := UnitsOf(DecodeAll(s)); Paired(ws) && AllValid(CodePoints(ws))
  {
    var ds := DecodeAll(s);
    forall i | 0 <= i < |ds| ensures Valid(ds[i]) || ds[i] == INVALID { DecodeAllUnits(s, i); }
    CodePointsOfUnits(ds);
    NarrowedCarried(ds);
  }

  /** A byte order mark is not written back. */
  lemma MarkIsLost(ws: seq<Word>)
    requires ws != [] && ws[0] == BOM
    ensures |UnitsOf(DecodeAll(DecodeUtf16(BytesOf(ws))))| < |ws|
  {
    WordsOfBytes(ws);
    assert Ordered(BytesOf(ws)) == ws[1..];
    ReadAsUtf8(BytesOf(ws));
    UnitsNoLonger(ws[1..]);
  }

  /** UTF-16 data comes back from UTF-8 unchanged exactly when its surrogates are paired,
      isUTF8 admits its values, and it does not begin with a byte order mark. */
  lemma ThroughUtf8Preserves(ws: seq<Word>)
    ensures EncodeUtf16(DecodeUtf16(BytesOf(ws))) == BytesOf(ws) <==>
            Paired(ws) && AllValid(CodePoints(ws)) && (ws != [] ==> ws[0] != BOM)
  {
    var t := DecodeUtf16(BytesOf(ws));
    if EncodeUtf16(t) == BytesOf(ws) {
      WordsOfBytes(ws);
      WordsOfBytes(UnitsOf(DecodeAll(t)));
      WrittenWellFormed(t);
      if ws != [] && ws[0] == BOM { MarkIsLost(ws); }
    }
    if Paired(ws) && AllValid(CodePoints(ws)) && (ws != [] ==> ws[0] != BOM) {
      WordsOfBytes(ws);
      assert ws != [] ==> (ws[0] == SWAPPED_BOM ==> CodePoints(ws)[0] == SWAPPED_BOM);
      assert Ordered(BytesOf(ws)) == ws;
      ReadAsUtf8(BytesOf(ws));
      ReadBackValid(CodePoints(ws));
      UnitsOfCodePoints(ws);
    }
  }
}
