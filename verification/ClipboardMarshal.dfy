/** The marshalled form of a clipboard (IClipboard.cpp): the number of formats, then for
    each its id, its size and its data.  Format ids are unsigned.
 */
module ClipboardMarshal {
  import opened Bytes

  /** Format: text, HTML and bitmap. */
  const FORMATS: nat := 3
  const BITMAP: nat := 2

  /** What a clipboard holds: which formats, and the data of each. */
  datatype Content = Content(added: seq<bool>, data: seq<seq<Byte>>) {
    ghost predicate Valid() {
      && |added| == FORMATS && |data| == FORMATS
      && forall f | 0 <= f < FORMATS :: !added[f] ==> data[f] == []
    }
  }

  const EMPTY: Content := Content([false, false, false], [[], [], []])

  /** add() */
  function With(c: Content, format: nat, data: seq<Byte>): Content
    requires c.Valid() && format < FORMATS
  {
    Content(c.added[format := true], c.data[format := data])
  }

  // ---- marshalling ----

  /** One format: its id, its size and its data. */
  function PartOf(format: nat, data: seq<Byte>): seq<Byte> {
    Write32(format) + Write32(|data|) + data
  }

  function Part(c: Content, f: nat): seq<Byte>
    requires c.Valid() && f < FORMATS
  {
    if c.added[f] then PartOf(f, c.data[f]) else []
  }

  function PartsFrom(c: Content, f: nat): (r: seq<Byte>)
    requires c.Valid() && f <= FORMATS
    ensures |r| == SizeFrom(c, f)
    decreases FORMATS - f
  {
    if f == FORMATS then [] else Part(c, f) + PartsFrom(c, f + 1)
  }

  function SizeFrom(c: Content, f: nat): nat
    requires c.Valid() && f <= FORMATS
    decreases FORMATS - f
  {
    if f == FORMATS then 0 else (if c.added[f] then 8 + |c.data[f]| else 0) + SizeFrom(c, f + 1)
  }

  function CountFrom(c: Content, f: nat): nat
    requires c.Valid() && f <= FORMATS
    decreases FORMATS - f
  {
    if f == FORMATS then 0 else (if c.added[f] then 1 else 0) + CountFrom(c, f + 1)
  }

  function Marshalled(c: Content): (r: seq<Byte>)
    requires c.Valid()
    ensures |r| == 4 + SizeFrom(c, 0)
  {
    Write32(CountFrom(c, 0)) + PartsFrom(c, 0)
  }

  // ---- unmarshalling ----

  /** Reading `n` formats from position `pos` on into a clipboard.  It stops at the first
      entry that is cut short; a size is compared with what is left cut to 32 bits, and
      entries of unknown formats are passed over. */
  function ReadOn(c: Content, d: seq<Byte>, pos: nat, n: nat): (r: Content)
    requires c.Valid() && pos <= |d|
    ensures r.Valid()
    decreases n
  {
    if n == 0 || |d| - pos < 8 then c
    else
      var format, size := Read32(d, pos), Read32(d, pos + 4);
      if size > Low32(|d| - (pos + 8)) then c
      else ReadOn(if format < FORMATS then With(c, format, d[pos + 8..pos + 8 + size]) else c,
                  d, pos + 8 + size, n - 1)
  }

  function Parsed(d: seq<Byte>): (r: Content)
    ensures r.Valid()
  {
    if |d| < 4 then EMPTY else ReadOn(EMPTY, d, 4, Read32(d, 0))
  }

  // ---- the round trip ----

  /** One format reads back when its size fits the 32-bit field and is at most what is
      left of the buffer, which the reader cuts to 32 bits. */
  ghost predicate Fits(c: Content, f: nat)
    requires c.Valid() && f < FORMATS
  {
    FitsBefore(c.data[f], SizeFrom(c, f + 1))
  }

  ghost predicate FitsBefore(data: seq<Byte>, left: nat) {
    |data| < UINT32 && |data| <= Low32(|data| + left)
  }

  ghost predicate Readable(c: Content)
    requires c.Valid()
  {
    forall f: nat | f < FORMATS && c.added[f] :: Fits(c, f)
  }

  ghost predicate Sized(c: Content)
    requires c.Valid()
  {
    forall f | 0 <= f < FORMATS :: |c.data[f]| < UINT32
  }

  lemma SliceOfSlice(d: seq<Byte>, lo: nat, hi: nat, i: nat, j: nat)
    requires lo <= hi <= |d| && i <= j <= hi - lo
    ensures d[lo..hi][i..j] == d[lo + i..lo + j]
  {
    var a, b := d[lo..hi][i..j], d[lo + i..lo + j];
    assert forall k | 0 <= k < |a| :: a[k] == b[k];
  }

  lemma PartAt(a: seq<Byte>, b: seq<Byte>, data: seq<Byte>, d: seq<Byte>, pos: nat)
    requires |a| == 4 && |b| == 4
    requires pos + 8 + |data| <= |d| && d[pos..pos + 8 + |data|] == a + b + data
    ensures d[pos..pos + 4] == a && d[pos + 4..pos + 8] == b && d[pos + 8..pos + 8 + |data|] == data
  {
    var part := a + b + data;
    assert part[..4] == a && part[4..8] == b && part[8..] == data;
    SliceOfSlice(d, pos, pos + 8 + |data|, 0, 4);
    SliceOfSlice(d, pos, pos + 8 + |data|, 4, 8);
    SliceOfSlice(d, pos, pos + 8 + |data|, 8, 8 + |data|);
  }

  lemma HeaderAt(format: nat, data: seq<Byte>, d: seq<Byte>, pos: nat)
    requires format < UINT32 && |data| < UINT32
    requires pos + 8 + |data| <= |d| && d[pos..pos + 8 + |data|] == PartOf(format, data)
    ensures d[pos + 8..pos + 8 + |data|] == data
    ensures Read32(d, pos) == format && Read32(d, pos + 4) == |data|
  {
    PartAt(Write32(format), Write32(|data|), data, d, pos);
    ReadWritten(format, d, pos);
    ReadWritten(|data|, d, pos + 4);
  }

  lemma SplitAt(d: seq<Byte>, pos: nat, part: seq<Byte>, rest: seq<Byte>)
    requires pos <= |d| && d[pos..] == part + rest
    ensures |d| == pos + |part| + |rest|
    ensures d[pos..pos + |part|] == part && d[pos + |part|..] == rest
  {
    assert d[pos..][..|part|] == part && d[pos..][|part|..] == rest;
    assert d[pos..][..|part|] == d[pos..pos + |part|];
    assert d[pos..][|part|..] == d[pos + |part|..];
  }

  function PartSize(c: Content, f: nat): nat
    requires c.Valid() && f < FORMATS
  {
    if c.added[f] then 8 + |c.data[f]| else 0
  }

  /** The entry of format `f` stands at `pos`, if the format is present. */
  ghost predicate PartIsAt(c: Content, f: nat, d: seq<Byte>, pos: nat)
    requires c.Valid() && f < FORMATS
  {
    && pos + PartSize(c, f) <= |d|
    && (c.added[f] ==>
          && d[pos + 8..pos + 8 + |c.data[f]|] == c.data[f]
          && Read32(d, pos) == f && Read32(d, pos + 4) == |c.data[f]|)
  }

  lemma NextPart(c: Content, f: nat, d: seq<Byte>, pos: nat, rest: seq<Byte>)
    requires c.Valid() && f < FORMATS && Sized(c)
    requires pos <= |d| && d[pos..] == Part(c, f) + rest
    ensures PartIsAt(c, f, d, pos) && d[pos + PartSize(c, f)..] == rest
  {
    SplitAt(d, pos, Part(c, f), rest);
    if c.added[f] {
      HeaderAt(f, c.data[f], d, pos);
    }
  }

  /** What is to be written from each format on. */
  ghost predicate Suffixes(c: Content, parts: seq<seq<Byte>>)
    requires c.Valid()
  {
    && |parts| == FORMATS + 1 && parts[FORMATS] == []
    && forall f | 0 <= f < FORMATS :: parts[f] == Part(c, f) + parts[f + 1]
  }

  lemma PartsAreSuffixes(c: Content) returns (parts: seq<seq<Byte>>)
    requires c.Valid()
    ensures Suffixes(c, parts) && parts[0] == PartsFrom(c, 0)
  {
    parts := [PartsFrom(c, 0), PartsFrom(c, 1), PartsFrom(c, 2), []];
    assert PartsFrom(c, 3) == [];
  }

  /** The formats below `f` stand at these positions, and the next one at the last. */
  ghost predicate Laid(c: Content, f: nat, d: seq<Byte>, at: seq<nat>)
    requires c.Valid() && f <= FORMATS
  {
    && |at| == f + 1
    && forall g: nat {:trigger PartIsAt(c, g, d, at[g])} | g < f ::
         PartIsAt(c, g, d, at[g]) && at[g + 1] == at[g] + PartSize(c, g)
  }

  lemma LaidNext(c: Content, f: nat, d: seq<Byte>, at: seq<nat>, next: nat)
    requires c.Valid() && f < FORMATS && Laid(c, f, d, at)
    requires PartIsAt(c, f, d, at[f]) && next == at[f] + PartSize(c, f)
    ensures Laid(c, f + 1, d, at + [next])
  {
    forall g: nat | g < f + 1 ensures PartIsAt(c, g, d, (at + [next])[g]) {
      if g < f {
        assert PartIsAt(c, g, d, at[g]);
      }
    }
  }

  lemma {:induction false} PartsLaidOut(c: Content, parts: seq<seq<Byte>>, f: nat, d: seq<Byte>, at: seq<nat>)
    returns (all: seq<nat>)
    requires c.Valid() && f <= FORMATS && Sized(c) && Suffixes(c, parts) && Laid(c, f, d, at)
    requires at[f] <= |d| && d[at[f]..] == parts[f]
    ensures Laid(c, FORMATS, d, all) && all[0] == at[0] && all[FORMATS] == |d|
    decreases FORMATS - f
  {
    if f == FORMATS {
      all := at;
    } else {
      var next := at[f] + PartSize(c, f);
      NextPart(c, f, d, at[f], parts[f + 1]);
      LaidNext(c, f, d, at, next);
      all := PartsLaidOut(c, parts, f + 1, d, at + [next]);
    }
  }

  /** The formats below `f` of a clipboard, and none above. */
  ghost function Upto(c: Content, f: nat): (r: Content)
    requires c.Valid() && f <= FORMATS
    ensures r.Valid()
  {
    if f == 0 then EMPTY
    else if c.added[f - 1] then With(Upto(c, f - 1), f - 1, c.data[f - 1])
    else Upto(c, f - 1)
  }

  lemma {:induction false} UptoIs(c: Content, f: nat)
    requires c.Valid() && f <= FORMATS
    ensures forall g | 0 <= g < FORMATS :: Upto(c, f).added[g] == (g < f && c.added[g])
    ensures forall g | 0 <= g < FORMATS :: Upto(c, f).data[g] == if g < f then c.data[g] else []
  {
    if f > 0 {
      UptoIs(c, f - 1);
    }
  }

  lemma UptoAll(c: Content)
    requires c.Valid()
    ensures Upto(c, FORMATS) == c
  {
    UptoIs(c, FORMATS);
    var u := Upto(c, FORMATS);
    assert u.added == c.added && u.data == c.data;
  }

  /** One turn of the reader on a well-formed entry of a known format. */
  lemma ReadNext(c: Content, d: seq<Byte>, pos: nat, n: nat, format: nat, data: seq<Byte>)
    requires c.Valid() && format < FORMATS && pos + 8 + |data| <= |d|
    requires d[pos + 8..pos + 8 + |data|] == data
    requires Read32(d, pos) == format && Read32(d, pos + 4) == |data|
    ensures ReadOn(c, d, pos, n + 1)
            == if |data| > Low32(|d| - (pos + 8)) then c
               else ReadOn(With(c, format, data), d, pos + 8 + |data|, n)
  {}

  lemma ReadPresent(c: Content, f: nat, d: seq<Byte>, pos: nat, before: Content, n: nat, left: nat)
    requires c.Valid() && before.Valid() && f < FORMATS && Sized(c) && PartIsAt(c, f, d, pos) && c.added[f]
    requires |d| - (pos + 8) == |c.data[f]| + left
    ensures ReadOn(before, d, pos, n + 1)
            == if FitsBefore(c.data[f], left)
               then ReadOn(With(before, f, c.data[f]), d, pos + 8 + |c.data[f]|, n) else before
  {
    ReadNext(before, d, pos, n, f, c.data[f]);
  }

  lemma SizeStep(c: Content, f: nat)
    requires c.Valid() && f < FORMATS
    ensures SizeFrom(c, f) == PartSize(c, f) + SizeFrom(c, f + 1)
  {}

  lemma CountStep(c: Content, f: nat)
    requires c.Valid() && f < FORMATS
    ensures CountFrom(c, f) == CountFrom(c, f + 1) + if c.added[f] then 1 else 0
  {}

  lemma UptoStep(c: Content, f: nat)
    requires c.Valid() && f < FORMATS
    ensures Upto(c, f + 1) == if c.added[f] then With(Upto(c, f), f, c.data[f]) else Upto(c, f)
  {}

  /** A format that is there is missing from those below it. */
  lemma UptoMisses(c: Content, f: nat)
    requires c.Valid() && f < FORMATS && c.added[f]
    ensures Upto(c, f) != c
  {
    UptoIs(c, f);
    assert !Upto(c, f).added[f];
  }

  /** What the reader makes of the formats from `f` on, having read those below. */
  ghost function ReadFrom(c: Content, f: nat, d: seq<Byte>, pos: nat): Content
    requires c.Valid() && f <= FORMATS && pos <= |d|
  {
    ReadOn(Upto(c, f), d, pos, CountFrom(c, f))
  }

  /** It goes on to the next format, unless this one is there and does not fit. */
  lemma ReadStep(c: Content, f: nat, d: seq<Byte>, pos: nat)
    requires c.Valid() && f < FORMATS && Sized(c) && PartIsAt(c, f, d, pos) && |d| == pos + SizeFrom(c, f)
    ensures |d| == pos + PartSize(c, f) + SizeFrom(c, f + 1)
    ensures ReadFrom(c, f, d, pos)
            == if c.added[f] && !Fits(c, f) then Upto(c, f) else ReadFrom(c, f + 1, d, pos + PartSize(c, f))
  {
    SizeStep(c, f);
    CountStep(c, f);
    UptoStep(c, f);
    if c.added[f] {
      ReadPresent(c, f, d, pos, Upto(c, f), CountFrom(c, f + 1), SizeFrom(c, f + 1));
    }
  }

  lemma ReadEnd(c: Content, f: nat, d: seq<Byte>)
    requires c.Valid() && f == FORMATS
    ensures ReadFrom(c, f, d, |d|) == c
  {
    UptoAll(c);
  }

  /** A format is not there, or fits. */
  ghost predicate Passes(c: Content, f: nat)
    requires c.Valid() && f < FORMATS
  {
    c.added[f] ==> Fits(c, f)
  }

  lemma ReadablePasses(c: Content, f: nat)
    requires c.Valid() && f < FORMATS && Readable(c)
    ensures Passes(c, f)
  {
  }

  lemma NotReadable(c: Content) returns (f: nat)
    requires c.Valid() && !Readable(c)
    ensures f < FORMATS && !Passes(c, f)
  {
    f :| f < FORMATS && c.added[f] && !Fits(c, f);
  }

  /** One turn: where a format does not fit, what is read is short of it. */
  lemma WholeStep(c: Content, f: nat, d: seq<Byte>, pos: nat)
    requires c.Valid() && f < FORMATS && Sized(c) && PartIsAt(c, f, d, pos) && |d| == pos + SizeFrom(c, f)
    ensures |d| == pos + PartSize(c, f) + SizeFrom(c, f + 1)
    ensures ReadFrom(c, f, d, pos) == c <==> Passes(c, f) && ReadFrom(c, f + 1, d, pos + PartSize(c, f)) == c
  {
    ReadStep(c, f, d, pos);
    if c.added[f] {
      UptoMisses(c, f);
    }
  }

  lemma {:induction false} ReadWhole(c: Content, f: nat, d: seq<Byte>, at: seq<nat>)
    requires c.Valid() && Sized(c) && Laid(c, FORMATS, d, at) && at[FORMATS] == |d|
    requires f <= FORMATS && |d| == at[f] + SizeFrom(c, f)
    requires Readable(c)
    ensures ReadFrom(c, f, d, at[f]) == c
    decreases FORMATS - f
  {
    if f == FORMATS {
      ReadEnd(c, f, d);
    } else {
      WholeStep(c, f, d, at[f]);
      ReadablePasses(c, f);
      ReadWhole(c, f + 1, d, at);
    }
  }

  lemma {:induction false} ReadShort(c: Content, f: nat, d: seq<Byte>, at: seq<nat>, g: nat)
    requires c.Valid() && Sized(c) && Laid(c, FORMATS, d, at) && at[FORMATS] == |d|
    requires f <= g < FORMATS && |d| == at[f] + SizeFrom(c, f) && !Passes(c, g)
    ensures ReadFrom(c, f, d, at[f]) != c
    decreases g - f
  {
    WholeStep(c, f, d, at[f]);
    if f < g {
      ReadShort(c, f + 1, d, at, g);
    }
  }

  /** Reading gives the whole exactly when all that is there fits. */
  lemma ReadLaidOut(c: Content, f: nat, d: seq<Byte>, at: seq<nat>)
    requires c.Valid() && Sized(c) && Laid(c, FORMATS, d, at) && at[FORMATS] == |d|
    requires f == 0 && |d| == at[f] + SizeFrom(c, f)
    ensures ReadFrom(c, f, d, at[f]) == c <==> Readable(c)
  {
    if Readable(c) {
      ReadWhole(c, f, d, at);
    } else {
      var g := NotReadable(c);
      ReadShort(c, f, d, at, g);
    }
  }

  /** Nothing the reader takes is 4 GiB or longer. */
  lemma {:induction false} ReadIsShort(c: Content, d: seq<Byte>, pos: nat, n: nat)
    requires c.Valid() && pos <= |d| && Sized(c)
    ensures Sized(ReadOn(c, d, pos, n))
    decreases n
  {
    if n > 0 && |d| - pos >= 8 {
      var format, size := Read32(d, pos), Read32(d, pos + 4);
      if size <= Low32(|d| - (pos + 8)) {
        ReadIsShort(if format < FORMATS then With(c, format, d[pos + 8..pos + 8 + size]) else c,
                    d, pos + 8 + size, n - 1);
      }
    }
  }

  lemma OnlySizedIsReadable(c: Content)
    requires c.Valid() && Readable(c)
    ensures Sized(c)
  {
    forall f: nat | f < FORMATS ensures |c.data[f]| < UINT32 {
      assert c.added[f] ==> Fits(c, f);
    }
  }

  lemma MarshalledHeader(c: Content)
    requires c.Valid()
    ensures Read32(Marshalled(c), 0) == CountFrom(c, 0)
    ensures Marshalled(c)[4..] == PartsFrom(c, 0)
  {
    assert CountFrom(c, 1) <= 2;
    ReadWritten(CountFrom(c, 0), Marshalled(c), 0);
  }

  /** A clipboard comes back from its marshalled form unchanged exactly when every format
      it holds fits the 32-bit sizes. */
  lemma MarshalRoundTrip(c: Content)
    requires c.Valid()
    ensures Parsed(Marshalled(c)) == c <==> Readable(c)
  {
    var d := Marshalled(c);
    MarshalledHeader(c);
    if Sized(c) {
      var parts := PartsAreSuffixes(c);
      var at := PartsLaidOut(c, parts, 0, d, [4]);
      ReadLaidOut(c, 0, d, at);
      assert Upto(c, 0) == EMPTY;
    } else {
      ReadIsShort(EMPTY, d, 4, CountFrom(c, 0));
      if Readable(c) {
        OnlySizedIsReadable(c);
      }
    }
  }

  /** In particular everything whose marshalled form is below 4 GiB comes back. */
  lemma SmallIsReadable(c: Content)
    requires c.Valid() && |Marshalled(c)| < UINT32
    ensures Readable(c)
  {
    SmallSizeIsReadable(c);
  }

  lemma SmallSizeIsReadable(c: Content)
    requires c.Valid() && SizeFrom(c, 0) < UINT32
    ensures Readable(c)
  {
    assert SizeFrom(c, 1) <= SizeFrom(c, 0) && SizeFrom(c, 2) <= SizeFrom(c, 1);
    forall f: nat | f < FORMATS && c.added[f] ensures Fits(c, f) {
      assert SizeFrom(c, f) == 8 + |c.data[f]| + SizeFrom(c, f + 1);
    }
  }
}
