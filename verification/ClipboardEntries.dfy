/** What the clipboard reader makes of any bytes: it takes the well-formed entries up to the
    first that is not, and of each known format the last.
 */
module ClipboardEntries {
  import opened Bytes
  import opened ClipboardMarshal

  datatype Entry = Entry(format: nat, data: seq<Byte>)

  function Length(e: Entry): nat {
    8 + |e.data|
  }

  /** The entry stands at `pos`, and the reader takes its size for what it is. */
  predicate EntryAt(d: seq<Byte>, pos: nat, e: Entry) {
    && pos + Length(e) <= |d| && Read32(d, pos) == e.format && Read32(d, pos + 4) == |e.data|
    && d[pos + 8..pos + Length(e)] == e.data
    && |e.data| <= (|d| - (pos + 8)) % 0x1_0000_0000
  }

  /** The entries stand one after the other from `pos` to `end`. */
  predicate EntriesAt(d: seq<Byte>, pos: nat, es: seq<Entry>, end: nat)
    decreases |es|
  {
    if es == [] then pos == end else EntryAt(d, pos, es[0]) && EntriesAt(d, pos + Length(es[0]), es[1..], end)
  }

  /** There is no well-formed entry at `pos`: too few bytes for a header, or for its size. */
  predicate NoEntryAt(d: seq<Byte>, pos: nat)
    requires pos <= |d|
  {
    |d| - pos < 8 || Read32(d, pos + 4) > (|d| - (pos + 8)) % 0x1_0000_0000
  }

  /** The data of the last entry of the format, or `before` if there is none. */
  function LastOf(es: seq<Entry>, format: nat, before: seq<Byte>): seq<Byte> {
    if es == [] then before
    else LastOf(es[1..], format, if es[0].format == format then es[0].data else before)
  }

  predicate Has(es: seq<Entry>, format: nat) {
    exists i | 0 <= i < |es| :: es[i].format == format
  }

  /** Of each known format the last entry is kept; entries of other formats change nothing. */
  ghost predicate Keeps(c: Content, es: seq<Entry>, r: Content)
    requires c.Valid() && r.Valid()
  {
    forall f: nat | f < FORMATS ::
      (r.added[f] <==> c.added[f] || Has(es, f)) && r.data[f] == LastOf(es, f, c.data[f])
  }

  function Taken(c: Content, e: Entry): (r: Content)
    requires c.Valid()
    ensures r.Valid()
  {
    if e.format < FORMATS then With(c, e.format, e.data) else c
  }

  lemma KeepsFirst(c: Content, e: Entry, es: seq<Entry>, r: Content)
    requires c.Valid() && r.Valid() && Keeps(Taken(c, e), es, r)
    ensures Keeps(c, [e] + es, r)
  {
    var all := [e] + es;
    assert all[1..] == es && all[0] == e;
    forall f: nat | f < FORMATS ensures Has(all, f) <==> e.format == f || Has(es, f) {
      assert forall i | 0 <= i < |es| :: es[i] == all[i + 1];
      assert forall i | 1 <= i < |all| :: all[i] == es[i - 1];
    }
  }

  /** Every byte string is some well-formed entries and then either their announced number is
      reached or there is none; and the reader keeps those entries. */
  lemma {:induction false} ReadsEntries(c: Content, d: seq<Byte>, pos: nat, n: nat)
    returns (es: seq<Entry>, end: nat)
    requires c.Valid() && pos <= |d|
    ensures |es| <= n && end <= |d| && EntriesAt(d, pos, es, end)
    ensures |es| == n || NoEntryAt(d, end)
    ensures Keeps(c, es, ReadOn(c, d, pos, n))
    decreases n
  {
    es, end := [], pos;
    if |d| - pos >= 8 {
      Low32IsModulo(|d| - (pos + 8));
    }
    if n > 0 && !NoEntryAt(d, pos) {
      var size := Read32(d, pos + 4);
      var e := Entry(Read32(d, pos), d[pos + 8..pos + 8 + size]);
      var rest;
      rest, end := ReadsEntries(Taken(c, e), d, pos + Length(e), n - 1);
      es := [e] + rest;
      assert es[1..] == rest;
      KeepsFirst(c, e, rest, ReadOn(c, d, pos, n));
    }
  }

  /** A whole clipboard: the bytes begin with the number of entries; with fewer than four of
      them there is nothing. */
  lemma ParsedKeeps(d: seq<Byte>) returns (es: seq<Entry>, end: nat)
    ensures |d| < 4 ==> Parsed(d) == EMPTY
    ensures |d| >= 4 ==>
              && |es| <= Read32(d, 0) && end <= |d| && EntriesAt(d, 4, es, end)
              && (|es| == Read32(d, 0) || NoEntryAt(d, end))
              && Keeps(EMPTY, es, Parsed(d))
  {
    es, end := [], 0;
    if |d| >= 4 {
      es, end := ReadsEntries(EMPTY, d, 4, Read32(d, 0));
    }
  }
}
