/** The limits on clipboards that are sent (ClipboardLimits.h).
 */
module ClipboardLimits {
  import opened Bytes
  import opened ClipboardMarshal
  import opened Clipboards

  const MAXIMUM_BYTES: nat := 16 * 1024 * 1024
  const MAXIMUM_TEXT_BYTES: nat := 256 * 1024

  function ForFormat(format: nat): nat
    requires format < FORMATS
  {
    if format == BITMAP then MAXIMUM_BYTES else MAXIMUM_TEXT_BYTES
  }

  /** What the limits are meant to say: each format within its own limit, and the marshalled
      form within 16 MiB. */
  ghost predicate Allowed(c: Content)
    requires c.Valid()
  {
    AllWithin(c, FORMATS) && |Marshalled(c)| <= MAXIMUM_BYTES
  }

  ghost predicate AllWithin(c: Content, formats: nat)
    requires c.Valid() && formats <= FORMATS
  {
    forall f: nat | f < formats && c.added[f] :: |c.data[f]| <= ForFormat(f)
  }

  /** How many bytes are to come from each format on. */
  ghost predicate Sizes(c: Content, left: seq<nat>)
    requires c.Valid()
  {
    && |left| == FORMATS + 1 && left[FORMATS] == 0
    && forall f | 0 <= f < FORMATS :: left[f] == PartSize(c, f) + left[f + 1]
  }

  lemma SizesFrom(c: Content) returns (left: seq<nat>)
    requires c.Valid()
    ensures Sizes(c, left) && 4 + left[0] == |Marshalled(c)|
  {
    left := [SizeFrom(c, 0), SizeFrom(c, 1), SizeFrom(c, 2), SizeFrom(c, 3)];
    forall f | 0 <= f < FORMATS ensures left[f] == PartSize(c, f) + left[f + 1] {
      SizeStep(c, f);
    }
  }

  /** The test of one format.  The differences taken from the maximum are typed `nat`: none
      wraps around. */
  method Exceeds(size: nat, format: nat, totalBytes: nat) returns (tooBig: bool)
    requires format < FORMATS && totalBytes <= MAXIMUM_BYTES
    ensures tooBig <==> size > ForFormat(format) || totalBytes + 8 + size > MAXIMUM_BYTES
  {
    tooBig := size > ForFormat(format) || totalBytes > MAXIMUM_BYTES - 8;
    if !tooBig {
      var left: nat := MAXIMUM_BYTES - totalBytes - 8;
      tooBig := size > left;
    }
  }

  /** allows() */
  method Allows(clipboard: Clipboard?) returns (allowed: bool)
    requires clipboard != null ==> clipboard.Valid()
    modifies if clipboard != null then {clipboard} else {}
    ensures allowed == (clipboard != null && Allowed(clipboard.View()))
    ensures clipboard != null ==>
              && clipboard.Valid() && !clipboard.isOpen && clipboard.View() == old(clipboard.View())
              && clipboard.owner == old(clipboard.owner) && clipboard.timeOwned == old(clipboard.timeOwned)
  {
    if clipboard == null {
      return false;
    }
    clipboard.Open(0);
    ghost var c := clipboard.View();
    ghost var left := SizesFrom(c);
    allowed := AllowsOpen(clipboard, c, left);
    clipboard.Close();
  }

  /** The loop over the formats. */
  method AllowsOpen(clipboard: Clipboard, ghost c: Content, ghost left: seq<nat>) returns (allowed: bool)
    requires clipboard.Valid() && clipboard.isOpen && clipboard.View() == c && Sizes(c, left)
    ensures allowed == (AllWithin(c, FORMATS) && 4 + left[0] <= MAXIMUM_BYTES)
  {
    var totalBytes: nat := 4;
    for format := 0 to FORMATS
      invariant 4 <= totalBytes <= MAXIMUM_BYTES && totalBytes + left[format] == 4 + left[0]
      invariant AllWithin(c, format)
    {
      var has := clipboard.Has(format);
      if has {
        var size := clipboard.GetSize(format);
        var tooBig := Exceeds(size, format, totalBytes);
        if tooBig {
          return false;
        }
        totalBytes := totalBytes + (size + 8);
      }
    }
    return true;
  }

  /** In numbers: text and HTML up to 256 KiB, a bitmap up to 16 MiB, and everything with its
      headers of 8 bytes, and 4 bytes before them, up to 16 MiB. */
  lemma AllowedExactly(c: Content)
    requires c.Valid()
    ensures Allowed(c)
            <==> && (forall f: nat | f < 3 && c.added[f] :: |c.data[f]| <= if f == 2 then 0x100_0000 else 0x4_0000)
                 && 4 + Weight(c, 0) + Weight(c, 1) + Weight(c, 2) <= 0x100_0000
  {
    var left := SizesFrom(c);
    assert left[0] == Weight(c, 0) + Weight(c, 1) + Weight(c, 2);
  }

  /** What a format adds to the marshalled form. */
  function Weight(c: Content, f: nat): nat
    requires c.Valid() && f < 3
  {
    if c.added[f] then |c.data[f]| + 8 else 0
  }

  /** What may be sent arrives: it comes back from its marshalled form. */
  lemma AllowedRoundTrip(c: Content)
    requires c.Valid() && Allowed(c)
    ensures Parsed(Marshalled(c)) == c
  {
    SmallIsReadable(c);
    MarshalRoundTrip(c);
  }
}
