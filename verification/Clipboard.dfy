/** A clipboard (Clipboard.cpp), the two ways of filling it from marshalled bytes, and
    marshalling it (IClipboard.cpp).
 */
module Clipboards {
  import opened Bytes
  import opened ClipboardMarshal

  /** A single known format filling the rest of the buffer is all there is to read. */
  lemma OneEntry(d: seq<Byte>)
    requires |d| >= 12 && Read32(d, 0) == 1 && Read32(d, 4) < FORMATS && Read32(d, 8) == |d| - 12
    ensures Parsed(d) == With(EMPTY, Read32(d, 4), d[12..])
  {
    assert d[12..|d|] == d[12..];
  }

  // ---- the clipboard ----

  class Clipboard {
    var isOpen: bool
    var time: nat
    var owner: bool
    var timeOwned: nat
    const added: array<bool>
    const data: array<seq<Byte>>

    ghost predicate Valid()
      reads this, added, data
    {
      && added.Length == FORMATS && data.Length == FORMATS
      && View().Valid()
    }

    /** What it holds. */
    ghost function View(): Content
      reads this, added, data
    {
      Content(added[..], data[..])
    }

    constructor ()
      ensures Valid() && fresh(added) && fresh(data)
      ensures !isOpen && View() == EMPTY && owner && timeOwned == time == 0
    {
      isOpen, time, owner, timeOwned := false, 0, false, 0;
      added := new bool[FORMATS](_ => false);
      data := new seq<Byte>[FORMATS](_ => []);
      new;
      Open(0);
      var _ := Empty();
      Close();
    }

    method Empty() returns (ok: bool)
      requires Valid()
      modifies this, added, data
      ensures Valid() && isOpen == old(isOpen) && time == old(time)
      ensures ok == isOpen
      ensures ok ==> View() == EMPTY && owner && timeOwned == time
      ensures !ok ==> View() == old(View()) && owner == old(owner) && timeOwned == old(timeOwned)
    {
      if !isOpen {
        return false;
      }
      for index := 0 to FORMATS
        invariant isOpen == old(isOpen) && time == old(time)
        invariant forall f | 0 <= f < index :: data[f] == [] && !added[f]
      {
        data[index] := [];
        added[index] := false;
      }
      timeOwned := time;
      owner := true;
      assert added[..] == [false, false, false] && data[..] == [[], [], []];
      return true;
    }

    method Add(format: nat, d: seq<Byte>)
      requires Valid() && format < FORMATS
      modifies added, data
      ensures Valid()
      ensures View() == if isOpen && owner then With(old(View()), format, d) else old(View())
    {
      if !isOpen || !owner {
        return;
      }
      data[format] := d;
      added[format] := true;
    }

    /** Opening an open clipboard does not even change the time. */
    method Open(t: nat)
      modifies `isOpen, `time
      ensures isOpen && time == if old(isOpen) then old(time) else t
    {
      if isOpen {
        return;
      }
      isOpen := true;
      time := t;
    }

    method Close()
      modifies `isOpen
      ensures !isOpen
    {
      isOpen := false;
    }

    method Has(format: nat) returns (r: bool)
      requires Valid() && format < FORMATS
      ensures r == (isOpen && View().added[format])
    {
      return isOpen && added[format];
    }

    method Get(format: nat) returns (r: seq<Byte>)
      requires Valid() && format < FORMATS
      ensures r == if isOpen then View().data[format] else []
    {
      return if isOpen then data[format] else [];
    }

    method GetSize(format: nat) returns (r: nat)
      requires Valid() && format < FORMATS
      ensures r == if isOpen then |View().data[format]| else 0
    {
      return if isOpen then |data[format]| else 0;
    }

    /** One turn of the loop of IClipboard::unmarshall; the result is false when it ends. */
    method ReadFormat(d: seq<Byte>, index: nat, ghost n: nat) returns (more: bool, next: nat)
      requires Valid() && isOpen && owner && index <= |d| && n > 0
      modifies added, data
      ensures Valid() && (more ==> next <= |d|)
      ensures if more then ReadOn(View(), d, next, n - 1) == ReadOn(old(View()), d, index, n)
              else View() == ReadOn(old(View()), d, index, n)
    {
      more, next := false, index;
      if |d| - index < 8 {
        return;
      }
      var format := Read32(d, index);
      var size := Read32(d, index + 4);
      next := index + 8;
      if size > Low32(|d| - next) {
        return;
      }
      if format < FORMATS {
        Add(format, d[next..next + size]);
      }
      next := next + size;
      more := true;
    }

    /** The loop over the formats. */
    method ReadFormats(d: seq<Byte>, numFormats: nat)
      requires Valid() && isOpen && owner && |d| >= 4
      modifies added, data
      ensures Valid() && View() == ReadOn(old(View()), d, 4, numFormats)
    {
      var index: nat := 4;
      for i := 0 to numFormats
        invariant Valid() && index <= |d|
        invariant ReadOn(View(), d, index, numFormats - i) == ReadOn(old(View()), d, 4, numFormats)
      {
        var more, next := ReadFormat(d, index, numFormats - i);
        if !more {
          break;
        }
        index := next;
      }
    }

    /** IClipboard::unmarshall: the contents become what the bytes hold up to the first
        malformed entry, and the clipboard is owned. */
    method Unmarshall(d: seq<Byte>, t: nat)
      requires Valid()
      modifies this, added, data
      ensures Valid() && !isOpen
      ensures View() == Parsed(d) && owner
      ensures timeOwned == time == if old(isOpen) then old(time) else t
    {
      Open(t);
      var _ := Empty();
      if |d| < 4 {
        Close();
        return;
      }
      var numFormats := Read32(d, 0);
      ReadFormats(d, numFormats);
      Close();
    }

    /** The unmarshall that may take the string over: a single known format filling the
        string is moved, everything else goes the general way.  The outcome is the same. */
    method UnmarshallMoved(d: seq<Byte>, t: nat)
      requires Valid()
      modifies this, added, data
      ensures Valid() && !isOpen
      ensures View() == Parsed(d) && owner
      ensures timeOwned == time == if old(isOpen) then old(time) else t
    {
      if |d| < 12 || Read32(d, 0) != 1 || Read32(d, 4) >= FORMATS || Read32(d, 8) != |d| - 12 {
        Unmarshall(d, t);
        return;
      }
      var format := Read32(d, 4);
      OneEntry(d);
      Open(t);
      var _ := Empty();
      data[format] := d[12..];
      added[format] := true;
      Close();
    }

    /** IClipboard::marshall, which leaves the clipboard closed. */
    method Marshall() returns (r: seq<Byte>)
      requires Valid()
      modifies `isOpen, `time
      ensures Valid() && !isOpen && time == if old(isOpen) then old(time) else 0
      ensures r == Marshalled(View())
    {
      Open(0);
      ghost var c := View();
      var formatData: seq<seq<Byte>> := [[], [], []];
      var numFormats: nat := 0;
      for format := 0 to FORMATS
        invariant isOpen && View() == c && time == if old(isOpen) then old(time) else 0
        invariant numFormats + CountFrom(c, format) == CountFrom(c, 0)
        invariant |formatData| == FORMATS
        invariant forall f | 0 <= f < format && c.added[f] :: formatData[f] == c.data[f]
      {
        var has := Has(format);
        if has {
          numFormats := numFormats + 1;
          var d := Get(format);
          formatData := formatData[format := d];
        }
      }
      r := WriteUInt32([], numFormats);
      HeaderFirst(c, r);
      for format := 0 to FORMATS
        invariant isOpen && View() == c && time == if old(isOpen) then old(time) else 0
        invariant r + PartsFrom(c, format) == Marshalled(c)
      {
        var has := Has(format);
        PartsNext(c, format, r);
        if has {
          r := WritePart(r, format, formatData[format]);
        }
      }
      Close();
    }
  }

  lemma HeaderFirst(c: Content, r: seq<Byte>)
    requires c.Valid() && r == [] + Write32(CountFrom(c, 0))
    ensures r + PartsFrom(c, 0) == Marshalled(c)
  {
    assert r == Write32(CountFrom(c, 0));
  }

  /** Appending one more part leaves the later parts to append. */
  lemma PartsNext(c: Content, f: nat, r: seq<Byte>)
    requires c.Valid() && f < FORMATS && r + PartsFrom(c, f) == Marshalled(c)
    ensures (if c.added[f] then r + PartOf(f, c.data[f]) else r) + PartsFrom(c, f + 1) == Marshalled(c)
  {
    var part, rest := Part(c, f), PartsFrom(c, f + 1);
    assert r + (part + rest) == (r + part) + rest;
    assert r + [] == r;
  }

  method WritePart(buf: seq<Byte>, format: nat, d: seq<Byte>) returns (r: seq<Byte>)
    ensures r == buf + PartOf(format, d)
  {
    r := WriteUInt32(buf, format);
    r := WriteUInt32(r, |d|);
    r := r + d;
    Appended(buf, Write32(format), Write32(|d|), d);
  }

  lemma Appended(buf: seq<Byte>, a: seq<Byte>, b: seq<Byte>, d: seq<Byte>)
    ensures ((buf + a) + b) + d == buf + (a + b + d)
  {}

  /** IClipboard::copy.  A clipboard copied to itself is emptied before it is read. */
  method Copy(dst: Clipboard, src: Clipboard, t: nat) returns (success: bool)
    requires dst.Valid() && src.Valid()
    requires dst != src ==> dst.added != src.added && dst.data != src.data
    modifies dst, dst.added, dst.data, src`isOpen, src`time
    ensures success && dst.Valid() && src.Valid() && !dst.isOpen && !src.isOpen
    ensures dst != src ==> dst.View() == src.View() == old(src.View())
    ensures dst == src ==> dst.View() == EMPTY
    ensures dst.owner && dst.timeOwned == if old(dst.isOpen) then old(dst.time) else t
  {
    src.Open(t);
    dst.Open(t);
    success := dst.Empty();
    ghost var c := src.View();
    for format := 0 to FORMATS
      invariant dst.Valid() && src.Valid() && dst.isOpen && src.isOpen
      invariant dst.owner && dst.timeOwned == dst.time == if old(dst.isOpen) then old(dst.time) else t
      invariant src.View() == c && dst.View() == Upto(c, format)
    {
      var has := src.Has(format);
      if has {
        var d := src.Get(format);
        dst.Add(format, d);
      }
    }
    UptoAll(c);
    dst.Close();
    src.Close();
  }

  /** writeUInt32 */
  method WriteUInt32(buf: seq<Byte>, v: nat) returns (r: seq<Byte>)
    ensures r == buf + Write32(v)
  {
    r := buf;
    r := r + [v / 256 / 256 / 256 % 256];
    r := r + [v / 256 / 256 % 256];
    r := r + [v / 256 % 256];
    r := r + [v % 256];
    DigitsAre(v);
  }
}
