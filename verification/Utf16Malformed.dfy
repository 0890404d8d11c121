/** What UTF16ToUTF8 makes of words that are not well-formed, and of the mark that says in
    which order their bytes are.
 */
module Utf16Malformed {
  import opened Bytes
  import opened Utf8
  import opened Utf16
  import opened Utf16RoundTrip

  predicate High(w: Word) {
    0xd800 <= w < 0xdc00
  }

  predicate Trailing(w: Word) {
    0xdc00 <= w < 0xe000
  }

  /** A value; a trailing word with no leading one before it; a leading word and the word
      after it, which is no trailing one; or a leading word at the end. */
  datatype Piece = Whole(c: nat) | Unled(w: Word) | Unpaired(high: Word, next: Word) | Ending(high: Word)

  predicate Formed(p: Piece) {
    match p
    case Whole(c) => c < 0x11_0000 && !(0xd800 <= c < 0xe000)
    case Unled(w) => Trailing(w)
    case Unpaired(high, next) => High(high) && !Trailing(next)
    case Ending(high) => High(high)
  }

  function PieceWords(p: Piece): (r: seq<Word>)
    requires Formed(p)
    ensures r != []
  {
    match p
    case Whole(c) =>
      if c < 0x1_0000 then [c] else [0xd800 + (c - 0x1_0000) / 1024, 0xdc00 + (c - 0x1_0000) % 1024]
    case Unled(w) => [w]
    case Unpaired(high, next) => [high, next]
    case Ending(high) => [high]
  }

  /** Nothing follows a leading word at the end. */
  predicate InOrder(ps: seq<Piece>) {
    forall i | 0 <= i < |ps| :: Formed(ps[i]) && (ps[i].Ending? ==> i == |ps| - 1)
  }

  function Words(ps: seq<Piece>): seq<Word>
    requires forall i | 0 <= i < |ps| :: Formed(ps[i])
  {
    if ps == [] then [] else PieceWords(ps[0]) + Words(ps[1..])
  }

  function ValuesOf(ps: seq<Piece>): seq<nat> {
    if ps == [] then [] else [if ps[0].Whole? then ps[0].c else 0xfffd] + ValuesOf(ps[1..])
  }

  lemma WholeIsRead(c: nat, rest: seq<Word>)
    requires Formed(Whole(c))
    ensures var ws := PieceWords(Whole(c)) + rest;
            CodePoints(ws) == [c] + CodePoints(rest) && (Paired(ws) <==> Paired(rest))
  {
    var ws := PieceWords(Whole(c)) + rest;
    if c < 0x1_0000 {
      assert ws[1..] == rest;
    } else {
      assert ws[2..] == rest;
    }
  }

  lemma PieceIsRead(p: Piece, rest: seq<Word>)
    requires Formed(p) && (p.Ending? ==> rest == [])
    ensures var ws := PieceWords(p) + rest;
            && CodePoints(ws) == [if p.Whole? then p.c else 0xfffd] + CodePoints(rest)
            && (Paired(ws) <==> p.Whole? && Paired(rest))
  {
    var ws := PieceWords(p) + rest;
    match p
    case Whole(c) => WholeIsRead(c, rest);
    case Unled(w) => assert ws[1..] == rest;
    case Unpaired(high, next) => assert ws[2..] == rest;
    case Ending(high) => assert ws == [high];
  }

  /** Values are read as they are.  A word without its partner is one replacement character; a
      leading one takes the word after it with it, whatever that is.  The words are reported
      as malformed exactly when there is such a word. */
  lemma {:induction false} WordsAreRead(ps: seq<Piece>)
    requires InOrder(ps)
    ensures CodePoints(Words(ps)) == ValuesOf(ps)
    ensures Paired(Words(ps)) <==> forall i | 0 <= i < |ps| :: ps[i].Whole?
  {
    if ps != [] {
      assert forall i | 0 <= i < |ps| - 1 :: ps[1..][i] == ps[i + 1];
      assert forall i | 1 <= i < |ps| :: ps[i] == ps[1..][i - 1];
      WordsAreRead(ps[1..]);
      PieceIsRead(ps[0], Words(ps[1..]));
    }
  }

  function Pair(high: nat, low: nat): nat
    requires 0xd800 <= high && 0xdc00 <= low
  {
    (high - 0xd800) * 1024 + (low - 0xdc00) + 0x1_0000
  }

  lemma PairIsWhole(high: Word, low: Word)
    requires High(high) && Trailing(low)
    ensures var p := Whole(Pair(high, low)); Formed(p) && PieceWords(p) == [high, low]
  {
    var a, b := high - 0xd800, low - 0xdc00;
    var v := a * 1024 + b;
    assert v / 1024 == a && v % 1024 == b;
    assert Pair(high, low) - 0x1_0000 == v;
  }

  /** Every word sequence that is not empty begins with such a piece. */
  lemma FirstPiece(ws: seq<Word>) returns (p: Piece, n: nat)
    requires ws != []
    ensures Formed(p) && (p.Ending? ==> |ws| == 1)
    ensures 0 < n <= |ws| && PieceWords(p) == ws[..n]
  {
    var w := ws[0];
    if High(w) && |ws| > 1 {
      n := 2;
      assert ws[..2] == [w, ws[1]];
      if Trailing(ws[1]) {
        p := Whole(Pair(w, ws[1]));
        PairIsWhole(w, ws[1]);
      } else {
        p := Unpaired(w, ws[1]);
      }
    } else {
      n := 1;
      assert ws[..1] == [w];
      p := if Trailing(w) then Unled(w) else if High(w) then Ending(w) else Whole(w);
    }
  }

  lemma InOrderCons(p: Piece, rest: seq<Piece>)
    requires Formed(p) && InOrder(rest) && (p.Ending? ==> rest == [])
    ensures InOrder([p] + rest) && Words([p] + rest) == PieceWords(p) + Words(rest)
  {
    assert ([p] + rest)[1..] == rest;
  }

  /** Every word sequence consists of such pieces. */
  lemma {:induction false} PiecesOf(ws: seq<Word>) returns (ps: seq<Piece>)
    ensures InOrder(ps) && Words(ps) == ws
    decreases |ws|
  {
    if ws == [] {
      ps := [];
    } else {
      var first, n := FirstPiece(ws);
      var rest := PiecesOf(ws[n..]);
      assert rest != [] ==> Words(rest) != [];
      InOrderCons(first, rest);
      ps := [first] + rest;
      assert ws == ws[..n] + ws[n..];
    }
  }

  // ---- byte order ----

  /** Words with the least, or with the most significant byte first. */
  function Stored(ws: seq<Word>, big: bool): (r: seq<Byte>)
    ensures |r| == 2 * |ws|
  {
    if ws == [] then []
    else (if big then [ws[0] / 256, ws[0] % 256] else [ws[0] % 256, ws[0] / 256]) + Stored(ws[1..], big)
  }

  lemma {:induction false} StoredIsRead(ws: seq<Word>, big: bool)
    ensures WordsOf(Stored(ws, big), big) == ws
  {
    if ws != [] {
      StoredIsRead(ws[1..], big);
      assert Stored(ws, big)[2..] == Stored(ws[1..], big);
    }
  }

  /** Words behind a mark are read in the order the mark has. */
  lemma MarkedAreRead(ws: seq<Word>, big: bool)
    ensures Ordered(Stored([0xfeff] + ws, big)) == ws
  {
    var marked := [0xfeff] + ws;
    StoredIsRead(marked, big);
    assert marked[1..] == ws;
    if big {
      var data := Stored(marked, big);
      assert data[0] == 0xfe && data[1] == 0xff;
      assert WordsOf(data, false)[0] == 0xfffe;
    }
  }

  /** Words without one are read with the least significant byte first. */
  lemma UnmarkedAreRead(ws: seq<Word>)
    requires ws != [] ==> ws[0] !in {0xfeff, 0xfffe}
    ensures Ordered(Stored(ws, false)) == ws
  {
    StoredIsRead(ws, false);
  }

  // ---- writing ----

  /** The values as UTF-16 carries them: what it cannot carry is replaced. */
  function AsCarried(cs: seq<nat>): seq<Piece> {
    if cs == [] then []
    else [Whole(if cs[0] == 0xffff || cs[0] >= 0x11_0000 then 0xfffd else cs[0])] + AsCarried(cs[1..])
  }

  lemma {:induction false} ValuesAreWritten(cs: seq<nat>)
    requires forall i | 0 <= i < |cs| :: !(0xd800 <= cs[i] < 0xe000)
    ensures InOrder(AsCarried(cs)) && UnitsOf(cs) == Words(AsCarried(cs))
  {
    if cs != [] {
      ValuesAreWritten(cs[1..]);
      var ps, later := AsCarried(cs), AsCarried(cs[1..]);
      assert ps[1..] == later;
      assert forall i | 1 <= i < |ps| :: ps[i] == later[i - 1];
    }
  }
}
