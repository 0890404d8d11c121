/** What fromUTF8 makes of bytes that are not well-formed: how much of them it takes for one
    invalid character, and that the text behind it is read as it is.
 */
module Utf8Malformed {
  import opened Bytes
  import opened Utf8
  import opened Utf8Language

  /** The byte begins a character of `n` bytes. */
  predicate Begins(lead: Byte, n: nat) {
    match n
    case 1 => lead < 0x80
    case 2 => 0xc0 <= lead < 0xe0
    case 3 => 0xe0 <= lead < 0xf0
    case 4 => 0xf0 <= lead < 0xf8
    case 5 => 0xf8 <= lead < 0xfc
    case 6 => 0xfc <= lead < 0xfe
    case _ => false
  }

  /** The byte begins no character. */
  predicate Stray(b: Byte) {
    0x80 <= b < 0xc0 || b >= 0xfe
  }

  predicate Within(b: Byte) {
    0x80 <= b < 0xc0
  }

  /** A byte that begins no character is an invalid character by itself. */
  lemma StrayIsOne(s: seq<Byte>)
    requires s != [] && Stray(s[0])
    ensures Decode(s) == (INVALID, 1)
  {
  }

  /** If there are fewer bytes than the first announces, all are one invalid character. */
  lemma ShortIsAll(s: seq<Byte>, n: nat)
    requires s != [] && Begins(s[0], n) && n > |s|
    ensures Decode(s) == (INVALID, |s|)
  {
    assert n == Announced(s[0]);
  }

  /** Otherwise the character ends with the announced bytes or before the first that does not
      belong to one, and in that case it is invalid. */
  lemma EndsBeforeNext(s: seq<Byte>, n: nat)
    requires s != [] && Begins(s[0], n) && n <= |s|
    ensures var (c, size) := Decode(s);
            && size <= n && (forall i | 1 <= i < size :: Within(s[i]))
            && (size < n ==> c == INVALID && !Within(s[size]))
  {
    assert n == Announced(s[0]);
  }

  /** A character is read as valid exactly when the bytes start with its encoding. */
  lemma ValidExactly(s: seq<Byte>)
    requires s != []
    ensures Decode(s).0 != INVALID <==> exists c: nat, rest: seq<Byte> :: Valid(c) && s == Encoding(c) + rest
  {
    if Decode(s).0 != INVALID {
      EncodingDecode(s);
      var (c, size) := Decode(s);
      assert s == Encoding(c) + s[size..];
    }
    forall c: nat, rest: seq<Byte> | Valid(c) && s == Encoding(c) + rest ensures Decode(s).0 != INVALID {
      DecodeEncoding(c, rest);
    }
  }

  // ---- text with malformed characters in it ----

  /** A character; a byte that begins none; bytes that look like a character but encode none;
      or the beginning of a character of `n` bytes. */
  datatype Piece =
    | Character(c: nat) | Alone(b: Byte) | Misfit(bytes: seq<Byte>) | CutShort(bytes: seq<Byte>, n: nat)

  ghost predicate Formed(p: Piece) {
    match p
    case Character(c) => Valid(c)
    case Alone(b) => Stray(b)
    case Misfit(bytes) =>
      && bytes != [] && Begins(bytes[0], |bytes|) && (forall i | 1 <= i < |bytes| :: Within(bytes[i]))
      && forall c: nat | Valid(c) :: Encoding(c) != bytes
    case CutShort(bytes, n) =>
      0 < |bytes| < n && Begins(bytes[0], n) && forall i | 1 <= i < |bytes| :: Within(bytes[i])
  }

  ghost function PieceBytes(p: Piece): (r: seq<Byte>)
    requires Formed(p)
    ensures r != []
  {
    match p
    case Character(c) => Encoding(c)
    case Alone(b) => [b]
    case Misfit(bytes) => bytes
    case CutShort(bytes, _) => bytes
  }

  ghost function Text(ps: seq<Piece>): seq<Byte>
    requires forall i | 0 <= i < |ps| :: Formed(ps[i])
  {
    if ps == [] then [] else PieceBytes(ps[0]) + Text(ps[1..])
  }

  function Values(ps: seq<Piece>): seq<nat> {
    if ps == [] then [] else [if ps[0].Character? then ps[0].c else INVALID] + Values(ps[1..])
  }

  /** Behind each character that is cut short come at least as many bytes as are missing, and
      the first of them does not belong to it. */
  ghost predicate Apart(ps: seq<Piece>)
    requires forall i | 0 <= i < |ps| :: Formed(ps[i])
  {
    ps != [] ==>
      && (ps[0].CutShort? ==>
            var rest := Text(ps[1..]);
            |ps[0].bytes| + |rest| >= ps[0].n && rest != [] && !Within(rest[0]))
      && Apart(ps[1..])
  }

  lemma CutIsRead(bytes: seq<Byte>, n: nat, rest: seq<Byte>)
    requires Formed(CutShort(bytes, n)) && |bytes| + |rest| >= n && !Within(rest[0])
    ensures Decode(bytes + rest) == (INVALID, |bytes|)
  {
    var s := bytes + rest;
    EndsBeforeNext(s, n);
    assert s[|bytes|] == rest[0];
    forall i | 1 <= i < |bytes| ensures Within(s[i]) {
      assert s[i] == bytes[i];
    }
    assert Announced(s[0]) == n;
    assert !(forall i | 1 <= i < n :: Continuation(s[i]));
  }

  lemma MisfitIsRead(bytes: seq<Byte>, rest: seq<Byte>)
    requires Formed(Misfit(bytes))
    ensures Decode(bytes + rest) == (INVALID, |bytes|)
  {
    var s := bytes + rest;
    EndsBeforeNext(s, |bytes|);
    assert forall i | 0 <= i < |bytes| :: s[i] == bytes[i];
    assert s[..|bytes|] == bytes;
    if Decode(s).0 != INVALID {
      EncodingDecode(s);
    }
  }

  lemma PieceIsRead(p: Piece, rest: seq<Byte>)
    requires Formed(p)
    requires p.CutShort? ==> |p.bytes| + |rest| >= p.n && rest != [] && !Within(rest[0])
    ensures Decode(PieceBytes(p) + rest) == (if p.Character? then p.c else INVALID, |PieceBytes(p)|)
  {
    match p
    case Character(c) => DecodeEncoding(c, rest);
    case Alone(b) => StrayIsOne([b] + rest);
    case Misfit(bytes) => MisfitIsRead(bytes, rest);
    case CutShort(bytes, n) => CutIsRead(bytes, n, rest);
  }

  /** Each malformed character is one invalid value, and the text between them is read as it
      is. */
  lemma {:induction false} TextIsRead(ps: seq<Piece>)
    requires (forall i | 0 <= i < |ps| :: Formed(ps[i])) && Apart(ps)
    ensures DecodeAll(Text(ps)) == Values(ps)
  {
    if ps != [] {
      var first, rest := PieceBytes(ps[0]), Text(ps[1..]);
      PieceIsRead(ps[0], rest);
      assert (first + rest)[|first|..] == rest;
      TextIsRead(ps[1..]);
    }
  }

  /** Well-formed text behind a character that is cut short is read as it is exactly when it
      is as long as what is missing; otherwise it is swallowed. */
  lemma TextAfterCut(bytes: seq<Byte>, n: nat, cs: seq<nat>)
    requires Formed(CutShort(bytes, n)) && AllValid(cs)
    ensures DecodeAll(bytes + EncodeAll(cs))
            == if |bytes| + |EncodeAll(cs)| >= n then [INVALID] + cs else [INVALID]
  {
    var rest := EncodeAll(cs);
    var s := bytes + rest;
    if |s| >= n {
      assert cs != [];
      assert rest[0] == Encoding(cs[0])[0];
      CutIsRead(bytes, n, rest);
      assert s[|bytes|..] == rest;
      DecodeEncodeAll(cs);
      ReadBackValid(cs);
    } else {
      ShortIsAll(s, n);
      assert s[|s|..] == [];
    }
  }
}
