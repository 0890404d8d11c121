/** What the parser of keys accepts beside what is written: names in any case, blanks around
    the parts, and hexadecimal digits in either case; and what it refuses.
 */
module KeyNamesLenient {
  import opened KeyMasks
  import opened KeyNames
  import opened KeyNamesRoundTrip

  // ---- case ----

  /** The two are the same letter, the first a capital. */
  predicate CapitalOf(c: char, d: char) {
    'A' <= c <= 'Z' && 'a' <= d <= 'z' && d as int - c as int == 32
  }

  predicate SameButCase(a: string, b: string) {
    |a| == |b| && forall i | 0 <= i < |a| :: a[i] == b[i] || CapitalOf(a[i], b[i]) || CapitalOf(b[i], a[i])
  }

  lemma LowerExactly(c: char, d: char)
    ensures Lower(c) == Lower(d) <==> c == d || CapitalOf(c, d) || CapitalOf(d, c)
  {
  }

  /** Names are looked up without regard to the case of the letters A to Z, and of nothing
      else. */
  lemma FoldExactly(a: string, b: string)
    ensures Fold(a) == Fold(b) <==> SameButCase(a, b)
  {
    forall i | 0 <= i < |a| && |a| == |b|
      ensures Fold(a)[i] == Fold(b)[i] <==> a[i] == b[i] || CapitalOf(a[i], b[i]) || CapitalOf(b[i], a[i])
    {
      LowerExactly(a[i], b[i]);
    }
  }

  // ---- blanks ----

  predicate Blank(s: string) {
    forall i | 0 <= i < |s| :: s[i] in {' ', '\t'}
  }

  lemma {:induction false} BlanksSkipped(blanks: string, y: string)
    requires Blank(blanks) && (y != "" ==> y[0] !in {' ', '\t'})
    ensures SkipBlanks(blanks + y) == y
  {
    if blanks == "" {
      assert blanks + y == y;
    } else {
      assert (blanks + y)[0] == blanks[0] && (blanks + y)[1..] == blanks[1..] + y;
      BlanksSkipped(blanks[1..], y);
    }
  }

  lemma {:induction false} BlanksTrimmed(y: string, blanks: string)
    requires Blank(blanks) && (y != "" ==> y[|y| - 1] !in {' ', '\t'})
    ensures TrimEnd(y + blanks) == y
  {
    if blanks == "" {
      assert y + blanks == y;
    } else {
      var n := |blanks| - 1;
      assert (y + blanks)[|y| + n] == blanks[n] && (y + blanks)[..|y| + n] == y + blanks[..n];
      BlanksTrimmed(y, blanks[..n]);
    }
  }

  // ---- one modifier ----

  /** The list has the text, in some case, as a name of the value. */
  ghost predicate Listed(entries: Entries, s: string, value: nat) {
    exists i | 0 <= i < |entries| :: SameButCase(s, entries[i].0) && entries[i].1 == value
  }

  /** The map has the text exactly if the list does, and with the value the list has. */
  ghost predicate HasListed(values: map<string, nat>, entries: Entries, s: string) {
    && (Fold(s) in values <==> exists i | 0 <= i < |entries| :: SameButCase(s, entries[i].0))
    && forall i | 0 <= i < |entries| && SameButCase(s, entries[i].0) ::
         Fold(s) in values && values[Fold(s)] == entries[i].1
  }

  lemma ListedStep(values: map<string, nat>, before: Entries, e: (string, nat), s: string)
    requires HasListed(values, before, s)
    requires SameButCase(s, e.0) ==> forall i | 0 <= i < |before| :: !SameButCase(s, before[i].0)
    ensures HasListed(values[Fold(e.0) := e.1], before + [e], s)
  {
    var entries := before + [e];
    FoldExactly(s, e.0);
    assert entries[|before|] == e;
    assert forall i | 0 <= i < |before| :: entries[i] == before[i];
  }

  lemma OnlyOne(entries: Entries, n: nat, s: string)
    requires WellNamed(entries) && n < |entries| && SameButCase(s, entries[n].0)
    ensures forall i | 0 <= i < n :: !SameButCase(s, entries[i].0)
  {
    forall i | 0 <= i < n ensures !SameButCase(s, entries[i].0) {
      FoldExactly(s, entries[i].0);
      FoldExactly(s, entries[n].0);
    }
  }

  lemma {:induction false} BuiltListed(entries: Entries, s: string)
    requires WellNamed(entries)
    ensures HasListed(Build(entries).valueOf, entries, s)
  {
    if entries != [] {
      var n := |entries| - 1;
      var before, e := entries[..n], entries[n];
      BuiltListed(before, s);
      if SameButCase(s, e.0) {
        OnlyOne(entries, n, s);
      }
      ListedStep(Build(before).valueOf, before, e, s);
      assert entries == before + [e];
    }
  }

  lemma NameIsPlain(s: string, name: string)
    requires IsName(name) && SameButCase(s, name)
    ensures s != "" && NoDelimiter(s)
  {
    forall k | 0 <= k < |s| ensures !IsDelimiter(s[k]) {
      assert !IsDelimiter(name[k]);
    }
  }

  lemma NamedIs(t: Tables, mods: Entries, s: string, bit: nat)
    requires WellNamed(mods) && t.modifiers == Build(mods) && Listed(mods, s, bit)
    ensures Fold(s) in t.modifiers.valueOf && t.modifiers.valueOf[Fold(s)] == bit
    ensures s != "" && NoDelimiter(s)
  {
    var i :| 0 <= i < |mods| && SameButCase(s, mods[i].0) && mods[i].1 == bit;
    BuiltListed(mods, s);
    NameIsPlain(s, mods[i].0);
  }

  /** A modifier, blanks, and what comes then: it is refused if it is there for the second
      time or anything but a plus follows. */
  lemma ModifierIs(t: Tables, mods: Entries, s: string, bit: nat, blanks: string, tail: string, mask: Mask)
    requires WellNamed(mods) && t.modifiers == Build(mods) && Listed(mods, s, bit) && Blank(blanks)
    requires tail != "" ==> tail[0] !in {' ', '\t'} && (blanks != "" || tail[0] in {'+', ')'})
    ensures ModifiersOf(t, s + blanks + tail, mask)
            == if bit in mask then None
               else if tail == "" then Some(("", mask + {bit}))
               else if tail[0] != '+' then None
               else ModifiersOf(t, SkipBlanks(tail[1..]), mask + {bit})
  {
    var rest := blanks + tail;
    var y := s + rest;
    NamedIs(t, mods, s, bit);
    assert s + blanks + tail == y;
    assert rest != "" ==> IsDelimiter(rest[0]);
    ComponentIs(s, rest, y);
    BlanksSkipped(blanks, tail);
    FirstComponent(t, y, s, tail, mask);
  }

  // ---- whole texts ----

  /** A modifier as it is spelled, with the blanks before and behind its plus. */
  datatype Part = Part(s: string, bit: nat, before: string, behind: string)

  ghost predicate Spelled(mods: Entries, ps: seq<Part>) {
    && (forall i | 0 <= i < |ps| :: Listed(mods, ps[i].s, ps[i].bit) && Blank(ps[i].before) && Blank(ps[i].behind))
    && forall i, j | 0 <= i < j < |ps| :: ps[i].bit != ps[j].bit
  }

  function TextOf(ps: seq<Part>, rest: string): string {
    if ps == [] then rest
    else ps[0].s + ps[0].before + ("+" + ps[0].behind + TextOf(ps[1..], rest))
  }

  function Bits(ps: seq<Part>): Mask {
    set i | 0 <= i < |ps| :: ps[i].bit
  }

  lemma TextStarts(t: Tables, mods: Entries, ps: seq<Part>, rest: string)
    requires WellNamed(mods) && t.modifiers == Build(mods) && Spelled(mods, ps)
    requires rest != "" && rest[0] !in {' ', '\t'}
    ensures TextOf(ps, rest) != "" && TextOf(ps, rest)[0] !in {' ', '\t'}
  {
    if ps != [] {
      NamedIs(t, mods, ps[0].s, ps[0].bit);
    }
  }

  lemma PlusSkipped(behind: string, later: string)
    requires Blank(behind) && later != "" && later[0] !in {' ', '\t'}
    ensures var tail := "+" + behind + later; tail[0] == '+' && SkipBlanks(tail[1..]) == later
  {
    var tail := "+" + behind + later;
    assert tail[1..] == behind + later;
    BlanksSkipped(behind, later);
  }

  lemma PartIsRead(t: Tables, mods: Entries, p: Part, later: string, tail: string, mask: Mask)
    requires WellNamed(mods) && t.modifiers == Build(mods) && Listed(mods, p.s, p.bit) && p.bit !in mask
    requires Blank(p.before) && tail != "" && tail[0] == '+' && SkipBlanks(tail[1..]) == later
    ensures ModifiersOf(t, p.s + p.before + tail, mask) == ModifiersOf(t, later, mask + {p.bit})
  {
    ModifierIs(t, mods, p.s, p.bit, p.before, tail, mask);
  }

  lemma {:induction false} PartsAreRead(t: Tables, mods: Entries, ps: seq<Part>, rest: string,
                                        mask: Mask)
    requires WellNamed(mods) && t.modifiers == Build(mods) && Spelled(mods, ps)
    requires rest != "" && rest[0] !in {' ', '\t'}
    requires forall i | 0 <= i < |ps| :: ps[i].bit !in mask
    ensures ModifiersOf(t, TextOf(ps, rest), mask) == ModifiersOf(t, rest, mask + Bits(ps))
  {
    if ps == [] {
      assert mask + Bits(ps) == mask;
    } else {
      var p, later := ps[0], TextOf(ps[1..], rest);
      assert forall i | 0 <= i < |ps| - 1 :: ps[1..][i] == ps[i + 1];
      TextStarts(t, mods, ps[1..], rest);
      PlusSkipped(p.behind, later);
      PartIsRead(t, mods, p, later, "+" + p.behind + later, mask);
      PartsAreRead(t, mods, ps[1..], rest, mask + {p.bit});
      BitsStep(ps, mask);
    }
  }

  lemma BitsStep(ps: seq<Part>, mask: Mask)
    requires ps != []
    ensures (mask + {ps[0].bit}) + Bits(ps[1..]) == mask + Bits(ps)
  {
    forall b ensures b in Bits(ps) <==> b == ps[0].bit || b in Bits(ps[1..]) {
      if b in Bits(ps) {
        var i :| 0 <= i < |ps| && ps[i].bit == b;
        assert i > 0 ==> ps[1..][i - 1].bit == b;
      }
      if b in Bits(ps[1..]) {
        var i :| 0 <= i < |ps[1..]| && ps[1..][i].bit == b;
        assert ps[i + 1].bit == b;
      }
    }
  }

  /** Modifiers in any order and case, a key, and blanks wherever they may be: the key's text
      is what is left, without blanks, and the mask is that of the modifiers. */
  lemma LenientTextIsRead(t: Tables, mods: Entries, lead: string, ps: seq<Part>, key: string, trail: string)
    requires WellNamed(mods) && t.modifiers == Build(mods) && Spelled(mods, ps)
    requires Blank(lead) && Blank(trail) && key != "" && NoDelimiter(key)
    requires forall i | 0 <= i < |mods| :: !SameButCase(key, mods[i].0)
    ensures ParsedModifiers(t, lead + TextOf(ps, key + trail)) == Some((key, Bits(ps)))
  {
    var rest := key + trail;
    assert rest[0] == key[0] && !IsDelimiter(key[0]) && !IsDelimiter(key[|key| - 1]);
    TextStarts(t, mods, ps, rest);
    BlanksSkipped(lead, TextOf(ps, rest));
    PartsAreRead(t, mods, ps, rest, {});
    assert {} + Bits(ps) == Bits(ps);
    BuiltListed(mods, key);
    assert trail != "" ==> IsDelimiter(trail[0]);
    ComponentIs(key, trail, rest);
    BlanksTrimmed(key, trail);
    FirstComponent(t, rest, key, SkipBlanks(trail), Bits(ps));
  }

  /** Modifiers alone, the last one without a plus. */
  lemma LenientModifiersAreRead(t: Tables, mods: Entries, lead: string, ps: seq<Part>, s: string, bit: nat,
                                trail: string)
    requires WellNamed(mods) && t.modifiers == Build(mods) && Spelled(mods, ps) && Listed(mods, s, bit)
    requires Blank(lead) && Blank(trail)
    ensures ParsedModifiers(t, lead + TextOf(ps, s + trail))
            == if bit in Bits(ps) then None else Some(("", Bits(ps) + {bit}))
  {
    var rest := s + trail;
    NamedIs(t, mods, s, bit);
    assert rest[0] == s[0] && !IsDelimiter(s[0]);
    TextStarts(t, mods, ps, rest);
    BlanksSkipped(lead, TextOf(ps, rest));
    PartsAreRead(t, mods, ps, rest, {});
    assert {} + Bits(ps) == Bits(ps);
    assert s + trail + "" == rest;
    ModifierIs(t, mods, s, bit, trail, "", Bits(ps));
  }

  // ---- keys ----

  /** A key is read from its name in any case. */
  lemma KeyNameIsRead(t: Tables, keys: Entries, x: string, key: nat)
    requires WellNamed(keys) && t.keys == Build(keys) && Listed(keys, x, key)
    ensures ParsedKey(t, x) == Some(key)
  {
    var i :| 0 <= i < |keys| && SameButCase(x, keys[i].0) && keys[i].1 == key;
    BuiltListed(keys, x);
  }

  /** The character is the hexadecimal digit, in either case. */
  predicate HexadecimalOf(c: char, v: nat) {
    || (v < 10 && c as int == 48 + v)
    || (10 <= v < 16 && (c as int == 65 + v - 10 || c as int == 97 + v - 10))
  }

  /** So is an escape, with digits in either case. */
  lemma EscapeIsRead(t: Tables, digits: string, a: nat, b: nat, c: nat, d: nat)
    requires t.Valid() && |digits| == 4
    requires HexadecimalOf(digits[0], a) && HexadecimalOf(digits[1], b)
    requires HexadecimalOf(digits[2], c) && HexadecimalOf(digits[3], d)
    ensures ParsedKey(t, "\\u" + digits) == Some(a * 4096 + b * 256 + c * 16 + d)
  {
    EscapedIs(digits, a, b, c, d);
    EscapeIs(t, "\\u" + digits, digits, ((a * 16 + b) * 16 + c) * 16 + d);
  }

  lemma EscapedIs(digits: string, a: nat, b: nat, c: nat, d: nat)
    requires |digits| == 4
    requires HexadecimalOf(digits[0], a) && HexadecimalOf(digits[1], b)
    requires HexadecimalOf(digits[2], c) && HexadecimalOf(digits[3], d)
    ensures ((a * 16 + b) * 16 + c) * 16 + d < KEY_IDS
    ensures Escaped(digits) == Some(((a * 16 + b) * 16 + c) * 16 + d)
  {
    DigitIs(digits[0], a);
    DigitIs(digits[1], b);
    DigitIs(digits[2], c);
    DigitIs(digits[3], d);
    assert digits == [digits[0], digits[1], digits[2], digits[3]];
    FourDigits(digits[0], digits[1], digits[2], digits[3]);
    EscapedTo(digits, ((a * 16 + b) * 16 + c) * 16 + d);
  }

  lemma EscapedTo(digits: string, value: nat)
    requires |digits| == 4 && CString(digits) == digits && StrToL16(digits) == (value, 4) && value < KEY_IDS
    ensures Escaped(digits) == Some(value)
  {
  }

  lemma DigitIs(c: char, v: nat)
    requires HexadecimalOf(c, v)
    ensures HexValue(c) == Some(v) && PlainDigit(c)
  {
  }

  // ---- what is written ----

  /** The names of the modifiers from bit `i` on, lowest first. */
  function NamesFrom(t: Tables, mask: Mask, i: nat): seq<string>
    requires i <= NUM_BITS
    decreases NUM_BITS - i
  {
    if i == NUM_BITS then []
    else
      (if i in mask && i in t.modifiers.nameOf then [t.modifiers.nameOf[i]] else []) + NamesFrom(t, mask, i + 1)
  }

  function Joined(parts: seq<string>): string {
    if parts == [] then "" else if |parts| == 1 then parts[0] else parts[0] + "+" + Joined(parts[1..])
  }

  function PlusEach(parts: seq<string>): string {
    if parts == [] then "" else parts[0] + "+" + PlusEach(parts[1..])
  }

  lemma {:induction false} ModifiersArePlused(t: Tables, mask: Mask, i: nat)
    requires i <= NUM_BITS
    ensures ModifierText(t, mask, i) == PlusEach(NamesFrom(t, mask, i))
    decreases NUM_BITS - i
  {
    if i < NUM_BITS {
      ModifiersArePlused(t, mask, i + 1);
      TextStep(t, mask, i);
      var later := NamesFrom(t, mask, i + 1);
      if i in mask && i in t.modifiers.nameOf {
        assert ([t.modifiers.nameOf[i]] + later)[1..] == later;
      } else {
        assert [] + later == later;
      }
    }
  }

  lemma {:induction false} PlusedThen(parts: seq<string>, last: string)
    ensures PlusEach(parts) + last == Joined(parts + [last])
  {
    if parts == [] {
      assert parts + [last] == [last];
      assert "" + last == last;
    } else {
      PlusedThen(parts[1..], last);
      assert (parts + [last])[1..] == parts[1..] + [last];
      assert PlusEach(parts) + last == parts[0] + "+" + (PlusEach(parts[1..]) + last);
    }
  }

  lemma JoinedAlone(names: seq<string>)
    requires names != []
    ensures var x := PlusEach(names); x != "" && x[..|x| - 1] == Joined(names)
  {
    var n := |names| - 1;
    assert names == names[..n] + [names[n]];
    PlusedThen(names[..n], names[n]);
    LastPlus(names);
  }

  lemma FormattedFrom(t: Tables, key: nat, mask: Mask, x: string)
    requires x == ModifierText(t, mask, 0)
    ensures Formatted(t, key, mask)
            == if key != 0 then x + KeyText(t, key) else if x != "" then x[..|x| - 1] else ""
  {
  }

  /** What formatKey writes: the names of the modifiers, lowest bit first, and the key, with
      plus signs between them. */
  lemma FormattedIsJoined(t: Tables, key: nat, mask: Mask, i: nat)
    requires i == 0
    ensures Formatted(t, key, mask)
            == Joined(NamesFrom(t, mask, i) + if key == 0 then [] else [KeyText(t, key)])
  {
    var x, names := ModifierText(t, mask, i), NamesFrom(t, mask, i);
    ModifiersArePlused(t, mask, i);
    FormattedFrom(t, key, mask, x);
    JoinedFrom(x, names, if key == 0 then [] else [KeyText(t, key)]);
  }

  lemma JoinedFrom(x: string, names: seq<string>, key: seq<string>)
    requires x == PlusEach(names) && |key| <= 1
    ensures Joined(names + key) == if key != [] then x + key[0] else if x != "" then x[..|x| - 1] else ""
  {
    if key != [] {
      assert key == [key[0]];
      PlusedThen(names, key[0]);
    } else {
      assert names + key == names;
      if names != [] {
        JoinedAlone(names);
      }
    }
  }

  lemma {:induction false} LastPlus(parts: seq<string>)
    requires parts != []
    ensures PlusEach(parts) == PlusEach(parts[..|parts| - 1]) + parts[|parts| - 1] + "+"
  {
    if |parts| == 1 {
      assert parts[1..] == [] && parts[..0] == [];
      assert parts[0] + "+" + "" == "" + parts[0] + "+";
    } else {
      LastPlus(parts[1..]);
      assert parts[1..][..|parts| - 2] == parts[..|parts| - 1][1..];
    }
  }

  /** Escapes are written with small digits. */
  lemma {:induction false} HexIsSmall(v: nat)
    ensures forall k | 0 <= k < |Hex(v)| :: '0' <= Hex(v)[k] <= '9' || 'a' <= Hex(v)[k] <= 'f'
  {
    if v >= 0x1_0000 {
      HexIsSmall(v / 16);
    }
  }
}
