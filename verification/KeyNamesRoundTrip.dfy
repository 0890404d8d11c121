/** Which keys and modifiers can be written down and read back: exactly those of a simple
    condition.
 */
module KeyNamesRoundTrip {
  import opened KeyMasks
  import opened KeyNames

  // ---- reading one modifier ----

  ghost predicate NoDelimiter(s: string) {
    forall k | 0 <= k < |s| :: !IsDelimiter(s[k])
  }

  lemma {:induction false} ComponentIs(s: string, rest: string, y: string)
    requires NoDelimiter(s) && (rest == "" || IsDelimiter(rest[0])) && y == s + rest
    ensures ComponentLength(y) == |s| && y[..|s|] == s && y[|s|..] == rest
  {
    if s != "" {
      assert y[0] == s[0] && y[1..] == s[1..] + rest;
      ComponentIs(s[1..], rest, y[1..]);
    }
  }

  /** A modifier's name, a plus and something after it. */
  lemma ReadModifier(t: Tables, name: string, rest: string, y: string, mask: Mask)
    requires IsName(name) && Fold(name) in t.modifiers.valueOf
    requires rest != "" && !IsBlank(rest[0]) && y == name + "+" + rest
    ensures var bit := t.modifiers.valueOf[Fold(name)];
            ModifiersOf(t, y, mask) == if bit in mask then None else ModifiersOf(t, rest, mask + {bit})
  {
    var after := "+" + rest;
    assert y == name + after && after[1..] == rest;
    ComponentIs(name, after, y);
  }

  /** The last part of the text. */
  lemma ReadLast(t: Tables, s: string, mask: Mask)
    requires s != "" && NoDelimiter(s)
    ensures ModifiersOf(t, s, mask)
            == if Fold(s) !in t.modifiers.valueOf then Some((s, mask))
               else if t.modifiers.valueOf[Fold(s)] in mask then None
               else Some(("", mask + {t.modifiers.valueOf[Fold(s)]}))
  {
    assert s + "" == s;
    ComponentIs(s, "", s);
  }

  // ---- reading all modifiers ----

  /** The modifiers of a mask from bit `i` on that have names. */
  ghost function NamedFrom(t: Tables, mask: Mask, i: nat): (r: Mask)
    requires i <= NUM_BITS
    ensures forall b :: b in r <==> b in mask && b in t.modifiers.nameOf && i <= b < NUM_BITS
    decreases NUM_BITS - i
  {
    if i == NUM_BITS then {}
    else (if i in mask && i in t.modifiers.nameOf then {i} else {}) + NamedFrom(t, mask, i + 1)
  }

  lemma StartsPlainly(t: Tables, mask: Mask, i: nat, s: string)
    requires t.Valid() && i <= NUM_BITS && s != "" && !IsBlank(s[0])
    ensures var x := ModifierText(t, mask, i) + s; x != "" && !IsBlank(x[0])
    decreases NUM_BITS - i
  {
    if i < NUM_BITS {
      StartsPlainly(t, mask, i + 1, s);
      if i in mask && i in t.modifiers.nameOf {
        assert IsName(t.modifiers.nameOf[i]);
      } else {
        assert ModifierText(t, mask, i) == ModifierText(t, mask, i + 1);
      }
    }
  }

  lemma NameIs(t: Tables, b: nat)
    requires t.Valid() && b in t.modifiers.nameOf
    ensures IsName(t.modifiers.nameOf[b]) && Fold(t.modifiers.nameOf[b]) in t.modifiers.valueOf
    ensures t.modifiers.valueOf[Fold(t.modifiers.nameOf[b])] == b
  {}

  lemma ReadOne(t: Tables, i: nat, later: string, s: string, m: Mask)
    requires t.Valid() && i in t.modifiers.nameOf && i !in m
    requires later + s != "" && !IsBlank((later + s)[0])
    ensures ModifiersOf(t, (t.modifiers.nameOf[i] + "+" + later) + s, m) == ModifiersOf(t, later + s, m + {i})
  {
    var name := t.modifiers.nameOf[i];
    NameIs(t, i);
    var x := (name + "+" + later) + s;
    assert x == name + "+" + (later + s);
    ReadModifier(t, name, later + s, x, m);
  }

  /** The mask read so far, with bit `i` if it is there and has a name. */
  ghost function WithBit(t: Tables, mask: Mask, i: nat, m: Mask): Mask {
    if i in mask && i in t.modifiers.nameOf then m + {i} else m
  }

  lemma NamedStep(t: Tables, mask: Mask, i: nat, m: Mask)
    requires i < NUM_BITS && m !! NamedFrom(t, mask, i)
    ensures i in mask && i in t.modifiers.nameOf ==> i !in m
    ensures WithBit(t, mask, i, m) !! NamedFrom(t, mask, i + 1)
    ensures WithBit(t, mask, i, m) + NamedFrom(t, mask, i + 1) == m + NamedFrom(t, mask, i)
  {}

  lemma TextStep(t: Tables, mask: Mask, i: nat)
    requires i < NUM_BITS
    ensures ModifierText(t, mask, i)
            == if i in mask && i in t.modifiers.nameOf
               then t.modifiers.nameOf[i] + "+" + ModifierText(t, mask, i + 1) else ModifierText(t, mask, i + 1)
  {
    assert "" + ModifierText(t, mask, i + 1) == ModifierText(t, mask, i + 1);
  }

  lemma ReadNext(t: Tables, mask: Mask, i: nat, s: string, m: Mask)
    requires t.Valid() && i < NUM_BITS && s != "" && !IsBlank(s[0])
    requires i in mask && i in t.modifiers.nameOf ==> i !in m
    ensures var later := ModifierText(t, mask, i + 1) + s;
            ModifiersOf(t, ModifierText(t, mask, i) + s, m)
            == ModifiersOf(t, later, WithBit(t, mask, i, m))
  {
    TextStep(t, mask, i);
    if i in mask && i in t.modifiers.nameOf {
      StartsPlainly(t, mask, i + 1, s);
      ReadOne(t, i, ModifierText(t, mask, i + 1), s, m);
    }
  }

  lemma {:induction false} ReadModifiers(t: Tables, mask: Mask, i: nat, s: string, m: Mask)
    requires t.Valid() && i <= NUM_BITS && s != "" && !IsBlank(s[0])
    requires m !! NamedFrom(t, mask, i)
    ensures ModifiersOf(t, ModifierText(t, mask, i) + s, m) == ModifiersOf(t, s, m + NamedFrom(t, mask, i))
    decreases NUM_BITS - i
  {
    if i == NUM_BITS {
      assert ModifierText(t, mask, i) + s == s && m + NamedFrom(t, mask, i) == m;
    } else {
      NamedStep(t, mask, i, m);
      ReadNext(t, mask, i, s, m);
      ReadModifiers(t, mask, i + 1, s, WithBit(t, mask, i, m));
    }
  }

  // ---- reading the key ----

  predicate PlainDigit(c: char) {
    HexValue(c).Some? && !IsSpace(c) && c !in {'-', '+', 'x', 'X', '\0'}
  }

  lemma HexDigitValue(d: nat)
    requires d < 16
    ensures HexValue(HexDigit(d)) == Some(d) && PlainDigit(HexDigit(d)) && !IsDelimiter(HexDigit(d))
  {}

  lemma {:induction false} CStringIs(s: string)
    requires forall k | 0 <= k < |s| :: s[k] != '\0'
    ensures CString(s) == s
  {
    if s != "" {
      CStringIs(s[1..]);
    }
  }

  lemma FourDigits(a: char, b: char, c: char, d: char)
    requires PlainDigit(a) && PlainDigit(b) && PlainDigit(c) && PlainDigit(d)
    ensures CString([a, b, c, d]) == [a, b, c, d]
    ensures StrToL16([a, b, c, d])
            == (((HexValue(a).value * 16 + HexValue(b).value) * 16 + HexValue(c).value) * 16 + HexValue(d).value, 4)
  {
    var s := [a, b, c, d];
    CStringIs(s);
    assert s[1..] == [b, c, d] && [b, c, d][1..] == [c, d] && [c, d][1..] == [d] && [d][1..] == [];
    assert Spaces(s) == 0 && s[0..] == s;
    var va, vb, vc, vd := HexValue(a).value, HexValue(b).value, HexValue(c).value, HexValue(d).value;
    assert Digits16([d], (va * 16 + vb) * 16 + vc, 3) == (((va * 16 + vb) * 16 + vc) * 16 + vd, 4);
    assert Digits16([c, d], va * 16 + vb, 2) == Digits16([d], (va * 16 + vb) * 16 + vc, 3);
    assert Digits16([b, c, d], va, 1) == Digits16([c, d], va * 16 + vb, 2);
    assert Digits16(s, 0, 0) == Digits16([b, c, d], va, 1);
  }

  /** A backslash, a `u` and four characters are read as a number. */
  lemma EscapeIs(t: Tables, x: string, h: string, value: nat)
    requires t.Valid() && x == "\\u" + h && |h| == 4 && value < KEY_IDS
    requires Escaped(h) == Some(value)
    ensures ParsedKey(t, x) == Some(value)
  {
    NotANameOfAKey(t, x);
    assert |x| == 6 && x[0] == '\\' && x[1] == 'u' && x[2..] == h;
  }

  lemma NotANameOfAKey(t: Tables, x: string)
    requires t.Valid() && x != "" && x[0] == '\\'
    ensures Fold(x) !in t.keys.valueOf
  {
    assert Fold(x)[0] == '\\';
  }

  lemma ReadFour(t: Tables, h: string, a: nat, b: nat, c: nat, d: nat, key: nat)
    requires t.Valid() && a < 16 && b < 16 && c < 16 && d < 16
    requires h == [HexDigit(a), HexDigit(b), HexDigit(c), HexDigit(d)]
    requires key == ((a * 16 + b) * 16 + c) * 16 + d && key < KEY_IDS
    ensures ParsedKey(t, "\\u" + h) == Some(key)
  {
    DigitsRead(h, a, b, c, d, key);
    EscapeIs(t, "\\u" + h, h, key);
  }

  lemma DigitsRead(h: string, a: nat, b: nat, c: nat, d: nat, key: nat)
    requires a < 16 && b < 16 && c < 16 && d < 16
    requires h == [HexDigit(a), HexDigit(b), HexDigit(c), HexDigit(d)]
    requires key == ((a * 16 + b) * 16 + c) * 16 + d && key < KEY_IDS
    ensures Escaped(h) == Some(key)
  {
    HexDigitValue(a);
    HexDigitValue(b);
    HexDigitValue(c);
    HexDigitValue(d);
    FourDigits(HexDigit(a), HexDigit(b), HexDigit(c), HexDigit(d));
  }

  lemma ReadEscape(t: Tables, key: nat)
    requires t.Valid() && key < 0x1_0000
    ensures ParsedKey(t, "\\u" + Hex(key)) == Some(key)
  {
    var a, b, c, d := key / 4096, key / 256 % 16, key / 16 % 16, key % 16;
    HexSum(key);
    ReadFour(t, Hex(key), a, b, c, d, key);
  }

  lemma HexSum(key: nat)
    requires key < 0x1_0000
    ensures key == ((key / 4096 * 16 + key / 256 % 16) * 16 + key / 16 % 16) * 16 + key % 16
  {
    var a := key / 16;
    var b := a / 16;
    var c := b / 16;
    assert key / 256 == b && key / 4096 == c;
  }

  lemma {:induction false} HexIsPlain(v: nat)
    ensures NoDelimiter(Hex(v))
  {
    HexDigitValue(v % 16);
    if v >= 0x1_0000 {
      HexIsPlain(v / 16);
    } else {
      HexDigitValue(v / 4096);
      HexDigitValue(v / 256 % 16);
      HexDigitValue(v / 16 % 16);
    }
  }

  /** What is left for the key is read as that key, unless it has too many digits. */
  lemma ReadKey(t: Tables, key: nat)
    requires t.Valid() && key != NO_KEY
    ensures ParsedKey(t, KeyText(t, key)) == if key in t.keys.nameOf || key < 0x1_0000 then Some(key) else None
  {
    var x := KeyText(t, key);
    if key in t.keys.nameOf {
    } else if 33 <= key < 127 {
    } else if key < 0x1_0000 {
      ReadEscape(t, key);
    } else {
      assert Fold(x)[0] == '\\';
      assert |x| > 6;
    }
  }

  lemma KeyTextIs(t: Tables, key: nat)
    requires t.Valid() && key != NO_KEY
    ensures var s := KeyText(t, key);
            && s != "" && !IsBlank(s[0])
            && (NoDelimiter(s) <==> s != "+" && s != ")")
            && (s == "+" <==> key !in t.keys.nameOf && key == 43)
            && (s == ")" <==> key !in t.keys.nameOf && key == 41)
            && (key !in t.keys.nameOf ==> Fold(s) !in t.modifiers.valueOf)
  {
    var s := KeyText(t, key);
    if key in t.keys.nameOf {
      assert IsName(s);
    } else if 33 <= key < 127 {
      assert s[0] == key as char;
    } else {
      HexIsPlain(key);
      assert Fold(s)[0] == '\\';
      forall k | 0 <= k < |s| ensures !IsDelimiter(s[k]) {
        assert k >= 2 ==> s[k] == Hex(key)[k - 2];
      }
    }
  }

  // ---- the round trip ----

  ghost predicate RoundTrips(t: Tables, key: nat, mask: Mask) {
    var p := ParsedModifiers(t, Formatted(t, key, mask));
    p.Some? && p.value.1 == mask && ParsedKey(t, p.value.0) == Some(key)
  }

  /** Every modifier has a name; and the key, if any, has a name of its own that is not also
      a modifier's, or has none and is a 16-bit value other than the closing parenthesis,
      which the parser takes for a separator. */
  predicate Faithful(t: Tables, key: nat, mask: Mask) {
    && mask <= t.modifiers.nameOf.Keys
    && (key == NO_KEY
        || (if key in t.keys.nameOf then Fold(t.keys.nameOf[key]) !in t.modifiers.valueOf
            else key <= 0xFFFF && key != 41))
  }

  lemma NamedIsAll(t: Tables, mask: Mask)
    requires t.Valid()
    ensures NamedFrom(t, mask, 0) == mask <==> mask <= t.modifiers.nameOf.Keys
  {
    if mask <= t.modifiers.nameOf.Keys {
      assert NamedFrom(t, mask, 0) == mask;
    } else {
      var b :| b in mask && b !in t.modifiers.nameOf.Keys;
      assert b !in NamedFrom(t, mask, 0);
    }
  }

  /** Reading a formatted key comes down to reading the key's own text. */
  lemma ReadFormatted(t: Tables, key: nat, mask: Mask)
    requires t.Valid() && key != NO_KEY
    ensures ParsedModifiers(t, Formatted(t, key, mask))
            == ModifiersOf(t, KeyText(t, key), NamedFrom(t, mask, 0))
  {
    var s := KeyText(t, key);
    KeyTextIs(t, key);
    StartsPlainly(t, mask, 0, s);
    NothingSkipped(ModifierText(t, mask, 0) + s);
    ReadAllModifiers(t, mask, s);
  }

  lemma NothingSkipped(x: string)
    requires x != "" && !IsBlank(x[0])
    ensures SkipBlanks(x) == x
  {}

  lemma ReadAllModifiers(t: Tables, mask: Mask, s: string)
    requires t.Valid() && s != "" && !IsBlank(s[0])
    ensures ModifiersOf(t, ModifierText(t, mask, 0) + s, {}) == ModifiersOf(t, s, NamedFrom(t, mask, 0))
  {
    var named := NamedFrom(t, mask, 0);
    ReadModifiers(t, mask, 0, s, {});
    assert {} + named == named;
  }

  lemma ReadDelimiter(t: Tables, s: string, mask: Mask)
    requires s == "+" || s == ")"
    ensures ModifiersOf(t, s, mask) == if s == "+" then Some((s, mask)) else None
  {
    assert s[0..] == s;
  }

  lemma ReadNothing(t: Tables)
    requires t.Valid()
    ensures ParsedKey(t, "") == Some(NO_KEY)
  {
    assert Fold("") == "";
  }

  lemma WithKey(t: Tables, key: nat, mask: Mask)
    requires t.Valid() && key != NO_KEY
    ensures RoundTrips(t, key, mask) <==> Faithful(t, key, mask)
  {
    var s, named := KeyText(t, key), NamedFrom(t, mask, 0);
    ReadFormatted(t, key, mask);
    KeyTextIs(t, key);
    NamedIsAll(t, mask);
    ReadKey(t, key);
    ReadNothing(t);
    if NoDelimiter(s) {
      ReadLast(t, s, named);
    } else {
      ReadDelimiter(t, s, named);
    }
  }

  /** The text of the modifiers alone ends with the name of the last of them. */
  lemma {:induction false} LastModifier(t: Tables, mask: Mask, i: nat) returns (last: nat)
    requires i <= NUM_BITS && NamedFrom(t, mask, i) != {}
    ensures last in NamedFrom(t, mask, i) && last < NUM_BITS
    ensures ModifierText(t, mask, i) == ModifierText(t, mask - {last}, i) + (t.modifiers.nameOf[last] + "+")
    decreases NUM_BITS - i
  {
    if NamedFrom(t, mask, i + 1) == {} {
      last := i;
      OneModifier(t, mask, i);
    } else {
      last := LastModifier(t, mask, i + 1);
      LastStep(t, mask, i, last, t.modifiers.nameOf[last] + "+");
    }
  }

  lemma OneModifier(t: Tables, mask: Mask, i: nat)
    requires i < NUM_BITS && NamedFrom(t, mask, i) != {} && NamedFrom(t, mask, i + 1) == {}
    ensures i in NamedFrom(t, mask, i)
    ensures ModifierText(t, mask, i) == ModifierText(t, mask - {i}, i) + (t.modifiers.nameOf[i] + "+")
  {
    OnlyThisNamed(t, mask, i);
    TextStep(t, mask, i);
    NothingNamed(t, mask, i + 1);
    NothingNamed(t, mask - {i}, i);
    EmptyEnds(t.modifiers.nameOf[i] + "+");
  }

  lemma OnlyThisNamed(t: Tables, mask: Mask, i: nat)
    requires i < NUM_BITS && NamedFrom(t, mask, i) != {} && NamedFrom(t, mask, i + 1) == {}
    ensures i in mask && i in t.modifiers.nameOf && i in NamedFrom(t, mask, i)
    ensures NamedFrom(t, mask - {i}, i) == {}
  {
    var b :| b in NamedFrom(t, mask, i);
    assert b !in NamedFrom(t, mask, i + 1);
    forall c ensures c !in NamedFrom(t, mask - {i}, i) {
      assert c !in NamedFrom(t, mask, i + 1);
    }
  }

  lemma EmptyEnds(s: string)
    ensures s + "" == s && "" + s == s
  {}

  lemma LastStep(t: Tables, mask: Mask, i: nat, last: nat, end: string)
    requires i < last && i < NUM_BITS
    requires ModifierText(t, mask, i + 1) == ModifierText(t, mask - {last}, i + 1) + end
    ensures ModifierText(t, mask, i) == ModifierText(t, mask - {last}, i) + end
  {
    TextStep(t, mask, i);
    TextStep(t, mask - {last}, i);
    if i in mask && i in t.modifiers.nameOf {
      LaterJoin(t.modifiers.nameOf[i] + "+", ModifierText(t, mask - {last}, i + 1), end);
    }
  }

  lemma LaterJoin(a: string, b: string, c: string)
    ensures a + (b + c) == (a + b) + c
  {}

  lemma {:induction false} NothingNamed(t: Tables, mask: Mask, i: nat)
    requires i <= NUM_BITS && NamedFrom(t, mask, i) == {}
    ensures ModifierText(t, mask, i) == ""
    decreases NUM_BITS - i
  {
    if i < NUM_BITS {
      NothingNamed(t, mask, i + 1);
    }
  }

  lemma WithoutKey(t: Tables, mask: Mask)
    requires t.Valid()
    ensures RoundTrips(t, NO_KEY, mask) <==> Faithful(t, NO_KEY, mask)
  {
    NamedIsAll(t, mask);
    ReadNothing(t);
    if NamedFrom(t, mask, 0) == {} {
      NoModifiers(t, mask);
    } else {
      OnlyModifiers(t, mask);
    }
  }

  lemma NoModifiers(t: Tables, mask: Mask)
    requires NamedFrom(t, mask, 0) == {}
    ensures ParsedModifiers(t, Formatted(t, NO_KEY, mask)) == Some(("", {}))
  {
    NothingNamed(t, mask, 0);
    assert Formatted(t, NO_KEY, mask) == "";
    assert SkipBlanks("") == "";
  }

  lemma OnlyModifiers(t: Tables, mask: Mask)
    requires t.Valid() && NamedFrom(t, mask, 0) != {}
    ensures ParsedModifiers(t, Formatted(t, NO_KEY, mask)) == Some(("", NamedFrom(t, mask, 0)))
  {
    var last := LastModifier(t, mask, 0);
    NameIs(t, last);
    FormattedModifiers(t, mask, ModifierText(t, mask - {last}, 0), t.modifiers.nameOf[last]);
    StartsPlainly(t, mask - {last}, 0, t.modifiers.nameOf[last]);
    ReadLastModifier(t, mask - {last}, t.modifiers.nameOf[last], last);
    WithoutOne(t, mask, last);
  }

  lemma FormattedModifiers(t: Tables, mask: Mask, before: string, name: string)
    requires name != "" && ModifierText(t, mask, 0) == before + (name + "+")
    ensures Formatted(t, NO_KEY, mask) == before + name
  {
    WithoutLastPlus(before, name);
  }

  lemma WithoutOne(t: Tables, mask: Mask, last: nat)
    requires last in NamedFrom(t, mask, 0)
    ensures NamedFrom(t, mask - {last}, 0) + {last} == NamedFrom(t, mask, 0)
  {}

  lemma WithoutLastPlus(text: string, name: string)
    requires name != ""
    ensures var x := text + (name + "+"); x != "" && x[..|x| - 1] == text + name
  {}

  lemma ReadLastModifier(t: Tables, before: Mask, name: string, last: nat)
    requires t.Valid() && last in t.modifiers.nameOf && name == t.modifiers.nameOf[last] && last !in before
    ensures ModifiersOf(t, ModifierText(t, before, 0) + name, {}) == Some(("", NamedFrom(t, before, 0) + {last}))
  {
    var others := NamedFrom(t, before, 0);
    NameIs(t, last);
    ReadModifiers(t, before, 0, name, {});
    assert {} + others == others;
    ReadLast(t, name, others);
  }

  /** A key with modifiers is read back as written exactly when the condition holds. */
  lemma FormatRoundTrip(t: Tables, key: nat, mask: Mask)
    requires t.Valid()
    ensures RoundTrips(t, key, mask) <==> Faithful(t, key, mask)
  {
    if key == NO_KEY {
      WithoutKey(t, mask);
    } else {
      WithKey(t, key, mask);
    }
  }

  // ---- the program's tables ----

  /** The modifiers by name, with the number of their bit. */
  const MODIFIERS: Entries :=
    [("Alt", 2), ("AltGr", 5), ("Control", 1), ("Meta", 3), ("Shift", 0), ("Super", 4)]

  /** The place of a folded name in that list, by its length and first letters. */
  function ModifierRank(f: string): nat {
    if |f| == 3 then 0
    else if |f| == 7 then 2
    else if |f| == 4 then 3
    else if f != "" && f[0] == 'a' then 1
    else if |f| > 1 && f[1] == 'h' then 4
    else 5
  }

  lemma ModifiersWellNamed()
    ensures WellNamed(MODIFIERS)
  {
    ModifiersRanked();
    ModifiersPlain();
  }

  lemma ModifiersRanked()
    ensures forall i | 0 <= i < |MODIFIERS| :: ModifierRank(Fold(MODIFIERS[i].0)) == i
  {}

  lemma ModifiersPlain()
    ensures forall i | 0 <= i < |MODIFIERS| :: IsName(MODIFIERS[i].0)
  {}

  /** Tables built from such lists satisfy what the round trip needs. */
  lemma TablesFrom(keys: Entries, modifiers: Entries)
    requires WellNamed(keys) && WellNamed(modifiers)
    requires forall i | 0 <= i < |keys| :: keys[i].1 != NO_KEY
    requires forall i | 0 <= i < |modifiers| :: modifiers[i].1 < NUM_BITS
    ensures Tables(Build(keys), Build(modifiers)).Valid()
  {
    BuiltConsistent(keys);
    BuiltConsistent(modifiers);
    BuiltValues(keys);
    BuiltValues(modifiers);
  }

  lemma {:induction false} BuiltValues(entries: Entries)
    ensures forall v | v in Build(entries).nameOf :: exists i :: 0 <= i < |entries| && entries[i].1 == v
  {
    if entries != [] {
      var before, e := entries[..|entries| - 1], entries[|entries| - 1];
      BuiltValues(before);
      forall v | v in Build(entries).nameOf ensures exists i :: 0 <= i < |entries| && entries[i].1 == v {
        if v == e.1 {
          assert entries[|entries| - 1].1 == v;
        } else {
          assert v in Build(before).nameOf;
          var i :| 0 <= i < |before| && before[i].1 == v;
          assert entries[i].1 == v;
        }
      }
    }
  }
}
