/** The textual form of a key with modifiers (formatKey, parseKey and parseModifiers of
    KeyMap.cpp).
 */
module KeyNames {
  import opened KeyMasks

  datatype Option<T> = None | Some(value: T)

  // ---- caseless names ----

  function Lower(c: char): char {
    if 'A' <= c <= 'Z' then c - 'A' + 'a' else c
  }

  function Fold(s: string): (r: string)
    ensures |r| == |s| && forall i | 0 <= i < |s| :: r[i] == Lower(s[i])
  {
    seq(|s|, i requires 0 <= i < |s| => Lower(s[i]))
  }

  predicate IsBlank(c: char) {
    c == ' ' || c == '\t'
  }

  predicate IsDelimiter(c: char) {
    IsBlank(c) || c == '+' || c == ')'
  }

  // ---- the tables ----

  /** A table as the program lists it: names and what they stand for, a key or the number of a
      modifier bit. */
  type Entries = seq<(string, nat)>

  /** The maps built from a list: from folded names to values, and back. */
  datatype Names = Names(valueOf: map<string, nat>, nameOf: map<nat, string>)

  function Build(entries: Entries): Names {
    if entries == [] then Names(map[], map[])
    else
      var before, e := Build(entries[..|entries| - 1]), entries[|entries| - 1];
      Names(before.valueOf[Fold(e.0) := e.1], before.nameOf[e.1 := e.0])
  }

  /** The names of a list: no two alike but for case, none a single character, none with a
      separator or a leading backslash. */
  ghost predicate WellNamed(entries: Entries) {
    && (forall i, j | 0 <= i < j < |entries| :: Fold(entries[i].0) != Fold(entries[j].0))
    && forall i | 0 <= i < |entries| :: IsName(entries[i].0)
  }

  ghost predicate IsName(s: string) {
    |s| >= 2 && s[0] != '\\' && forall k | 0 <= k < |s| :: !IsDelimiter(s[k])
  }

  /** What the round trip needs of the maps. */
  ghost predicate Consistent(n: Names) {
    && (forall v | v in n.nameOf ::
          IsName(n.nameOf[v]) && Fold(n.nameOf[v]) in n.valueOf && n.valueOf[Fold(n.nameOf[v])] == v)
    && forall f | f in n.valueOf :: |f| >= 2 && f[0] != '\\' && n.valueOf[f] in n.nameOf
  }

  lemma {:induction false} BuiltFrom(entries: Entries, f: string)
    ensures f in Build(entries).valueOf ==> exists i :: 0 <= i < |entries| && Fold(entries[i].0) == f
  {
    if entries != [] {
      BuiltFrom(entries[..|entries| - 1], f);
      if f == Fold(entries[|entries| - 1].0) {
      } else if f in Build(entries).valueOf {
        var i :| 0 <= i < |entries| - 1 && Fold(entries[..|entries| - 1][i].0) == f;
        assert Fold(entries[i].0) == f;
      }
    }
  }

  lemma {:induction false} BuiltConsistent(entries: Entries)
    requires WellNamed(entries)
    ensures Consistent(Build(entries))
  {
    if entries != [] {
      var before, e := entries[..|entries| - 1], entries[|entries| - 1];
      BuiltConsistent(before);
      BuiltFrom(before, Fold(e.0));
      assert IsName(e.0);
      assert Fold(e.0)[0] == Lower(e.0[0]);
    }
  }

  datatype Tables = Tables(keys: Names, modifiers: Names) {
    ghost predicate Valid() {
      && Consistent(keys) && Consistent(modifiers)
      && 0 !in keys.nameOf
      && forall b | b in modifiers.nameOf :: b < NUM_BITS
    }
  }

  // ---- formatting ----

  function HexDigit(d: nat): char
    requires d < 16
  {
    if d < 10 then '0' + d as char else 'a' + (d - 10) as char
  }

  /** "%04x" */
  function Hex(v: nat): (r: string)
    ensures |r| >= 4 && (|r| == 4 <==> v < 0x1_0000)
  {
    if v < 0x1_0000
    then [HexDigit(v / 4096), HexDigit(v / 256 % 16), HexDigit(v / 16 % 16), HexDigit(v % 16)]
    else Hex(v / 16) + [HexDigit(v % 16)]
  }

  function KeyText(t: Tables, key: nat): string {
    if key in t.keys.nameOf then t.keys.nameOf[key]
    else if 33 <= key < 127 then [key as char]
    else "\\u" + Hex(key)
  }

  /** The names of the modifiers from bit `i` on, each followed by a plus. */
  function ModifierText(t: Tables, mask: Mask, i: nat): string
    requires i <= NUM_BITS
    decreases NUM_BITS - i
  {
    if i == NUM_BITS then ""
    else
      (if i in mask && i in t.modifiers.nameOf then t.modifiers.nameOf[i] + "+" else "")
      + ModifierText(t, mask, i + 1)
  }

  const NO_KEY: nat := 0

  function Formatted(t: Tables, key: nat, mask: Mask): string {
    var x := ModifierText(t, mask, 0);
    if key != NO_KEY then x + KeyText(t, key)
    else if x != "" then x[..|x| - 1]
    else x
  }

  // ---- parsing ----

  function SkipBlanks(y: string): (r: string)
    ensures |r| <= |y|
  {
    if y != "" && IsBlank(y[0]) then SkipBlanks(y[1..]) else y
  }

  /** The length of the component at the front. */
  function ComponentLength(y: string): (r: nat)
    ensures r <= |y|
  {
    if y != "" && !IsDelimiter(y[0]) then 1 + ComponentLength(y[1..]) else 0
  }

  /** Without the blanks at the end. */
  function TrimEnd(y: string): string {
    if y != "" && IsBlank(y[|y| - 1]) then TrimEnd(y[..|y| - 1]) else y
  }

  /** The modifiers at the front of a text, and the text that is left for the key. */
  function ModifiersOf(t: Tables, y: string, mask: Mask): Option<(string, Mask)>
    decreases |y|
  {
    if y == "" then Some(("", mask))
    else
      var c, after := y[..ComponentLength(y)], SkipBlanks(y[ComponentLength(y)..]);
      if c == "" then if y[0] == '+' then Some((y, mask)) else None
      else if Fold(c) !in t.modifiers.valueOf then Some((TrimEnd(y), mask))
      else
        var bit := t.modifiers.valueOf[Fold(c)];
        if bit in mask then None
        else if after == "" then Some(("", mask + {bit}))
        else if after[0] != '+' then None
        else ModifiersOf(t, SkipBlanks(after[1..]), mask + {bit})
  }

  function ParsedModifiers(t: Tables, x: string): Option<(string, Mask)> {
    ModifiersOf(t, SkipBlanks(x), {})
  }

  predicate IsGraphic(c: char) {
    '!' <= c <= '~'
  }

  function HexValue(c: char): Option<nat> {
    if '0' <= c <= '9' then Some((c - '0') as nat)
    else if 'a' <= c <= 'f' then Some((c - 'a') as nat + 10)
    else if 'A' <= c <= 'F' then Some((c - 'A') as nat + 10)
    else None
  }

  /** A C string ends at the first NUL. */
  function CString(x: string): string {
    if x == "" || x[0] == '\0' then "" else [x[0]] + CString(x[1..])
  }

  predicate IsSpace(c: char) {
    c == ' ' || '\t' <= c <= '\r'
  }

  /** The hexadecimal digits at the front: their value and how many there are. */
  function Digits16(s: string, value: nat, count: nat): (nat, nat) {
    if s == "" || HexValue(s[0]).None? then (value, count)
    else Digits16(s[1..], value * 16 + HexValue(s[0]).value, count + 1)
  }

  /** strtol with base 16: the value and how much of the string was used; nothing without a
      digit. */
  function StrToL16(s: string): (int, nat) {
    var signAt := Spaces(s);
    var signed := signAt < |s| && (s[signAt] == '-' || s[signAt] == '+');
    var at := if signed then signAt + 1 else signAt;
    var prefixed := at + 2 < |s| && s[at] == '0' && (s[at + 1] == 'x' || s[at + 1] == 'X') && HexValue(s[at + 2]).Some?;
    var from := if prefixed then at + 2 else at;
    var (magnitude, count) := Digits16(s[from..], 0, 0);
    var value: int := if signed && s[signAt] == '-' then -(magnitude as int) else magnitude;
    if count == 0 then (0, 0) else (value, from + count)
  }

  function Spaces(s: string): (r: nat)
    ensures r <= |s|
  {
    if s != "" && IsSpace(s[0]) then 1 + Spaces(s[1..]) else 0
  }

  const KEY_IDS: nat := 0x1_0000_0000

  /** The value of an escape's digits, if they are all read. */
  function Escaped(digits: string): Option<nat> {
    var s := CString(digits);
    var (value, used) := StrToL16(s);
    if used < |s| then None else Some(value % KEY_IDS)
  }

  function ParsedKey(t: Tables, x: string): Option<nat> {
    if Fold(x) in t.keys.valueOf then Some(t.keys.valueOf[Fold(x)])
    else if |x| == 1 then if IsGraphic(x[0]) then Some(x[0] as nat) else None
    else if |x| == 6 && x[0] == '\\' && x[1] == 'u' then
      Escaped(x[2..])
    else if x != "" then None
    else Some(NO_KEY)
  }

  // ---- the methods ----

  method InitKeyNameMaps(entries: Entries) returns (names: Names)
    ensures names == Build(entries)
  {
    names := Names(map[], map[]);
    for i := 0 to |entries|
      invariant names == Build(entries[..i])
    {
      assert entries[..i + 1][..i] == entries[..i];
      var e := entries[i];
      names := Names(names.valueOf[Fold(e.0) := e.1], names.nameOf[e.1 := e.0]);
    }
    assert entries[..|entries|] == entries;
  }

  lemma Appended(x: string, name: string, rest: string)
    ensures x + ((name + "+") + rest) == ((x + name) + "+") + rest
  {}

  method FormatKey(t: Tables, key: nat, mask: Mask) returns (x: string)
    ensures x == Formatted(t, key, mask)
  {
    x := "";
    for i := 0 to NUM_BITS
      invariant x + ModifierText(t, mask, i) == ModifierText(t, mask, 0)
    {
      if i in mask && i in t.modifiers.nameOf {
        Appended(x, t.modifiers.nameOf[i], ModifierText(t, mask, i + 1));
        x := x + t.modifiers.nameOf[i];
        x := x + "+";
      } else {
        assert "" + ModifierText(t, mask, i + 1) == ModifierText(t, mask, i + 1);
      }
    }
    assert x == x + "";
    if key != NO_KEY {
      if key in t.keys.nameOf {
        x := x + t.keys.nameOf[key];
      } else if 33 <= key < 127 {
        x := x + [key as char];
      } else {
        x := x + ("\\u" + Hex(key));
      }
    } else if x != "" {
      x := x[..|x| - 1];
    }
  }

  method FindFirstNotBlank(x: string, from: nat) returns (at: nat)
    requires from <= |x|
    ensures from <= at <= |x| && at == NotBlankFrom(x, from)
  {
    at := from;
    while at < |x| && IsBlank(x[at])
      invariant from <= at <= |x| && SkipBlanks(x[at..]) == SkipBlanks(x[from..])
    {
      assert x[at..][1..] == x[at + 1..];
      at := at + 1;
    }
  }

  method FindFirstDelimiter(x: string, from: nat) returns (at: nat)
    requires from <= |x|
    ensures at == from + ComponentLength(x[from..]) && at <= |x|
  {
    at := from;
    while at < |x| && !IsDelimiter(x[at])
      invariant from <= at <= |x| && at + ComponentLength(x[at..]) == from + ComponentLength(x[from..])
    {
      assert x[at..][1..] == x[at + 1..];
      at := at + 1;
    }
  }

  /** The first position from `at` on that is not blank. */
  ghost function NotBlankFrom(x: string, at: nat): (next: nat)
    requires at <= |x|
    ensures next <= |x|
  {
    |x| - |SkipBlanks(x[at..])|
  }

  lemma {:induction false} SkipBlanksIs(y: string)
    ensures SkipBlanks(y) == y[|y| - |SkipBlanks(y)|..]
  {
    if y != "" && IsBlank(y[0]) {
      SkipBlanksIs(y[1..]);
    }
  }

  lemma SkipBlanksAt(x: string, at: nat)
    requires at <= |x|
    ensures at <= NotBlankFrom(x, at) && SkipBlanks(x[at..]) == x[NotBlankFrom(x, at)..]
  {
    SkipBlanksIs(x[at..]);
  }

  /** The definition of ModifiersOf for a text whose first component and rest are given. */
  lemma FirstComponent(t: Tables, y: string, c: string, after: string, mask: Mask)
    requires y != "" && c == y[..ComponentLength(y)] && after == SkipBlanks(y[ComponentLength(y)..])
    ensures c == "" ==> ModifiersOf(t, y, mask) == if y[0] == '+' then Some((y, mask)) else None
    ensures c != "" && Fold(c) !in t.modifiers.valueOf ==> ModifiersOf(t, y, mask) == Some((TrimEnd(y), mask))
    ensures c != "" && Fold(c) in t.modifiers.valueOf ==>
              var bit := t.modifiers.valueOf[Fold(c)];
              ModifiersOf(t, y, mask) == if bit in mask then None
                                         else if after == "" then Some(("", mask + {bit}))
                                         else if after[0] != '+' then None
                                         else ModifiersOf(t, SkipBlanks(after[1..]), mask + {bit})
  {}

  /** The same component and rest, by position. */
  lemma ComponentAt(x: string, tb: nat, te: nat)
    requires tb < |x| && te == tb + ComponentLength(x[tb..]) && te <= |x|
    ensures x[tb..te] == x[tb..][..ComponentLength(x[tb..])]
    ensures x[te..] == x[tb..][ComponentLength(x[tb..])..] && x[tb..][0] == x[tb]
  {}

  /** The blanks after the component, and those after the plus. */
  lemma AfterComponent(x: string, te: nat)
    requires te <= |x|
    ensures var after, next := SkipBlanks(x[te..]), NotBlankFrom(x, te);
            && te <= next && (after == "" <==> next == |x|)
            && (next < |x| ==>
                  && after[0] == x[next] && next < NotBlankFrom(x, next + 1)
                  && SkipBlanks(after[1..]) == x[NotBlankFrom(x, next + 1)..])
  {
    SkipBlanksAt(x, te);
    var next := NotBlankFrom(x, te);
    if next < |x| {
      SkipBlanksAt(x, next + 1);
      assert x[next..][1..] == x[next + 1..];
    }
  }

  /** The same for a text in place, by what its first component is: none, or no modifier. */
  lemma NoModifierAt(t: Tables, x: string, tb: nat, te: nat, mask: Mask)
    requires tb < |x| && te == tb + ComponentLength(x[tb..])
    ensures tb == te ==> ModifiersOf(t, x[tb..], mask) == if x[tb] == '+' then Some((x[tb..], mask)) else None
    ensures tb < te && Fold(x[tb..te]) !in t.modifiers.valueOf ==>
              ModifiersOf(t, x[tb..], mask) == Some((TrimEnd(x[tb..]), mask))
  {
    ComponentAt(x, tb, te);
    FirstComponent(t, x[tb..], x[tb..te], SkipBlanks(x[te..]), mask);
  }

  /** A modifier for the second time, or the last one, or one without a plus after it. */
  lemma LastModifierAt(t: Tables, x: string, tb: nat, te: nat, mask: Mask)
    requires tb < |x| && te == tb + ComponentLength(x[tb..]) && tb < te
    requires Fold(x[tb..te]) in t.modifiers.valueOf
    ensures var bit, next := t.modifiers.valueOf[Fold(x[tb..te])], NotBlankFrom(x, te);
            && (bit in mask ==> ModifiersOf(t, x[tb..], mask) == None)
            && (bit !in mask && next == |x| ==> ModifiersOf(t, x[tb..], mask) == Some(("", mask + {bit})))
            && (bit !in mask && next < |x| && x[next] != '+' ==> ModifiersOf(t, x[tb..], mask) == None)
  {
    ComponentAt(x, tb, te);
    AfterComponent(x, te);
    FirstComponent(t, x[tb..], x[tb..te], SkipBlanks(x[te..]), mask);
  }

  /** A modifier with a plus after it. */
  lemma ModifierAt(t: Tables, x: string, tb: nat, te: nat, mask: Mask)
    requires tb < |x| && te == tb + ComponentLength(x[tb..]) && tb < te
    requires Fold(x[tb..te]) in t.modifiers.valueOf && t.modifiers.valueOf[Fold(x[tb..te])] !in mask
    requires NotBlankFrom(x, te) < |x| && x[NotBlankFrom(x, te)] == '+'
    ensures te < NotBlankFrom(x, NotBlankFrom(x, te) + 1)
    ensures ModifiersOf(t, x[tb..], mask)
            == ModifiersOf(t, x[NotBlankFrom(x, NotBlankFrom(x, te) + 1)..],
                           mask + {t.modifiers.valueOf[Fold(x[tb..te])]})
  {
    ComponentAt(x, tb, te);
    AfterComponent(x, te);
    FirstComponent(t, x[tb..], x[tb..te], SkipBlanks(x[te..]), mask);
  }

  /** How one turn of the parsing loop ends: with a result, or at a later position. */
  datatype Turn = Done(result: Option<(string, Mask)>) | Go(at: nat, mask: Mask)

  ghost function TurnAt(t: Tables, x: string, tb: nat, mask: Mask): Turn
    requires tb < |x|
  {
    var te := tb + ComponentLength(x[tb..]);
    var next := NotBlankFrom(x, te);
    if tb == te then Done(if x[tb] == '+' then Some((x[tb..], mask)) else None)
    else if Fold(x[tb..te]) !in t.modifiers.valueOf then Done(Some((TrimEnd(x[tb..]), mask)))
    else if t.modifiers.valueOf[Fold(x[tb..te])] in mask then Done(None)
    else if next == |x| then Done(Some(("", mask + {t.modifiers.valueOf[Fold(x[tb..te])]})))
    else if x[next] != '+' then Done(None)
    else Go(NotBlankFrom(x, next + 1), mask + {t.modifiers.valueOf[Fold(x[tb..te])]})
  }

  lemma TurnDone(t: Tables, x: string, tb: nat, mask: Mask, r: Option<(string, Mask)>)
    requires tb < |x| && TurnAt(t, x, tb, mask) == Done(r)
    ensures ModifiersOf(t, x[tb..], mask) == r
  {
    var te := tb + ComponentLength(x[tb..]);
    if tb < te && Fold(x[tb..te]) in t.modifiers.valueOf {
      LastModifierAt(t, x, tb, te, mask);
    } else {
      NoModifierAt(t, x, tb, te, mask);
    }
  }

  lemma TurnGoes(t: Tables, x: string, tb: nat, mask: Mask, at: nat, m: Mask)
    requires tb < |x| && TurnAt(t, x, tb, mask) == Go(at, m)
    ensures tb < at <= |x| && ModifiersOf(t, x[tb..], mask) == ModifiersOf(t, x[at..], m)
  {
    var te := tb + ComponentLength(x[tb..]);
    assert at == NotBlankFrom(x, NotBlankFrom(x, te) + 1) && m == mask + {t.modifiers.valueOf[Fold(x[tb..te])]};
    ModifierAt(t, x, tb, te, mask);
  }

  /** The body of the loop: one component, and the plus after it. */
  method ParseModifier(t: Tables, x: string, at: nat, before: Mask)
    returns (done: bool, ok: bool, rest: string, tb: nat, mask: Mask)
    requires at < |x|
    ensures TurnAt(t, x, at, before) ==
            if !done then Go(tb, mask) else Done(if ok then Some((rest, mask)) else None)
  {
    done, ok, rest, tb, mask := true, true, "", at, before;
    var te := FindFirstDelimiter(x, tb);
    var c := x[tb..te];
    if c == "" {
      return true, x[tb] == '+', x[tb..], tb, mask;
    }
    if Fold(c) !in t.modifiers.valueOf {
      return true, true, TrimEnd(x[tb..]), tb, mask;
    }
    var bit := t.modifiers.valueOf[Fold(c)];
    if bit in mask {
      return true, false, "", tb, mask;
    }
    mask := mask + {bit};
    tb := FindFirstNotBlank(x, te);
    if tb < |x| {
      if x[tb] != '+' {
        return true, false, "", tb, mask;
      }
      tb := FindFirstNotBlank(x, tb + 1);
      done := false;
    }
  }

  method ParseModifiers(t: Tables, x: string) returns (ok: bool, rest: string, mask: Mask)
    ensures ParsedModifiers(t, x) == if ok then Some((rest, mask)) else None
  {
    mask, rest := {}, x;
    var tb := FindFirstNotBlank(x, 0);
    SkipBlanksAt(x, 0);
    assert x[0..] == x;
    while tb < |x|
      invariant tb <= |x| && ModifiersOf(t, x[tb..], mask) == ParsedModifiers(t, x)
      decreases |x| - tb
    {
      ghost var at, before := tb, mask;
      var done;
      done, ok, rest, tb, mask := ParseModifier(t, x, tb, mask);
      if done {
        TurnDone(t, x, at, before, if ok then Some((rest, mask)) else None);
        return;
      }
      TurnGoes(t, x, at, before, tb, mask);
    }
    return true, "", mask;
  }

  method ParseKey(t: Tables, x: string) returns (ok: bool, key: nat)
    ensures ParsedKey(t, x) == if ok then Some(key) else None
  {
    key := NO_KEY;
    if Fold(x) in t.keys.valueOf {
      key := t.keys.valueOf[Fold(x)];
    } else if |x| == 1 {
      if !IsGraphic(x[0]) {
        return false, key;
      }
      key := x[0] as nat;
    } else if |x| == 6 && x[0] == '\\' && x[1] == 'u' {
      var digits := CString(x[2..]);
      var (value, used) := StrToL16(digits);
      key := value % KEY_IDS;
      if used < |digits| {
        return false, key;
      }
    } else if x != "" {
      return false, key;
    }
    return true, key;
  }
}
