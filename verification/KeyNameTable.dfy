/** The program's own names of keys, and what the round trip comes to for them.
 */
module KeyNameTable {
  import opened KeyMasks
  import opened KeyNames
  import opened KeyNamesRoundTrip

  // ---- kKeyNameMap, by the length of the names ----

  const NAMES_2: Entries := [
    ("F1", 0xEFBE), ("F2", 0xEFBF), ("F3", 0xEFC0), ("F4", 0xEFC1), ("F5", 0xEFC2), ("F6", 0xEFC3), ("F7", 0xEFC4),
    ("F8", 0xEFC5), ("F9", 0xEFC6), ("Up", 0xEF52), ("At", 0x0040)
  ]

  const NAMES_3: Entries := [
    ("End", 0xEF57), ("F10", 0xEFC7), ("F11", 0xEFC8), ("F12", 0xEFC9), ("F13", 0xEFCA), ("F14", 0xEFCB),
    ("F15", 0xEFCC), ("F16", 0xEFCD), ("F17", 0xEFCE), ("F18", 0xEFCF), ("F19", 0xEFD0), ("F20", 0xEFD1),
    ("F21", 0xEFD2), ("F22", 0xEFD3), ("F23", 0xEFD4), ("F24", 0xEFD5), ("F25", 0xEFD6), ("F26", 0xEFD7),
    ("F27", 0xEFD8), ("F28", 0xEFD9), ("F29", 0xEFDA), ("F30", 0xEFDB), ("F31", 0xEFDC), ("F32", 0xEFDD),
    ("F33", 0xEFDE), ("F34", 0xEFDF), ("F35", 0xEFE0), ("Tab", 0xEF09), ("Bar", 0x007C)
  ]

  const NAMES_4: Entries := [
    ("Down", 0xEF54), ("Find", 0xEF68), ("Help", 0xEF6A), ("Home", 0xEF50), ("KP_0", 0xEFB0), ("KP_1", 0xEFB1),
    ("KP_2", 0xEFB2), ("KP_3", 0xEFB3), ("KP_4", 0xEFB4), ("KP_5", 0xEFB5), ("KP_6", 0xEFB6), ("KP_7", 0xEFB7),
    ("KP_8", 0xEFB8), ("KP_9", 0xEFB9), ("Left", 0xEF51), ("Menu", 0xEF67), ("Redo", 0xEF66), ("Undo", 0xEF65),
    ("Plus", 0x002B), ("Less", 0x003C)
  ]

  const NAMES_5: Entries := [
    ("AltGr", 0xEF7E), ("Alt_L", 0xEFE9), ("Alt_R", 0xEFEA), ("Begin", 0xEF58), ("Break", 0xEF6B), ("Clear", 0xEF0B),
    ("Eject", 0xE001), ("KP_F1", 0xEF91), ("KP_F2", 0xEF92), ("KP_F3", 0xEF93), ("KP_F4", 0xEF94), ("KP_Up", 0xEF97),
    ("Pause", 0xEF13), ("Print", 0xEF61), ("Right", 0xEF53), ("Sleep", 0xE05F), ("Space", 0x0020), ("Comma", 0x002C),
    ("Minus", 0x002D), ("Slash", 0x002F), ("Colon", 0x003A), ("Equal", 0x003D), ("Grave", 0x0060), ("Tilde", 0x007E)
  ]

  const NAMES_6: Entries := [
    ("Cancel", 0xEF69), ("Delete", 0xEFFF), ("Escape", 0xEF1B), ("Henkan", 0xEF23), ("Insert", 0xEF63),
    ("KP_Add", 0xEFAB), ("KP_End", 0xEF9C), ("KP_Tab", 0xEF89), ("Meta_L", 0xEFE7), ("Meta_R", 0xEFE8),
    ("PageUp", 0xEF55), ("Return", 0xEF0D), ("Select", 0xEF60), ("SysReq", 0xEF15), ("Number", 0x0023),
    ("Dollar", 0x0024), ("Period", 0x002E), ("BraceL", 0x007B), ("BraceR", 0x007D)
  ]

  const NAMES_7: Entries := [
    ("AppMail", 0xE0B4), ("AudioUp", 0xE0AF), ("Execute", 0xEF62), ("Hyper_L", 0xEFED), ("Hyper_R", 0xEFEE),
    ("KP_Down", 0xEF99), ("KP_Home", 0xEF95), ("KP_Left", 0xEF96), ("LeftTab", 0xEE20), ("NumLock", 0xEF7F),
    ("Shift_L", 0xEFE1), ("Shift_R", 0xEFE2), ("Super_L", 0xEFEB), ("Super_R", 0xEFEC), ("WWWBack", 0xE0A6),
    ("WWWHome", 0xE0AC), ("WWWStop", 0xE0A9), ("Zenkaku", 0xEF2A), ("Exclaim", 0x0021), ("Percent", 0x0025),
    ("Greater", 0x003E)
  ]

  const NAMES_8: Entries := [
    ("AppMedia", 0xE0B5), ("AppUser1", 0xE0B6), ("AppUser2", 0xE0B7), ("CapsLock", 0xEFE5), ("KP_Begin", 0xEF9D),
    ("KP_Enter", 0xEF8D), ("KP_Equal", 0xEFBD), ("KP_Right", 0xEF98), ("KP_Space", 0xEF80), ("Linefeed", 0xEF0A),
    ("PageDown", 0xEF56), ("Asterisk", 0x002A), ("Question", 0x003F), ("BracketL", 0x005B), ("BracketR", 0x005D)
  ]

  const NAMES_9: Entries := [
    ("AudioDown", 0xE0AE), ("AudioMute", 0xE0AD), ("AudioNext", 0xE0B0), ("AudioPlay", 0xE0B3), ("AudioPrev", 0xE0B1),
    ("AudioStop", 0xE0B2), ("BackSpace", 0xEF08), ("Control_L", 0xEFE3), ("Control_R", 0xEFE4), ("KP_Delete", 0xEF9F),
    ("KP_Divide", 0xEFAF), ("KP_Insert", 0xEF9E), ("KP_PageUp", 0xEF9A), ("ShiftLock", 0xEFE6), ("WWWSearch", 0xE0AA),
    ("Ampersand", 0x0026), ("Semicolon", 0x003B), ("Backslash", 0x005C)
  ]

  const NAMES_10: Entries := [
    ("KP_Decimal", 0xEFAE), ("ScrollLock", 0xEF14), ("WWWForward", 0xE0A7), ("WWWRefresh", 0xE0A8),
    ("Apostrophe", 0x0027), ("Circumflex", 0x005E), ("Underscore", 0x005F)
  ]

  const NAMES_11: Entries := [
    ("KP_Multiply", 0xEFAA), ("KP_PageDown", 0xEF9B), ("KP_Subtract", 0xEFAD), ("DoubleQuote", 0x0022)
  ]

  const NAMES_12: Entries := [
    ("KP_Separator", 0xEFAC), ("WWWFavorites", 0xE0AB), ("ParenthesisL", 0x0028), ("ParenthesisR", 0x0029)
  ]

  /** kKeyAltGr, the only key with the name of a modifier. */
  const ALT_GR_KEY: nat := 0xEF7E

  // ---- no two names are alike ----

  /** A list of names of one length, none like another, with the values asked for. */
  ghost predicate Listed(entries: Entries, length: nat) {
    && (forall i | 0 <= i < |entries| :: |entries[i].0| == length)
    && WellNamed(entries) && Valued(entries)
  }

  /** The values have 16 bits, and just one key may have the name of a modifier. */
  ghost predicate Valued(entries: Entries) {
    InRange(entries) && forall i | 0 <= i < |entries| && NamesModifier(entries[i].0) :: entries[i].1 == ALT_GR_KEY
  }

  ghost predicate InRange(entries: Entries) {
    forall i | 0 <= i < |entries| ::
      0 < entries[i].1 <= 0xFFFF && (entries[i].1 == ALT_GR_KEY ==> entries[i].0 == "AltGr")
  }

  /** But for case it is the name of a modifier. */
  ghost predicate NamesModifier(s: string) {
    exists j | 0 <= j < |MODIFIERS| :: Fold(s) == Fold(MODIFIERS[j].0)
  }

  lemma ModifierByLength(s: string)
    ensures NamesModifier(s) ==>
              var f := Fold(s);
              || (|s| == 3 && f[0] == 'a') || (|s| == 4 && f[0] == 'm' && f[2] == 't')
              || (|s| == 5 && ((f[0] == 'a' && f[3] == 'g') || (f[0] == 's' && f[1] in {'h', 'u'})))
              || (|s| == 7 && f[0] == 'c' && f[1] == 'o')
  {
    if NamesModifier(s) {
      var j :| 0 <= j < |MODIFIERS| && Fold(s) == Fold(MODIFIERS[j].0);
      assert |s| == |Fold(MODIFIERS[j].0)|;
    }
  }

  function Rank2(f: string): nat
    requires |f| == 2
  {
    if f[1] == '1' then 0 else if f[1] == '2' then 1 else if f[1] == '3' then 2 else if f[1] == '4' then 3
    else if f[1] == '5' then 4 else if f[1] == '6' then 5 else if f[1] == '7' then 6 else if f[1] == '8' then 7
    else if f[1] == '9' then 8 else if f[1] == 'p' then 9 else 10
  }

  lemma Ranks2()
    ensures forall i | 0 <= i < |NAMES_2| :: |NAMES_2[i].0| == 2 && Rank2(Fold(NAMES_2[i].0)) == i
  {}

  lemma Plain2()
    ensures forall i | 0 <= i < |NAMES_2| :: IsName(NAMES_2[i].0)
  {}

  lemma Values2()
    ensures InRange(NAMES_2)
  {}

  lemma Listed2()
    ensures Listed(NAMES_2, 2)
  {
    Ranks2();
    Plain2();
    Values2();
    forall i | 0 <= i < |NAMES_2| ensures NamesModifier(NAMES_2[i].0) ==> NAMES_2[i].1 == ALT_GR_KEY {
      ModifierByLength(NAMES_2[i].0);
    }
  }

  function Rank3(f: string): nat
    requires |f| == 3
  {
    if f[2] == 'b' then 27 else if f[2] == 'd' then 0 else if f[2] == 'r' then 28
    else if f[2] == '0' then (if f[1] == '1' then 1 else if f[1] == '2' then 11 else 21)
    else if f[2] == '1' then (if f[1] == '1' then 2 else if f[1] == '2' then 12 else 22)
    else if f[2] == '2' then (if f[1] == '1' then 3 else if f[1] == '2' then 13 else 23)
    else if f[2] == '3' then (if f[1] == '1' then 4 else if f[1] == '2' then 14 else 24)
    else if f[2] == '4' then (if f[1] == '1' then 5 else if f[1] == '2' then 15 else 25)
    else if f[2] == '5' then (if f[1] == '1' then 6 else if f[1] == '2' then 16 else 26)
    else if f[2] == '6' then (if f[1] == '1' then 7 else 17) else if f[2] == '7' then (if f[1] == '1' then 8
    else 18) else if f[2] == '8' then (if f[1] == '1' then 9 else 19) else if f[1] == '1' then 10 else 20
  }

  lemma Ranks3()
    ensures forall i | 0 <= i < |NAMES_3| :: |NAMES_3[i].0| == 3 && Rank3(Fold(NAMES_3[i].0)) == i
  {}

  lemma Plain3()
    ensures forall i | 0 <= i < |NAMES_3| :: IsName(NAMES_3[i].0)
  {}

  lemma Values3()
    ensures InRange(NAMES_3)
  {}

  lemma Modifiers3()
    ensures forall i | 0 <= i < |NAMES_3| && |NAMES_3[i].0| == 3 ::
              var f := Fold(NAMES_3[i].0); f[0] != 'a'
  {}

  lemma Listed3()
    ensures Listed(NAMES_3, 3)
  {
    Ranks3();
    Plain3();
    Values3();
    Modifiers3();
    forall i | 0 <= i < |NAMES_3| ensures NamesModifier(NAMES_3[i].0) ==> NAMES_3[i].1 == ALT_GR_KEY {
      ModifierByLength(NAMES_3[i].0);
    }
  }

  function Rank4(f: string): nat
    requires |f| == 4
  {
    if f[3] == '0' then 4 else if f[3] == '1' then 5 else if f[3] == '2' then 6 else if f[3] == '3' then 7
    else if f[3] == '4' then 8 else if f[3] == '5' then 9 else if f[3] == '6' then 10 else if f[3] == '7' then 11
    else if f[3] == '8' then 12 else if f[3] == '9' then 13 else if f[3] == 'd' then 1 else if f[3] == 'e' then 3
    else if f[3] == 'n' then 0 else if f[3] == 'p' then 2 else if f[3] == 't' then 14 else if f[3] == 'u' then 15
    else if f[3] == 'o' then (if f[0] == 'r' then 16 else 17) else if f[0] == 'l' then 19 else 18
  }

  lemma Ranks4()
    ensures forall i | 0 <= i < |NAMES_4| :: |NAMES_4[i].0| == 4 && Rank4(Fold(NAMES_4[i].0)) == i
  {}

  lemma Plain4()
    ensures forall i | 0 <= i < |NAMES_4| :: IsName(NAMES_4[i].0)
  {}

  lemma Values4()
    ensures InRange(NAMES_4)
  {}

  lemma Modifiers4()
    ensures forall i | 0 <= i < |NAMES_4| && |NAMES_4[i].0| == 4 ::
              var f := Fold(NAMES_4[i].0); f[0] != 'm' || f[2] != 't'
  {}

  lemma Listed4()
    ensures Listed(NAMES_4, 4)
  {
    Ranks4();
    Plain4();
    Values4();
    Modifiers4();
    forall i | 0 <= i < |NAMES_4| ensures NamesModifier(NAMES_4[i].0) ==> NAMES_4[i].1 == ALT_GR_KEY {
      ModifierByLength(NAMES_4[i].0);
    }
  }

  function Rank5(f: string): nat
    requires |f| == 5
  {
    if f[3] == 'd' then 23 else if f[3] == 'e' then 15 else if f[3] == 'g' then 0 else if f[3] == 'h' then 14
    else if f[3] == 'i' then 3 else if f[3] == 'm' then 17 else if f[3] == 'n' then 13 else if f[3] == 'o' then 20
    else if f[3] == 'v' then 22 else if f[3] == '_' then (if f[4] == 'l' then 1 else 2)
    else if f[3] == 'a' then (if f[0] == 'b' then 4 else if f[0] == 'c' then 5 else 21)
    else if f[3] == 'c' then (if f[0] == 'e' then 6 else 16) else if f[3] == 'f' then (if f[4] == '1' then 7
    else if f[4] == '2' then 8 else if f[4] == '3' then 9 else 10) else if f[3] == 's' then (if f[0] == 'p' then 12
    else 19) else if f[0] == 'k' then 11 else 18
  }

  lemma Ranks5()
    ensures forall i | 0 <= i < |NAMES_5| :: |NAMES_5[i].0| == 5 && Rank5(Fold(NAMES_5[i].0)) == i
  {}

  lemma Plain5()
    ensures forall i | 0 <= i < |NAMES_5| :: IsName(NAMES_5[i].0)
  {}

  lemma Values5()
    ensures InRange(NAMES_5)
  {}

  lemma Modifiers5()
    ensures forall i | 0 <= i < |NAMES_5| && |NAMES_5[i].0| == 5 ::
              var f := Fold(NAMES_5[i].0);
              (f[0] != 'a' || f[3] != 'g' || NAMES_5[i].1 == ALT_GR_KEY) && (f[0] != 's' || f[1] !in {'h', 'u'})
  {}

  lemma Listed5()
    ensures Listed(NAMES_5, 5)
  {
    Ranks5();
    Plain5();
    Values5();
    Modifiers5();
    forall i | 0 <= i < |NAMES_5| ensures NamesModifier(NAMES_5[i].0) ==> NAMES_5[i].1 == ALT_GR_KEY {
      ModifierByLength(NAMES_5[i].0);
    }
  }

  function Rank6(f: string): nat
    requires |f| == 6
  {
    if f[0] == 'c' then 0 else if f[0] == 'e' then 2 else if f[0] == 'h' then 3 else if f[0] == 'i' then 4
    else if f[0] == 'n' then 14 else if f[0] == 'r' then 11 else if f[0] == 'b' then (if f[5] == 'l' then 17
    else 18) else if f[0] == 'd' then (if f[1] == 'e' then 1 else 15)
    else if f[0] == 'k' then (if f[3] == 'a' then 5 else if f[3] == 'e' then 6 else 7)
    else if f[0] == 'm' then (if f[5] == 'l' then 8 else 9) else if f[0] == 'p' then (if f[1] == 'a' then 10
    else 16) else if f[1] == 'e' then 12 else 13
  }

  lemma Ranks6()
    ensures forall i | 0 <= i < |NAMES_6| :: |NAMES_6[i].0| == 6 && Rank6(Fold(NAMES_6[i].0)) == i
  {}

  lemma Plain6()
    ensures forall i | 0 <= i < |NAMES_6| :: IsName(NAMES_6[i].0)
  {}

  lemma Values6()
    ensures InRange(NAMES_6)
  {}

  lemma Listed6()
    ensures Listed(NAMES_6, 6)
  {
    Ranks6();
    Plain6();
    Values6();
    forall i | 0 <= i < |NAMES_6| ensures NamesModifier(NAMES_6[i].0) ==> NAMES_6[i].1 == ALT_GR_KEY {
      ModifierByLength(NAMES_6[i].0);
    }
  }

  function Rank7(f: string): nat
    requires |f| == 7
  {
    if f[0] == 'g' then 20 else if f[0] == 'l' then 8 else if f[0] == 'n' then 9 else if f[0] == 'p' then 19
    else if f[0] == 'z' then 17 else if f[0] == 'a' then (if f[1] == 'p' then 0 else 1)
    else if f[0] == 'e' then (if f[2] == 'c' then 18 else 2) else if f[0] == 'h' then (if f[6] == 'l' then 3 else 4)
    else if f[0] == 'k' then (if f[3] == 'd' then 5 else if f[3] == 'h' then 6 else 7)
    else if f[0] == 's' then (if f[1] == 'h' then (if f[6] == 'l' then 10 else 11) else if f[6] == 'l' then 12
    else 13) else if f[3] == 'b' then 14 else if f[3] == 'h' then 15 else 16
  }

  lemma Ranks7()
    ensures forall i | 0 <= i < |NAMES_7| :: |NAMES_7[i].0| == 7 && Rank7(Fold(NAMES_7[i].0)) == i
  {}

  lemma Plain7()
    ensures forall i | 0 <= i < |NAMES_7| :: IsName(NAMES_7[i].0)
  {}

  lemma Values7()
    ensures InRange(NAMES_7)
  {}

  lemma Modifiers7()
    ensures forall i | 0 <= i < |NAMES_7| && |NAMES_7[i].0| == 7 ::
              var f := Fold(NAMES_7[i].0); f[0] != 'c' || f[1] != 'o'
  {}

  lemma Listed7()
    ensures Listed(NAMES_7, 7)
  {
    Ranks7();
    Plain7();
    Values7();
    Modifiers7();
    forall i | 0 <= i < |NAMES_7| ensures NamesModifier(NAMES_7[i].0) ==> NAMES_7[i].1 == ALT_GR_KEY {
      ModifierByLength(NAMES_7[i].0);
    }
  }

  function Rank8(f: string): nat
    requires |f| == 8
  {
    if f[4] == 'd' then 10 else if f[4] == 'f' then 9 else if f[4] == 'i' then 7 else if f[4] == 'l' then 3
    else if f[4] == 'n' then 5 else if f[4] == 'p' then 8 else if f[4] == 'q' then 6 else if f[4] == 'r' then 11
    else if f[4] == 't' then 12 else if f[4] == 'e' then (if f[0] == 'a' then 0 else 4)
    else if f[4] == 'k' then (if f[7] == 'l' then 13 else 14) else if f[7] == '1' then 1 else 2
  }

  lemma Ranks8()
    ensures forall i | 0 <= i < |NAMES_8| :: |NAMES_8[i].0| == 8 && Rank8(Fold(NAMES_8[i].0)) == i
  {}

  lemma Plain8()
    ensures forall i | 0 <= i < |NAMES_8| :: IsName(NAMES_8[i].0)
  {}

  lemma Values8()
    ensures InRange(NAMES_8)
  {}

  lemma Listed8()
    ensures Listed(NAMES_8, 8)
  {
    Ranks8();
    Plain8();
    Values8();
    forall i | 0 <= i < |NAMES_8| ensures NamesModifier(NAMES_8[i].0) ==> NAMES_8[i].1 == ALT_GR_KEY {
      ModifierByLength(NAMES_8[i].0);
    }
  }

  function Rank9(f: string): nat
    requires |f| == 9
  {
    if f[5] == 'a' then 14 else if f[5] == 'd' then 0 else if f[5] == 'g' then 12 else if f[5] == 'm' then 1
    else if f[5] == 'n' then 2 else if f[5] == 'v' then 10 else if f[5] == 'l' then (if f[0] == 'b' then 17
    else if f[0] == 'k' then 9 else 13) else if f[5] == 'o' then (if f[8] == 'l' then 7 else if f[8] == 'n' then 16
    else 8) else if f[5] == 'p' then (if f[6] == 'a' then 6 else if f[6] == 'l' then 3 else 4)
    else if f[1] == 'm' then 15 else if f[1] == 'p' then 11 else 5
  }

  lemma Ranks9()
    ensures forall i | 0 <= i < |NAMES_9| :: |NAMES_9[i].0| == 9 && Rank9(Fold(NAMES_9[i].0)) == i
  {}

  lemma Plain9()
    ensures forall i | 0 <= i < |NAMES_9| :: IsName(NAMES_9[i].0)
  {}

  lemma Values9()
    ensures InRange(NAMES_9)
  {}

  lemma Listed9()
    ensures Listed(NAMES_9, 9)
  {
    Ranks9();
    Plain9();
    Values9();
    forall i | 0 <= i < |NAMES_9| ensures NamesModifier(NAMES_9[i].0) ==> NAMES_9[i].1 == ALT_GR_KEY {
      ModifierByLength(NAMES_9[i].0);
    }
  }

  function Rank10(f: string): nat
    requires |f| == 10
  {
    if f[3] == 'c' then 5 else if f[3] == 'd' then 0 else if f[3] == 'e' then 6 else if f[3] == 'f' then 2
    else if f[3] == 'o' then 1 else if f[3] == 'r' then 3 else 4
  }

  lemma Ranks10()
    ensures forall i | 0 <= i < |NAMES_10| :: |NAMES_10[i].0| == 10 && Rank10(Fold(NAMES_10[i].0)) == i
  {}

  lemma Plain10()
    ensures forall i | 0 <= i < |NAMES_10| :: IsName(NAMES_10[i].0)
  {}

  lemma Values10()
    ensures InRange(NAMES_10)
  {}

  lemma Listed10()
    ensures Listed(NAMES_10, 10)
  {
    Ranks10();
    Plain10();
    Values10();
    forall i | 0 <= i < |NAMES_10| ensures NamesModifier(NAMES_10[i].0) ==> NAMES_10[i].1 == ALT_GR_KEY {
      ModifierByLength(NAMES_10[i].0);
    }
  }

  function Rank11(f: string): nat
    requires |f| == 11
  {
    if f[3] == 'b' then 3 else if f[3] == 'm' then 0 else if f[3] == 'p' then 1 else 2
  }

  lemma Ranks11()
    ensures forall i | 0 <= i < |NAMES_11| :: |NAMES_11[i].0| == 11 && Rank11(Fold(NAMES_11[i].0)) == i
  {}

  lemma Plain11()
    ensures forall i | 0 <= i < |NAMES_11| :: IsName(NAMES_11[i].0)
  {}

  lemma Values11()
    ensures InRange(NAMES_11)
  {}

  lemma Listed11()
    ensures Listed(NAMES_11, 11)
  {
    Ranks11();
    Plain11();
    Values11();
    forall i | 0 <= i < |NAMES_11| ensures NamesModifier(NAMES_11[i].0) ==> NAMES_11[i].1 == ALT_GR_KEY {
      ModifierByLength(NAMES_11[i].0);
    }
  }

  function Rank12(f: string): nat
    requires |f| == 12
  {
    if f[0] == 'k' then 0 else if f[0] == 'w' then 1 else if f[11] == 'l' then 2 else 3
  }

  lemma Ranks12()
    ensures forall i | 0 <= i < |NAMES_12| :: |NAMES_12[i].0| == 12 && Rank12(Fold(NAMES_12[i].0)) == i
  {}

  lemma Plain12()
    ensures forall i | 0 <= i < |NAMES_12| :: IsName(NAMES_12[i].0)
  {}

  lemma Values12()
    ensures InRange(NAMES_12)
  {}

  lemma Listed12()
    ensures Listed(NAMES_12, 12)
  {
    Ranks12();
    Plain12();
    Values12();
    forall i | 0 <= i < |NAMES_12| ensures NamesModifier(NAMES_12[i].0) ==> NAMES_12[i].1 == ALT_GR_KEY {
      ModifierByLength(NAMES_12[i].0);
    }
  }

  // ---- the whole table ----

  const KEY_NAMES: Entries :=
    NAMES_2 + NAMES_3 + NAMES_4 + NAMES_5 + NAMES_6 + NAMES_7
    + NAMES_8 + NAMES_9 + NAMES_10 + NAMES_11 + NAMES_12

  ghost predicate ListedUpTo(entries: Entries, length: nat) {
    && (forall i | 0 <= i < |entries| :: |entries[i].0| <= length)
    && WellNamed(entries) && Valued(entries)
  }

  lemma ListedJoin(a: Entries, b: Entries, length: nat)
    requires length > 0 && ListedUpTo(a, length - 1) && Listed(b, length)
    ensures ListedUpTo(a + b, length)
  {
    forall i, j | 0 <= i < j < |a + b| ensures Fold((a + b)[i].0) != Fold((a + b)[j].0) {
      if i < |a| <= j {
        assert |Fold(a[i].0)| < |Fold(b[j - |a|].0)|;
      }
    }
  }

  /** The program's names meet what the maps and the round trip ask of a list. */
  lemma KeysListed()
    ensures WellNamed(KEY_NAMES) && Valued(KEY_NAMES)
  {
    Listed2();
    var all := NAMES_2;
    Listed3();
    ListedJoin(all, NAMES_3, 3);
    all := all + NAMES_3;
    Listed4();
    ListedJoin(all, NAMES_4, 4);
    all := all + NAMES_4;
    Listed5();
    ListedJoin(all, NAMES_5, 5);
    all := all + NAMES_5;
    Listed6();
    ListedJoin(all, NAMES_6, 6);
    all := all + NAMES_6;
    Listed7();
    ListedJoin(all, NAMES_7, 7);
    all := all + NAMES_7;
    Listed8();
    ListedJoin(all, NAMES_8, 8);
    all := all + NAMES_8;
    Listed9();
    ListedJoin(all, NAMES_9, 9);
    all := all + NAMES_9;
    Listed10();
    ListedJoin(all, NAMES_10, 10);
    all := all + NAMES_10;
    Listed11();
    ListedJoin(all, NAMES_11, 11);
    all := all + NAMES_11;
    Listed12();
    ListedJoin(all, NAMES_12, 12);
    all := all + NAMES_12;
  }

  lemma {:induction false} BuiltHas(entries: Entries, i: nat)
    requires i < |entries|
    ensures entries[i].1 in Build(entries).nameOf
  {
    var n := |entries| - 1;
    if i < n {
      BuiltHas(entries[..n], i);
    }
  }

  /** A key's name comes from an entry for it. */
  lemma {:induction false} NameFrom(entries: Entries, v: nat)
    requires v in Build(entries).nameOf
    ensures exists i :: 0 <= i < |entries| && entries[i] == (Build(entries).nameOf[v], v)
  {
    var n := |entries| - 1;
    if v == entries[n].1 {
      assert entries[n] == (Build(entries).nameOf[v], v);
    } else {
      NameFrom(entries[..n], v);
      var i :| 0 <= i < n && entries[..n][i] == (Build(entries[..n]).nameOf[v], v);
      assert entries[i] == (Build(entries).nameOf[v], v);
    }
  }

  lemma {:induction false} BuiltFolds(entries: Entries, i: nat)
    requires i < |entries|
    ensures Fold(entries[i].0) in Build(entries).valueOf
  {
    var n := |entries| - 1;
    if i < n {
      BuiltFolds(entries[..n], i);
    }
  }

  /** The folded names of the modifiers. */
  lemma ModifierFolds(s: string)
    ensures Fold(s) in Build(MODIFIERS).valueOf <==> NamesModifier(s)
  {
    BuiltFrom(MODIFIERS, Fold(s));
    if NamesModifier(s) {
      var j :| 0 <= j < |MODIFIERS| && Fold(s) == Fold(MODIFIERS[j].0);
      BuiltFolds(MODIFIERS, j);
    }
  }

  lemma ModifierNamed(modifiers: Entries, b: nat)
    requires modifiers == MODIFIERS
    ensures b in Build(modifiers).nameOf <==> b <= 5
  {
    BuiltValues(modifiers);
    BuiltHas(modifiers, if b == 2 then 0 else if b == 5 then 1 else if b == 1 then 2 else if b == 3 then 3
                        else if b == 0 then 4 else 5);
  }

  lemma SixModifiers(modifiers: Entries)
    requires modifiers == MODIFIERS
    ensures forall b: nat :: b in Build(modifiers).nameOf <==> b <= 5
  {
    forall b: nat ensures b in Build(modifiers).nameOf <==> b <= 5 {
      ModifierNamed(modifiers, b);
    }
  }

  ghost function ProgramTables(): Tables {
    Tables(Build(KEY_NAMES), Build(MODIFIERS))
  }

  lemma TablesValid(keys: Entries)
    requires WellNamed(keys) && Valued(keys)
    ensures Tables(Build(keys), Build(MODIFIERS)).Valid()
  {
    ModifiersWellNamed();
    forall i | 0 <= i < |MODIFIERS| ensures MODIFIERS[i].1 < NUM_BITS {}
    TablesFrom(keys, MODIFIERS);
  }

  ghost predicate HasKey(entries: Entries, v: nat) {
    exists i | 0 <= i < |entries| :: entries[i].1 == v
  }

  lemma HasJoin(a: Entries, b: Entries, v: nat)
    requires HasKey(a, v) || HasKey(b, v)
    ensures HasKey(a + b, v)
  {
    if HasKey(a, v) {
      var i :| 0 <= i < |a| && a[i].1 == v;
      assert (a + b)[i].1 == v;
    } else {
      var i :| 0 <= i < |b| && b[i].1 == v;
      assert (a + b)[|a| + i].1 == v;
    }
  }

  lemma ParenthesisNamed()
    ensures HasKey(NAMES_12, 41)
  {
    assert NAMES_12[3].1 == 41;
  }

  lemma AltGrNamed()
    ensures HasKey(NAMES_5, ALT_GR_KEY)
  {
    assert NAMES_5[0].1 == ALT_GR_KEY;
  }

  lemma KeysNamed()
    ensures HasKey(KEY_NAMES, 41) && HasKey(KEY_NAMES, ALT_GR_KEY)
  {
    ParenthesisNamed();
    HasJoin(NAMES_2 + NAMES_3 + NAMES_4 + NAMES_5 + NAMES_6 + NAMES_7
            + NAMES_8 + NAMES_9 + NAMES_10 + NAMES_11, NAMES_12, 41);
    var all := NAMES_2 + NAMES_3 + NAMES_4;
    AltGrNamed();
    HasJoin(all, NAMES_5, ALT_GR_KEY);
    all := all + NAMES_5;
    HasJoin(all, NAMES_6, ALT_GR_KEY);
    all := all + NAMES_6;
    HasJoin(all, NAMES_7, ALT_GR_KEY);
    all := all + NAMES_7;
    HasJoin(all, NAMES_8, ALT_GR_KEY);
    all := all + NAMES_8;
    HasJoin(all, NAMES_9, ALT_GR_KEY);
    all := all + NAMES_9;
    HasJoin(all, NAMES_10, ALT_GR_KEY);
    all := all + NAMES_10;
    HasJoin(all, NAMES_11, ALT_GR_KEY);
    all := all + NAMES_11;
    HasJoin(all, NAMES_12, ALT_GR_KEY);
    all := all + NAMES_12;
  }

  lemma HasInBuilt(entries: Entries, v: nat)
    requires HasKey(entries, v)
    ensures v in Build(entries).nameOf
  {
    var i :| 0 <= i < |entries| && entries[i].1 == v;
    BuiltHas(entries, i);
  }

  /** A named key of the program has 16 bits, and the name of a modifier just if it is AltGr. */
  lemma NameOfKey(keys: Entries, key: nat)
    requires Valued(keys) && key in Build(keys).nameOf
    ensures key <= 0xFFFF
    ensures Fold(Build(keys).nameOf[key]) in Build(MODIFIERS).valueOf <==> key == ALT_GR_KEY
  {
    NameFrom(keys, key);
    var name := Build(keys).nameOf[key];
    var i :| 0 <= i < |keys| && keys[i] == (name, key);
    ModifierFolds(name);
    if key == ALT_GR_KEY {
      assert name == MODIFIERS[1].0;
      assert Fold(name) == Fold(MODIFIERS[1].0);
    }
  }

  /** What the condition of the round trip is about, for a key. */
  ghost predicate AltGrAlone(t: Tables, key: nat) {
    && t.Valid()
    && (forall b: nat :: b in t.modifiers.nameOf <==> b <= 5)
    && 41 in t.keys.nameOf && ALT_GR_KEY in t.keys.nameOf
    && (key in t.keys.nameOf ==>
          key <= 0xFFFF && (Fold(t.keys.nameOf[key]) in t.modifiers.valueOf <==> key == ALT_GR_KEY))
  }

  lemma RoundTripWhen(t: Tables, key: nat, mask: Mask)
    requires AltGrAlone(t, key)
    ensures RoundTrips(t, key, mask) <==> (forall b | b in mask :: b <= 5) && key <= 0xFFFF && key != ALT_GR_KEY
  {
    assert mask <= t.modifiers.nameOf.Keys <==> forall b | b in mask :: b <= 5;
    FormatRoundTrip(t, key, mask);
  }

  lemma TablesAre(keys: Entries, modifiers: Entries, key: nat)
    requires modifiers == MODIFIERS
    requires WellNamed(keys) && Valued(keys) && HasKey(keys, 41) && HasKey(keys, ALT_GR_KEY)
    ensures AltGrAlone(Tables(Build(keys), Build(modifiers)), key)
  {
    TablesValid(keys);
    HasInBuilt(keys, 41);
    HasInBuilt(keys, ALT_GR_KEY);
    SixModifiers(modifiers);
    if key in Build(keys).nameOf {
      NameOfKey(keys, key);
    }
  }

  /** With the program's own names a key with modifiers is read back as written exactly when
      the modifiers are among the six that have names, the key has 16 bits, and it is not
      AltGr: written alone, that is read as the modifier of the same name. */
  lemma ProgramRoundTrip(key: nat, mask: Mask)
    ensures ProgramTables().Valid()
    ensures RoundTrips(ProgramTables(), key, mask) <==>
            (forall b | b in mask :: b <= 5) && key <= 0xFFFF && key != ALT_GR_KEY
  {
    KeysListed();
    KeysNamed();
    TablesAre(KEY_NAMES, MODIFIERS, key);
    RoundTripWhen(ProgramTables(), key, mask);
  }
}
