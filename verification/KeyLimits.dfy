/** Why the mapping theorems ask what they ask: requests, on keyboards entered with
    addKeyEntry() and finish(), for which the code does not do what they promise.
 */
module KeyLimits {
  import opened KeyMasks
  import opened KeyData
  import opened KeySpec
  import opened KeyWiring
  import opened KeySteps
  import opened KeyNeutrality
  import opened KeyReplay
  import opened KeyReplayCalls
  import opened KeyMaps
  import opened KeyGroups

  const SHIFT_ID: nat := 0xEFE1
  const CONTROL_ID: nat := 0xEFE3
  const A_ID: nat := 0x61
  const B_ID: nat := 0x62

  const SHIFT_KEY: KeyItem := KeyItem(SHIFT_ID, 0, 10, {}, {}, {SHIFT}, false, false, 0)
  /** A control key that must be pressed with shift down. */
  const SHIFTED_CONTROL: KeyItem := KeyItem(CONTROL_ID, 0, 11, {SHIFT}, {SHIFT}, {CONTROL}, false, false, 0)
  /** The key for `a`, which types something else with shift. */
  const A_KEY: KeyItem := KeyItem(A_ID, 0, 20, {}, {SHIFT}, {}, false, false, 0)
  /** A key in the second group. */
  const B_KEY: KeyItem := KeyItem(B_ID, 1, 21, {}, {SHIFT}, {}, false, false, 0)

  const SHIFT_AND_A: map<nat, KeyGroupTable> := map[SHIFT_ID := [[[SHIFT_KEY]]], A_ID := [[[A_KEY]]]]
  const SHIFT_AND_CONTROL: map<nat, KeyGroupTable> :=
    map[SHIFT_ID := [[[SHIFT_KEY]]], CONTROL_ID := [[[SHIFTED_CONTROL]]]]
  const TWO_GROUPS: map<nat, KeyGroupTable> := map[A_ID := [[[A_KEY]], []], B_ID := [[], [[B_KEY]]]]

  const WIRES: Wiring := map[10 := Wire(SHIFT, false), 11 := Wire(CONTROL, false)]

  /** What finish() makes of a table of keys. */
  ghost predicate Finished(kb: Keyboard, m: map<nat, KeyGroupTable>, groups: nat, layouts: seq<string>) {
    && kb.keyIDMap == m && kb.numGroups == groups && kb.layouts == layouts && kb.halfDuplex == {}
    && |kb.modifierKeys| == NUM_BITS * groups && (forall id | id in m :: |m[id]| == groups)
    && kb.Ready() && ListsModifierKeys(m, groups, kb.modifierKeys)
  }

  // ---- entering the keyboards ----

  method EnterShiftAndA() returns (keys: KeyMap)
    ensures fresh(keys) && Finished(keys.Board(), SHIFT_AND_A, 1, [])
  {
    keys := new KeyMap(Other);
    keys.AddKeyEntry(SHIFT_KEY);
    FirstEntry(SHIFT_KEY, keys.keyIDMap[SHIFT_ID]);
    assert keys.keyIDMap[SHIFT_ID] == [[[SHIFT_KEY]]];
    OneMore(map[], SHIFT_ID, keys.keyIDMap);
    ghost var m := keys.keyIDMap;
    keys.AddKeyEntry(A_KEY);
    FirstEntry(A_KEY, keys.keyIDMap[A_ID]);
    assert keys.keyIDMap[A_ID] == [[[A_KEY]]];
    OneMore(m, A_ID, keys.keyIDMap);
    assert keys.keyIDMap == SHIFT_AND_A;
    keys.Finish();
    NothingPadded(SHIFT_AND_A, keys.numGroups, 1);
  }

  method EnterShiftAndControl() returns (keys: KeyMap)
    ensures fresh(keys) && Finished(keys.Board(), SHIFT_AND_CONTROL, 1, [])
  {
    keys := new KeyMap(Other);
    keys.AddKeyEntry(SHIFT_KEY);
    FirstEntry(SHIFT_KEY, keys.keyIDMap[SHIFT_ID]);
    assert keys.keyIDMap[SHIFT_ID] == [[[SHIFT_KEY]]];
    OneMore(map[], SHIFT_ID, keys.keyIDMap);
    ghost var m := keys.keyIDMap;
    keys.AddKeyEntry(SHIFTED_CONTROL);
    FirstEntry(SHIFTED_CONTROL, keys.keyIDMap[CONTROL_ID]);
    assert keys.keyIDMap[CONTROL_ID] == [[[SHIFTED_CONTROL]]];
    OneMore(m, CONTROL_ID, keys.keyIDMap);
    assert keys.keyIDMap == SHIFT_AND_CONTROL;
    keys.Finish();
    NothingPadded(SHIFT_AND_CONTROL, keys.numGroups, 1);
  }

  lemma FirstEntry(item: KeyItem, table: KeyGroupTable)
    requires Stored(item) == item && |table| == 1
    requires var list: KeyEntryList := []; table[0] == if [item] in list then list else list + [[item]]
    ensures table == [[[item]]]
  {
    assert table == [table[0]] && table[0] == [[item]];
  }

  lemma OneMore(m: map<nat, KeyGroupTable>, id: nat, m': map<nat, KeyGroupTable>)
    requires id !in m && id in m' && m' - {id} == m - {id}
    ensures m' == m[id := m'[id]]
  {
    forall i ensures i in m' <==> i == id || i in m {
      assert i != id ==> (i in m' - {id} <==> i in m - {id});
    }
    forall i | i in m ensures m'[i] == m[i] {
      assert (m' - {id})[i] == (m - {id})[i];
    }
  }

  /** finish() leaves tables alone that have the same number of groups already. */
  lemma NothingPadded(m: map<nat, KeyGroupTable>, n: nat, groups: nat)
    requires forall id | id in m :: |m[id]| == groups
    requires m != map[] && (n == 0 || exists id | id in m :: |m[id]| == n)
    requires groups > 0 && forall id | id in Padded(m, n) :: |Padded(m, n)[id]| == n
    ensures n == groups && Padded(m, n) == m
  {
    var id :| id in m;
    assert |Padded(m, n)[id]| == n;
  }

  method EnterTwoGroups() returns (keys: KeyMap)
    ensures fresh(keys) && Finished(keys.Board(), TWO_GROUPS, 2, ["en", "de", "fr"])
  {
    keys := new KeyMap(Other);
    keys.SetLanguageData(["en", "de", "fr"]);
    keys.AddKeyEntry(A_KEY);
    FirstEntry(A_KEY, keys.keyIDMap[A_ID]);
    OneMore(map[], A_ID, keys.keyIDMap);
    ghost var m := keys.keyIDMap;
    keys.AddKeyEntry(B_KEY);
    SecondGroup(B_KEY, keys.keyIDMap[B_ID]);
    OneMore(m, B_ID, keys.keyIDMap);
    keys.Finish();
    OneGroupPadded(keys.numGroups);
  }

  lemma SecondGroup(item: KeyItem, table: KeyGroupTable)
    requires |table| == 2 && table[0] == []
    requires var list: KeyEntryList := []; table[1] == if [item] in list then list else list + [[item]]
    ensures table == [[], [[item]]]
  {
    assert table == [table[0], table[1]] && table[1] == [[item]];
  }

  lemma OneGroupPadded(n: nat)
    requires var m: map<nat, KeyGroupTable> := map[A_ID := [[[A_KEY]]], B_ID := [[], [[B_KEY]]]];
             && (n == 0 || exists id | id in m :: |m[id]| == n)
             && forall id | id in Padded(m, n) :: |Padded(m, n)[id]| == n
    ensures n == 2 && Padded(map[A_ID := [[[A_KEY]]], B_ID := [[], [[B_KEY]]]], n) == TWO_GROUPS
  {
    var m: map<nat, KeyGroupTable> := map[A_ID := [[[A_KEY]]], B_ID := [[], [[B_KEY]]]];
    assert |Padded(m, n)[B_ID]| == n && m[B_ID] <= Padded(m, n)[B_ID];
    var a := Padded(m, n)[A_ID];
    assert m[A_ID] <= a && a[0] == [[A_KEY]] && a[1] == [];
    assert a == [[[A_KEY]], []];
  }

  // ---- shift is lost ----

  lemma ShiftCell(kb: Keyboard, m: map<nat, KeyGroupTable>, button: nat)
    requires Finished(kb, m, 1, []) && m in {SHIFT_AND_A, SHIFT_AND_CONTROL} && button != 10
    ensures KeyForModifier(kb, button, 0, SHIFT) == Some(SHIFT_KEY)
  {
    var cell := Cell(kb.modifierKeys, 0, SHIFT);
    assert cell == kb.modifierKeys[0 * NUM_BITS + SHIFT];
    forall item ensures item in cell <==> item == SHIFT_KEY {
      if item == SHIFT_KEY {
        assert [SHIFT_KEY] in m[SHIFT_ID][0];
      }
    }
    FirstOtherIn(cell, button);
  }

  lemma ControlCell(kb: Keyboard, button: nat)
    requires Finished(kb, SHIFT_AND_CONTROL, 1, []) && button != 11
    ensures KeyForModifier(kb, button, 0, CONTROL) == Some(SHIFTED_CONTROL)
  {
    var cell := Cell(kb.modifierKeys, 0, CONTROL);
    assert cell == kb.modifierKeys[0 * NUM_BITS + CONTROL];
    forall item ensures item in cell <==> item == SHIFTED_CONTROL {
      if item == SHIFTED_CONTROL {
        assert [SHIFTED_CONTROL] in SHIFT_AND_CONTROL[CONTROL_ID][0];
      }
    }
    FirstOtherIn(cell, button);
  }

  lemma ReleasesUnheldShift(kb: Keyboard)
    requires Finished(kb, SHIFT_AND_A, 1, [])
    ensures KeysForModifierState(kb, 20, 0, {}, {SHIFT}, {}, Shadow([], {SHIFT}, [])) == (true, Shadow([], {}, []))
  {
    var sh := Shadow([], {SHIFT}, []);
    var flip := Xor(sh.state, {}) * {SHIFT} - {};
    assert flip == {SHIFT};
    ShiftCell(kb, SHIFT_AND_A, 20);
    SkipTo(kb, 20, 0, NUM_BITS, 1, flip, {}, {}, sh);
    assert SHIFT_KEY.sensitive - {SHIFT} == {};
    assert PrepareFlip(kb, 20, 0, SHIFT, false, SHIFT_KEY, {}, sh) == (true, sh);
    assert {SHIFT} - {SHIFT} == {};
    assert AddKeystrokes(kb, Unmodify, SHIFT_KEY, sh) == Shadow([], {}, []);
  }

  lemma FindsA(kb: Keyboard)
    requires Finished(kb, SHIFT_AND_A, 1, [])
    ensures CharacterKeys(kb, kb.keyIDMap[A_ID], 0, {}, 0) == Some([A_KEY])
  {
    assert EffectiveGroup(kb, 0, 0) == 0;
    var entries := kb.keyIDMap[A_ID][0];
    assert entries == [[A_KEY]] && Last(entries[0]) == A_KEY && FitsExactly(A_KEY, {});
  }

  /** Shift is on although no key holds it, as KeyState::updateKeyState() can leave it: it
      polls the modifier state but enters only keys of the active group.  Typing an `a`
      switches it off, and it is not put back. */
  lemma UnheldModifierIsLost(kb: Keyboard)
    requires Finished(kb, SHIFT_AND_A, 1, [])
    ensures WiredKeys(WIRES, kb) && Flat(kb) && Served(kb, A_ID, 0, {}, "")
    ensures MapKey(kb, A_ID, 0, {}, false, "", Shadow([], {SHIFT}, []))
            == Mapped(Some(A_KEY), Shadow([], {}, [Button(20, true, false, 0)]))
  {
    OnlyShift(kb);
    FindsA(kb);
    ReleasesUnheldShift(kb);
    var sh, sh1 := Shadow([], {SHIFT}, []), Shadow([], {}, []);
    var sh2 := Shadow([], {}, [Button(20, true, false, 0)]);
    PressesA(kb, sh, sh1, sh2);
    assert GroupsExist(kb, [A_KEY][1..], 0, "");
    assert KeysForItems(kb, [A_KEY], 0, {}, {}, false, "", sh) == (true, sh2) by {
      assert [A_KEY][1..] == [];
    }
    assert ButtonSet([]) == {};
    assert Last([A_KEY]) == A_KEY;
  }

  lemma PressesA(kb: Keyboard, sh: Shadow, sh1: Shadow, sh2: Shadow)
    requires kb.Ready() && kb.numGroups == 1 && sh1 == Shadow([], {}, [])
    requires KeysForModifierState(kb, 20, 0, {}, {SHIFT}, {}, sh) == (true, sh1)
    requires sh2 == Shadow([], {}, [Button(20, true, false, 0)])
    ensures KeysForKeyItem(kb, A_KEY, 0, {}, {}, false, "", sh) == (true, 0, sh2)
  {
    assert A_KEY.sensitive - {} == {SHIFT};
    var rest := ALL - ({SHIFT} + {});
    assert Xor(sh1.state, {}) * rest - NOT_REQUIRED == {};
    assert KeysForModifierState(kb, 20, 0, {}, rest, NOT_REQUIRED, sh1) == (true, sh1);
    assert AddKeystrokes(kb, Press, A_KEY, sh1) == sh2;
  }

  lemma OnlyShift(kb: Keyboard)
    requires Finished(kb, SHIFT_AND_A, 1, [])
    ensures WiredKeys(WIRES, kb) && Flat(kb)
  {
    forall i, j | 0 <= i < |kb.modifierKeys| && 0 <= j < |kb.modifierKeys[i]|
      ensures kb.modifierKeys[i][j] == SHIFT_KEY
    {
      assert kb.modifierKeys[i][j] in Cell(kb.modifierKeys, 0, i);
    }
  }

  /** The same through the methods. */
  method LoseShift() returns (key: Option<KeyItem>, after: Shadow)
    ensures key == Some(A_KEY) && after.active == [] && after.state == {}
  {
    var keys := EnterShiftAndA();
    UnheldModifierIsLost(keys.Board());
    key, after := keys.MapKey(A_ID, 0, {}, false, "", Shadow([], {SHIFT}, []));
  }

  // ---- shift is pressed twice ----

  lemma PressesShift(kb: Keyboard, sh: Shadow, sh1: Shadow)
    requires Finished(kb, SHIFT_AND_CONTROL, 1, []) && sh == Shadow([], {}, [])
    requires sh1 == Shadow([Held({SHIFT}, SHIFT_KEY)], {SHIFT}, [Button(10, true, false, 0)])
    ensures KeysForModifierState(kb, 0, 0, {SHIFT}, {SHIFT}, {}, sh) == (true, sh1)
  {
    ShiftCell(kb, SHIFT_AND_CONTROL, 0);
    var flip := {SHIFT};
    assert Xor({}, flip) * flip - {} == flip;
    SkipTo(kb, 0, 0, NUM_BITS, 1, flip, flip, {}, sh);
    assert SHIFT_KEY.sensitive - {SHIFT} == {};
    assert PrepareFlip(kb, 0, 0, SHIFT, true, SHIFT_KEY, {}, sh) == (true, sh);
    assert AddKeystrokes(kb, Modify, SHIFT_KEY, sh) == sh1;
  }

  lemma PressesControl(kb: Keyboard, sh: Shadow) returns (sh2: Shadow)
    requires Finished(kb, SHIFT_AND_CONTROL, 1, []) && sh == Shadow([], {}, [])
    ensures var both := {SHIFT, CONTROL};
            FlipBelow(kb, 0, 0, 2, both, both, {}, sh) == FlipBelow(kb, 0, 0, 1, both, both, {}, sh2)
    ensures sh2.keys == [Button(10, true, false, 0), Button(11, true, false, 0)]
    ensures sh2.active == Insert([Held({SHIFT}, SHIFT_KEY)], Held({CONTROL}, SHIFTED_CONTROL))
  {
    ControlCell(kb, 0);
    assert SHIFTED_CONTROL.sensitive - {CONTROL} == {SHIFT};
    var sh1 := Shadow([Held({SHIFT}, SHIFT_KEY)], {SHIFT}, [Button(10, true, false, 0)]);
    PressesShift(kb, sh, sh1);
    assert PrepareFlip(kb, 0, 0, CONTROL, true, SHIFTED_CONTROL, {}, sh) == (true, sh1);
    sh2 := AddKeystrokes(kb, Modify, SHIFTED_CONTROL, sh1);
  }

  lemma PressesShiftAgain(kb: Keyboard, sh2: Shadow) returns (sh3: Shadow)
    requires Finished(kb, SHIFT_AND_CONTROL, 1, [])
    ensures var both := {SHIFT, CONTROL}; FlipBelow(kb, 0, 0, 1, both, both, {}, sh2) == (true, sh3)
    ensures sh3.keys == sh2.keys + [Button(10, true, false, 0)]
    ensures sh3.active == Insert(sh2.active, Held({SHIFT}, SHIFT_KEY))
  {
    var both := {SHIFT, CONTROL};
    ShiftCell(kb, SHIFT_AND_CONTROL, 0);
    assert SHIFT_KEY.sensitive - {SHIFT} == {};
    assert PrepareFlip(kb, 0, 0, SHIFT, true, SHIFT_KEY, {}, sh2) == (true, sh2);
    sh3 := AddKeystrokes(kb, Modify, SHIFT_KEY, sh2);
    assert FlipBelow(kb, 0, 0, 0, both, both, {}, sh3) == (true, sh3);
  }

  lemma OnlyShiftAndControl(kb: Keyboard)
    requires Finished(kb, SHIFT_AND_CONTROL, 1, [])
    ensures WiredKeys(WIRES, kb) && FullDuplex(WIRES, kb)
  {
    forall i, j | 0 <= i < |kb.modifierKeys| && 0 <= j < |kb.modifierKeys[i]|
      ensures kb.modifierKeys[i][j] in {SHIFT_KEY, SHIFTED_CONTROL}
    {
      assert kb.modifierKeys[i][j] in Cell(kb.modifierKeys, 0, i);
    }
  }

  /** Setting shift and control on a keyboard whose control key must be pressed with shift
      down: the loop goes by the flips that were due when it began, also after pressing
      control has pressed shift, and presses shift again.  No keyboard is in the state
      that leaves. */
  lemma StaleFlipPressesTwice(kb: Keyboard)
    requires Finished(kb, SHIFT_AND_CONTROL, 1, [])
    ensures WiredKeys(WIRES, kb) && FullDuplex(WIRES, kb) && Served(kb, SET_MODIFIERS, 0, {SHIFT, CONTROL}, "")
    ensures var sh := Shadow([], {}, []);
            var r := MapKey(kb, SET_MODIFIERS, 0, {SHIFT, CONTROL}, false, "", sh);
            && r.item == Some(MODIFIER_KEY_ITEM) && Count(r.sh.active, 10) == 2
            && r.sh.keys == [Button(10, true, false, 0), Button(11, true, false, 0), Button(10, true, false, 0)]
            && !NoneStale(kb, KeyActs(kb, SET_MODIFIERS, 0, {SHIFT, CONTROL}, false, "", sh), sh)
            && forall p :: !InState(WIRES, r.sh, p)
  {
    var both, sh := {SHIFT, CONTROL}, Shadow([], {}, []);
    OnlyShiftAndControl(kb);
    var sh3 := SetsBoth(kb, sh);
    HeldTwice(sh3.active);
    forall p ensures !InState(WIRES, sh3, p) {
      assert InState(WIRES, sh3, p) ==> ButtonInState(WIRES, sh3, p, 10);
    }
    NothingHeld(sh);
    SomeIsStale(kb, both, sh, Physical({}, {}));
  }

  lemma SetsBoth(kb: Keyboard, sh: Shadow) returns (sh3: Shadow)
    requires Finished(kb, SHIFT_AND_CONTROL, 1, []) && sh == Shadow([], {}, [])
    ensures MapKey(kb, SET_MODIFIERS, 0, {SHIFT, CONTROL}, false, "", sh) == Mapped(Some(MODIFIER_KEY_ITEM), sh3)
    ensures sh3.keys == [Button(10, true, false, 0), Button(11, true, false, 0), Button(10, true, false, 0)]
    ensures sh3.active
            == Insert(Insert([Held({SHIFT}, SHIFT_KEY)], Held({CONTROL}, SHIFTED_CONTROL)), Held({SHIFT}, SHIFT_KEY))
  {
    var both := {SHIFT, CONTROL};
    assert Xor({}, both) * both - {} == both;
    SkipTo(kb, 0, 0, NUM_BITS, 2, both, both, {}, sh);
    var sh2 := PressesControl(kb, sh);
    sh3 := PressesShiftAgain(kb, sh2);
    assert KeysForModifierState(kb, 0, 0, both, both, {}, sh) == (true, sh3);
  }

  /** What cannot be played has a stale flip in it. */
  lemma SomeIsStale(kb: Keyboard, desired: Mask, sh: Shadow, p: Physical)
    requires Plain(WIRES, kb) && WiredKeys(WIRES, kb) && InState(WIRES, sh, p) && sh.keys == []
    requires Served(kb, SET_MODIFIERS, 0, desired, "")
    requires !InSync(WIRES, p, MapKey(kb, SET_MODIFIERS, 0, desired, false, "", sh).sh)
    ensures !NoneStale(kb, KeyActs(kb, SET_MODIFIERS, 0, desired, false, "", sh), sh)
  {
    if NoneStale(kb, KeyActs(kb, SET_MODIFIERS, 0, desired, false, "", sh), sh) {
      MapKeyReplays(kb, WIRES, p, SET_MODIFIERS, 0, desired, false, "", sh);
    }
  }

  lemma HeldTwice(m: Modifiers)
    requires m == Insert(Insert([Held({SHIFT}, SHIFT_KEY)], Held({CONTROL}, SHIFTED_CONTROL)), Held({SHIFT}, SHIFT_KEY))
    ensures Count(m, 10) == 2
  {
    var one := [Held({SHIFT}, SHIFT_KEY)];
    assert one[1..] == [];
    assert Count(one, 10) == 1;
    InsertHeld(WIRES, one, Held({CONTROL}, SHIFTED_CONTROL));
    InsertHeld(WIRES, Insert(one, Held({CONTROL}, SHIFTED_CONTROL)), Held({SHIFT}, SHIFT_KEY));
  }

  lemma NothingHeld(sh: Shadow)
    requires sh == Shadow([], {}, [])
    ensures InState(WIRES, sh, Physical({}, {}))
  {
    forall b ensures BitAgrees(WIRES, sh, b) {
      assert !HoldsBit(WIRES, [], b);
    }
  }

  /** The same through the methods. */
  method PressShiftTwice() returns (key: Option<KeyItem>, after: Shadow)
    ensures key == Some(MODIFIER_KEY_ITEM)
    ensures after.keys == [Button(10, true, false, 0), Button(11, true, false, 0), Button(10, true, false, 0)]
  {
    var keys := EnterShiftAndControl();
    StaleFlipPressesTwice(keys.Board());
    key, after := keys.MapKey(SET_MODIFIERS, 0, {SHIFT, CONTROL}, false, "", Shadow([], {}, []));
  }

  // ---- a language without a group ----

  /** Three layouts on a keyboard with two groups: for an `a` in the third language, typed
      while the second group is active, the group passed on to keyForModifier() is one past
      the last, and so is every index it makes. */
  lemma LanguageWithoutGroup(kb: Keyboard)
    requires Finished(kb, TWO_GROUPS, 2, ["en", "de", "fr"])
    ensures CharacterKeys(kb, kb.keyIDMap[A_ID], LanguageGroup(kb, 1, "fr"), {}, 0) == Some([A_KEY])
    ensures PassedOn(kb, A_KEY, 1, "fr") == kb.numGroups
    ensures PassedOn(kb, A_KEY, 1, "fr") * NUM_BITS >= |kb.modifierKeys|
    ensures !Serves(kb, "fr") && !Served(kb, A_ID, 1, {}, "fr")
  {
    var names := kb.layouts;
    assert names[1..][1..] == names[2..] && names[2..][0] == "fr";
    assert IndexOf(names[2..], "fr") == Some(0);
    assert "en" != "fr" && "de" != "fr" by {
      assert "en"[0] != "fr"[0] && "de"[0] != "fr"[0];
    }
    assert IndexOf(names[1..], "fr") == Some(1);
    assert LanguageGroup(kb, 1, "fr") == 2;
    assert EffectiveGroup(kb, 2, 0) == 0;
    var entries := kb.keyIDMap[A_ID][0];
    assert entries == [[A_KEY]] && Last(entries[0]) == A_KEY && FitsExactly(A_KEY, {});
    assert [A_KEY][0] == A_KEY;
  }

  method EnterLanguageWithoutGroup() returns (keys: KeyMap)
    ensures fresh(keys) && keys.Board().Ready() && !Served(keys.Board(), A_ID, 1, {}, "fr")
  {
    keys := EnterTwoGroups();
    LanguageWithoutGroup(keys.Board());
  }
}
