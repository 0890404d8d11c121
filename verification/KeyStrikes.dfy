/** What a mapping call emits: each key of the list is struck, in order, under the modifiers
    it was chosen for, and nothing is struck that is not a key of the keyboard.
 */
module KeyStrikes {
  import opened KeyMasks
  import opened KeyData
  import opened KeySpec
  import opened KeyWiring
  import opened KeySteps
  import opened KeyNeutrality
  import opened KeyChoice
  import opened KeySearch

  // ---- the strokes of a key ----

  /** A key goes down and a dead key comes up again; autorepeat is up and down on Windows,
      down on the Mac, and nothing elsewhere.  Each stroke carries the key's client data. */
  ghost predicate Struck(platform: Platform, item: KeyItem, again: bool, strokes: seq<Keystroke>) {
    && (forall i | 0 <= i < |strokes| ::
          && strokes[i].Button? && strokes[i].button == item.button && strokes[i].client == item.client
          && strokes[i].again == (again && !item.dead))
    && if item.dead then |strokes| == 2 && strokes[0].press && !strokes[1].press
       else if !again then |strokes| == 1 && strokes[0].press
       else if platform.Windows? then |strokes| == 2 && !strokes[0].press && strokes[1].press
       else if platform.Mac? then |strokes| == 1 && strokes[0].press
       else strokes == []
  }

  function Type(item: KeyItem, again: bool): EKeystroke {
    if item.dead then Click else if again then Repeat else Press
  }

  lemma KeyIsStruck(kb: Keyboard, item: KeyItem, again: bool, sh: Shadow) returns (strokes: seq<Keystroke>)
    ensures AddKeystrokes(kb, Type(item, again), item, sh).keys == sh.keys + strokes
    ensures Struck(kb.platform, item, again, strokes)
  {
    var b, c := item.button, item.client;
    if item.dead {
      strokes := [Button(b, true, false, c), Button(b, false, false, c)];
    } else if !again {
      strokes := [Button(b, true, false, c)];
    } else {
      strokes := match kb.platform
                 case Windows => [Button(b, false, true, c), Button(b, true, true, c)]
                 case Mac => [Button(b, true, true, c)]
                 case Other => [];
    }
  }

  // ---- only keys of the keyboard ----

  /** The keystroke switches the group or strikes one of the keys, with its client data. */
  ghost predicate Stems(keys: set<KeyItem>, k: Keystroke) {
    k.Button? ==> exists i | i in keys :: i.button == k.button && i.client == k.client
  }

  /** What was there stays, and what is added stems from the keys. */
  ghost predicate Extends(keys: set<KeyItem>, before: seq<Keystroke>, after: seq<Keystroke>) {
    before <= after && forall n | |before| <= n < |after| :: Stems(keys, after[n])
  }

  ghost predicate HeldAmong(keys: set<KeyItem>, m: Modifiers) {
    forall i | 0 <= i < |m| :: m[i].item in keys
  }

  lemma {:induction false} LiftsStem(keys: set<KeyItem>, range: Modifiers)
    requires HeldAmong(keys, range)
    ensures forall n | 0 <= n < |Lifts(range)| :: Stems(keys, Lifts(range)[n])
  {
    if range != [] {
      assert range[0].item in keys;
      LiftsStem(keys, range[1..]);
    }
  }

  lemma {:induction false} InsertAmong(keys: set<KeyItem>, m: Modifiers, h: Held)
    requires HeldAmong(keys, m) && h.item in keys
    ensures HeldAmong(keys, Insert(m, h))
  {
    if m != [] && !Less(h.mask, m[0].mask) {
      InsertAmong(keys, m[1..], h);
    }
  }

  lemma {:induction false} ErasedAmong(keys: set<KeyItem>, m: Modifiers, mask: Mask, button: nat)
    requires HeldAmong(keys, m)
    ensures HeldAmong(keys, EraseAll(m, mask)) && HeldAmong(keys, EqualRange(m, mask))
    ensures HeldAmong(keys, EraseButton(m, mask, button))
  {
    if m != [] {
      ErasedAmong(keys, m[1..], mask, button);
    }
  }

  lemma StrokeStems(kb: Keyboard, keys: set<KeyItem>, ty: EKeystroke, item: KeyItem, sh: Shadow)
    requires HeldAmong(keys, sh.active) && item in keys
    ensures var sh' := AddKeystrokes(kb, ty, item, sh);
            HeldAmong(keys, sh'.active) && Extends(keys, sh.keys, sh'.keys)
  {
    InsertAmong(keys, sh.active, Held(item.generates, item));
    ErasedAmong(keys, sh.active, item.generates, item.button);
    LiftsStem(keys, EqualRange(sh.active, item.generates));
  }

  /** A lock is switched by a press and a release; a half-duplex one by a press to switch it
      on and a release to switch it off. */
  lemma LockIsStruck(kb: Keyboard, ty: EKeystroke, item: KeyItem, sh: Shadow) returns (strokes: seq<Keystroke>)
    requires item.lock && ty in {Modify, Unmodify}
    ensures AddKeystrokes(kb, ty, item, sh).keys == sh.keys + strokes
    ensures forall i | 0 <= i < |strokes| ::
              && strokes[i].Button? && strokes[i].button == item.button && strokes[i].client == item.client
              && !strokes[i].again
    ensures if item.button in kb.halfDuplex then |strokes| == 1 && strokes[0].press == ty.Modify?
            else |strokes| == 2 && strokes[0].press && !strokes[1].press
  {
    var b, c := item.button, item.client;
    strokes := if item.button in kb.halfDuplex then [Button(b, ty.Modify?, false, c)]
               else [Button(b, true, false, c), Button(b, false, false, c)];
  }

  ghost predicate ActAmong(keys: set<KeyItem>, act: Act) {
    act.Stroke? ==> act.item in keys
  }

  lemma ExtendsOn(keys: set<KeyItem>, a: seq<Keystroke>, b: seq<Keystroke>, c: seq<Keystroke>)
    requires Extends(keys, a, b) && Extends(keys, b, c)
    ensures Extends(keys, a, c)
  {
    forall n | |a| <= n < |c| ensures Stems(keys, c[n]) {
      if n < |b| {
        assert c[n] == b[n];
      }
    }
  }

  lemma {:induction false} ActsStem(kb: Keyboard, keys: set<KeyItem>, acts: seq<Act>, sh: Shadow)
    requires HeldAmong(keys, sh.active) && forall a | a in acts :: ActAmong(keys, a)
    ensures var sh' := DoAll(kb, acts, sh);
            HeldAmong(keys, sh'.active) && Extends(keys, sh.keys, sh'.keys)
  {
    if acts != [] {
      assert ActAmong(keys, acts[0]);
      var sh1 := Do(kb, acts[0], sh);
      if acts[0].Stroke? {
        StrokeStems(kb, keys, acts[0].ty, acts[0].item, sh);
      }
      ActsStem(kb, keys, acts[1..], sh1);
      ExtendsOn(keys, sh.keys, sh1.keys, DoAll(kb, acts, sh).keys);
    }
  }

  lemma {:induction false} ReleasesStem(kb: Keyboard, keys: set<KeyItem>, old_: Modifiers, button: nat,
                                        wanted: set<nat>, sh: Shadow)
    requires HeldAmong(keys, old_) && HeldAmong(keys, sh.active)
    ensures var sh' := ReleaseUnwanted(kb, old_, button, wanted, sh);
            HeldAmong(keys, sh'.active) && Extends(keys, sh.keys, sh'.keys)
  {
    if old_ != [] {
      var item := old_[0].item;
      assert item in keys;
      var sh1 := if item.button != button && item.button !in wanted then
                   AddKeystrokes(kb, if item.lock then Unmodify else Release, item, sh)
                 else sh;
      StrokeStems(kb, keys, if item.lock then Unmodify else Release, item, sh);
      ReleasesStem(kb, keys, old_[1..], button, wanted, sh1);
      ExtendsOn(keys, sh.keys, sh1.keys, ReleaseUnwanted(kb, old_, button, wanted, sh).keys);
    }
  }

  lemma {:induction false} PressesStem(kb: Keyboard, keys: set<KeyItem>, desired: Modifiers, button: nat,
                                       down: set<nat>, sh: Shadow)
    requires HeldAmong(keys, desired) && HeldAmong(keys, sh.active)
    ensures var sh' := PressWanted(kb, desired, button, down, sh);
            HeldAmong(keys, sh'.active) && Extends(keys, sh.keys, sh'.keys)
  {
    if desired != [] {
      var item := desired[0].item;
      assert item in keys;
      var sh1 := if item.button != button && item.button !in down then
                   AddKeystrokes(kb, if item.lock then Modify else Press, item, sh)
                 else sh;
      StrokeStems(kb, keys, if item.lock then Modify else Press, item, sh);
      PressesStem(kb, keys, desired[1..], button, down, sh1);
      ExtendsOn(keys, sh.keys, sh1.keys, PressWanted(kb, desired, button, down, sh).keys);
    }
  }

  // ---- the keys of a list, in order ----

  /** The group after the keystrokes, from the one before. */
  function CurrentGroup(keys: seq<Keystroke>, group: int): int {
    if keys == [] then group else CurrentGroup(keys[1..], if keys[0].Group? then keys[0].group else group)
  }

  /** The group a key is struck in: its own, if that is the current one, or else that of the
      language, if it has one, or its own. */
  ghost predicate RightGroup(kb: Keyboard, item: KeyItem, group: nat, lang: string, g: nat) {
    if item.group == group then g == group else Begins(kb.layouts, item.group, lang, g)
  }

  /** From `from` on, where the group is `group`, each key of the list is struck, in the order
      of the list and each in the right group. */
  ghost predicate StruckInOrder(kb: Keyboard, items: KeyItemList, again: bool, lang: string, group: nat,
                                keys: seq<Keystroke>, from: nat)
    decreases |items|
  {
    items == [] ||
    exists at: nat, upto: nat, g: nat | from <= at <= upto <= |keys| ::
      && Struck(kb.platform, items[0], again, keys[at..upto])
      && CurrentGroup(keys[from..at], group) == g && RightGroup(kb, items[0], group, lang, g)
      && StruckInOrder(kb, items[1..], again, lang, g, keys, upto)
  }

  lemma {:induction false} StruckStays(kb: Keyboard, items: KeyItemList, again: bool, lang: string, group: nat,
                                       keys: seq<Keystroke>, from: nat, more: seq<Keystroke>)
    requires StruckInOrder(kb, items, again, lang, group, keys, from) && keys <= more
    ensures StruckInOrder(kb, items, again, lang, group, more, from)
  {
    if items != [] {
      var at: nat, upto: nat, g: nat :| from <= at <= upto <= |keys|
        && Struck(kb.platform, items[0], again, keys[at..upto])
        && CurrentGroup(keys[from..at], group) == g && RightGroup(kb, items[0], group, lang, g)
        && StruckInOrder(kb, items[1..], again, lang, g, keys, upto);
      assert more[at..upto] == keys[at..upto] && more[from..at] == keys[from..at];
      StruckStays(kb, items[1..], again, lang, g, keys, upto, more);
    }
  }

  lemma {:induction false} ButtonsKeepGroup(keys: seq<Keystroke>, group: int)
    requires OnlyButtons(keys, 0)
    ensures CurrentGroup(keys, group) == group
  {
    if keys != [] {
      assert forall n | 0 <= n < |keys| - 1 :: keys[1..][n] == keys[n + 1];
      ButtonsKeepGroup(keys[1..], group);
    }
  }

  /** The modifier keys of the keyboard are among the keys. */
  ghost predicate HasModifierKeys(kb: Keyboard, keys: set<KeyItem>) {
    forall i, j | 0 <= i < |kb.modifierKeys| && 0 <= j < |kb.modifierKeys[i]| :: kb.modifierKeys[i][j] in keys
  }

  lemma ActsAmong(kb: Keyboard, keys: set<KeyItem>, items: KeyItemList, acts: seq<Act>)
    requires kb.Ready() && HasModifierKeys(kb, keys) && ActsOf(kb, items, acts) && forall i | i in items :: i in keys
    ensures forall a | a in acts :: ActAmong(keys, a)
  {
    forall a | a in acts ensures ActAmong(keys, a) {
      assert ActOf(kb, items, a);
      if a.Stroke? && a.item !in items {
        var button: nat, group: nat :| group < kb.numGroups && FlipsBelow(kb, button, group, NUM_BITS, a);
        var b: nat :| b < NUM_BITS && KeyForModifier(kb, button, group, b) == Some(a.item);
        KeyForModifierIs(kb, button, group, b);
      }
    }
  }

  lemma KeyItemStems(kb: Keyboard, keys: set<KeyItem>, item: KeyItem, group: nat, desired: Mask, override: Mask,
                     again: bool, lang: string, sh: Shadow)
    requires kb.Ready() && PassedOn(kb, item, group, lang) < kb.numGroups
    requires HasModifierKeys(kb, keys) && item in keys && HeldAmong(keys, sh.active)
    ensures var sh' := KeysForKeyItem(kb, item, group, desired, override, again, lang, sh).2;
            HeldAmong(keys, sh'.active) && Extends(keys, sh.keys, sh'.keys)
  {
    var acts := KeyItemActs(kb, item, group, desired, override, again, lang, sh);
    KeyItemDone(kb, item, group, desired, override, again, lang, sh);
    ActsAmong(kb, keys, [item], acts);
    ActsStem(kb, keys, acts, sh);
  }

  ghost predicate OnlyButtons(keys: seq<Keystroke>, from: nat) {
    forall n | from <= n < |keys| :: keys[n].Button?
  }

  lemma StrokeIsButtons(kb: Keyboard, ty: EKeystroke, item: KeyItem, sh: Shadow)
    ensures sh.keys <= AddKeystrokes(kb, ty, item, sh).keys
    ensures OnlyButtons(AddKeystrokes(kb, ty, item, sh).keys, |sh.keys|)
  {
    LiftsAreButtons(EqualRange(sh.active, item.generates));
  }

  lemma {:induction false} LiftsAreButtons(range: Modifiers)
    ensures OnlyButtons(Lifts(range), 0)
  {
    if range != [] {
      LiftsAreButtons(range[1..]);
    }
  }

  lemma {:induction false} ActsAppend(kb: Keyboard, acts: seq<Act>, sh: Shadow)
    ensures sh.keys <= DoAll(kb, acts, sh).keys
    ensures (forall a | a in acts :: a.Stroke?) ==> OnlyButtons(DoAll(kb, acts, sh).keys, |sh.keys|)
  {
    if acts != [] {
      if acts[0].Stroke? {
        StrokeIsButtons(kb, acts[0].ty, acts[0].item, sh);
      }
      ActsAppend(kb, acts[1..], Do(kb, acts[0], sh));
    }
  }

  lemma MatchAppends(kb: Keyboard, button: nat, group: nat, required: Mask, sensitive: Mask, notRequired: Mask,
                     sh: Shadow)
    requires kb.Ready() && group < kb.numGroups
    ensures var keys := KeysForModifierState(kb, button, group, required, sensitive, notRequired, sh).1.keys;
            sh.keys <= keys && OnlyButtons(keys, |sh.keys|)
  {
    MatchDone(kb, button, group, required, sensitive, notRequired, sh);
    var acts := MatchActs(kb, button, group, required, sensitive, notRequired, sh);
    forall a | a in acts ensures a.Stroke? {
      assert FlipsBelow(kb, button, group, Ceiling(sensitive), a);
    }
    ActsAppend(kb, MatchActs(kb, button, group, required, sensitive, notRequired, sh), sh);
  }

  /** keysForKeyItem ends with the strokes of its key; before them come only strokes of
      keys, and the switch of the group if the key is in another. */
  lemma KeyItemStruck(kb: Keyboard, item: KeyItem, group: nat, desired: Mask, override: Mask, again: bool,
                      lang: string, sh: Shadow)
    returns (mid: Shadow, strokes: seq<Keystroke>)
    requires kb.Ready() && PassedOn(kb, item, group, lang) < kb.numGroups
    requires KeysForKeyItem(kb, item, group, desired, override, again, lang, sh).0
    ensures var sh' := KeysForKeyItem(kb, item, group, desired, override, again, lang, sh).2;
            && sh' == AddKeystrokes(kb, Type(item, again), item, mid)
            && sh.keys <= mid.keys && sh'.keys == mid.keys + strokes && Struck(kb.platform, item, again, strokes)
            && SwitchesFirst(item, group, KeysForKeyItem(kb, item, group, desired, override, again, lang, sh).1,
                             sh.keys, sh'.keys)
            && RightGroup(kb, item, group, lang, KeysForKeyItem(kb, item, group, desired, override, again, lang, sh).1)
    ensures SingleBits(kb) && Flat(kb) ==> StruckUnder(item, desired, override, sh.state, mid.state)
  {
    var g := PassedOn(kb, item, group, lang);
    var sh1 := if group == item.group then sh else sh.(keys := sh.keys + [Group(g, true, false)]);
    var sensitive := if item.dead then item.sensitive else item.sensitive - override;
    var sh2 := KeysForModifierState(kb, item.button, g, item.required, sensitive, {}, sh1).1;
    var rest := ALL - (sensitive + item.generates);
    mid := if item.dead then sh2
           else KeysForModifierState(kb, item.button, g, desired, rest, NOT_REQUIRED, sh2).1;
    strokes := KeyIsStruck(kb, item, again, mid);
    LanguageBegins(kb, item.group, lang);
    MatchAppends(kb, item.button, g, item.required, sensitive, {}, sh1);
    MatchAppends(kb, item.button, g, desired, rest, NOT_REQUIRED, sh2);
    if SingleBits(kb) && Flat(kb) {
      FlatMatchExact(kb, item.button, g, item.required, sensitive, {}, sh1);
      if !item.dead {
        FlatMatchExact(kb, item.button, g, desired, rest, NOT_REQUIRED, sh2);
      }
    }
  }

  /** A key of another group is preceded by the switch to group `g`; there is no other
      switch. */
  ghost predicate SwitchesFirst(item: KeyItem, group: nat, g: nat, before: seq<Keystroke>, after: seq<Keystroke>) {
    var n := |before|;
    if item.group == group then OnlyButtons(after, n)
    else n < |after| && after[n] == Group(g, true, false) && OnlyButtons(after, n + 1)
  }

  lemma SwitchIsGroup(item: KeyItem, group: nat, g: nat, before: seq<Keystroke>, mid: seq<Keystroke>,
                      strokes: seq<Keystroke>)
    requires before <= mid && OnlyButtons(strokes, 0) && SwitchesFirst(item, group, g, before, mid + strokes)
    requires item.group == group ==> g == group
    ensures CurrentGroup(mid[|before|..], group) == g
  {
    var all, new_ := mid + strokes, mid[|before|..];
    assert forall n | 0 <= n < |new_| :: new_[n] == all[|before| + n];
    if item.group == group {
      ButtonsKeepGroup(new_, group);
    } else {
      assert forall n | |mid| <= n < |all| :: all[n] == strokes[n - |mid|];
      assert new_[0] == Group(g, true, false);
      ButtonsKeepGroup(new_[1..], g);
    }
  }

  /** The modifiers when the key is struck: those it is sensitive to, and that are not
      overridden, as it requires; the others, if it is not dead and does not generate them,
      as wanted, but for AltGr, num lock and scroll lock, which stay as they were. */
  ghost predicate StruckUnder(item: KeyItem, desired: Mask, override: Mask, before: Mask, state: Mask) {
    forall b: nat | b < NUM_BITS ::
      b in state <==>
      if b in item.sensitive && (item.dead || b !in override) then b in item.required
      else if !item.dead && b !in item.generates && b !in {ALT_GR, NUM_LOCK, SCROLL_LOCK} then b in desired
      else b in before
  }

  lemma FirstStruck(kb: Keyboard, item: KeyItem, again: bool, lang: string, group: nat, g: nat,
                    before: seq<Keystroke>, mid: seq<Keystroke>, strokes: seq<Keystroke>, keys: seq<Keystroke>)
    requires before <= mid && mid + strokes <= keys && Struck(kb.platform, item, again, strokes)
    requires SwitchesFirst(item, group, g, before, mid + strokes) && RightGroup(kb, item, group, lang, g)
    ensures Struck(kb.platform, item, again, keys[|mid|..|mid| + |strokes|])
    ensures CurrentGroup(keys[|before|..|mid|], group) == g
  {
    SwitchIsGroup(item, group, g, before, mid, strokes);
    SlicesOf(before, mid, strokes, keys);
  }

  lemma SlicesOf(before: seq<Keystroke>, mid: seq<Keystroke>, strokes: seq<Keystroke>, keys: seq<Keystroke>)
    requires before <= mid && mid + strokes <= keys
    ensures keys[|mid|..|mid| + |strokes|] == strokes && keys[|before|..|mid|] == mid[|before|..]
  {
  }

  lemma StruckFirst(kb: Keyboard, items: KeyItemList, again: bool, lang: string, group: nat, keys: seq<Keystroke>,
                    from: nat, at: nat, upto: nat, g: nat)
    requires items != [] && from <= at <= upto <= |keys| && Struck(kb.platform, items[0], again, keys[at..upto])
    requires CurrentGroup(keys[from..at], group) == g && RightGroup(kb, items[0], group, lang, g)
    requires StruckInOrder(kb, items[1..], again, lang, g, keys, upto)
    ensures StruckInOrder(kb, items, again, lang, group, keys, from)
  {
  }

  lemma ItemStruckIn(kb: Keyboard, item: KeyItem, group: nat, desired: Mask, override: Mask, again: bool,
                     lang: string, sh: Shadow, keys: seq<Keystroke>)
    returns (at: nat)
    requires kb.Ready() && PassedOn(kb, item, group, lang) < kb.numGroups
    requires KeysForKeyItem(kb, item, group, desired, override, again, lang, sh).0
    requires KeysForKeyItem(kb, item, group, desired, override, again, lang, sh).2.keys <= keys
    ensures var (_, g, sh1) := KeysForKeyItem(kb, item, group, desired, override, again, lang, sh);
            && |sh.keys| <= at <= |sh1.keys| && Struck(kb.platform, item, again, keys[at..|sh1.keys|])
            && CurrentGroup(keys[|sh.keys|..at], group) == g && RightGroup(kb, item, group, lang, g)
  {
    var g := KeysForKeyItem(kb, item, group, desired, override, again, lang, sh).1;
    var mid, strokes := KeyItemStruck(kb, item, group, desired, override, again, lang, sh);
    FirstStruck(kb, item, again, lang, group, g, sh.keys, mid.keys, strokes, keys);
    at := |mid.keys|;
  }

  lemma {:induction false} ItemsStem(kb: Keyboard, keys: set<KeyItem>, items: KeyItemList, group: nat,
                                     desired: Mask, override: Mask, again: bool, lang: string, sh: Shadow)
    requires kb.Ready() && GroupsExist(kb, items, group, lang)
    requires HasModifierKeys(kb, keys) && (forall i | i in items :: i in keys) && HeldAmong(keys, sh.active)
    ensures var sh' := KeysForItems(kb, items, group, desired, override, again, lang, sh).1;
            HeldAmong(keys, sh'.active) && Extends(keys, sh.keys, sh'.keys)
  {
    if items != [] {
      var (ok, g, sh1) := KeysForKeyItem(kb, items[0], group, desired, override, again, lang, sh);
      KeyItemStems(kb, keys, items[0], group, desired, override, again, lang, sh);
      if ok {
        var sh' := KeysForItems(kb, items, group, desired, override, again, lang, sh).1;
        ItemsStem(kb, keys, items[1..], g, desired, override, again, lang, sh1);
        ExtendsOn(keys, sh.keys, sh1.keys, sh'.keys);
      }
    }
  }

  lemma {:induction false} ItemsStruck(kb: Keyboard, items: KeyItemList, group: nat, desired: Mask, override: Mask,
                                       again: bool, lang: string, sh: Shadow)
    requires kb.Ready() && GroupsExist(kb, items, group, lang)
    requires KeysForItems(kb, items, group, desired, override, again, lang, sh).0
    ensures var sh' := KeysForItems(kb, items, group, desired, override, again, lang, sh).1;
            sh.keys <= sh'.keys && StruckInOrder(kb, items, again, lang, group, sh'.keys, |sh.keys|)
  {
    if items != [] {
      var (ok, g, sh1) := KeysForKeyItem(kb, items[0], group, desired, override, again, lang, sh);
      var keys := KeysForItems(kb, items, group, desired, override, again, lang, sh).1.keys;
      ItemsStruck(kb, items[1..], g, desired, override, again, lang, sh1);
      var at := ItemStruckIn(kb, items[0], group, desired, override, again, lang, sh, keys);
      var mid, strokes := KeyItemStruck(kb, items[0], group, desired, override, again, lang, sh);
      StruckFirst(kb, items, again, lang, group, keys, |sh.keys|, at, |sh1.keys|, g);
    }
  }

  // ---- whole requests ----

  lemma RestoreStems(kb: Keyboard, keys: set<KeyItem>, button: nat, desired: Modifiers, sh: Shadow)
    requires HeldAmong(keys, desired) && HeldAmong(keys, sh.active)
    ensures Extends(keys, sh.keys, KeysToRestoreModifiers(kb, button, desired, sh).keys)
  {
    var wanted, down := ButtonSet(desired), ButtonSet(sh.active);
    var sh1 := ReleaseUnwanted(kb, sh.active, button, wanted, sh);
    ReleasesStem(kb, keys, sh.active, button, wanted, sh);
    PressesStem(kb, keys, desired, button, down, sh1);
    ExtendsOn(keys, sh.keys, sh1.keys, PressWanted(kb, desired, button, down, sh1).keys);
  }

  lemma MapItemsStrikes(kb: Keyboard, keys: set<KeyItem>, items: KeyItemList, group: nat, desired: Mask,
                        override: Mask, again: bool, lang: string, sh: Shadow)
    requires kb.Ready() && items != [] && GroupsExist(kb, items, group, lang)
    requires HasModifierKeys(kb, keys) && (forall i | i in items :: i in keys) && HeldAmong(keys, sh.active)
    requires MapItems(kb, items, group, desired, override, again, lang, sh).item.Some?
    ensures var r := MapItems(kb, items, group, desired, override, again, lang, sh);
            && Extends(keys, sh.keys, r.sh.keys) && r.item.value == Last(items)
            && StruckInOrder(kb, items, again, lang, group, r.sh.keys, |sh.keys|)
  {
    var sh1 := KeysForItems(kb, items, group, desired, override, again, lang, sh).1;
    var sh2 := KeysToRestoreModifiers(kb, Last(items).button, sh.active, sh1);
    ItemsStem(kb, keys, items, group, desired, override, again, lang, sh);
    ItemsStruck(kb, items, group, desired, override, again, lang, sh);
    RestoreStems(kb, keys, Last(items).button, sh.active, sh1);
    ExtendsOn(keys, sh.keys, sh1.keys, sh2.keys);
    StruckStays(kb, items, again, lang, group, sh1.keys, |sh.keys|, sh2.keys);
  }

  /** A character request that succeeds strikes every key of the chosen list, in order; all
      it strikes beside is modifier keys of the keyboard and keys that were held. */
  lemma CharacterKeyStrikes(kb: Keyboard, keys: set<KeyItem>, id: nat, group: nat, desired: Mask, again: bool,
                            lang: string, sh: Shadow)
    returns (start: nat, k: nat, i: nat, list: KeyItemList)
    requires kb.Ready() && CharacterServed(kb, id, group, desired, lang)
    requires id in kb.keyIDMap && Sensible(kb.keyIDMap[id])
    requires HasModifierKeys(kb, keys) && HeldAmong(keys, sh.active)
    requires MapCharacterKey(kb, id, group, desired, again, lang, sh).item.Some?
    ensures var r := MapCharacterKey(kb, id, group, desired, again, lang, sh);
            && Begins(kb.layouts, group, lang, start)
            && CharacterChoice(kb.keyIDMap[id], start, desired, list, k, i) && list != []
            && r.item.value == Last(list)
            && StruckInOrder(kb, list, again, lang, group, r.sh.keys, |sh.keys|)
            && Extends(keys + (set item | item in list), sh.keys, r.sh.keys)
  {
    start := LanguageGroup(kb, group, lang);
    LanguageBegins(kb, group, lang);
    k, i := CharacterKeysAre(kb, kb.keyIDMap[id], start, desired);
    list := CharacterKeys(kb, kb.keyIDMap[id], start, desired, 0).value;
    MapItemsStrikes(kb, keys + (set item | item in list), list, group, desired, {}, again, lang, sh);
  }

  /** So does a command, whose list is one key. */
  lemma CommandKeyStrikes(kb: Keyboard, keys: set<KeyItem>, id: nat, group: nat, desired: Mask, again: bool,
                          lang: string, sh: Shadow)
    returns (k: nat, i: nat)
    requires kb.Ready() && CommandServed(kb, id, group, desired, lang) && id in kb.keyIDMap
    requires HasModifierKeys(kb, keys) && HeldAmong(keys, sh.active)
    requires MapCommandKey(kb, id, group, desired, again, lang, sh).item.Some?
    ensures var r := MapCommandKey(kb, id, group, desired, again, lang, sh);
            && CommandChoice(kb.keyIDMap[id], group, desired, r.item.value, k, i)
            && StruckInOrder(kb, [r.item.value], again, lang, group, r.sh.keys, |sh.keys|)
            && Extends(keys + {r.item.value}, sh.keys, r.sh.keys)
  {
    k, i := CommandKeyIs(kb, kb.keyIDMap[id], group, desired);
    var item := CommandKey(kb, kb.keyIDMap[id], group, desired, 0).value;
    var wanted := desired - {CAPS_LOCK} + sh.state * {CAPS_LOCK};
    MapItemsStrikes(kb, keys + {item}, [item], group, wanted, OVERRIDE, again, lang, sh);
  }

  /** The key of a command is struck with just the wanted modifiers on, whatever it requires:
      AltGr, num lock and scroll lock stay as they were, and so does caps lock. */
  lemma CommandStruckUnder(kb: Keyboard, id: nat, group: nat, desired: Mask, again: bool, lang: string, sh: Shadow)
    returns (mid: Shadow, strokes: seq<Keystroke>)
    requires kb.Ready() && CommandServed(kb, id, group, desired, lang) && SingleBits(kb) && Flat(kb)
    requires var item := MapCommandKey(kb, id, group, desired, again, lang, sh).item;
             item.Some? && !item.value.dead && item.value.generates == {}
    ensures var r := MapCommandKey(kb, id, group, desired, again, lang, sh);
            && Struck(kb.platform, r.item.value, again, strokes)
            && sh.keys <= mid.keys && mid.keys + strokes <= r.sh.keys
            && forall b: nat | b < NUM_BITS ::
                 b in mid.state <==>
                 if b in {CAPS_LOCK, ALT_GR, NUM_LOCK, SCROLL_LOCK} then b in sh.state else b in desired
  {
    var item := CommandKey(kb, kb.keyIDMap[id], group, desired, 0).value;
    var wanted := desired - {CAPS_LOCK} + sh.state * {CAPS_LOCK};
    OneItem(kb, item, group, wanted, again, lang, sh);
    mid, strokes := KeyItemStruck(kb, item, group, wanted, OVERRIDE, again, lang, sh);
    var sh1 := KeysForKeyItem(kb, item, group, wanted, OVERRIDE, again, lang, sh).2;
    RestoreAppends(kb, item.button, sh.active, sh1);
    UnderCommand(item, desired, sh.state, mid.state);
  }

  lemma OneItem(kb: Keyboard, item: KeyItem, group: nat, wanted: Mask, again: bool, lang: string, sh: Shadow)
    requires kb.Ready() && PassedOn(kb, item, group, lang) < kb.numGroups
    ensures var (ok, g, sh') := KeysForKeyItem(kb, item, group, wanted, OVERRIDE, again, lang, sh);
            && GroupsExist(kb, [item], group, lang)
            && KeysForItems(kb, [item], group, wanted, OVERRIDE, again, lang, sh) == (ok, sh')
  {
    assert [item][1..] == [];
  }

  lemma UnderCommand(item: KeyItem, desired: Mask, before: Mask, state: Mask)
    requires !item.dead && item.generates == {}
    requires StruckUnder(item, desired - {CAPS_LOCK} + before * {CAPS_LOCK}, OVERRIDE, before, state)
    ensures forall b: nat | b < NUM_BITS ::
              b in state <==>
              if b in {CAPS_LOCK, ALT_GR, NUM_LOCK, SCROLL_LOCK} then b in before else b in desired
  {
    forall b: nat | b < NUM_BITS ensures b in OVERRIDE {}
  }

  lemma RestoreAppends(kb: Keyboard, button: nat, desired: Modifiers, sh: Shadow)
    ensures sh.keys <= KeysToRestoreModifiers(kb, button, desired, sh).keys
  {
    var keys := (set i | 0 <= i < |desired| :: desired[i].item) + (set i | 0 <= i < |sh.active| :: sh.active[i].item);
    RestoreStems(kb, keys, button, desired, sh);
  }

  /** Setting modifiers turns on just those, and clearing them turns off just those; either
      fails exactly when one that has to change has no key. */
  lemma ModifiersAreSet(kb: Keyboard, set_: bool, group: nat, desired: Mask, again: bool, lang: string, sh: Shadow)
    requires kb.Ready() && group < kb.numGroups && SingleBits(kb) && Flat(kb)
    ensures var r := MapKey(kb, if set_ then SET_MODIFIERS else CLEAR_MODIFIERS, group, desired, again, lang, sh);
            && (r.item.Some? <==>
                forall b: nat | b < NUM_BITS && b in desired && (b in sh.state) != set_ ::
                  exists item :: item in kb.modifierKeys[group * NUM_BITS + b] && item.button != 0)
            && (r.item.Some? ==>
                  forall b: nat | b < NUM_BITS :: b in r.sh.state <==> if b in desired then set_ else b in sh.state)
  {
    var required := if set_ then desired else sh.state - desired;
    FlatMatchExact(kb, 0, group, required, desired, {}, sh);
    var flip := Xor(sh.state, required) * desired - {};
    forall b: nat ensures b in flip <==> b in desired && (b in sh.state) != set_ {}
  }

  // ---- restoring ----

  /** What is added are strokes of the keys; of those that do not lock, all down or all up. */
  ghost predicate Moves(keys: set<KeyItem>, down: bool, before: seq<Keystroke>, after: seq<Keystroke>) {
    && before <= after
    && forall n | |before| <= n < |after| :: after[n].Button? && StruckBy(keys, down, after[n])
  }

  ghost predicate StruckBy(keys: set<KeyItem>, down: bool, k: Keystroke)
    requires k.Button?
  {
    exists i | i in keys :: i.button == k.button && i.client == k.client && (!i.lock ==> k.press == down)
  }

  lemma MovesOn(keys: set<KeyItem>, down: bool, a: seq<Keystroke>, b: seq<Keystroke>, c: seq<Keystroke>)
    requires Moves(keys, down, a, b) && Moves(keys, down, b, c)
    ensures Moves(keys, down, a, c)
  {
    forall n | |a| <= n < |c| ensures c[n].Button? && StruckBy(keys, down, c[n]) {
      if n < |b| {
        assert c[n] == b[n];
      }
    }
  }

  lemma KeyMoves(kb: Keyboard, keys: set<KeyItem>, down: bool, item: KeyItem, sh: Shadow)
    requires item in keys
    ensures var ty := if down then (if item.lock then Modify else Press) else if item.lock then Unmodify else Release;
            Moves(keys, down, sh.keys, AddKeystrokes(kb, ty, item, sh).keys)
  {
  }

  lemma {:induction false} ReleasesMove(kb: Keyboard, keys: set<KeyItem>, old_: Modifiers, button: nat,
                                        wanted: set<nat>, sh: Shadow)
    requires forall i | 0 <= i < |old_| && old_[i].item.button != button && old_[i].item.button !in wanted ::
               old_[i].item in keys
    ensures Moves(keys, false, sh.keys, ReleaseUnwanted(kb, old_, button, wanted, sh).keys)
  {
    if old_ != [] {
      var item := old_[0].item;
      var sh1 := if item.button != button && item.button !in wanted then
                   AddKeystrokes(kb, if item.lock then Unmodify else Release, item, sh)
                 else sh;
      if item.button != button && item.button !in wanted {
        KeyMoves(kb, keys, false, item, sh);
      }
      assert forall i | 0 <= i < |old_| - 1 :: old_[1..][i] == old_[i + 1];
      ReleasesMove(kb, keys, old_[1..], button, wanted, sh1);
      MovesOn(keys, false, sh.keys, sh1.keys, ReleaseUnwanted(kb, old_, button, wanted, sh).keys);
    }
  }

  lemma {:induction false} PressesMove(kb: Keyboard, keys: set<KeyItem>, desired: Modifiers, button: nat,
                                       down: set<nat>, sh: Shadow)
    requires forall i | 0 <= i < |desired| && desired[i].item.button != button && desired[i].item.button !in down ::
               desired[i].item in keys
    ensures Moves(keys, true, sh.keys, PressWanted(kb, desired, button, down, sh).keys)
  {
    if desired != [] {
      var item := desired[0].item;
      var sh1 := if item.button != button && item.button !in down then
                   AddKeystrokes(kb, if item.lock then Modify else Press, item, sh)
                 else sh;
      if item.button != button && item.button !in down {
        KeyMoves(kb, keys, true, item, sh);
      }
      assert forall i | 0 <= i < |desired| - 1 :: desired[1..][i] == desired[i + 1];
      PressesMove(kb, keys, desired[1..], button, down, sh1);
      MovesOn(keys, true, sh.keys, sh1.keys, PressWanted(kb, desired, button, down, sh).keys);
    }
  }

  /** The keys of a list of held keys, but those on one of the buttons. */
  function KeysBeside(m: Modifiers, buttons: set<nat>): set<KeyItem> {
    set i | 0 <= i < |m| && m[i].item.button !in buttons :: m[i].item
  }

  /** Restoring lifts what is held and was not, and then presses what was held and is not; the
      key's own button is left alone. */
  lemma RestoreLiftsThenPresses(kb: Keyboard, button: nat, desired: Modifiers, sh: Shadow) returns (mid: seq<Keystroke>)
    ensures var wanted := set i | 0 <= i < |desired| :: desired[i].item.button;
            var held := set i | 0 <= i < |sh.active| :: sh.active[i].item.button;
            && Moves(KeysBeside(sh.active, wanted + {button}), false, sh.keys, mid)
            && Moves(KeysBeside(desired, held + {button}), true, mid,
                     KeysToRestoreModifiers(kb, button, desired, sh).keys)
  {
    var wanted := set i | 0 <= i < |desired| :: desired[i].item.button;
    var held := set i | 0 <= i < |sh.active| :: sh.active[i].item.button;
    assert wanted == ButtonSet(desired) && held == ButtonSet(sh.active);
    var sh1 := ReleaseUnwanted(kb, sh.active, button, wanted, sh);
    mid := sh1.keys;
    ReleasesMove(kb, KeysBeside(sh.active, wanted + {button}), sh.active, button, wanted, sh);
    PressesMove(kb, KeysBeside(desired, held + {button}), desired, button, held, sh1);
  }
}
