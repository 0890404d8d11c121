/** Pressing a key leaves every other modifier as it found it, however many modifiers
    were flipped on the way; and for an ordinary key, exactly when the modifiers it
    flips are on as the held keys say.
 */
module KeyNeutrality {
  import opened KeyMasks
  import opened KeyData
  import opened KeySpec
  import opened KeyWiring
  import opened KeySteps

  // ---- lists of acts ----

  /** `Fits` for a key of the modifier table, which generates something. */
  lemma FlipFits(kb: Keyboard, w: Wiring, button: nat, group: nat, bound: nat, act: Act)
    requires kb.Ready() && group < kb.numGroups && Wired(w, kb) && FlipsBelow(kb, button, group, bound, act)
    ensures Fits(w, act.item) && act.item.generates != {} && act.item.button != button
  {
    var b: nat :| b < NUM_BITS && b < bound && KeyForModifier(kb, button, group, b) == Some(act.item);
    KeyForModifierIs(kb, button, group, b);
    var i := group * NUM_BITS + b;
    var j :| 0 <= j < |kb.modifierKeys[i]| && kb.modifierKeys[i][j] == act.item;
  }

  ghost predicate ActFits(w: Wiring, act: Act) {
    act.Stroke? ==>
      && act.ty != Release && Fits(w, act.item)
      && (act.ty in {Modify, Unmodify} ==> act.item.generates != {})
  }

  ghost predicate ActsFit(w: Wiring, acts: seq<Act>) {
    forall a | a in acts :: ActFits(w, a)
  }

  lemma ItemsActsFit(kb: Keyboard, w: Wiring, items: KeyItemList, acts: seq<Act>)
    requires kb.Ready() && Wired(w, kb) && ActsOf(kb, items, acts)
    requires forall i | i in items :: Fits(w, i)
    ensures ActsFit(w, acts)
  {
    forall a | a in acts ensures ActFits(w, a) {
      assert ActOf(kb, items, a);
      if a.Stroke? && !(a.ty in {Press, Repeat, Click} && a.item in items) {
        var button: nat, group: nat :| group < kb.numGroups && FlipsBelow(kb, button, group, NUM_BITS, a);
        FlipFits(kb, w, button, group, NUM_BITS, a);
      }
    }
  }

  /** The modifiers that the acts press, release or toggle. */
  ghost function Touched(acts: seq<Act>): Mask {
    if acts == [] then {}
    else
      (if acts[0].Stroke? && acts[0].ty in {Press, Modify, Unmodify} then acts[0].item.generates else {})
      + Touched(acts[1..])
  }

  lemma {:induction false} TouchedConcat(a: seq<Act>, b: seq<Act>)
    ensures Touched(a + b) == Touched(a) + Touched(b)
  {
    if a == [] {
      assert a + b == b;
    } else {
      assert (a + b)[1..] == a[1..] + b;
      TouchedConcat(a[1..], b);
    }
  }

  /** Whatever the modifier state was, a modifier that the acts touch agrees with the held
      keys afterwards, and one they do not is as it was. */
  lemma {:induction false} ActsBit(kb: Keyboard, w: Wiring, acts: seq<Act>, sh: Shadow, b: nat)
    requires Tidy(w, sh.active) && ActsFit(w, acts)
    ensures var sh' := DoAll(kb, acts, sh);
            && Tidy(w, sh'.active)
            && (b in Touched(acts) ==> BitAgrees(w, sh', b))
            && (b !in Touched(acts) ==> SameBit(w, sh, sh', b))
            && (BitAgrees(w, sh, b) ==> BitAgrees(w, sh', b))
  {
    if acts != [] {
      var act := acts[0];
      assert ActFits(w, act);
      var sh1 := Do(kb, act, sh);
      if act.Stroke? {
        AddKeystrokesBit(kb, w, act.ty, act.item, sh, b);
      } else {
        SameBitAgrees(w, sh, sh1, b);
      }
      ActsBit(kb, w, acts[1..], sh1, b);
    }
  }

  lemma ActsAgree(kb: Keyboard, w: Wiring, acts: seq<Act>, sh: Shadow)
    requires Agrees(w, sh) && ActsFit(w, acts)
    ensures Agrees(w, DoAll(kb, acts, sh))
  {
    ActsBit(kb, w, acts, sh, 0);
    forall b ensures BitAgrees(w, DoAll(kb, acts, sh), b) {
      ActsBit(kb, w, acts, sh, b);
    }
  }

  /** Matching a modifier state keeps the shadow state consistent, never presses the
      button it is given, and never touches the lock on that button. */
  lemma {:induction false} FlipsAgree(kb: Keyboard, w: Wiring, u: nat, group: nat, bound: nat, acts: seq<Act>,
                                      sh: Shadow)
    requires kb.Ready() && group < kb.numGroups && Wired(w, kb) && Agrees(w, sh)
    requires AllBelow(kb, u, group, bound, acts)
    ensures var sh' := DoAll(kb, acts, sh);
            && Agrees(w, sh')
            && Count(sh'.active, u) <= Count(sh.active, u)
            && (u in w && w[u].lock ==> Count(sh'.active, u) == Count(sh.active, u))
  {
    if acts != [] {
      var act := acts[0];
      assert FlipsBelow(kb, u, group, bound, act);
      FlipFits(kb, w, u, group, bound, act);
      AddKeystrokesAgrees(kb, w, act.ty, act.item, sh);
      AddKeystrokesCounts(kb, w, act.ty, act.item, sh, u);
      FlipsAgree(kb, w, u, group, bound, acts[1..], Do(kb, act, sh));
    }
  }

  lemma MatchAgrees(kb: Keyboard, w: Wiring, u: nat, group: nat, required: Mask, sensitive: Mask,
                    notRequired: Mask, sh: Shadow)
    requires kb.Ready() && group < kb.numGroups && Wired(w, kb) && Agrees(w, sh)
    ensures var sh' := KeysForModifierState(kb, u, group, required, sensitive, notRequired, sh).1;
            && Agrees(w, sh')
            && Count(sh'.active, u) <= Count(sh.active, u)
            && (u in w && w[u].lock ==> Count(sh'.active, u) == Count(sh.active, u))
  {
    MatchDone(kb, u, group, required, sensitive, notRequired, sh);
    FlipsAgree(kb, w, u, group, Ceiling(sensitive),
               MatchActs(kb, u, group, required, sensitive, notRequired, sh), sh);
  }

  // ---- pressing the keys of a list ----

  /** Whether the pressed key's own button is in the multimap afterwards. */
  ghost predicate HeldAfterPress(item: KeyItem, before: Modifiers) {
    item.generates != {} && (!item.lock || Count(before, item.button) == 0)
  }

  /** A press that mapCharacterKey makes: a dead key and an autorepeat generate nothing. */
  ghost predicate PlainPress(w: Wiring, item: KeyItem, again: bool) {
    Fits(w, item) && (item.generates != {} ==> !item.dead && !again)
  }

  lemma KeyItemAgrees(kb: Keyboard, w: Wiring, item: KeyItem, group: nat, desired: Mask, override: Mask,
                      again: bool, lang: string, sh: Shadow)
    requires kb.Ready() && PassedOn(kb, item, group, lang) < kb.numGroups && Wired(w, kb) && Agrees(w, sh)
    requires PlainPress(w, item, again)
    ensures var (ok, g, sh') := KeysForKeyItem(kb, item, group, desired, override, again, lang, sh);
            && Agrees(w, sh')
            && (ok && item.generates != {} ==>
                  (Count(sh'.active, item.button) > 0 <==> HeldAfterPress(item, sh.active)))
  {
    var u, g := item.button, PassedOn(kb, item, group, lang);
    var sh1 := if group == item.group then sh else sh.(keys := sh.keys + [Group(g, true, false)]);
    KeysDoNotMatter(w, sh, sh1);
    if item.dead {
      var sh2 := KeysForModifierState(kb, u, g, item.required, item.sensitive, {}, sh1).1;
      MatchAgrees(kb, w, u, g, item.required, item.sensitive, {}, sh1);
      AddKeystrokesAgrees(kb, w, Click, item, sh2);
    } else {
      var sensitive := item.sensitive - override;
      var sh2 := KeysForModifierState(kb, u, g, item.required, sensitive, {}, sh1).1;
      MatchAgrees(kb, w, u, g, item.required, sensitive, {}, sh1);
      var rest := ALL - (sensitive + item.generates);
      var sh3 := KeysForModifierState(kb, u, g, desired, rest, NOT_REQUIRED, sh2).1;
      MatchAgrees(kb, w, u, g, desired, rest, NOT_REQUIRED, sh2);
      var ty := if again then Repeat else Press;
      AddKeystrokesAgrees(kb, w, ty, item, sh3);
      AddKeystrokesCounts(kb, w, ty, item, sh3, u);
    }
  }

  /** A list for a key: only a list of one item generates a modifier. */
  ghost predicate PlainList(w: Wiring, items: KeyItemList, again: bool) {
    && items != []
    && (forall i | 0 <= i < |items| :: PlainPress(w, items[i], again))
    && (|items| > 1 ==> forall i | 0 <= i < |items| :: items[i].generates == {})
  }

  lemma {:induction false} ItemsAgree(kb: Keyboard, w: Wiring, items: KeyItemList, group: nat, desired: Mask,
                                      override: Mask, again: bool, lang: string, sh: Shadow)
    requires kb.Ready() && Wired(w, kb) && Agrees(w, sh) && PlainList(w, items, again)
    requires GroupsExist(kb, items, group, lang)
    ensures var (ok, sh') := KeysForItems(kb, items, group, desired, override, again, lang, sh);
            && Agrees(w, sh')
            && (ok && Last(items).generates != {} ==>
                  (Count(sh'.active, Last(items).button) > 0 <==> HeldAfterPress(Last(items), sh.active)))
  {
    KeyItemAgrees(kb, w, items[0], group, desired, override, again, lang, sh);
    var (ok, g, sh1) := KeysForKeyItem(kb, items[0], group, desired, override, again, lang, sh);
    if ok && |items| > 1 {
      assert Last(items[1..]) == Last(items);
      ItemsAgree(kb, w, items[1..], g, desired, override, again, lang, sh1);
    }
  }

  // ---- restoring the other modifiers ----

  /** The release loop goes over no modifier whose keys are all wanted. */
  lemma {:induction false} ReleasedBit(kb: Keyboard, w: Wiring, rest: Modifiers, u: nat, wanted: set<nat>, sh: Shadow,
                                       b: nat)
    requires Tidy(w, sh.active) && Tidy(w, rest)
    ensures var sh' := ReleaseUnwanted(kb, rest, u, wanted, sh);
            && Tidy(w, sh'.active)
            && (BitAgrees(w, sh, b) ==> BitAgrees(w, sh', b))
            && ((forall v | v in w && w[v].bit == b && Count(rest, v) > 0 :: v == u || v in wanted)
                ==> SameBit(w, sh, sh', b))
  {
    if rest != [] {
      var item := rest[0].item;
      assert TidyNode(w, rest[0]);
      var ty := if item.lock then Unmodify else Release;
      var go := item.button != u && item.button !in wanted;
      AddKeystrokesBit(kb, w, ty, item, sh, b);
      assert Count(rest, item.button) > 0;
      ReleasedBit(kb, w, rest[1..], u, wanted, if go then AddKeystrokes(kb, ty, item, sh) else sh, b);
    }
  }

  /** The release loop takes every key it goes over out of the multimap, unless it is
      wanted or on the pressed button, and no other. */
  lemma {:induction false} ReleasedCounts(kb: Keyboard, w: Wiring, rest: Modifiers, u: nat, wanted: set<nat>,
                                          sh: Shadow, v: nat)
    requires OneButtonPerLock(w) && Tidy(w, sh.active) && Tidy(w, rest)
    requires v != u && v !in wanted ==> Count(sh.active, v) <= Count(rest, v)
    ensures Count(ReleaseUnwanted(kb, rest, u, wanted, sh).active, v)
            == if v == u || v in wanted then Count(sh.active, v) else 0
  {
    if rest != [] {
      var item := rest[0].item;
      assert TidyNode(w, rest[0]);
      var ty := if item.lock then Unmodify else Release;
      var go := item.button != u && item.button !in wanted;
      var sh1 := if go then AddKeystrokes(kb, ty, item, sh) else sh;
      AddKeystrokesBit(kb, w, ty, item, sh, 0);
      AddKeystrokesCounts(kb, w, ty, item, sh, v);
      ReleasedCounts(kb, w, rest[1..], u, wanted, sh1, v);
    }
  }

  /** The press loop goes over no modifier whose keys were all down. */
  lemma {:induction false} PressedBit(kb: Keyboard, w: Wiring, rest: Modifiers, u: nat, down: set<nat>, sh: Shadow,
                                      b: nat)
    requires Tidy(w, sh.active) && Tidy(w, rest)
    ensures var sh' := PressWanted(kb, rest, u, down, sh);
            && Tidy(w, sh'.active)
            && (BitAgrees(w, sh, b) ==> BitAgrees(w, sh', b))
            && ((forall v | v in w && w[v].bit == b && Count(rest, v) > 0 :: v == u || v in down)
                ==> SameBit(w, sh, sh', b))
  {
    if rest != [] {
      var item := rest[0].item;
      assert TidyNode(w, rest[0]);
      var ty := if item.lock then Modify else Press;
      var go := item.button != u && item.button !in down;
      AddKeystrokesBit(kb, w, ty, item, sh, b);
      assert Count(rest, item.button) > 0;
      PressedBit(kb, w, rest[1..], u, down, if go then AddKeystrokes(kb, ty, item, sh) else sh, b);
    }
  }

  /** The press loop puts every key it goes over into the multimap, unless its button
      was down or is the pressed one, and no other. */
  lemma {:induction false} PressedCounts(kb: Keyboard, w: Wiring, rest: Modifiers, u: nat, down: set<nat>,
                                         sh: Shadow, v: nat)
    requires OneButtonPerLock(w) && Tidy(w, sh.active) && Tidy(w, rest)
    ensures Count(PressWanted(kb, rest, u, down, sh).active, v)
            == Count(sh.active, v) + if v == u || v in down then 0 else Count(rest, v)
  {
    if rest != [] {
      var item := rest[0].item;
      assert TidyNode(w, rest[0]);
      var ty := if item.lock then Modify else Press;
      var go := item.button != u && item.button !in down;
      var sh1 := if go then AddKeystrokes(kb, ty, item, sh) else sh;
      AddKeystrokesBit(kb, w, ty, item, sh, 0);
      AddKeystrokesCounts(kb, w, ty, item, sh, v);
      PressedCounts(kb, w, rest[1..], u, down, sh1, v);
    }
  }

  /** keysToRestoreModifiers: whatever the modifier state, afterwards a button is held
      exactly when it is wanted, except the pressed one, which stays as it is. */
  lemma RestoreCounts(kb: Keyboard, w: Wiring, u: nat, desired: Modifiers, sh: Shadow, v: nat)
    requires OneButtonPerLock(w) && Tidy(w, sh.active) && Tidy(w, desired)
    ensures var sh' := KeysToRestoreModifiers(kb, u, desired, sh);
            Count(sh'.active, v) > 0 <==> if v == u then Count(sh.active, v) > 0 else Count(desired, v) > 0
  {
    var wanted, down := ButtonSet(desired), ButtonSet(sh.active);
    ButtonSetCounts(desired, v);
    ButtonSetCounts(sh.active, v);
    ReleasedBit(kb, w, sh.active, u, wanted, sh, 0);
    ReleasedCounts(kb, w, sh.active, u, wanted, sh, v);
    PressedCounts(kb, w, desired, u, down, ReleaseUnwanted(kb, sh.active, u, wanted, sh), v);
  }

  /** It keeps a modifier in agreement, and leaves one alone if its held keys are those wanted. */
  lemma RestoreBit(kb: Keyboard, w: Wiring, u: nat, desired: Modifiers, sh: Shadow, b: nat)
    requires Tidy(w, sh.active) && Tidy(w, desired)
    ensures var sh' := KeysToRestoreModifiers(kb, u, desired, sh);
            && Tidy(w, sh'.active)
            && (BitAgrees(w, sh, b) ==> BitAgrees(w, sh', b))
            && ((forall v | v in w && w[v].bit == b && v != u :: Count(sh.active, v) > 0 <==> Count(desired, v) > 0)
                ==> SameBit(w, sh, sh', b))
  {
    var wanted, down := ButtonSet(desired), ButtonSet(sh.active);
    forall v ensures (v in wanted <==> Count(desired, v) > 0) && (v in down <==> Count(sh.active, v) > 0) {
      ButtonSetCounts(desired, v);
      ButtonSetCounts(sh.active, v);
    }
    ReleasedBit(kb, w, sh.active, u, wanted, sh, b);
    PressedBit(kb, w, desired, u, down, ReleaseUnwanted(kb, sh.active, u, wanted, sh), b);
  }

  lemma RestoreAgrees(kb: Keyboard, w: Wiring, u: nat, desired: Modifiers, sh: Shadow)
    requires Agrees(w, sh) && Tidy(w, desired)
    ensures Agrees(w, KeysToRestoreModifiers(kb, u, desired, sh))
  {
    RestoreBit(kb, w, u, desired, sh, 0);
    forall b ensures BitAgrees(w, KeysToRestoreModifiers(kb, u, desired, sh), b) {
      RestoreBit(kb, w, u, desired, sh, b);
    }
  }

  // ---- the mapping calls ----

  /** A mapping call that pressed the key of `items` leaves every other button as it was;
      the key's own button is held if it is an ordinary modifier, and toggled if it locks. */
  lemma MapItemsEffect(kb: Keyboard, w: Wiring, items: KeyItemList, group: nat, desired: Mask, override: Mask,
                       again: bool, lang: string, sh: Shadow, v: nat)
    requires kb.Ready() && Wired(w, kb) && Agrees(w, sh) && PlainList(w, items, again)
    requires GroupsExist(kb, items, group, lang)
    requires MapItems(kb, items, group, desired, override, again, lang, sh).item.Some?
    ensures var r := MapItems(kb, items, group, desired, override, again, lang, sh);
            && Agrees(w, r.sh)
            && (Count(r.sh.active, v) > 0 <==>
                if v == Last(items).button then HeldAfterPress(Last(items), sh.active)
                else Count(sh.active, v) > 0)
  {
    var item := Last(items);
    ItemsAgree(kb, w, items, group, desired, override, again, lang, sh);
    var sh1 := KeysForItems(kb, items, group, desired, override, again, lang, sh).1;
    RestoreCounts(kb, w, item.button, sh.active, sh1, v);
    RestoreAgrees(kb, w, item.button, sh.active, sh1);
    if item.generates == {} && v == item.button {
      var r := KeysToRestoreModifiers(kb, v, sh.active, sh1);
      if Count(r.active, v) > 0 {
        HeldAreWired(w, r.active, v);
        assert false;
      }
    }
  }

  /** The buttons held for a modifier. */
  function HeldFor(m: Modifiers, mask: Mask): set<nat> {
    set i | 0 <= i < |m| && m[i].mask == mask :: m[i].item.button
  }

  lemma {:induction false} HeldForCounts(w: Wiring, m: Modifiers, mask: Mask, v: nat)
    requires Tidy(w, m)
    ensures v in HeldFor(m, mask) <==> v in w && mask == {w[v].bit} && Count(m, v) > 0
  {
    if m != [] {
      assert TidyNode(w, m[0]);
      HeldForCounts(w, m[1..], mask, v);
      assert forall i | 0 <= i < |m| - 1 :: m[1..][i] == m[i + 1];
      if v in HeldFor(m, mask) {
        var i :| 0 <= i < |m| && m[i].mask == mask && m[i].item.button == v;
        if i > 0 { assert m[1..][i - 1].item.button == v; }
      }
      if v in HeldFor(m[1..], mask) {
        var i :| 0 <= i < |m[1..]| && m[1..][i].mask == mask && m[1..][i].item.button == v;
        assert m[i + 1].item.button == v;
      }
      if m[0].item.button == v && mask == {w[v].bit} {
        assert m[0].mask == mask;
        assert v in HeldFor(m, mask);
      }
    }
  }

  /** What the two shadow states have in common when a call was modifier-neutral. */
  ghost predicate SameModifiers(before: Shadow, after: Shadow) {
    && after.state == before.state
    && forall mask :: HeldFor(after.active, mask) == HeldFor(before.active, mask)
  }

  // ---- when mapping an ordinary key is neutral ----

  /** The items of an ordinary key: they generate nothing, and share no button with a modifier. */
  ghost predicate Ordinary(w: Wiring, items: KeyItemList) {
    items != [] && forall i | i in items :: i.generates == {} && i.button !in w
  }

  /** After an ordinary key is mapped, a modifier it touched is on exactly when it is held,
      and any other is as it was. */
  lemma MapItemsBit(kb: Keyboard, w: Wiring, items: KeyItemList, group: nat, desired: Mask, override: Mask,
                    again: bool, lang: string, sh: Shadow, b: nat)
    requires kb.Ready() && Wired(w, kb) && Tidy(w, sh.active) && Ordinary(w, items)
    requires GroupsExist(kb, items, group, lang)
    requires MapItems(kb, items, group, desired, override, again, lang, sh).item.Some?
    ensures var after := MapItems(kb, items, group, desired, override, again, lang, sh).sh;
            && Tidy(w, after.active)
            && if b in Touched(ItemsActs(kb, items, group, desired, override, again, lang, sh))
               then BitAgrees(w, after, b) else b in after.state <==> b in sh.state
  {
    var acts := ItemsActs(kb, items, group, desired, override, again, lang, sh);
    var sh1 := KeysForItems(kb, items, group, desired, override, again, lang, sh).1;
    ItemsDone(kb, items, group, desired, override, again, lang, sh);
    ItemsActsFit(kb, w, items, acts);
    ActsBit(kb, w, acts, sh, b);
    RestoreBit(kb, w, Last(items).button, sh.active, sh1, b);
  }

  /** After an ordinary key is mapped, the same buttons are held. */
  lemma MapItemsHeld(kb: Keyboard, w: Wiring, items: KeyItemList, group: nat, desired: Mask, override: Mask,
                     again: bool, lang: string, sh: Shadow, v: nat)
    requires kb.Ready() && Wired(w, kb) && Tidy(w, sh.active) && Ordinary(w, items)
    requires GroupsExist(kb, items, group, lang)
    requires MapItems(kb, items, group, desired, override, again, lang, sh).item.Some?
    ensures var after := MapItems(kb, items, group, desired, override, again, lang, sh).sh;
            Count(after.active, v) > 0 <==> Count(sh.active, v) > 0
  {
    var u := Last(items).button;
    var acts := ItemsActs(kb, items, group, desired, override, again, lang, sh);
    var sh1 := KeysForItems(kb, items, group, desired, override, again, lang, sh).1;
    ItemsDone(kb, items, group, desired, override, again, lang, sh);
    ItemsActsFit(kb, w, items, acts);
    ActsBit(kb, w, acts, sh, 0);
    if v == u {
      NotHeld(w, sh.active, v);
      NotHeld(w, sh1.active, v);
    }
    RestoreCounts(kb, w, u, sh.active, sh1, v);
  }

  lemma NotHeld(w: Wiring, m: Modifiers, v: nat)
    requires Tidy(w, m) && v !in w
    ensures Count(m, v) == 0
  {
    if Count(m, v) > 0 {
      HeldAreWired(w, m, v);
      assert false;
    }
  }

  lemma SameCountsSameHeld(w: Wiring, m: Modifiers, m': Modifiers)
    requires Tidy(w, m) && Tidy(w, m')
    requires forall v :: Count(m', v) > 0 <==> Count(m, v) > 0
    ensures forall mask :: HeldFor(m', mask) == HeldFor(m, mask)
    ensures forall b :: HoldsBit(w, m', b) <==> HoldsBit(w, m, b)
  {
    forall mask ensures HeldFor(m', mask) == HeldFor(m, mask) {
      forall v ensures v in HeldFor(m', mask) <==> v in HeldFor(m, mask) {
        HeldForCounts(w, m, mask, v);
        HeldForCounts(w, m', mask, v);
      }
    }
  }

  /** Mapping an ordinary key is modifier-neutral exactly when every modifier that is
      pressed or released on the way was on exactly when it was held. */
  lemma NeutralExactly(kb: Keyboard, w: Wiring, items: KeyItemList, group: nat, desired: Mask, override: Mask,
                       again: bool, lang: string, sh: Shadow)
    requires kb.Ready() && Wired(w, kb) && Tidy(w, sh.active) && Ordinary(w, items)
    requires GroupsExist(kb, items, group, lang)
    requires MapItems(kb, items, group, desired, override, again, lang, sh).item.Some?
    ensures SameModifiers(sh, MapItems(kb, items, group, desired, override, again, lang, sh).sh) <==>
            forall b | b in Touched(ItemsActs(kb, items, group, desired, override, again, lang, sh)) ::
              BitAgrees(w, sh, b)
  {
    var after := MapItems(kb, items, group, desired, override, again, lang, sh).sh;
    var touched := Touched(ItemsActs(kb, items, group, desired, override, again, lang, sh));
    forall v ensures Count(after.active, v) > 0 <==> Count(sh.active, v) > 0 {
      MapItemsHeld(kb, w, items, group, desired, override, again, lang, sh, v);
    }
    MapItemsBit(kb, w, items, group, desired, override, again, lang, sh, 0);
    SameCountsSameHeld(w, sh.active, after.active);
    forall b ensures b in after.state <==> if b in touched then HoldsBit(w, sh.active, b) else b in sh.state {
      MapItemsBit(kb, w, items, group, desired, override, again, lang, sh, b);
    }
    SameStateExactly(w, sh, after, touched);
  }

  lemma SameStateExactly(w: Wiring, sh: Shadow, after: Shadow, touched: Mask)
    requires forall b :: b in after.state <==> if b in touched then HoldsBit(w, sh.active, b) else b in sh.state
    ensures after.state == sh.state <==> forall b | b in touched :: BitAgrees(w, sh, b)
  {
    if forall b | b in touched :: BitAgrees(w, sh, b) {
      assert forall b :: b in after.state <==> b in sh.state;
    }
  }

  // ---- whole calls ----

  /** Every item of the keyboard fits the wiring, dead keys generate nothing, and only
      lists of one item generate a modifier. */
  ghost predicate WiredKeys(w: Wiring, kb: Keyboard) {
    && Wired(w, kb)
    && forall id | id in kb.keyIDMap :: TableWired(w, kb.keyIDMap[id])
  }

  ghost predicate TableWired(w: Wiring, table: KeyGroupTable) {
    forall g, e | 0 <= g < |table| && 0 <= e < |table[g]| :: PlainList(w, table[g][e], false)
  }

  /** The list or single item a mapping call picked comes from the keyboard. */
  lemma {:induction false} CharacterKeysWired(kb: Keyboard, w: Wiring, table: KeyGroupTable, group: nat,
                                              desired: Mask, offset: nat)
    requires kb.Ready() && kb.TableReady(table) && TableWired(w, table) && offset <= kb.numGroups
    ensures var r := CharacterKeys(kb, table, group, desired, offset); r.Some? ==> PlainList(w, r.value, false)
    decreases kb.numGroups - offset
  {
    if offset < kb.numGroups {
      var entries := table[EffectiveGroup(kb, group, offset)];
      BestKeyInRange(entries, desired);
      CharacterKeysWired(kb, w, table, group, desired, offset + 1);
    }
  }

  lemma {:induction false} CommandKeyWired(kb: Keyboard, w: Wiring, table: KeyGroupTable, group: nat,
                                           desired: Mask, offset: nat)
    requires kb.Ready() && kb.TableReady(table) && TableWired(w, table) && offset <= kb.numGroups
    ensures var r := CommandKey(kb, table, group, desired, offset); r.Some? ==> PlainList(w, [r.value], false)
    decreases kb.numGroups - offset
  {
    if offset < kb.numGroups {
      var entries := table[EffectiveGroup(kb, group, offset)];
      var first := FirstCommand(entries, desired);
      if first.Some? {
        assert [first.value] in entries;
      }
      CommandKeyWired(kb, w, table, group, desired, offset + 1);
    }
  }

  /** What mapKey does to press the key it maps. */
  ghost function CharacterActs(kb: Keyboard, id: nat, group: nat, desired: Mask, again: bool, lang: string,
                               sh: Shadow): seq<Act>
    requires kb.Ready() && CharacterServed(kb, id, group, desired, lang)
  {
    if id !in kb.keyIDMap then []
    else
      match CharacterKeys(kb, kb.keyIDMap[id], LanguageGroup(kb, group, lang), desired, 0)
      case None => []
      case Some(items) => ItemsActs(kb, items, group, desired, {}, again, lang, sh)
  }

  /** The modifiers a command key is pressed with: caps lock is left as it is. */
  function Wanted(desired: Mask, state: Mask): Mask {
    desired - {CAPS_LOCK} + state * {CAPS_LOCK}
  }

  ghost function CommandActs(kb: Keyboard, id: nat, group: nat, desired: Mask, again: bool, lang: string,
                             sh: Shadow): seq<Act>
    requires kb.Ready() && CommandServed(kb, id, group, desired, lang)
  {
    if id !in kb.keyIDMap then []
    else
      match CommandKey(kb, kb.keyIDMap[id], group, desired, 0)
      case None => []
      case Some(item) => ItemsActs(kb, [item], group, Wanted(desired, sh.state), OVERRIDE, again, lang, sh)
  }

  ghost function KeyActs(kb: Keyboard, id: nat, group: nat, desired: Mask, again: bool, lang: string,
                         sh: Shadow): seq<Act>
    requires kb.Ready() && Served(kb, id, group, desired, lang)
  {
    if id in {NEXT_GROUP, PREV_GROUP} then []
    else if id == SET_MODIFIERS then MatchActs(kb, 0, group, desired, desired, {}, sh)
    else if id == CLEAR_MODIFIERS then MatchActs(kb, 0, group, sh.state - desired, desired, {}, sh)
    else if id !in MODIFIER_IDS && IsCommand(desired) then CommandActs(kb, id, group, desired, again, lang, sh)
    else CharacterActs(kb, id, group, desired, again, lang, sh)
  }

  lemma PlainIsOrdinary(w: Wiring, items: KeyItemList)
    requires PlainList(w, items, false) && Last(items).generates == {}
    ensures Ordinary(w, items)
  {
    forall i | i in items ensures i.generates == {} && i.button !in w {
      var k :| 0 <= k < |items| && items[k] == i;
      assert PlainPress(w, items[k], false);
    }
  }

  lemma CharacterKeyExactly(kb: Keyboard, w: Wiring, id: nat, group: nat, desired: Mask, again: bool,
                            lang: string, sh: Shadow)
    requires kb.Ready() && WiredKeys(w, kb) && Tidy(w, sh.active) && CharacterServed(kb, id, group, desired, lang)
    requires var item := MapCharacterKey(kb, id, group, desired, again, lang, sh).item;
             item.Some? && item.value.generates == {}
    ensures SameModifiers(sh, MapCharacterKey(kb, id, group, desired, again, lang, sh).sh) <==>
            forall b | b in Touched(CharacterActs(kb, id, group, desired, again, lang, sh)) :: BitAgrees(w, sh, b)
  {
    var from := LanguageGroup(kb, group, lang);
    CharacterKeysWired(kb, w, kb.keyIDMap[id], from, desired, 0);
    var items := CharacterKeys(kb, kb.keyIDMap[id], from, desired, 0).value;
    PlainIsOrdinary(w, items);
    NeutralExactly(kb, w, items, group, desired, {}, again, lang, sh);
  }

  lemma CommandKeyExactly(kb: Keyboard, w: Wiring, id: nat, group: nat, desired: Mask, again: bool,
                          lang: string, sh: Shadow)
    requires kb.Ready() && WiredKeys(w, kb) && Tidy(w, sh.active) && CommandServed(kb, id, group, desired, lang)
    requires var item := MapCommandKey(kb, id, group, desired, again, lang, sh).item;
             item.Some? && item.value.generates == {}
    ensures SameModifiers(sh, MapCommandKey(kb, id, group, desired, again, lang, sh).sh) <==>
            forall b | b in Touched(CommandActs(kb, id, group, desired, again, lang, sh)) :: BitAgrees(w, sh, b)
  {
    CommandKeyWired(kb, w, kb.keyIDMap[id], group, desired, 0);
    var item := CommandKey(kb, kb.keyIDMap[id], group, desired, 0).value;
    PlainIsOrdinary(w, [item]);
    NeutralExactly(kb, w, [item], group, Wanted(desired, sh.state), OVERRIDE, again, lang, sh);
  }

  /** mapKey for an ordinary key that could be mapped, on any keyboard and from any
      modifier state, also one that says other than the held keys: it is modifier-neutral
      exactly when no modifier that it flips on the way was on without being held or held
      without being on. */
  lemma MapKeyNeutralExactly(kb: Keyboard, w: Wiring, id: nat, group: nat, desired: Mask, again: bool,
                             lang: string, sh: Shadow)
    requires kb.Ready() && WiredKeys(w, kb) && Tidy(w, sh.active) && Served(kb, id, group, desired, lang)
    requires id !in {SET_MODIFIERS, CLEAR_MODIFIERS}
    requires var item := MapKey(kb, id, group, desired, again, lang, sh).item;
             item.Some? && item.value.generates == {}
    ensures SameModifiers(sh, MapKey(kb, id, group, desired, again, lang, sh).sh) <==>
            forall b | b in Touched(KeyActs(kb, id, group, desired, again, lang, sh)) :: BitAgrees(w, sh, b)
  {
    if id !in MODIFIER_IDS && IsCommand(desired) {
      CommandKeyExactly(kb, w, id, group, desired, again, lang, sh);
    } else {
      CharacterKeyExactly(kb, w, id, group, desired, again, lang, sh);
    }
  }

  /** A character or command key that cannot be mapped changes no modifier, and leaves an
      empty list of keystrokes empty. */
  lemma FailedMappingChangesNothing(kb: Keyboard, id: nat, group: nat, desired: Mask, again: bool, lang: string,
                                    sh: Shadow)
    requires kb.Ready() && Served(kb, id, group, desired, lang)
    requires id !in {SET_MODIFIERS, CLEAR_MODIFIERS, NEXT_GROUP, PREV_GROUP}
    requires MapKey(kb, id, group, desired, again, lang, sh).item.None?
    ensures var after := MapKey(kb, id, group, desired, again, lang, sh).sh;
            && after.active == sh.active && after.state == sh.state
            && (sh.keys == [] ==> after.keys == [])
  {
    if id !in MODIFIER_IDS && IsCommand(desired) {
      var command := MapCommandKey(kb, id, group, desired, again, lang, sh);
      assert command.sh in {sh, sh.(keys := [])};
    } else {
      var character := MapCharacterKey(kb, id, group, desired, again, lang, sh);
      assert character.sh in {sh, sh.(keys := [])};
    }
  }

  /** In particular, from a consistent state mapKey of an ordinary key is modifier-neutral,
      whether or not it could be mapped. */
  lemma MapKeyNeutral(kb: Keyboard, w: Wiring, id: nat, group: nat, desired: Mask, again: bool, lang: string,
                      sh: Shadow)
    requires kb.Ready() && WiredKeys(w, kb) && Agrees(w, sh) && Served(kb, id, group, desired, lang)
    requires id !in {SET_MODIFIERS, CLEAR_MODIFIERS}
    requires var item := MapKey(kb, id, group, desired, again, lang, sh).item;
             item.Some? ==> item.value.generates == {}
    ensures SameModifiers(sh, MapKey(kb, id, group, desired, again, lang, sh).sh)
  {
    if id !in {NEXT_GROUP, PREV_GROUP} {
      if MapKey(kb, id, group, desired, again, lang, sh).item.Some? {
        MapKeyNeutralExactly(kb, w, id, group, desired, again, lang, sh);
      } else {
        FailedMappingChangesNothing(kb, id, group, desired, again, lang, sh);
      }
    }
  }

  /** mapCharacterKey for a modifier key: it holds its own button, or toggles it if it
      locks, and leaves every other button alone. */
  lemma CharacterKeyEffect(kb: Keyboard, w: Wiring, id: nat, group: nat, desired: Mask, lang: string, sh: Shadow,
                           v: nat)
    requires kb.Ready() && WiredKeys(w, kb) && Agrees(w, sh) && CharacterServed(kb, id, group, desired, lang)
    requires MapCharacterKey(kb, id, group, desired, false, lang, sh).item.Some?
    ensures var r := MapCharacterKey(kb, id, group, desired, false, lang, sh);
            && Agrees(w, r.sh)
            && (Count(r.sh.active, v) > 0 <==>
                if v == r.item.value.button then HeldAfterPress(r.item.value, sh.active)
                else Count(sh.active, v) > 0)
  {
    var from := LanguageGroup(kb, group, lang);
    CharacterKeysWired(kb, w, kb.keyIDMap[id], from, desired, 0);
    var list := CharacterKeys(kb, kb.keyIDMap[id], from, desired, 0).value;
    MapItemsEffect(kb, w, list, group, desired, {}, false, lang, sh, v);
  }

  lemma MapModifierKeyEffect(kb: Keyboard, w: Wiring, id: nat, group: nat, desired: Mask, lang: string,
                             sh: Shadow, v: nat)
    requires kb.Ready() && WiredKeys(w, kb) && Agrees(w, sh) && id in MODIFIER_IDS
    requires Served(kb, id, group, desired, lang)
    requires MapKey(kb, id, group, desired, false, lang, sh).item.Some?
    ensures var r := MapKey(kb, id, group, desired, false, lang, sh);
            && Agrees(w, r.sh)
            && (Count(r.sh.active, v) > 0 <==>
                if v == r.item.value.button then HeldAfterPress(r.item.value, sh.active)
                else Count(sh.active, v) > 0)
  {
    CharacterKeyEffect(kb, w, id, group, desired, lang, sh, v);
  }
}
