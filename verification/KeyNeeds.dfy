/** Which modifiers mapping a key touches, worked out before the call, on keyboards whose
    modifier keys are not sensitive to other modifiers; and so when it is neutral there.
 */
module KeyNeeds {
  import opened KeyMasks
  import opened KeyData
  import opened KeySpec
  import opened KeyWiring
  import opened KeySteps
  import opened KeyNeutrality

  /** The positions the modifier loop visits. */
  function Low(m: Mask): Mask {
    set b | b in m && b < NUM_BITS
  }

  /** The modifiers a key needs changed: those it requires otherwise than they are, and, if
      it is not dead, those that are wanted otherwise and that it does not decide itself. */
  function NeedsOf(item: KeyItem, desired: Mask, override: Mask, state: Mask): Mask {
    if item.dead then Low(Xor(state, item.required) * item.sensitive)
    else
      var sensitive := item.sensitive - override;
      Low(Xor(state, item.required) * sensitive
          + (Xor(state, desired) * (ALL - (sensitive + item.generates)) - NOT_REQUIRED))
  }

  /** Those of a list, each item starting from what the one before it leaves. */
  function Needs(items: KeyItemList, desired: Mask, override: Mask, state: Mask): Mask {
    if items == [] then {}
    else
      var first := NeedsOf(items[0], desired, override, state);
      first + Needs(items[1..], desired, override, Xor(state, first))
  }

  // ---- matching a modifier state ----

  lemma {:induction false} FlatFlipTouches(kb: Keyboard, button: nat, group: nat, bit: nat, flip: Mask,
                                           required: Mask, notRequired: Mask, sh: Shadow)
    requires kb.Ready() && group < kb.numGroups && bit <= NUM_BITS && SingleBits(kb) && Flat(kb)
    requires flip !! notRequired && FlipBelow(kb, button, group, bit, flip, required, notRequired, sh).0
    ensures forall b :: b in Touched(FlipActs(kb, button, group, bit, flip, required, notRequired, sh))
                        <==> b in flip && b < bit
  {
    if bit > 0 {
      var b := bit - 1;
      if b !in flip {
        FlatFlipTouches(kb, button, group, b, flip, required, notRequired, sh);
      } else {
        assert KeyForModifier(kb, button, group, b).Some?;
        var act := Flip(b in required, KeyForModifier(kb, button, group, b).value);
        FlatFlipStep(kb, button, group, b, flip, required, notRequired, sh);
        KeyForModifierIs(kb, button, group, b);
        FlatFlipTouches(kb, button, group, b, flip, required, notRequired, Do(kb, act, sh));
        FlipTouches(act, FlipActs(kb, button, group, b, flip, required, notRequired, Do(kb, act, sh)));
      }
    }
  }

  lemma FlipTouches(act: Act, rest: seq<Act>)
    requires act.Stroke? && act.ty in {Modify, Unmodify}
    ensures Touched([act] + rest) == act.item.generates + Touched(rest)
  {
    assert ([act] + rest)[1..] == rest;
  }

  lemma FlatFlipStep(kb: Keyboard, button: nat, group: nat, b: nat, flip: Mask, required: Mask, notRequired: Mask,
                     sh: Shadow)
    requires kb.Ready() && group < kb.numGroups && Flat(kb) && b < NUM_BITS && b in flip
    requires KeyForModifier(kb, button, group, b).Some?
    ensures var act := Flip(b in required, KeyForModifier(kb, button, group, b).value);
            && FlipActs(kb, button, group, b + 1, flip, required, notRequired, sh)
               == [act] + FlipActs(kb, button, group, b, flip, required, notRequired, Do(kb, act, sh))
            && FlipBelow(kb, button, group, b + 1, flip, required, notRequired, sh)
               == FlipBelow(kb, button, group, b, flip, required, notRequired, Do(kb, act, sh))
  {
    FlatKey(kb, button, group, b);
    FlatPrepare(kb, button, group, b, b in required, notRequired, sh);
  }

  /** On a flat keyboard, matching a modifier state touches just the modifiers that differ,
      and flips each. */
  lemma FlatMatchTouches(kb: Keyboard, button: nat, group: nat, required: Mask, sensitive: Mask,
                         notRequired: Mask, sh: Shadow)
    requires kb.Ready() && group < kb.numGroups && SingleBits(kb) && Flat(kb)
    requires KeysForModifierState(kb, button, group, required, sensitive, notRequired, sh).0
    ensures var flip := Low(Xor(sh.state, required) * sensitive - notRequired);
            && Touched(MatchActs(kb, button, group, required, sensitive, notRequired, sh)) == flip
            && KeysForModifierState(kb, button, group, required, sensitive, notRequired, sh).1.state
               == Xor(sh.state, flip)
  {
    var flip := Xor(sh.state, required) * sensitive - notRequired;
    if flip == {} {
      NoFlip(kb, button, group, NUM_BITS, flip, required, notRequired, sh);
    } else {
      FlatFlipTouches(kb, button, group, NUM_BITS, flip, required, notRequired, sh);
      FlatFlip(kb, button, group, NUM_BITS, flip, required, notRequired, sh);
    }
  }

  // ---- pressing ordinary keys ----

  lemma OrdinaryPress(kb: Keyboard, ty: EKeystroke, item: KeyItem, sh: Shadow)
    requires item.generates == {} && ty in {Press, Repeat, Click}
    ensures AddKeystrokes(kb, ty, item, sh).state == sh.state
    ensures Touched([Stroke(ty, item)]) == {}
  {}

  lemma FlatDesiredTouches(kb: Keyboard, item: KeyItem, g: nat, desired: Mask, sensitive: Mask, again: bool, sh: Shadow)
    requires kb.Ready() && g < kb.numGroups && SingleBits(kb) && Flat(kb) && item.generates == {}
    requires KeysForModifierState(kb, item.button, g, desired, ALL - (sensitive + item.generates), NOT_REQUIRED, sh).0
    ensures var flip := Low(Xor(sh.state, desired) * (ALL - (sensitive + item.generates)) - NOT_REQUIRED);
            var acts := DesiredActs(kb, item, g, desired, sensitive, again, sh);
            Touched(acts) == flip && DoAll(kb, acts, sh).state == Xor(sh.state, flip)
  {
    var rest := ALL - (sensitive + item.generates);
    var ty := if again then Repeat else Press;
    var sh1 := KeysForModifierState(kb, item.button, g, desired, rest, NOT_REQUIRED, sh).1;
    FlatMatchTouches(kb, item.button, g, desired, rest, NOT_REQUIRED, sh);
    OrdinaryPress(kb, ty, item, sh1);
    DesiredDone(kb, item, g, desired, sensitive, again, sh);
    TouchedConcat(MatchActs(kb, item.button, g, desired, rest, NOT_REQUIRED, sh), [Stroke(ty, item)]);
  }

  /** The two halves of keysForKeyItem do not touch the same modifiers. */
  lemma BothHalves(item: KeyItem, desired: Mask, override: Mask, state: Mask)
    requires !item.dead
    ensures var sensitive := item.sensitive - override;
            var rest := ALL - (sensitive + item.generates);
            var first := Low(Xor(state, item.required) * sensitive - {});
            var second := Low(Xor(Xor(state, first), desired) * rest - NOT_REQUIRED);
            && NeedsOf(item, desired, override, state) == first + second
            && Xor(state, first + second) == Xor(Xor(state, first), second)
  {
    var sensitive := item.sensitive - override;
    var rest := ALL - (sensitive + item.generates);
    var first := Low(Xor(state, item.required) * sensitive - {});
    forall b | b in rest ensures b in Xor(state, first) <==> b in state {
      assert b !in sensitive;
    }
  }

  lemma FlatKeyItemTouches(kb: Keyboard, item: KeyItem, group: nat, desired: Mask, override: Mask, again: bool,
                           lang: string, sh: Shadow)
    requires kb.Ready() && PassedOn(kb, item, group, lang) < kb.numGroups && SingleBits(kb) && Flat(kb)
    requires item.generates == {} && KeysForKeyItem(kb, item, group, desired, override, again, lang, sh).0
    ensures var needs := NeedsOf(item, desired, override, sh.state);
            && Touched(KeyItemActs(kb, item, group, desired, override, again, lang, sh)) == needs
            && KeysForKeyItem(kb, item, group, desired, override, again, lang, sh).2.state == Xor(sh.state, needs)
  {
    var u, g := item.button, PassedOn(kb, item, group, lang);
    var switch := if group == item.group then [] else [Switch(g)];
    var sensitive := if item.dead then item.sensitive else item.sensitive - override;
    var sh1 := DoAll(kb, switch, sh);
    var first := MatchActs(kb, u, g, item.required, sensitive, {}, sh1);
    var sh2 := KeysForModifierState(kb, u, g, item.required, sensitive, {}, sh1).1;
    DoOne(kb, Switch(g), sh);
    assert Touched(switch) == {} && sh1.state == sh.state;
    FlatMatchTouches(kb, u, g, item.required, sensitive, {}, sh1);
    TouchedConcat(switch, first);
    if item.dead {
      TouchedConcat(switch + first, [Stroke(Click, item)]);
      OrdinaryPress(kb, Click, item, sh2);
    } else {
      FlatDesiredTouches(kb, item, g, desired, sensitive, again, sh2);
      DesiredDone(kb, item, g, desired, sensitive, again, sh2);
      TouchedConcat(switch + first, DesiredActs(kb, item, g, desired, sensitive, again, sh2));
      BothHalves(item, desired, override, sh.state);
    }
  }

  lemma {:induction false} FlatItemsTouch(kb: Keyboard, items: KeyItemList, group: nat, desired: Mask,
                                          override: Mask, again: bool, lang: string, sh: Shadow)
    requires kb.Ready() && GroupsExist(kb, items, group, lang) && SingleBits(kb) && Flat(kb)
    requires forall i | i in items :: i.generates == {}
    requires KeysForItems(kb, items, group, desired, override, again, lang, sh).0
    ensures Touched(ItemsActs(kb, items, group, desired, override, again, lang, sh))
            == Needs(items, desired, override, sh.state)
  {
    if items != [] {
      FlatKeyItemTouches(kb, items[0], group, desired, override, again, lang, sh);
      var (ok, g, sh1) := KeysForKeyItem(kb, items[0], group, desired, override, again, lang, sh);
      FlatItemsTouch(kb, items[1..], g, desired, override, again, lang, sh1);
      TouchedConcat(KeyItemActs(kb, items[0], group, desired, override, again, lang, sh),
                    ItemsActs(kb, items[1..], g, desired, override, again, lang, sh1));
    }
  }

  // ---- whole calls ----

  function CharacterNeeds(kb: Keyboard, id: nat, group: nat, desired: Mask, lang: string, state: Mask): Mask
    requires kb.Ready()
  {
    if id !in kb.keyIDMap then {}
    else
      match CharacterKeys(kb, kb.keyIDMap[id], LanguageGroup(kb, group, lang), desired, 0)
      case None => {}
      case Some(items) => Needs(items, desired, {}, state)
  }

  function CommandNeeds(kb: Keyboard, id: nat, group: nat, desired: Mask, lang: string, state: Mask): Mask
    requires kb.Ready()
  {
    if id !in kb.keyIDMap then {}
    else
      match CommandKey(kb, kb.keyIDMap[id], group, desired, 0)
      case None => {}
      case Some(item) => NeedsOf(item, Wanted(desired, state), OVERRIDE, state)
  }

  /** The modifiers that mapKey has to flip for an ordinary key, from the modifier state
      before the call. */
  function KeyNeeds(kb: Keyboard, id: nat, group: nat, desired: Mask, lang: string, state: Mask): Mask
    requires kb.Ready()
  {
    if id !in MODIFIER_IDS && IsCommand(desired) then CommandNeeds(kb, id, group, desired, lang, state)
    else CharacterNeeds(kb, id, group, desired, lang, state)
  }

  lemma CharacterTouches(kb: Keyboard, w: Wiring, id: nat, group: nat, desired: Mask, again: bool, lang: string,
                         sh: Shadow)
    requires kb.Ready() && WiredKeys(w, kb) && CharacterServed(kb, id, group, desired, lang)
    requires Flat(kb)
    requires var item := MapCharacterKey(kb, id, group, desired, again, lang, sh).item;
             item.Some? && item.value.generates == {}
    ensures Touched(CharacterActs(kb, id, group, desired, again, lang, sh))
            == CharacterNeeds(kb, id, group, desired, lang, sh.state)
  {
    WiredAreSingle(w, kb);
    var from := LanguageGroup(kb, group, lang);
    CharacterKeysWired(kb, w, kb.keyIDMap[id], from, desired, 0);
    var items := CharacterKeys(kb, kb.keyIDMap[id], from, desired, 0).value;
    PlainIsOrdinary(w, items);
    FlatItemsTouch(kb, items, group, desired, {}, again, lang, sh);
  }

  lemma CommandTouches(kb: Keyboard, w: Wiring, id: nat, group: nat, desired: Mask, again: bool, lang: string,
                       sh: Shadow)
    requires kb.Ready() && WiredKeys(w, kb) && CommandServed(kb, id, group, desired, lang)
    requires Flat(kb)
    requires var item := MapCommandKey(kb, id, group, desired, again, lang, sh).item;
             item.Some? && item.value.generates == {}
    ensures Touched(CommandActs(kb, id, group, desired, again, lang, sh))
            == CommandNeeds(kb, id, group, desired, lang, sh.state)
  {
    WiredAreSingle(w, kb);
    CommandKeyWired(kb, w, kb.keyIDMap[id], group, desired, 0);
    var item := CommandKey(kb, kb.keyIDMap[id], group, desired, 0).value;
    var wanted := Wanted(desired, sh.state);
    FlatItemsTouch(kb, [item], group, wanted, OVERRIDE, again, lang, sh);
    OneNeeds(item, wanted, OVERRIDE, sh.state);
  }

  lemma OneNeeds(item: KeyItem, desired: Mask, override: Mask, state: Mask)
    ensures Needs([item], desired, override, state) == NeedsOf(item, desired, override, state)
  {
    assert [item][1..] == [];
  }

  /** On a flat keyboard mapKey of an ordinary key is modifier-neutral exactly when each
      modifier it needs changed is on exactly when it is held: a condition on the state
      before the call. */
  lemma MapKeyNeutralWhen(kb: Keyboard, w: Wiring, id: nat, group: nat, desired: Mask, again: bool, lang: string,
                          sh: Shadow)
    requires kb.Ready() && WiredKeys(w, kb) && Tidy(w, sh.active) && Served(kb, id, group, desired, lang)
    requires Flat(kb) && id !in {SET_MODIFIERS, CLEAR_MODIFIERS}
    requires var item := MapKey(kb, id, group, desired, again, lang, sh).item;
             item.Some? && item.value.generates == {}
    ensures SameModifiers(sh, MapKey(kb, id, group, desired, again, lang, sh).sh) <==>
            forall b | b in KeyNeeds(kb, id, group, desired, lang, sh.state) :: BitAgrees(w, sh, b)
  {
    MapKeyNeutralExactly(kb, w, id, group, desired, again, lang, sh);
    if id !in MODIFIER_IDS && IsCommand(desired) {
      CommandTouches(kb, w, id, group, desired, again, lang, sh);
    } else {
      CharacterTouches(kb, w, id, group, desired, again, lang, sh);
    }
  }
}
