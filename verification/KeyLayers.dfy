/** When no flip is stale: on a keyboard on which the modifiers that have to flip do not
    affect each other's keys.
 */
module KeyLayers {
  import opened KeyMasks
  import opened KeyData
  import opened KeySpec
  import opened KeyWiring
  import opened KeySteps
  import opened KeyNeutrality
  import opened KeyReplay
  import opened KeyReplayCalls

  /** The key for modifier `b` is sensitive to modifier `c`, or to one whose key is, and so on. */
  ghost predicate Feels(kb: Keyboard, button: nat, group: nat, b: nat, c: nat)
    requires kb.Ready() && group < kb.numGroups && b < NUM_BITS
    decreases b
  {
    var key := KeyForModifier(kb, button, group, b);
    key.Some? && exists d | d in key.value.sensitive && d < b :: d == c || Feels(kb, button, group, d, c)
  }

  /** No key for one of the modifiers feels another of them. */
  ghost predicate Unrelated(kb: Keyboard, button: nat, group: nat, m: Mask)
    requires kb.Ready() && group < kb.numGroups
  {
    forall b, c | b in m && c in m && b < NUM_BITS :: b == c || !Feels(kb, button, group, b, c)
  }

  /** The modifiers that one modifier key is sensitive to are unrelated. */
  ghost predicate Layered(kb: Keyboard, button: nat, group: nat)
    requires kb.Ready() && group < kb.numGroups
  {
    forall b | 0 <= b < NUM_BITS ::
      var key := KeyForModifier(kb, button, group, b);
      key.Some? ==> Unrelated(kb, button, group, key.value.sensitive - {b})
  }

  // ---- what flipping a modifier leaves alone ----

  lemma {:induction false} UntouchedState(kb: Keyboard, button: nat, group: nat, bound: nat, acts: seq<Act>,
                                          sh: Shadow, c: nat)
    requires kb.Ready() && group < kb.numGroups && AllBelow(kb, button, group, bound, acts) && c !in Touched(acts)
    ensures c in DoAll(kb, acts, sh).state <==> c in sh.state
  {
    if acts != [] {
      assert FlipsBelow(kb, button, group, bound, acts[0]);
      UntouchedState(kb, button, group, bound, acts[1..], Do(kb, acts[0], sh), c);
    }
  }

  lemma {:induction false} MatchLeaves(kb: Keyboard, button: nat, group: nat, required: Mask, sensitive: Mask,
                                       notRequired: Mask, sh: Shadow, c: nat)
    requires kb.Ready() && group < kb.numGroups && SingleBits(kb)
    requires forall b | b in sensitive && b < NUM_BITS :: b != c && !Feels(kb, button, group, b, c)
    ensures c !in Touched(MatchActs(kb, button, group, required, sensitive, notRequired, sh))
    decreases Ceiling(sensitive), 1, 0
  {
    LoopLeaves(kb, button, group, NUM_BITS, Xor(sh.state, required) * sensitive - notRequired, required,
               notRequired, sh, c);
  }

  lemma {:induction false} LoopLeaves(kb: Keyboard, button: nat, group: nat, bit: nat, flip: Mask, required: Mask,
                                      notRequired: Mask, sh: Shadow, c: nat)
    requires kb.Ready() && group < kb.numGroups && bit <= NUM_BITS && SingleBits(kb)
    requires forall b | b in flip && b < bit :: b != c && !Feels(kb, button, group, b, c)
    ensures c !in Touched(FlipActs(kb, button, group, bit, flip, required, notRequired, sh))
    decreases Ceiling(flip), 0, bit
  {
    if bit > 0 {
      var b := bit - 1;
      var key := KeyForModifier(kb, button, group, b);
      if b !in flip || (key.None? && b in notRequired) {
        LoopLeaves(kb, button, group, b, flip, required, notRequired, sh, c);
      } else if key.Some? {
        var press := b in required;
        var before := PrepareActs(kb, button, group, b, press, key.value, notRequired, sh);
        var (ok, sh1) := PrepareFlip(kb, button, group, b, press, key.value, notRequired, sh);
        PrepareLeaves(kb, button, group, b, press, notRequired, sh, c);
        if ok {
          var act := Flip(press, key.value);
          var rest := FlipActs(kb, button, group, b, flip, required, notRequired, Do(kb, act, sh1));
          LoopLeaves(kb, button, group, b, flip, required, notRequired, Do(kb, act, sh1), c);
          KeyForModifierIs(kb, button, group, b);
          TouchedConcat(before, [act] + rest);
          TouchedConcat([act], rest);
        }
      }
    }
  }

  lemma {:induction false} PrepareLeaves(kb: Keyboard, button: nat, group: nat, b: nat, press: bool,
                                         notRequired: Mask, sh: Shadow, c: nat)
    requires kb.Ready() && group < kb.numGroups && b < NUM_BITS && SingleBits(kb)
    requires KeyForModifier(kb, button, group, b).Some? && !Feels(kb, button, group, b, c)
    ensures c !in Touched(PrepareActs(kb, button, group, b, press, KeyForModifier(kb, button, group, b).value,
                                      notRequired, sh))
    decreases b, 2, 0
  {
    var item := KeyForModifier(kb, button, group, b).value;
    var sensitive := item.sensitive - {b};
    if !AnyAbove(sensitive, b) && sensitive != {} && press {
      assert Ceiling(sensitive) <= b;
      forall d | d in sensitive && d < NUM_BITS ensures d != c && !Feels(kb, button, group, d, c) {
        assert d in item.sensitive && d < b;
      }
      MatchLeaves(kb, button, group, item.required, sensitive, notRequired, sh, c);
    }
  }

  /** Preparing to flip `b` leaves the state of `b`, and of every modifier that its key does
      not feel, as it was. */
  lemma PrepareKeepsState(kb: Keyboard, button: nat, group: nat, b: nat, press: bool, notRequired: Mask, sh: Shadow,
                          c: nat)
    requires kb.Ready() && group < kb.numGroups && b < NUM_BITS && SingleBits(kb)
    requires KeyForModifier(kb, button, group, b).Some? && (b == c || !Feels(kb, button, group, b, c))
    ensures var key := KeyForModifier(kb, button, group, b).value;
            c in PrepareFlip(kb, button, group, b, press, key, notRequired, sh).1.state <==> c in sh.state
  {
    var item := KeyForModifier(kb, button, group, b).value;
    var acts := PrepareActs(kb, button, group, b, press, item, notRequired, sh);
    PrepareDone(kb, button, group, b, press, item, notRequired, sh);
    if b == c {
      ActsKeepAbove(kb, button, group, b, acts, sh, c);
    } else {
      PrepareLeaves(kb, button, group, b, press, notRequired, sh, c);
      UntouchedState(kb, button, group, b, acts, sh, c);
    }
  }

  // ---- no flip is stale ----

  /** If the modifiers that have to flip are unrelated, no flip is stale. */
  lemma {:induction false} MatchNeverStale(kb: Keyboard, button: nat, group: nat, required: Mask, sensitive: Mask,
                                           notRequired: Mask, sh: Shadow)
    requires kb.Ready() && group < kb.numGroups && SingleBits(kb) && Layered(kb, button, group)
    requires Unrelated(kb, button, group, Xor(sh.state, required) * sensitive - notRequired)
    ensures NoneStale(kb, MatchActs(kb, button, group, required, sensitive, notRequired, sh), sh)
    decreases Ceiling(sensitive), 1, 0
  {
    LoopNeverStale(kb, button, group, NUM_BITS, Xor(sh.state, required) * sensitive - notRequired, required,
                   notRequired, sh);
  }

  lemma {:induction false} LoopNeverStale(kb: Keyboard, button: nat, group: nat, bit: nat, flip: Mask, required: Mask,
                                          notRequired: Mask, sh: Shadow)
    requires kb.Ready() && group < kb.numGroups && bit <= NUM_BITS && SingleBits(kb) && Layered(kb, button, group)
    requires Unrelated(kb, button, group, flip)
    requires forall b | b in flip && b < bit :: (b in sh.state) != (b in required)
    ensures NoneStale(kb, FlipActs(kb, button, group, bit, flip, required, notRequired, sh), sh)
    decreases Ceiling(flip), 0, bit, 0
  {
    if bit > 0 {
      var b := bit - 1;
      var key := KeyForModifier(kb, button, group, b);
      if b !in flip || (key.None? && b in notRequired) {
        LoopNeverStale(kb, button, group, b, flip, required, notRequired, sh);
      } else if key.Some? {
        var press := b in required;
        var before := PrepareActs(kb, button, group, b, press, key.value, notRequired, sh);
        var (ok, sh1) := PrepareFlip(kb, button, group, b, press, key.value, notRequired, sh);
        PrepareNeverStale(kb, button, group, b, press, notRequired, sh);
        PrepareDone(kb, button, group, b, press, key.value, notRequired, sh);
        if ok {
          forall c | c in flip && c < bit ensures (c in sh1.state) != (c in required) {
            PrepareKeepsState(kb, button, group, b, press, notRequired, sh, c);
          }
          FlipAndRestNeverStale(kb, button, group, b, flip, required, notRequired, sh1);
          var act := Flip(press, key.value);
          NoneStaleConcat(kb, before,
                          [act] + FlipActs(kb, button, group, b, flip, required, notRequired, Do(kb, act, sh1)), sh);
        }
      }
    }
  }

  lemma {:induction false} FlipAndRestNeverStale(kb: Keyboard, button: nat, group: nat, b: nat, flip: Mask,
                                                 required: Mask, notRequired: Mask, sh: Shadow)
    requires kb.Ready() && group < kb.numGroups && b < NUM_BITS && SingleBits(kb) && Layered(kb, button, group)
    requires Unrelated(kb, button, group, flip) && b in flip && KeyForModifier(kb, button, group, b).Some?
    requires forall c | c in flip && c <= b :: (c in sh.state) != (c in required)
    ensures var act := Flip(b in required, KeyForModifier(kb, button, group, b).value);
            NoneStale(kb, [act] + FlipActs(kb, button, group, b, flip, required, notRequired, Do(kb, act, sh)), sh)
    decreases Ceiling(flip), 0, b, 1
  {
    var act := Flip(b in required, KeyForModifier(kb, button, group, b).value);
    var sh' := Do(kb, act, sh);
    var rest := FlipActs(kb, button, group, b, flip, required, notRequired, sh');
    KeyForModifierIs(kb, button, group, b);
    assert act.item.generates * sh.state == {} <==> b !in sh.state;
    LoopNeverStale(kb, button, group, b, flip, required, notRequired, sh');
    assert ([act] + rest)[1..] == rest;
  }

  lemma {:induction false} PrepareNeverStale(kb: Keyboard, button: nat, group: nat, b: nat, press: bool,
                                             notRequired: Mask, sh: Shadow)
    requires kb.Ready() && group < kb.numGroups && b < NUM_BITS && SingleBits(kb) && Layered(kb, button, group)
    requires KeyForModifier(kb, button, group, b).Some?
    ensures NoneStale(kb, PrepareActs(kb, button, group, b, press, KeyForModifier(kb, button, group, b).value,
                                      notRequired, sh), sh)
    decreases b, 2, 0
  {
    var item := KeyForModifier(kb, button, group, b).value;
    var sensitive := item.sensitive - {b};
    if !AnyAbove(sensitive, b) && sensitive != {} && press {
      assert Ceiling(sensitive) <= b;
      assert Unrelated(kb, button, group, sensitive);
      MatchNeverStale(kb, button, group, item.required, sensitive, notRequired, sh);
    }
  }

  /** So matching keeps the keyboard in step if no key used for a flip feels another
      modifier that must flip. */
  lemma UnrelatedInSync(kb: Keyboard, w: Wiring, p0: Physical, button: nat, group: nat, required: Mask,
                        sensitive: Mask, notRequired: Mask, sh: Shadow)
    requires Plain(w, kb) && group < kb.numGroups && InSync(w, p0, sh) && Layered(kb, button, group)
    requires Unrelated(kb, button, group, Xor(sh.state, required) * sensitive - notRequired)
    ensures InSync(w, p0, KeysForModifierState(kb, button, group, required, sensitive, notRequired, sh).1)
  {
    WiredAreSingle(w, kb);
    MatchNeverStale(kb, button, group, required, sensitive, notRequired, sh);
    MatchInSync(kb, w, p0, button, group, required, sensitive, notRequired, sh);
  }

  // ---- flat keyboards ----

  lemma FlatFeelsNothing(kb: Keyboard, button: nat, group: nat, b: nat, c: nat)
    requires kb.Ready() && group < kb.numGroups && Flat(kb) && b < NUM_BITS
    ensures !Feels(kb, button, group, b, c)
  {
    if KeyForModifier(kb, button, group, b).Some? {
      FlatKey(kb, button, group, b);
    }
  }

  lemma FlatIsLayered(kb: Keyboard, button: nat, group: nat, m: Mask)
    requires kb.Ready() && group < kb.numGroups && Flat(kb)
    ensures Layered(kb, button, group) && Unrelated(kb, button, group, m)
  {
    forall b, c | 0 <= b < NUM_BITS ensures !Feels(kb, button, group, b, c) {
      FlatFeelsNothing(kb, button, group, b, c);
    }
  }

  lemma FlatMatchNeverStale(kb: Keyboard, w: Wiring, button: nat, group: nat, required: Mask, sensitive: Mask,
                            notRequired: Mask, sh: Shadow)
    requires Plain(w, kb) && group < kb.numGroups && Flat(kb)
    ensures NoneStale(kb, MatchActs(kb, button, group, required, sensitive, notRequired, sh), sh)
  {
    WiredAreSingle(w, kb);
    FlatIsLayered(kb, button, group, Xor(sh.state, required) * sensitive - notRequired);
    MatchNeverStale(kb, button, group, required, sensitive, notRequired, sh);
  }

  /** The key generates nothing, or it is to be pressed and is a lock or not held. */
  ghost predicate Fresh(item: KeyItem, again: bool, m: Modifiers) {
    item.generates != {} ==> !item.dead && !again && (item.lock || Count(m, item.button) == 0)
  }

  lemma FreshIsAllowed(kb: Keyboard, item: KeyItem, again: bool, sh: Shadow)
    requires Fresh(item, again, sh.active)
    ensures !item.dead ==> NoneStale(kb, [Stroke(if again then Repeat else Press, item)], sh)
    ensures item.dead ==> NoneStale(kb, [Stroke(Click, item)], sh)
  {
    assert forall act: Act :: [act][1..] == [];
  }

  lemma FlatDesiredNeverStale(kb: Keyboard, w: Wiring, item: KeyItem, g: nat, desired: Mask, sensitive: Mask,
                              again: bool, sh: Shadow)
    requires Plain(w, kb) && g < kb.numGroups && Flat(kb) && Agrees(w, sh) && !item.dead
    requires Fresh(item, again, sh.active)
    ensures NoneStale(kb, DesiredActs(kb, item, g, desired, sensitive, again, sh), sh)
  {
    var rest := ALL - (sensitive + item.generates);
    var acts := MatchActs(kb, item.button, g, desired, rest, NOT_REQUIRED, sh);
    var (ok, sh1) := KeysForModifierState(kb, item.button, g, desired, rest, NOT_REQUIRED, sh);
    FlatMatchNeverStale(kb, w, item.button, g, desired, rest, NOT_REQUIRED, sh);
    MatchDone(kb, item.button, g, desired, rest, NOT_REQUIRED, sh);
    MatchAgrees(kb, w, item.button, g, desired, rest, NOT_REQUIRED, sh);
    if ok {
      FreshIsAllowed(kb, item, again, sh1);
      NoneStaleConcat(kb, acts, [Stroke(if again then Repeat else Press, item)], sh);
    } else {
      assert acts + [] == acts;
    }
  }

  lemma FlatKeyItemNeverStale(kb: Keyboard, w: Wiring, item: KeyItem, group: nat, desired: Mask, override: Mask,
                              again: bool, lang: string, sh: Shadow)
    requires Plain(w, kb) && PassedOn(kb, item, group, lang) < kb.numGroups && Flat(kb) && Agrees(w, sh)
    requires Fresh(item, again, sh.active)
    ensures NoneStale(kb, KeyItemActs(kb, item, group, desired, override, again, lang, sh), sh)
  {
    var u, g := item.button, PassedOn(kb, item, group, lang);
    var switch := if group == item.group then [] else [Switch(g)];
    var sensitive := if item.dead then item.sensitive else item.sensitive - override;
    var sh1 := DoAll(kb, switch, sh);
    var first := MatchActs(kb, u, g, item.required, sensitive, {}, sh1);
    var (ok, sh2) := KeysForModifierState(kb, u, g, item.required, sensitive, {}, sh1);
    DoOne(kb, Switch(g), sh);
    assert [Switch(g)][1..] == [];
    KeysDoNotMatter(w, sh, sh1);
    FlatMatchNeverStale(kb, w, u, g, item.required, sensitive, {}, sh1);
    MatchDone(kb, u, g, item.required, sensitive, {}, sh1);
    MatchAgrees(kb, w, u, g, item.required, sensitive, {}, sh1);
    NoneStaleConcat(kb, switch, first, sh);
    DoConcat(kb, switch, first, sh);
    if !ok {
      assert switch + first + [] == switch + first;
    } else if item.dead {
      FreshIsAllowed(kb, item, again, sh2);
      NoneStaleConcat(kb, switch + first, [Stroke(Click, item)], sh);
    } else {
      FlatDesiredNeverStale(kb, w, item, g, desired, sensitive, again, sh2);
      NoneStaleConcat(kb, switch + first, DesiredActs(kb, item, g, desired, sensitive, again, sh2), sh);
    }
  }

  lemma {:induction false} FlatItemsNeverStale(kb: Keyboard, w: Wiring, items: KeyItemList, group: nat, desired: Mask,
                                               override: Mask, again: bool, lang: string, sh: Shadow)
    requires Plain(w, kb) && Flat(kb) && GroupsExist(kb, items, group, lang) && Agrees(w, sh)
    requires PlainList(w, items, false) && Fresh(Last(items), again, sh.active)
    ensures NoneStale(kb, ItemsActs(kb, items, group, desired, override, again, lang, sh), sh)
  {
    var (ok, g, sh1) := KeysForKeyItem(kb, items[0], group, desired, override, again, lang, sh);
    var first := KeyItemActs(kb, items[0], group, desired, override, again, lang, sh);
    assert PlainPress(w, items[0], false);
    FlatKeyItemNeverStale(kb, w, items[0], group, desired, override, again, lang, sh);
    KeyItemDone(kb, items[0], group, desired, override, again, lang, sh);
    if ok && |items| > 1 {
      ItemsActsFit(kb, w, [items[0]], first);
      ActsAgree(kb, w, first, sh);
      assert Last(items[1..]) == Last(items);
      FlatItemsNeverStale(kb, w, items[1..], g, desired, override, again, lang, sh1);
      NoneStaleConcat(kb, first, ItemsActs(kb, items[1..], g, desired, override, again, lang, sh1), sh);
    } else {
      assert first + [] == first;
      assert ok ==> items[1..] == [];
    }
  }

  lemma FlatCharacterNeverStale(kb: Keyboard, w: Wiring, id: nat, group: nat, desired: Mask, again: bool,
                                lang: string, sh: Shadow)
    requires Plain(w, kb) && WiredKeys(w, kb) && Flat(kb) && Agrees(w, sh)
    requires CharacterServed(kb, id, group, desired, lang)
    requires var item := MapCharacterKey(kb, id, group, desired, again, lang, sh).item;
             item.Some? && Fresh(item.value, again, sh.active)
    ensures NoneStale(kb, CharacterActs(kb, id, group, desired, again, lang, sh), sh)
  {
    var from := LanguageGroup(kb, group, lang);
    CharacterKeysWired(kb, w, kb.keyIDMap[id], from, desired, 0);
    var items := CharacterKeys(kb, kb.keyIDMap[id], from, desired, 0).value;
    FlatItemsNeverStale(kb, w, items, group, desired, {}, again, lang, sh);
  }

  lemma FlatCommandNeverStale(kb: Keyboard, w: Wiring, id: nat, group: nat, desired: Mask, again: bool,
                              lang: string, sh: Shadow)
    requires Plain(w, kb) && WiredKeys(w, kb) && Flat(kb) && Agrees(w, sh)
    requires CommandServed(kb, id, group, desired, lang)
    requires var item := MapCommandKey(kb, id, group, desired, again, lang, sh).item;
             item.Some? && Fresh(item.value, again, sh.active)
    ensures NoneStale(kb, CommandActs(kb, id, group, desired, again, lang, sh), sh)
  {
    CommandKeyWired(kb, w, kb.keyIDMap[id], group, desired, 0);
    var item := CommandKey(kb, kb.keyIDMap[id], group, desired, 0).value;
    FlatItemsNeverStale(kb, w, [item], group, Wanted(desired, sh.state), OVERRIDE, again, lang, sh);
  }

  /** On a flat keyboard playing what mapKey emits takes a keyboard in the state before the
      call to the state after it, for every request that does not press a held modifier
      key again. */
  lemma FlatKeyReplays(kb: Keyboard, w: Wiring, p: Physical, id: nat, group: nat, desired: Mask, again: bool,
                       lang: string, sh: Shadow)
    requires Plain(w, kb) && WiredKeys(w, kb) && Flat(kb) && InState(w, sh, p) && sh.keys == []
    requires Served(kb, id, group, desired, lang)
    requires var item := MapKey(kb, id, group, desired, again, lang, sh).item;
             item.Some? ==> Fresh(item.value, again, sh.active)
    ensures InSync(w, p, MapKey(kb, id, group, desired, again, lang, sh).sh)
  {
    if Committed(kb, id, group, desired, again, lang, sh) {
      if id in {SET_MODIFIERS, CLEAR_MODIFIERS} {
        var required := if id == SET_MODIFIERS then desired else sh.state - desired;
        FlatMatchNeverStale(kb, w, 0, group, required, desired, {}, sh);
      } else if id !in MODIFIER_IDS && IsCommand(desired) {
        FlatCommandNeverStale(kb, w, id, group, desired, again, lang, sh);
      } else {
        FlatCharacterNeverStale(kb, w, id, group, desired, again, lang, sh);
      }
    }
    MapKeyReplays(kb, w, p, id, group, desired, again, lang, sh);
  }
}
