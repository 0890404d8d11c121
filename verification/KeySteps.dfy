/** What a mapping call does, as the list of its calls of addKeystrokes.  Matching a
    modifier state presses and releases modifiers below the highest one that had to
    flip, and flips exactly those when no modifier key is sensitive to another modifier.
 */
module KeySteps {
  import opened KeyMasks
  import opened KeyData
  import opened KeySpec
  import opened KeyWiring

  /** One call of addKeystrokes, or one switch of the group. */
  datatype Act = Stroke(ty: EKeystroke, item: KeyItem) | Switch(group: nat)

  function Do(kb: Keyboard, act: Act, sh: Shadow): Shadow {
    match act
    case Stroke(ty, item) => AddKeystrokes(kb, ty, item, sh)
    case Switch(g) => sh.(keys := sh.keys + [Group(g, true, false)])
  }

  function DoAll(kb: Keyboard, acts: seq<Act>, sh: Shadow): Shadow {
    if acts == [] then sh else DoAll(kb, acts[1..], Do(kb, acts[0], sh))
  }

  lemma {:induction false} DoConcat(kb: Keyboard, a: seq<Act>, b: seq<Act>, sh: Shadow)
    ensures DoAll(kb, a + b, sh) == DoAll(kb, b, DoAll(kb, a, sh))
  {
    if a == [] {
      assert a + b == b;
    } else {
      assert (a + b)[1..] == a[1..] + b;
      DoConcat(kb, a[1..], b, Do(kb, a[0], sh));
    }
  }

  lemma DoThen(kb: Keyboard, act: Act, rest: seq<Act>, sh: Shadow)
    ensures DoAll(kb, [act] + rest, sh) == DoAll(kb, rest, Do(kb, act, sh))
  {
    assert ([act] + rest)[1..] == rest;
  }

  lemma DoOne(kb: Keyboard, act: Act, sh: Shadow)
    ensures DoAll(kb, [act], sh) == Do(kb, act, sh)
  {
    assert [act][1..] == [];
  }

  // ---- the acts of a matching call ----

  function Flip(press: bool, item: KeyItem): Act {
    Stroke(if press then Modify else Unmodify, item)
  }

  /** keysForModifierState */
  ghost function MatchActs(kb: Keyboard, button: nat, group: nat, required: Mask, sensitive: Mask,
                           notRequired: Mask, sh: Shadow): seq<Act>
    requires kb.Ready() && group < kb.numGroups
    decreases Ceiling(sensitive), 1, 0
  {
    FlipActs(kb, button, group, NUM_BITS, Xor(sh.state, required) * sensitive - notRequired, required,
             notRequired, sh)
  }

  /** The rest of its bit loop. */
  ghost function FlipActs(kb: Keyboard, button: nat, group: nat, bit: nat, flip: Mask, required: Mask,
                          notRequired: Mask, sh: Shadow): seq<Act>
    requires kb.Ready() && group < kb.numGroups && bit <= NUM_BITS
    decreases Ceiling(flip), 0, bit
  {
    if bit == 0 then []
    else
      var b := bit - 1;
      var key := KeyForModifier(kb, button, group, b);
      if b !in flip || (key.None? && b in notRequired) then
        FlipActs(kb, button, group, b, flip, required, notRequired, sh)
      else if key.None? then []
      else
        var before := PrepareActs(kb, button, group, b, b in required, key.value, notRequired, sh);
        var (ok, sh1) := PrepareFlip(kb, button, group, b, b in required, key.value, notRequired, sh);
        if ok then
          var act := Flip(b in required, key.value);
          before + ([act] + FlipActs(kb, button, group, b, flip, required, notRequired, Do(kb, act, sh1)))
        else before
  }

  ghost function PrepareActs(kb: Keyboard, button: nat, group: nat, b: nat, press: bool, item: KeyItem,
                             notRequired: Mask, sh: Shadow): seq<Act>
    requires kb.Ready() && group < kb.numGroups && b < NUM_BITS
    decreases b, 2, 0
  {
    var sensitive := item.sensitive - {b};
    if !AnyAbove(sensitive, b) && sensitive != {} && press then
      MatchActs(kb, button, group, item.required, sensitive, notRequired, sh)
    else []
  }

  /** The act presses or releases the key that keyForModifier finds for some modifier below `bound`. */
  ghost predicate FlipsBelow(kb: Keyboard, button: nat, group: nat, bound: nat, act: Act)
    requires kb.Ready() && group < kb.numGroups
  {
    && act.Stroke? && act.ty in {Modify, Unmodify}
    && exists b: nat | b < NUM_BITS && b < bound :: KeyForModifier(kb, button, group, b) == Some(act.item)
  }

  ghost predicate AllBelow(kb: Keyboard, button: nat, group: nat, bound: nat, acts: seq<Act>)
    requires kb.Ready() && group < kb.numGroups
  {
    forall a | a in acts :: FlipsBelow(kb, button, group, bound, a)
  }

  lemma {:induction false} MatchDone(kb: Keyboard, button: nat, group: nat, required: Mask, sensitive: Mask,
                                     notRequired: Mask, sh: Shadow)
    requires kb.Ready() && group < kb.numGroups
    ensures var acts := MatchActs(kb, button, group, required, sensitive, notRequired, sh);
            && KeysForModifierState(kb, button, group, required, sensitive, notRequired, sh).1 == DoAll(kb, acts, sh)
            && AllBelow(kb, button, group, Ceiling(sensitive), acts)
    decreases Ceiling(sensitive), 1, 0
  {
    var flip := Xor(sh.state, required) * sensitive - notRequired;
    FlipDone(kb, button, group, NUM_BITS, flip, required, notRequired, sh, Ceiling(sensitive));
    if flip == {} {
      NoFlip(kb, button, group, NUM_BITS, flip, required, notRequired, sh);
    }
  }

  lemma {:induction false} NoFlip(kb: Keyboard, button: nat, group: nat, bit: nat, flip: Mask, required: Mask,
                                  notRequired: Mask, sh: Shadow)
    requires kb.Ready() && group < kb.numGroups && bit <= NUM_BITS
    requires forall b | b in flip :: b >= bit
    ensures FlipActs(kb, button, group, bit, flip, required, notRequired, sh) == []
    ensures FlipBelow(kb, button, group, bit, flip, required, notRequired, sh) == (true, sh)
  {
    if bit > 0 {
      NoFlip(kb, button, group, bit - 1, flip, required, notRequired, sh);
    }
  }

  lemma {:induction false} FlipDone(kb: Keyboard, button: nat, group: nat, bit: nat, flip: Mask, required: Mask,
                                    notRequired: Mask, sh: Shadow, bound: nat)
    requires kb.Ready() && group < kb.numGroups && bit <= NUM_BITS
    requires forall b | b in flip && b < bit :: b < bound
    ensures var acts := FlipActs(kb, button, group, bit, flip, required, notRequired, sh);
            && FlipBelow(kb, button, group, bit, flip, required, notRequired, sh).1 == DoAll(kb, acts, sh)
            && AllBelow(kb, button, group, bound, acts)
    decreases Ceiling(flip), 0, bit
  {
    if bit > 0 {
      var b := bit - 1;
      var key := KeyForModifier(kb, button, group, b);
      if b !in flip || (key.None? && b in notRequired) {
        FlipDone(kb, button, group, b, flip, required, notRequired, sh, bound);
      } else if key.Some? {
        var press := b in required;
        var before := PrepareActs(kb, button, group, b, press, key.value, notRequired, sh);
        var (ok, sh1) := PrepareFlip(kb, button, group, b, press, key.value, notRequired, sh);
        PrepareDone(kb, button, group, b, press, key.value, notRequired, sh);
        assert forall a | a in before ::
          FlipsBelow(kb, button, group, b, a) ==> FlipsBelow(kb, button, group, bound, a);
        if ok {
          var act := Flip(press, key.value);
          var sh2 := Do(kb, act, sh1);
          FlipDone(kb, button, group, b, flip, required, notRequired, sh2, bound);
          var after := FlipActs(kb, button, group, b, flip, required, notRequired, sh2);
          assert FlipsBelow(kb, button, group, bound, act);
          DoConcat(kb, before, [act] + after, sh);
          DoThen(kb, act, after, sh1);
        }
      }
    }
  }

  lemma {:induction false} PrepareDone(kb: Keyboard, button: nat, group: nat, b: nat, press: bool, item: KeyItem,
                                       notRequired: Mask, sh: Shadow)
    requires kb.Ready() && group < kb.numGroups && b < NUM_BITS
    ensures var acts := PrepareActs(kb, button, group, b, press, item, notRequired, sh);
            && PrepareFlip(kb, button, group, b, press, item, notRequired, sh).1 == DoAll(kb, acts, sh)
            && AllBelow(kb, button, group, b, acts)
    decreases b, 2, 0
  {
    var sensitive := item.sensitive - {b};
    if !AnyAbove(sensitive, b) && sensitive != {} && press {
      MatchDone(kb, button, group, item.required, sensitive, notRequired, sh);
      assert Ceiling(sensitive) <= b;
    }
  }

  // ---- the acts of pressing the keys of a list ----

  /** keysForKeyItem */
  ghost function KeyItemActs(kb: Keyboard, item: KeyItem, group: nat, desired: Mask, override: Mask,
                             again: bool, lang: string, sh: Shadow): seq<Act>
    requires kb.Ready() && PassedOn(kb, item, group, lang) < kb.numGroups
  {
    var u, g := item.button, PassedOn(kb, item, group, lang);
    var switch := if group == item.group then [] else [Switch(g)];
    var sensitive := if item.dead then item.sensitive else item.sensitive - override;
    var sh1 := DoAll(kb, switch, sh);
    var first := MatchActs(kb, u, g, item.required, sensitive, {}, sh1);
    var (ok, sh2) := KeysForModifierState(kb, u, g, item.required, sensitive, {}, sh1);
    switch + first +
    if !ok then []
    else if item.dead then [Stroke(Click, item)]
    else DesiredActs(kb, item, g, desired, sensitive, again, sh2)
  }

  /** Its second half for a key that is not dead: match the desired state, and press. */
  ghost function DesiredActs(kb: Keyboard, item: KeyItem, g: nat, desired: Mask, sensitive: Mask, again: bool,
                             sh: Shadow): seq<Act>
    requires kb.Ready() && g < kb.numGroups
  {
    var rest := ALL - (sensitive + item.generates);
    MatchActs(kb, item.button, g, desired, rest, NOT_REQUIRED, sh) +
    if KeysForModifierState(kb, item.button, g, desired, rest, NOT_REQUIRED, sh).0 then
      [Stroke(if again then Repeat else Press, item)]
    else []
  }

  /** The loop of mapCharacterKey over its items. */
  ghost function ItemsActs(kb: Keyboard, items: KeyItemList, group: nat, desired: Mask, override: Mask,
                           again: bool, lang: string, sh: Shadow): seq<Act>
    requires kb.Ready() && GroupsExist(kb, items, group, lang)
  {
    if items == [] then []
    else
      var (ok, g, sh1) := KeysForKeyItem(kb, items[0], group, desired, override, again, lang, sh);
      KeyItemActs(kb, items[0], group, desired, override, again, lang, sh) +
      if ok then ItemsActs(kb, items[1..], g, desired, override, again, lang, sh1) else []
  }

  /** An act of one of the items: it switches the group, flips a modifier, or strikes the item. */
  ghost predicate ActOf(kb: Keyboard, items: KeyItemList, act: Act)
    requires kb.Ready()
  {
    || act.Switch?
    || (act.ty in {Press, Repeat, Click} && act.item in items)
    || exists button: nat, group: nat | group < kb.numGroups :: FlipsBelow(kb, button, group, NUM_BITS, act)
  }

  ghost predicate ActsOf(kb: Keyboard, items: KeyItemList, acts: seq<Act>)
    requires kb.Ready()
  {
    forall a | a in acts :: ActOf(kb, items, a)
  }

  lemma BelowAreActs(kb: Keyboard, items: KeyItemList, button: nat, group: nat, bound: nat, acts: seq<Act>)
    requires kb.Ready() && group < kb.numGroups && AllBelow(kb, button, group, bound, acts)
    ensures ActsOf(kb, items, acts)
  {
    forall a | a in acts ensures ActOf(kb, items, a) {
      assert FlipsBelow(kb, button, group, bound, a);
      assert FlipsBelow(kb, button, group, NUM_BITS, a);
    }
  }

  lemma DesiredDone(kb: Keyboard, item: KeyItem, g: nat, desired: Mask, sensitive: Mask, again: bool, sh: Shadow)
    requires kb.Ready() && g < kb.numGroups
    ensures var rest := ALL - (sensitive + item.generates);
            var (ok, sh1) := KeysForModifierState(kb, item.button, g, desired, rest, NOT_REQUIRED, sh);
            var acts := DesiredActs(kb, item, g, desired, sensitive, again, sh);
            && DoAll(kb, acts, sh)
               == (if ok then AddKeystrokes(kb, if again then Repeat else Press, item, sh1) else sh1)
            && ActsOf(kb, [item], acts)
  {
    var rest := ALL - (sensitive + item.generates);
    var (ok, sh1) := KeysForModifierState(kb, item.button, g, desired, rest, NOT_REQUIRED, sh);
    var acts := MatchActs(kb, item.button, g, desired, rest, NOT_REQUIRED, sh);
    var press := if ok then [Stroke(if again then Repeat else Press, item)] else [];
    MatchDone(kb, item.button, g, desired, rest, NOT_REQUIRED, sh);
    BelowAreActs(kb, [item], item.button, g, Ceiling(rest), acts);
    DoConcat(kb, acts, press, sh);
    assert DesiredActs(kb, item, g, desired, sensitive, again, sh) == acts + press;
  }

  lemma KeyItemDone(kb: Keyboard, item: KeyItem, group: nat, desired: Mask, override: Mask, again: bool,
                    lang: string, sh: Shadow)
    requires kb.Ready() && PassedOn(kb, item, group, lang) < kb.numGroups
    ensures var acts := KeyItemActs(kb, item, group, desired, override, again, lang, sh);
            && KeysForKeyItem(kb, item, group, desired, override, again, lang, sh).2 == DoAll(kb, acts, sh)
            && ActsOf(kb, [item], acts)
  {
    var u, g := item.button, PassedOn(kb, item, group, lang);
    var switch := if group == item.group then [] else [Switch(g)];
    var sensitive := if item.dead then item.sensitive else item.sensitive - override;
    var sh1 := DoAll(kb, switch, sh);
    var first := MatchActs(kb, u, g, item.required, sensitive, {}, sh1);
    var (ok, sh2) := KeysForModifierState(kb, u, g, item.required, sensitive, {}, sh1);
    var last := if !ok then [] else if item.dead then [Stroke(Click, item)]
                else DesiredActs(kb, item, g, desired, sensitive, again, sh2);
    MatchDone(kb, u, g, item.required, sensitive, {}, sh1);
    BelowAreActs(kb, [item], u, g, Ceiling(sensitive), first);
    DoConcat(kb, switch + first, last, sh);
    DoConcat(kb, switch, first, sh);
    DesiredDone(kb, item, g, desired, sensitive, again, sh2);
  }

  lemma {:induction false} ItemsDone(kb: Keyboard, items: KeyItemList, group: nat, desired: Mask, override: Mask,
                                     again: bool, lang: string, sh: Shadow)
    requires kb.Ready() && GroupsExist(kb, items, group, lang)
    ensures var acts := ItemsActs(kb, items, group, desired, override, again, lang, sh);
            && KeysForItems(kb, items, group, desired, override, again, lang, sh).1 == DoAll(kb, acts, sh)
            && ActsOf(kb, items, acts)
  {
    if items != [] {
      var (ok, g, sh1) := KeysForKeyItem(kb, items[0], group, desired, override, again, lang, sh);
      var first := KeyItemActs(kb, items[0], group, desired, override, again, lang, sh);
      var rest := if ok then ItemsActs(kb, items[1..], g, desired, override, again, lang, sh1) else [];
      KeyItemDone(kb, items[0], group, desired, override, again, lang, sh);
      assert forall a | a in first :: ActOf(kb, [items[0]], a) ==> ActOf(kb, items, a);
      if ok {
        ItemsDone(kb, items[1..], g, desired, override, again, lang, sh1);
        assert forall a | a in rest :: ActOf(kb, items[1..], a) ==> ActOf(kb, items, a);
      }
      DoConcat(kb, first, rest, sh);
    }
  }

  // ---- the highest modifier ----

  /** Every key of the table generates just the modifier it is listed under, as
      initModifierKey() makes them. */
  ghost predicate SingleBits(kb: Keyboard) {
    forall i, j | 0 <= i < |kb.modifierKeys| && 0 <= j < |kb.modifierKeys[i]| ::
      kb.modifierKeys[i][j].generates == {i % NUM_BITS}
  }

  lemma WiredAreSingle(w: Wiring, kb: Keyboard)
    requires kb.Ready() && Wired(w, kb)
    ensures SingleBits(kb)
  {
    forall i, j | 0 <= i < |kb.modifierKeys| && 0 <= j < |kb.modifierKeys[i]|
      ensures kb.modifierKeys[i][j].generates == {i % NUM_BITS}
    {
      assert Fits(w, kb.modifierKeys[i][j]) && i % NUM_BITS in kb.modifierKeys[i][j].generates;
    }
  }

  lemma {:induction false} FirstOtherIn(items: KeyItemList, button: nat)
    ensures FirstOther(items, button).Some? ==>
              FirstOther(items, button).value in items && FirstOther(items, button).value.button != button
    ensures FirstOther(items, button).None? <==> forall i | i in items :: i.button == button
  {
    if items != [] {
      FirstOtherIn(items[1..], button);
    }
  }

  lemma KeyForModifierIs(kb: Keyboard, button: nat, group: nat, b: nat)
    requires kb.Ready() && group < kb.numGroups && b < NUM_BITS
    ensures var key := KeyForModifier(kb, button, group, b);
            key.Some? ==>
              && key.value in kb.modifierKeys[group * NUM_BITS + b]
              && key.value.button != button && b in key.value.generates
              && (SingleBits(kb) ==> key.value.generates == {b})
  {
    var i := group * NUM_BITS + b;
    FirstOtherIn(kb.modifierKeys[i], button);
    assert i % NUM_BITS == b;
  }

  lemma {:induction false} ActsKeepAbove(kb: Keyboard, button: nat, group: nat, bound: nat, acts: seq<Act>,
                                         sh: Shadow, c: nat)
    requires kb.Ready() && group < kb.numGroups && SingleBits(kb)
    requires AllBelow(kb, button, group, bound, acts) && c >= bound
    ensures c in DoAll(kb, acts, sh).state <==> c in sh.state
  {
    if acts != [] {
      assert FlipsBelow(kb, button, group, bound, acts[0]);
      var b: nat :| b < NUM_BITS && b < bound && KeyForModifier(kb, button, group, b) == Some(acts[0].item);
      KeyForModifierIs(kb, button, group, b);
      ActsKeepAbove(kb, button, group, bound, acts[1..], Do(kb, acts[0], sh), c);
    }
  }

  lemma {:induction false} SkipTo(kb: Keyboard, button: nat, group: nat, bit: nat, to: nat, flip: Mask,
                                  required: Mask, notRequired: Mask, sh: Shadow)
    requires kb.Ready() && group < kb.numGroups && to <= bit <= NUM_BITS
    requires forall b | b in flip && b < bit :: b < to
    ensures FlipBelow(kb, button, group, bit, flip, required, notRequired, sh)
            == FlipBelow(kb, button, group, to, flip, required, notRequired, sh)
  {
    if bit > to {
      assert bit - 1 !in flip;
      SkipTo(kb, button, group, bit - 1, to, flip, required, notRequired, sh);
    }
  }

  /** When the loop succeeds, the highest modifier it had to flip is as required. */
  lemma HighestFlip(kb: Keyboard, button: nat, group: nat, b: nat, flip: Mask, required: Mask, notRequired: Mask,
                    sh: Shadow)
    requires kb.Ready() && group < kb.numGroups && SingleBits(kb) && b < NUM_BITS
    requires b in flip && b !in notRequired
    ensures var (ok, sh') := FlipBelow(kb, button, group, b + 1, flip, required, notRequired, sh);
            ok ==> (b in sh'.state <==> b in required)
  {
    KeyForModifierIs(kb, button, group, b);
    var key := KeyForModifier(kb, button, group, b);
    if key.Some? {
      var (ok, sh1) := PrepareFlip(kb, button, group, b, b in required, key.value, notRequired, sh);
      var sh2 := Do(kb, Flip(b in required, key.value), sh1);
      FlipDone(kb, button, group, b, flip, required, notRequired, sh2, b);
      ActsKeepAbove(kb, button, group, b, FlipActs(kb, button, group, b, flip, required, notRequired, sh2), sh2, b);
    }
  }

  /** keysForModifierState never changes a modifier above the highest one it has to flip,
      and when it succeeds that one is as required. */
  lemma HighestFlipMatches(kb: Keyboard, button: nat, group: nat, required: Mask, sensitive: Mask,
                           notRequired: Mask, sh: Shadow)
    requires kb.Ready() && group < kb.numGroups && SingleBits(kb)
    ensures var (ok, sh') := KeysForModifierState(kb, button, group, required, sensitive, notRequired, sh);
            var top := Ceiling(Xor(sh.state, required) * sensitive - notRequired);
            && (forall b :: b >= top ==> (b in sh'.state <==> b in sh.state))
            && (ok && top > 0 ==> (top - 1 in sh'.state <==> top - 1 in required))
  {
    var flip := Xor(sh.state, required) * sensitive - notRequired;
    var top := Ceiling(flip);
    if flip != {} {
      var acts := FlipActs(kb, button, group, NUM_BITS, flip, required, notRequired, sh);
      FlipDone(kb, button, group, NUM_BITS, flip, required, notRequired, sh, top);
      forall b | b >= top ensures b in DoAll(kb, acts, sh).state <==> b in sh.state {
        ActsKeepAbove(kb, button, group, top, acts, sh, b);
      }
      if top > 0 {
        SkipTo(kb, button, group, NUM_BITS, top, flip, required, notRequired, sh);
        HighestFlip(kb, button, group, top - 1, flip, required, notRequired, sh);
      }
    }
  }

  // ---- keyboards whose modifier keys are not themselves modified ----

  /** No modifier key is sensitive to another modifier. */
  ghost predicate Flat(kb: Keyboard) {
    forall i, j | 0 <= i < |kb.modifierKeys| && 0 <= j < |kb.modifierKeys[i]| ::
      kb.modifierKeys[i][j].sensitive <= {i % NUM_BITS}
  }

  lemma FlatKey(kb: Keyboard, button: nat, group: nat, b: nat)
    requires kb.Ready() && group < kb.numGroups && Flat(kb) && b < NUM_BITS
    requires KeyForModifier(kb, button, group, b).Some?
    ensures KeyForModifier(kb, button, group, b).value.sensitive - {b} == {}
  {
    var item := KeyForModifier(kb, button, group, b).value;
    KeyForModifierIs(kb, button, group, b);
    var i := group * NUM_BITS + b;
    var j :| 0 <= j < |kb.modifierKeys[i]| && kb.modifierKeys[i][j] == item;
    assert item.sensitive <= {i % NUM_BITS};
  }

  lemma FlatPrepare(kb: Keyboard, button: nat, group: nat, b: nat, press: bool, notRequired: Mask, sh: Shadow)
    requires kb.Ready() && group < kb.numGroups && Flat(kb) && b < NUM_BITS
    requires KeyForModifier(kb, button, group, b).Some?
    ensures PrepareFlip(kb, button, group, b, press, KeyForModifier(kb, button, group, b).value, notRequired, sh)
            == (true, sh)
  {
    FlatKey(kb, button, group, b);
  }

  lemma {:induction false} FlatFlip(kb: Keyboard, button: nat, group: nat, bit: nat, flip: Mask,
                                    required: Mask, notRequired: Mask, sh: Shadow)
    requires kb.Ready() && group < kb.numGroups && bit <= NUM_BITS && SingleBits(kb) && Flat(kb)
    requires flip !! notRequired
    ensures var (ok, sh') := FlipBelow(kb, button, group, bit, flip, required, notRequired, sh);
            && (ok <==> forall b | b in flip && b < bit :: KeyForModifier(kb, button, group, b).Some?)
            && (ok ==> forall b :: b in sh'.state <==>
                                   if b in flip && b < bit then b in required else b in sh.state)
  {
    if bit > 0 {
      var b := bit - 1;
      if b !in flip {
        FlatFlip(kb, button, group, b, flip, required, notRequired, sh);
      } else if KeyForModifier(kb, button, group, b).Some? {
        FlatPrepare(kb, button, group, b, b in required, notRequired, sh);
        KeyForModifierIs(kb, button, group, b);
        var act := Flip(b in required, KeyForModifier(kb, button, group, b).value);
        FlatFlip(kb, button, group, b, flip, required, notRequired, Do(kb, act, sh));
      }
    }
  }

  /** On such a keyboard keysForModifierState succeeds exactly when every modifier it has
      to flip has a key on another button of the group, and then the state is the
      required one on every sensitive modifier that is required, and otherwise unchanged. */
  lemma FlatMatchExact(kb: Keyboard, button: nat, group: nat, required: Mask, sensitive: Mask,
                       notRequired: Mask, sh: Shadow)
    requires kb.Ready() && group < kb.numGroups && SingleBits(kb) && Flat(kb)
    ensures var (ok, sh') := KeysForModifierState(kb, button, group, required, sensitive, notRequired, sh);
            var flip := Xor(sh.state, required) * sensitive - notRequired;
            && (ok <==> forall b | b in flip && b < NUM_BITS ::
                          exists item :: item in kb.modifierKeys[group * NUM_BITS + b] && item.button != button)
            && (ok ==> forall b | b < NUM_BITS ::
                         b in sh'.state <==>
                         if b in sensitive && b !in notRequired then b in required else b in sh.state)
            && (ok ==> forall b | b >= NUM_BITS :: b in sh'.state <==> b in sh.state)
  {
    var flip := Xor(sh.state, required) * sensitive - notRequired;
    forall b | b in flip && b < NUM_BITS
      ensures KeyForModifier(kb, button, group, b).Some? <==>
              exists item :: item in kb.modifierKeys[group * NUM_BITS + b] && item.button != button
    {
      FirstOtherIn(kb.modifierKeys[group * NUM_BITS + b], button);
    }
    FlatFlip(kb, button, group, NUM_BITS, flip, required, notRequired, sh);
  }
}
