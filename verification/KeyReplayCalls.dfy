/** Replay soundness of whole mapping calls: the keyboard stays in step with every call of
    addKeystrokes exactly as long as no modifier is flipped that is already as it is to be.
 */
module KeyReplayCalls {
  import opened KeyMasks
  import opened KeyData
  import opened KeySpec
  import opened KeyWiring
  import opened KeySteps
  import opened KeyNeutrality
  import opened KeyReplay

  /** The keyboards of this module: wired, with full-duplex locks. */
  ghost predicate Plain(w: Wiring, kb: Keyboard) {
    kb.Ready() && Wired(w, kb) && FullDuplex(w, kb)
  }

  // ---- lists of acts ----

  ghost predicate ActAllowed(kb: Keyboard, act: Act, sh: Shadow) {
    act.Stroke? ==> Allowed(kb, act.ty, act.item, sh)
  }

  ghost predicate AllAllowed(kb: Keyboard, acts: seq<Act>, sh: Shadow) {
    acts != [] ==> ActAllowed(kb, acts[0], sh) && AllAllowed(kb, acts[1..], Do(kb, acts[0], sh))
  }

  /** The keyboard is in step after each of the acts. */
  ghost predicate InStepThroughout(w: Wiring, p0: Physical, kb: Keyboard, acts: seq<Act>, sh: Shadow) {
    forall n | 0 <= n <= |acts| :: InSync(w, p0, DoAll(kb, acts[..n], sh))
  }

  lemma GroupInSync(w: Wiring, p0: Physical, sh: Shadow, g: int)
    requires InSync(w, p0, sh)
    ensures InSync(w, p0, sh.(keys := sh.keys + [Group(g, true, false)]))
  {
    var k := Group(g, true, false);
    var sh' := sh.(keys := sh.keys + [k]);
    ReplayConcat(w, sh.keys, [k], p0);
    OneStroke(w, k, Replay(w, sh.keys, p0));
    KeysDoNotMatter(w, sh, sh');
    forall v ensures ButtonInState(w, sh', Replay(w, sh'.keys, p0), v) {
      assert ButtonInState(w, sh, Replay(w, sh.keys, p0), v);
    }
  }

  lemma ActInSync(kb: Keyboard, w: Wiring, p0: Physical, act: Act, sh: Shadow)
    requires OneButtonPerLock(w) && FullDuplex(w, kb) && InSync(w, p0, sh) && ActFits(w, act)
    ensures InSync(w, p0, Do(kb, act, sh)) <==> ActAllowed(kb, act, sh)
  {
    match act
    case Stroke(ty, item) => AddKeystrokesInSync(kb, w, p0, ty, item, sh);
    case Switch(g) => GroupInSync(w, p0, sh, g);
  }

  /** The keyboard is in step throughout exactly when each act is allowed in its state. */
  lemma {:induction false} ActsInSync(kb: Keyboard, w: Wiring, p0: Physical, acts: seq<Act>, sh: Shadow)
    requires OneButtonPerLock(w) && FullDuplex(w, kb) && InSync(w, p0, sh) && ActsFit(w, acts)
    ensures InStepThroughout(w, p0, kb, acts, sh) <==> AllAllowed(kb, acts, sh)
    ensures AllAllowed(kb, acts, sh) ==> InSync(w, p0, DoAll(kb, acts, sh))
  {
    if acts == [] {
      assert acts[..0] == [];
    } else {
      var act, rest, sh1 := acts[0], acts[1..], Do(kb, acts[0], sh);
      assert ActFits(w, act);
      ActInSync(kb, w, p0, act, sh);
      forall n | 0 < n <= |acts| ensures DoAll(kb, acts[..n], sh) == DoAll(kb, rest[..n - 1], sh1) {
        assert acts[..n][1..] == rest[..n - 1];
      }
      assert acts[..0] == [] && rest[..0] == [];
      if InStepThroughout(w, p0, kb, acts, sh) {
        assert InSync(w, p0, DoAll(kb, acts[..1], sh));
      }
      if ActAllowed(kb, act, sh) {
        ActsInSync(kb, w, p0, rest, sh1);
        assert InStepThroughout(w, p0, kb, acts, sh) ==> InStepThroughout(w, p0, kb, rest, sh1) by {
          assert forall n | 0 <= n <= |rest| :: DoAll(kb, acts[..n + 1], sh) == DoAll(kb, rest[..n], sh1);
        }
      }
    }
  }

  // ---- stale flips ----

  /** The modifier to be flipped is already as it is to be: on, when its key is to be
      pressed; off, when a lock is to be released.  Any other act is stale when it is not
      allowed. */
  ghost predicate Stale(kb: Keyboard, act: Act, sh: Shadow) {
    match act
    case Switch(_) => false
    case Stroke(ty, item) =>
      match ty
      case Modify => item.generates * sh.state != {}
      case Unmodify => item.lock && item.generates * sh.state == {}
      case _ => !Allowed(kb, ty, item, sh)
  }

  ghost predicate NoneStale(kb: Keyboard, acts: seq<Act>, sh: Shadow) {
    acts != [] ==> !Stale(kb, acts[0], sh) && NoneStale(kb, acts[1..], Do(kb, acts[0], sh))
  }

  /** Each act is allowed exactly when it is not stale. */
  ghost predicate Decided(kb: Keyboard, acts: seq<Act>, sh: Shadow) {
    acts != [] ==>
      && (ActAllowed(kb, acts[0], sh) <==> !Stale(kb, acts[0], sh))
      && Decided(kb, acts[1..], Do(kb, acts[0], sh))
  }

  lemma {:induction false} DecidedConcat(kb: Keyboard, a: seq<Act>, b: seq<Act>, sh: Shadow)
    requires Decided(kb, a, sh) && Decided(kb, b, DoAll(kb, a, sh))
    ensures Decided(kb, a + b, sh)
  {
    if a == [] {
      assert a + b == b;
    } else {
      assert (a + b)[1..] == a[1..] + b;
      DecidedConcat(kb, a[1..], b, Do(kb, a[0], sh));
    }
  }

  lemma {:induction false} NoneStaleConcat(kb: Keyboard, a: seq<Act>, b: seq<Act>, sh: Shadow)
    ensures NoneStale(kb, a + b, sh) <==> NoneStale(kb, a, sh) && NoneStale(kb, b, DoAll(kb, a, sh))
  {
    if a == [] {
      assert a + b == b;
    } else {
      assert (a + b)[1..] == a[1..] + b;
      NoneStaleConcat(kb, a[1..], b, Do(kb, a[0], sh));
    }
  }

  lemma {:induction false} DecidedAllowed(kb: Keyboard, acts: seq<Act>, sh: Shadow)
    requires Decided(kb, acts, sh)
    ensures AllAllowed(kb, acts, sh) <==> NoneStale(kb, acts, sh)
  {
    if acts != [] {
      DecidedAllowed(kb, acts[1..], Do(kb, acts[0], sh));
    }
  }

  /** If modifier `c` is on, its key is held. */
  ghost predicate KeyHeld(kb: Keyboard, button: nat, group: nat, c: nat, sh: Shadow)
    requires kb.Ready() && group < kb.numGroups && c < NUM_BITS
  {
    var key := KeyForModifier(kb, button, group, c);
    key.Some? && c in sh.state ==> Count(sh.active, key.value.button) > 0
  }

  lemma KeyFits(kb: Keyboard, w: Wiring, button: nat, group: nat, c: nat)
    requires Plain(w, kb) && group < kb.numGroups && c < NUM_BITS
    ensures var key := KeyForModifier(kb, button, group, c);
            key.Some? ==> Fits(w, key.value) && key.value.generates == {c}
  {
    if KeyForModifier(kb, button, group, c).Some? {
      KeyForModifierIs(kb, button, group, c);
      FlipFits(kb, w, button, group, NUM_BITS, Flip(true, KeyForModifier(kb, button, group, c).value));
    }
  }

  lemma FlipKeepsHeld(kb: Keyboard, w: Wiring, button: nat, group: nat, b: nat, press: bool, sh: Shadow, c: nat)
    requires Plain(w, kb) && group < kb.numGroups && b < NUM_BITS && c < NUM_BITS && Agrees(w, sh)
    requires KeyForModifier(kb, button, group, b).Some? && KeyHeld(kb, button, group, c, sh)
    ensures KeyHeld(kb, button, group, c, Do(kb, Flip(press, KeyForModifier(kb, button, group, b).value), sh))
  {
    var act := Flip(press, KeyForModifier(kb, button, group, b).value);
    KeyFits(kb, w, button, group, b);
    KeyFits(kb, w, button, group, c);
    var key := KeyForModifier(kb, button, group, c);
    if key.Some? {
      AddKeystrokesBit(kb, w, act.ty, act.item, sh, c);
      AddKeystrokesCounts(kb, w, act.ty, act.item, sh, key.value.button);
    }
  }

  lemma {:induction false} FlipsKeepHeld(kb: Keyboard, w: Wiring, button: nat, group: nat, bound: nat,
                                         acts: seq<Act>, sh: Shadow, c: nat)
    requires Plain(w, kb) && group < kb.numGroups && c < NUM_BITS && Agrees(w, sh)
    requires AllBelow(kb, button, group, bound, acts) && KeyHeld(kb, button, group, c, sh)
    ensures KeyHeld(kb, button, group, c, DoAll(kb, acts, sh))
  {
    if acts != [] {
      var act := acts[0];
      assert FlipsBelow(kb, button, group, bound, act);
      var b: nat :| b < NUM_BITS && b < bound && KeyForModifier(kb, button, group, b) == Some(act.item);
      FlipKeepsHeld(kb, w, button, group, b, act.ty == Modify, sh, c);
      FlipFits(kb, w, button, group, bound, act);
      AddKeystrokesAgrees(kb, w, act.ty, act.item, sh);
      FlipsKeepHeld(kb, w, button, group, bound, acts[1..], Do(kb, act, sh), c);
    }
  }

  /** A flip is allowed exactly when it is not stale. */
  lemma FlipDecided(kb: Keyboard, w: Wiring, button: nat, group: nat, b: nat, press: bool, sh: Shadow)
    requires Plain(w, kb) && group < kb.numGroups && b < NUM_BITS && Agrees(w, sh)
    requires KeyForModifier(kb, button, group, b).Some? && (press ==> KeyHeld(kb, button, group, b, sh))
    ensures var act := Flip(press, KeyForModifier(kb, button, group, b).value);
            ActAllowed(kb, act, sh) <==> !Stale(kb, act, sh)
  {
    var item := KeyForModifier(kb, button, group, b).value;
    KeyFits(kb, w, button, group, b);
    assert BitAgrees(w, sh, b) && w[item.button].bit == b;
    assert item.generates * sh.state == {} <==> b !in sh.state;
    if item.lock { LockHeld(w, sh, item.button); }
  }

  lemma {:induction false} MatchDecided(kb: Keyboard, w: Wiring, button: nat, group: nat, required: Mask,
                                        sensitive: Mask, notRequired: Mask, sh: Shadow)
    requires Plain(w, kb) && group < kb.numGroups && Agrees(w, sh)
    ensures Decided(kb, MatchActs(kb, button, group, required, sensitive, notRequired, sh), sh)
    decreases Ceiling(sensitive), 1, 0
  {
    LoopDecided(kb, w, button, group, NUM_BITS, Xor(sh.state, required) * sensitive - notRequired, required,
                notRequired, sh);
  }

  lemma {:induction false} LoopDecided(kb: Keyboard, w: Wiring, button: nat, group: nat, bit: nat, flip: Mask,
                                       required: Mask, notRequired: Mask, sh: Shadow)
    requires Plain(w, kb) && group < kb.numGroups && bit <= NUM_BITS && Agrees(w, sh)
    requires forall b | b in flip && b < bit && b in required :: KeyHeld(kb, button, group, b, sh)
    ensures Decided(kb, FlipActs(kb, button, group, bit, flip, required, notRequired, sh), sh)
    decreases Ceiling(flip), 0, bit, 0
  {
    if bit > 0 {
      var b := bit - 1;
      var key := KeyForModifier(kb, button, group, b);
      if b !in flip || (key.None? && b in notRequired) {
        LoopDecided(kb, w, button, group, b, flip, required, notRequired, sh);
      } else if key.Some? {
        var press := b in required;
        var before := PrepareActs(kb, button, group, b, press, key.value, notRequired, sh);
        var (ok, sh1) := PrepareFlip(kb, button, group, b, press, key.value, notRequired, sh);
        PrepareDecided(kb, w, button, group, b, press, key.value, notRequired, sh);
        PrepareDone(kb, button, group, b, press, key.value, notRequired, sh);
        if ok {
          FlipsAgree(kb, w, button, group, b, before, sh);
          forall c | c in flip && c < bit && c in required ensures KeyHeld(kb, button, group, c, sh1) {
            FlipsKeepHeld(kb, w, button, group, b, before, sh, c);
          }
          FlipAndRestDecided(kb, w, button, group, b, flip, required, notRequired, sh1);
          var act := Flip(press, key.value);
          DecidedConcat(kb, before,
                        [act] + FlipActs(kb, button, group, b, flip, required, notRequired, Do(kb, act, sh1)), sh);
        }
      }
    }
  }

  lemma {:induction false} FlipAndRestDecided(kb: Keyboard, w: Wiring, button: nat, group: nat, b: nat, flip: Mask,
                                              required: Mask, notRequired: Mask, sh: Shadow)
    requires Plain(w, kb) && group < kb.numGroups && b < NUM_BITS && Agrees(w, sh) && b in flip
    requires KeyForModifier(kb, button, group, b).Some?
    requires forall c | c in flip && c <= b && c in required :: KeyHeld(kb, button, group, c, sh)
    ensures var act := Flip(b in required, KeyForModifier(kb, button, group, b).value);
            Decided(kb, [act] + FlipActs(kb, button, group, b, flip, required, notRequired, Do(kb, act, sh)), sh)
    decreases Ceiling(flip), 0, b, 1
  {
    var act := Flip(b in required, KeyForModifier(kb, button, group, b).value);
    var sh' := Do(kb, act, sh);
    var rest := FlipActs(kb, button, group, b, flip, required, notRequired, sh');
    FlipDecided(kb, w, button, group, b, b in required, sh);
    KeyFits(kb, w, button, group, b);
    AddKeystrokesAgrees(kb, w, act.ty, act.item, sh);
    forall c | c in flip && c < b && c in required ensures KeyHeld(kb, button, group, c, sh') {
      FlipKeepsHeld(kb, w, button, group, b, b in required, sh, c);
    }
    LoopDecided(kb, w, button, group, b, flip, required, notRequired, sh');
    assert ([act] + rest)[1..] == rest;
  }

  lemma {:induction false} PrepareDecided(kb: Keyboard, w: Wiring, button: nat, group: nat, b: nat, press: bool,
                                          item: KeyItem, notRequired: Mask, sh: Shadow)
    requires Plain(w, kb) && group < kb.numGroups && b < NUM_BITS && Agrees(w, sh)
    ensures Decided(kb, PrepareActs(kb, button, group, b, press, item, notRequired, sh), sh)
    decreases b, 2, 0
  {
    var sensitive := item.sensitive - {b};
    if !AnyAbove(sensitive, b) && sensitive != {} && press {
      assert Ceiling(sensitive) <= b;
      MatchDecided(kb, w, button, group, item.required, sensitive, notRequired, sh);
    }
  }

  lemma BelowFit(kb: Keyboard, w: Wiring, button: nat, group: nat, bound: nat, acts: seq<Act>)
    requires kb.Ready() && Wired(w, kb) && group < kb.numGroups && AllBelow(kb, button, group, bound, acts)
    ensures ActsFit(w, acts)
  {
    BelowAreActs(kb, [], button, group, bound, acts);
    ItemsActsFit(kb, w, [], acts);
  }

  /** Matching a modifier state, whether or not it succeeds, on any wired keyboard: every
      keystroke keeps the keyboard in step exactly when no flip is stale, that is, when
      each modifier the loop flips is still as it was when the loop began. */
  lemma MatchInSync(kb: Keyboard, w: Wiring, p0: Physical, button: nat, group: nat, required: Mask,
                    sensitive: Mask, notRequired: Mask, sh: Shadow)
    requires Plain(w, kb) && group < kb.numGroups && InSync(w, p0, sh)
    ensures var acts := MatchActs(kb, button, group, required, sensitive, notRequired, sh);
            && (InStepThroughout(w, p0, kb, acts, sh) <==> NoneStale(kb, acts, sh))
            && (NoneStale(kb, acts, sh) ==>
                  InSync(w, p0, KeysForModifierState(kb, button, group, required, sensitive, notRequired, sh).1))
  {
    var acts := MatchActs(kb, button, group, required, sensitive, notRequired, sh);
    MatchDone(kb, button, group, required, sensitive, notRequired, sh);
    BelowFit(kb, w, button, group, Ceiling(sensitive), acts);
    MatchDecided(kb, w, button, group, required, sensitive, notRequired, sh);
    DecidedAllowed(kb, acts, sh);
    ActsInSync(kb, w, p0, acts, sh);
  }

  // ---- pressing the keys of a list ----

  lemma OneDecided(kb: Keyboard, act: Act, sh: Shadow)
    requires ActAllowed(kb, act, sh) <==> !Stale(kb, act, sh)
    ensures Decided(kb, [act], sh)
  {
    assert [act][1..] == [];
  }

  lemma DesiredDecided(kb: Keyboard, w: Wiring, item: KeyItem, g: nat, desired: Mask, sensitive: Mask, again: bool,
                       sh: Shadow)
    requires Plain(w, kb) && g < kb.numGroups && Agrees(w, sh)
    ensures Decided(kb, DesiredActs(kb, item, g, desired, sensitive, again, sh), sh)
  {
    var rest := ALL - (sensitive + item.generates);
    var acts := MatchActs(kb, item.button, g, desired, rest, NOT_REQUIRED, sh);
    var (ok, sh1) := KeysForModifierState(kb, item.button, g, desired, rest, NOT_REQUIRED, sh);
    MatchDecided(kb, w, item.button, g, desired, rest, NOT_REQUIRED, sh);
    MatchDone(kb, item.button, g, desired, rest, NOT_REQUIRED, sh);
    if ok {
      var press := Stroke(if again then Repeat else Press, item);
      OneDecided(kb, press, sh1);
      DecidedConcat(kb, acts, [press], sh);
    } else {
      assert acts + [] == acts;
    }
  }

  lemma KeyItemDecided(kb: Keyboard, w: Wiring, item: KeyItem, group: nat, desired: Mask, override: Mask,
                       again: bool, lang: string, sh: Shadow)
    requires Plain(w, kb) && PassedOn(kb, item, group, lang) < kb.numGroups && Agrees(w, sh)
    ensures Decided(kb, KeyItemActs(kb, item, group, desired, override, again, lang, sh), sh)
  {
    var u, g := item.button, PassedOn(kb, item, group, lang);
    var switch := if group == item.group then [] else [Switch(g)];
    var sensitive := if item.dead then item.sensitive else item.sensitive - override;
    var sh1 := DoAll(kb, switch, sh);
    var first := MatchActs(kb, u, g, item.required, sensitive, {}, sh1);
    var (ok, sh2) := KeysForModifierState(kb, u, g, item.required, sensitive, {}, sh1);
    DoOne(kb, Switch(g), sh);
    OneDecided(kb, Switch(g), sh);
    KeysDoNotMatter(w, sh, sh1);
    MatchDecided(kb, w, u, g, item.required, sensitive, {}, sh1);
    MatchDone(kb, u, g, item.required, sensitive, {}, sh1);
    MatchAgrees(kb, w, u, g, item.required, sensitive, {}, sh1);
    DecidedConcat(kb, switch, first, sh);
    DoConcat(kb, switch, first, sh);
    if !ok {
      assert switch + first + [] == switch + first;
    } else if item.dead {
      OneDecided(kb, Stroke(Click, item), sh2);
      DecidedConcat(kb, switch + first, [Stroke(Click, item)], sh);
    } else {
      DesiredDecided(kb, w, item, g, desired, sensitive, again, sh2);
      DecidedConcat(kb, switch + first, DesiredActs(kb, item, g, desired, sensitive, again, sh2), sh);
    }
  }

  lemma {:induction false} ItemsDecided(kb: Keyboard, w: Wiring, items: KeyItemList, group: nat, desired: Mask,
                                        override: Mask, again: bool, lang: string, sh: Shadow)
    requires Plain(w, kb) && GroupsExist(kb, items, group, lang) && Agrees(w, sh)
    requires forall i | i in items :: Fits(w, i)
    ensures Decided(kb, ItemsActs(kb, items, group, desired, override, again, lang, sh), sh)
  {
    if items != [] {
      var (ok, g, sh1) := KeysForKeyItem(kb, items[0], group, desired, override, again, lang, sh);
      var first := KeyItemActs(kb, items[0], group, desired, override, again, lang, sh);
      KeyItemDecided(kb, w, items[0], group, desired, override, again, lang, sh);
      KeyItemDone(kb, items[0], group, desired, override, again, lang, sh);
      if ok {
        ItemsActsFit(kb, w, [items[0]], first);
        ActsAgree(kb, w, first, sh);
        ItemsDecided(kb, w, items[1..], g, desired, override, again, lang, sh1);
        DecidedConcat(kb, first, ItemsActs(kb, items[1..], g, desired, override, again, lang, sh1), sh);
      } else {
        assert first + [] == first;
      }
    }
  }

  /** Pressing the keys of a list keeps the keyboard in step throughout exactly when no
      flip and no press is stale. */
  lemma ItemsInSync(kb: Keyboard, w: Wiring, p0: Physical, items: KeyItemList, group: nat, desired: Mask,
                    override: Mask, again: bool, lang: string, sh: Shadow)
    requires Plain(w, kb) && GroupsExist(kb, items, group, lang) && InSync(w, p0, sh)
    requires forall i | i in items :: Fits(w, i)
    ensures var acts := ItemsActs(kb, items, group, desired, override, again, lang, sh);
            && (InStepThroughout(w, p0, kb, acts, sh) <==> NoneStale(kb, acts, sh))
            && (NoneStale(kb, acts, sh) ==>
                  InSync(w, p0, KeysForItems(kb, items, group, desired, override, again, lang, sh).1))
  {
    var acts := ItemsActs(kb, items, group, desired, override, again, lang, sh);
    ItemsDone(kb, items, group, desired, override, again, lang, sh);
    ItemsActsFit(kb, w, items, acts);
    ItemsDecided(kb, w, items, group, desired, override, again, lang, sh);
    DecidedAllowed(kb, acts, sh);
    ActsInSync(kb, w, p0, acts, sh);
  }

  // ---- restoring the modifiers ----

  lemma {:induction false} ReleasedInSync(kb: Keyboard, w: Wiring, p0: Physical, rest: Modifiers, u: nat,
                                          wanted: set<nat>, sh: Shadow)
    requires OneButtonPerLock(w) && FullDuplex(w, kb) && InSync(w, p0, sh) && Tidy(w, rest)
    requires forall v :: Count(rest, v) <= 1
    requires forall v | v != u && v !in wanted :: Count(sh.active, v) == Count(rest, v)
    ensures InSync(w, p0, ReleaseUnwanted(kb, rest, u, wanted, sh))
  {
    if rest != [] {
      var item := rest[0].item;
      assert TidyNode(w, rest[0]);
      var ty := if item.lock then Unmodify else Release;
      var tail := rest[1..];
      forall v ensures Count(rest, v) == Count(tail, v) + if v == item.button then 1 else 0 {}
      if item.button != u && item.button !in wanted {
        assert Count(rest, item.button) == 1;
        AddKeystrokesInSync(kb, w, p0, ty, item, sh);
        forall v | v != u && v !in wanted
          ensures Count(AddKeystrokes(kb, ty, item, sh).active, v) == Count(tail, v)
        {
          AddKeystrokesCounts(kb, w, ty, item, sh, v);
          assert item.lock && v in w && w[v].bit == w[item.button].bit ==> v == item.button;
        }
        ReleasedInSync(kb, w, p0, tail, u, wanted, AddKeystrokes(kb, ty, item, sh));
      } else {
        ReleasedInSync(kb, w, p0, tail, u, wanted, sh);
      }
    }
  }

  lemma {:induction false} PressedInSync(kb: Keyboard, w: Wiring, p0: Physical, rest: Modifiers, u: nat,
                                         down: set<nat>, sh: Shadow)
    requires OneButtonPerLock(w) && FullDuplex(w, kb) && InSync(w, p0, sh) && Tidy(w, rest)
    requires forall v | v != u && v !in down :: Count(sh.active, v) + Count(rest, v) <= 1
    ensures InSync(w, p0, PressWanted(kb, rest, u, down, sh))
  {
    if rest != [] {
      var item := rest[0].item;
      assert TidyNode(w, rest[0]);
      var ty := if item.lock then Modify else Press;
      var tail := rest[1..];
      forall v ensures Count(rest, v) == Count(tail, v) + if v == item.button then 1 else 0 {}
      if item.button != u && item.button !in down {
        AddKeystrokesInSync(kb, w, p0, ty, item, sh);
        forall v | v != u && v !in down
          ensures Count(AddKeystrokes(kb, ty, item, sh).active, v) + Count(tail, v) <= 1
        {
          AddKeystrokesCounts(kb, w, ty, item, sh, v);
        }
        PressedInSync(kb, w, p0, tail, u, down, AddKeystrokes(kb, ty, item, sh));
      } else {
        PressedInSync(kb, w, p0, tail, u, down, sh);
      }
    }
  }

  lemma HeldOnce(w: Wiring, sh: Shadow, p: Physical)
    requires InState(w, sh, p)
    ensures forall v :: Count(sh.active, v) <= 1
  {
    forall v ensures Count(sh.active, v) <= 1 {
      assert ButtonInState(w, sh, p, v);
    }
  }

  lemma RestoreInSync(kb: Keyboard, w: Wiring, p0: Physical, u: nat, desired: Modifiers, sh: Shadow)
    requires OneButtonPerLock(w) && FullDuplex(w, kb) && InSync(w, p0, sh) && Tidy(w, desired)
    requires forall v :: Count(desired, v) <= 1
    ensures InSync(w, p0, KeysToRestoreModifiers(kb, u, desired, sh))
  {
    var wanted, down := ButtonSet(desired), ButtonSet(sh.active);
    HeldOnce(w, sh, Replay(w, sh.keys, p0));
    ReleasedInSync(kb, w, p0, sh.active, u, wanted, sh);
    var sh1 := ReleaseUnwanted(kb, sh.active, u, wanted, sh);
    forall v | v != u && v !in down ensures Count(sh1.active, v) + Count(desired, v) <= 1 {
      ButtonSetCounts(sh.active, v);
      ReleasedCounts(kb, w, sh.active, u, wanted, sh, v);
    }
    PressedInSync(kb, w, p0, desired, u, down, sh1);
  }

  // ---- whole calls ----

  /** A mapping call that pressed the keys without a stale flip keeps the keyboard in step. */
  lemma MapItemsInSync(kb: Keyboard, w: Wiring, p: Physical, items: KeyItemList, group: nat, desired: Mask,
                       override: Mask, again: bool, lang: string, sh: Shadow)
    requires Plain(w, kb) && InState(w, sh, p) && sh.keys == []
    requires items != [] && GroupsExist(kb, items, group, lang) && forall i | i in items :: Fits(w, i)
    requires MapItems(kb, items, group, desired, override, again, lang, sh).item.Some? ==>
               NoneStale(kb, ItemsActs(kb, items, group, desired, override, again, lang, sh), sh)
    ensures InSync(w, p, MapItems(kb, items, group, desired, override, again, lang, sh).sh)
  {
    ItemsInSync(kb, w, p, items, group, desired, override, again, lang, sh);
    var (ok, sh1) := KeysForItems(kb, items, group, desired, override, again, lang, sh);
    if ok {
      HeldOnce(w, sh, p);
      RestoreInSync(kb, w, p, Last(items).button, sh.active, sh1);
    }
  }

  lemma PlainFits(w: Wiring, items: KeyItemList)
    requires PlainList(w, items, false)
    ensures forall i | i in items :: Fits(w, i)
  {
    forall i | i in items ensures Fits(w, i) {
      var k :| 0 <= k < |items| && items[k] == i;
      assert PlainPress(w, items[k], false);
    }
  }

  lemma CharacterKeyReplays(kb: Keyboard, w: Wiring, p: Physical, id: nat, group: nat, desired: Mask, again: bool,
                            lang: string, sh: Shadow)
    requires Plain(w, kb) && WiredKeys(w, kb) && InState(w, sh, p) && sh.keys == []
    requires CharacterServed(kb, id, group, desired, lang)
    requires MapCharacterKey(kb, id, group, desired, again, lang, sh).item.Some? ==>
               NoneStale(kb, CharacterActs(kb, id, group, desired, again, lang, sh), sh)
    ensures InSync(w, p, MapCharacterKey(kb, id, group, desired, again, lang, sh).sh)
  {
    if id in kb.keyIDMap {
      var from := LanguageGroup(kb, group, lang);
      CharacterKeysWired(kb, w, kb.keyIDMap[id], from, desired, 0);
      var list := CharacterKeys(kb, kb.keyIDMap[id], from, desired, 0);
      if list.Some? {
        PlainFits(w, list.value);
        MapItemsInSync(kb, w, p, list.value, group, desired, {}, again, lang, sh);
      }
    }
  }

  lemma CommandKeyReplays(kb: Keyboard, w: Wiring, p: Physical, id: nat, group: nat, desired: Mask, again: bool,
                          lang: string, sh: Shadow)
    requires Plain(w, kb) && WiredKeys(w, kb) && InState(w, sh, p) && sh.keys == []
    requires CommandServed(kb, id, group, desired, lang)
    requires MapCommandKey(kb, id, group, desired, again, lang, sh).item.Some? ==>
               NoneStale(kb, CommandActs(kb, id, group, desired, again, lang, sh), sh)
    ensures InSync(w, p, MapCommandKey(kb, id, group, desired, again, lang, sh).sh)
  {
    if id in kb.keyIDMap {
      CommandKeyWired(kb, w, kb.keyIDMap[id], group, desired, 0);
      var key := CommandKey(kb, kb.keyIDMap[id], group, desired, 0);
      if key.Some? {
        PlainFits(w, [key.value]);
        MapItemsInSync(kb, w, p, [key.value], group, Wanted(desired, sh.state), OVERRIDE, again, lang, sh);
      }
    }
  }

  /** mapKey keeps what its calls of addKeystrokes did: it could map the key, or it was to
      set or clear modifiers. */
  ghost predicate Committed(kb: Keyboard, id: nat, group: nat, desired: Mask, again: bool, lang: string, sh: Shadow)
    requires kb.Ready() && Served(kb, id, group, desired, lang)
  {
    id in {SET_MODIFIERS, CLEAR_MODIFIERS} || MapKey(kb, id, group, desired, again, lang, sh).item.Some?
  }

  /** mapKey, for any key and any request: if no flip and no press is stale, playing the
      keystrokes it emits takes a keyboard in the shadow state before the call to the
      shadow state after it, whether the call succeeds or not. */
  lemma MapKeyReplays(kb: Keyboard, w: Wiring, p: Physical, id: nat, group: nat, desired: Mask, again: bool,
                      lang: string, sh: Shadow)
    requires Plain(w, kb) && WiredKeys(w, kb) && InState(w, sh, p) && sh.keys == []
    requires Served(kb, id, group, desired, lang)
    requires Committed(kb, id, group, desired, again, lang, sh) ==>
               NoneStale(kb, KeyActs(kb, id, group, desired, again, lang, sh), sh)
    ensures InSync(w, p, MapKey(kb, id, group, desired, again, lang, sh).sh)
  {
    if id == NEXT_GROUP || id == PREV_GROUP {
      RelativeSwitchInSync(w, p, sh, if id == NEXT_GROUP then 1 else -1);
    } else if id in {SET_MODIFIERS, CLEAR_MODIFIERS} {
      ModifiersReplay(kb, w, p, id, group, desired, again, lang, sh);
    } else if id !in MODIFIER_IDS && IsCommand(desired) {
      CommandKeyReplays(kb, w, p, id, group, desired, again, lang, sh);
    } else {
      CharacterKeyReplays(kb, w, p, id, group, desired, again, lang, sh);
    }
  }

  lemma ModifiersReplay(kb: Keyboard, w: Wiring, p: Physical, id: nat, group: nat, desired: Mask, again: bool,
                        lang: string, sh: Shadow)
    requires Plain(w, kb) && InSync(w, p, sh) && group < kb.numGroups
    requires id in {SET_MODIFIERS, CLEAR_MODIFIERS}
    ensures var acts := KeyActs(kb, id, group, desired, again, lang, sh);
            && (InStepThroughout(w, p, kb, acts, sh) <==> NoneStale(kb, acts, sh))
            && (NoneStale(kb, acts, sh) ==> InSync(w, p, MapKey(kb, id, group, desired, again, lang, sh).sh))
  {
    MatchInSync(kb, w, p, 0, group, if id == SET_MODIFIERS then desired else sh.state - desired, desired, {}, sh);
  }

  lemma RelativeSwitchInSync(w: Wiring, p: Physical, sh: Shadow, g: int)
    requires InState(w, sh, p) && sh.keys == []
    ensures InSync(w, p, sh.(keys := sh.keys + [Group(g, false, false)]))
  {
    var k := Group(g, false, false);
    var sh' := sh.(keys := sh.keys + [k]);
    OneStroke(w, k, p);
    assert sh.keys + [k] == [k];
    KeysDoNotMatter(w, sh, sh');
    forall v ensures ButtonInState(w, sh', Replay(w, sh'.keys, p), v) {
      assert ButtonInState(w, sh, p, v);
    }
  }

  /** Every keystroke that mapKey emits to press a key, or to set or clear modifiers, keeps
      the keyboard in step, exactly when none is stale. */
  lemma MapKeyInStepExactly(kb: Keyboard, w: Wiring, p: Physical, id: nat, group: nat, desired: Mask, again: bool,
                            lang: string, sh: Shadow)
    requires Plain(w, kb) && WiredKeys(w, kb) && InState(w, sh, p) && sh.keys == []
    requires Served(kb, id, group, desired, lang)
    ensures var acts := KeyActs(kb, id, group, desired, again, lang, sh);
            InStepThroughout(w, p, kb, acts, sh) <==> NoneStale(kb, acts, sh)
  {
    if id == NEXT_GROUP || id == PREV_GROUP {
      ActsInSync(kb, w, p, [], sh);
    } else if id in {SET_MODIFIERS, CLEAR_MODIFIERS} {
      ModifiersReplay(kb, w, p, id, group, desired, again, lang, sh);
    } else if id !in MODIFIER_IDS && IsCommand(desired) {
      CommandInStepExactly(kb, w, p, id, group, desired, again, lang, sh);
    } else {
      CharacterInStepExactly(kb, w, p, id, group, desired, again, lang, sh);
    }
  }

  lemma CharacterInStepExactly(kb: Keyboard, w: Wiring, p: Physical, id: nat, group: nat, desired: Mask, again: bool,
                               lang: string, sh: Shadow)
    requires Plain(w, kb) && WiredKeys(w, kb) && InSync(w, p, sh) && CharacterServed(kb, id, group, desired, lang)
    ensures var acts := CharacterActs(kb, id, group, desired, again, lang, sh);
            InStepThroughout(w, p, kb, acts, sh) <==> NoneStale(kb, acts, sh)
  {
    ActsInSync(kb, w, p, [], sh);
    if id in kb.keyIDMap {
      var from := LanguageGroup(kb, group, lang);
      CharacterKeysWired(kb, w, kb.keyIDMap[id], from, desired, 0);
      var list := CharacterKeys(kb, kb.keyIDMap[id], from, desired, 0);
      if list.Some? {
        PlainFits(w, list.value);
        ItemsInSync(kb, w, p, list.value, group, desired, {}, again, lang, sh);
      }
    }
  }

  lemma CommandInStepExactly(kb: Keyboard, w: Wiring, p: Physical, id: nat, group: nat, desired: Mask, again: bool,
                             lang: string, sh: Shadow)
    requires Plain(w, kb) && WiredKeys(w, kb) && InSync(w, p, sh) && CommandServed(kb, id, group, desired, lang)
    ensures var acts := CommandActs(kb, id, group, desired, again, lang, sh);
            InStepThroughout(w, p, kb, acts, sh) <==> NoneStale(kb, acts, sh)
  {
    ActsInSync(kb, w, p, [], sh);
    if id in kb.keyIDMap {
      CommandKeyWired(kb, w, kb.keyIDMap[id], group, desired, 0);
      var key := CommandKey(kb, kb.keyIDMap[id], group, desired, 0);
      if key.Some? {
        PlainFits(w, [key.value]);
        ItemsInSync(kb, w, p, [key.value], group, Wanted(desired, sh.state), OVERRIDE, again, lang, sh);
      }
    }
  }
}
