/** Modifier keys that are sensitive to other modifiers: each is struck only while those are
    as it requires, and matching a state fails only where that cannot be had.
 */
module KeyFlips {
  import opened KeyMasks
  import opened KeyData
  import opened KeySpec
  import opened KeySteps

  /** keyForModifier finds the first key listed that is not on the button. */
  lemma {:induction false} FirstOtherIsFirst(items: KeyItemList, button: nat)
    ensures match FirstOther(items, button)
            case None => forall i | 0 <= i < |items| :: items[i].button == button
            case Some(item) =>
              exists n | 0 <= n < |items| ::
                items[n] == item && item.button != button && forall i | 0 <= i < n :: items[i].button == button
  {
    if items != [] {
      if items[0].button == button {
        FirstOtherIsFirst(items[1..], button);
        var r := FirstOther(items[1..], button);
        if r.Some? {
          var n :| 0 <= n < |items[1..]| && items[1..][n] == r.value
            && forall i | 0 <= i < n :: items[1..][i].button == button;
          assert items[n + 1] == r.value;
          assert forall i | 1 <= i < n + 1 :: items[i] == items[1..][i - 1];
        } else {
          assert forall i | 1 <= i < |items| :: items[i] == items[1..][i - 1];
        }
      } else {
        assert items[0] == FirstOther(items, button).value;
      }
    }
  }

  // ---- what a key is sensitive to when it is struck ----

  /** The modifiers that the key is sensitive to, beside those it generates, are as it
      requires. */
  ghost predicate Matched(item: KeyItem, state: Mask) {
    forall c | c in item.sensitive && c !in item.generates :: c in state <==> c in item.required
  }

  /** Each act flips a modifier while its key is matched. */
  ghost predicate Prepared(kb: Keyboard, acts: seq<Act>, sh: Shadow) {
    acts != [] ==>
      && acts[0].Stroke? && Matched(acts[0].item, sh.state)
      && Prepared(kb, acts[1..], Do(kb, acts[0], sh))
  }

  lemma {:induction false} PreparedConcat(kb: Keyboard, a: seq<Act>, b: seq<Act>, sh: Shadow)
    requires Prepared(kb, a, sh) && Prepared(kb, b, DoAll(kb, a, sh))
    ensures Prepared(kb, a + b, sh)
  {
    if a == [] {
      assert a + b == b;
    } else {
      assert (a + b)[1..] == a[1..] + b;
      PreparedConcat(kb, a[1..], b, Do(kb, a[0], sh));
    }
  }

  lemma PreparedFlip(kb: Keyboard, button: nat, group: nat, b: nat, press: bool, notRequired: Mask, sh: Shadow)
    requires kb.Ready() && group < kb.numGroups && SingleBits(kb) && b < NUM_BITS
    requires KeyForModifier(kb, button, group, b).Some?
    ensures var item := KeyForModifier(kb, button, group, b).value;
            var (ok, sh1) := PrepareFlip(kb, button, group, b, press, item, notRequired, sh);
            ok ==> Matched(item, sh1.state)
  {
    var item := KeyForModifier(kb, button, group, b).value;
    var (ok, sh1) := PrepareFlip(kb, button, group, b, press, item, notRequired, sh);
    KeyForModifierIs(kb, button, group, b);
    if ok {
      var sensitive := item.sensitive - {b};
      forall c | c in item.sensitive && c !in item.generates ensures c in sh1.state <==> c in item.required {
        assert c in sensitive;
        assert c in sh1.state * sensitive <==> c in item.required * sensitive;
      }
    }
  }

  /** Whether or not it succeeds, matching a modifier state strikes each key only while the
      other modifiers it is sensitive to are as it requires. */
  lemma {:induction false} MatchPrepares(kb: Keyboard, button: nat, group: nat, required: Mask, sensitive: Mask,
                                         notRequired: Mask, sh: Shadow)
    requires kb.Ready() && group < kb.numGroups && SingleBits(kb)
    ensures Prepared(kb, MatchActs(kb, button, group, required, sensitive, notRequired, sh), sh)
    decreases Ceiling(sensitive), 1, 0
  {
    LoopPrepares(kb, button, group, NUM_BITS, Xor(sh.state, required) * sensitive - notRequired, required,
                 notRequired, sh);
  }

  lemma {:induction false} LoopPrepares(kb: Keyboard, button: nat, group: nat, bit: nat, flip: Mask,
                                        required: Mask, notRequired: Mask, sh: Shadow)
    requires kb.Ready() && group < kb.numGroups && SingleBits(kb) && bit <= NUM_BITS
    ensures Prepared(kb, FlipActs(kb, button, group, bit, flip, required, notRequired, sh), sh)
    decreases Ceiling(flip), 0, bit
  {
    if bit > 0 {
      var b := bit - 1;
      var key := KeyForModifier(kb, button, group, b);
      if b !in flip || (key.None? && b in notRequired) {
        LoopPrepares(kb, button, group, b, flip, required, notRequired, sh);
      } else if key.Some? {
        var press := b in required;
        var before := PrepareActs(kb, button, group, b, press, key.value, notRequired, sh);
        var (ok, sh1) := PrepareFlip(kb, button, group, b, press, key.value, notRequired, sh);
        PreparePrepares(kb, button, group, b, press, key.value, notRequired, sh);
        PrepareDone(kb, button, group, b, press, key.value, notRequired, sh);
        if ok {
          var act := Flip(press, key.value);
          var rest := FlipActs(kb, button, group, b, flip, required, notRequired, Do(kb, act, sh1));
          PreparedFlip(kb, button, group, b, press, notRequired, sh);
          LoopPrepares(kb, button, group, b, flip, required, notRequired, Do(kb, act, sh1));
          assert ([act] + rest)[1..] == rest;
          PreparedConcat(kb, before, [act] + rest, sh);
        }
      }
    }
  }

  lemma {:induction false} PreparePrepares(kb: Keyboard, button: nat, group: nat, b: nat, press: bool,
                                           item: KeyItem, notRequired: Mask, sh: Shadow)
    requires kb.Ready() && group < kb.numGroups && SingleBits(kb) && b < NUM_BITS
    ensures Prepared(kb, PrepareActs(kb, button, group, b, press, item, notRequired, sh), sh)
    decreases b, 2, 0
  {
    var sensitive := item.sensitive - {b};
    if !AnyAbove(sensitive, b) && sensitive != {} && press {
      assert Ceiling(sensitive) <= b;
      MatchPrepares(kb, button, group, item.required, sensitive, notRequired, sh);
    }
  }

  // ---- why matching fails ----

  /** The key is sensitive to a higher modifier than its own. */
  ghost predicate Reaches(item: KeyItem, b: nat) {
    exists c | c in item.sensitive :: c > b
  }

  ghost predicate Mismatched(item: KeyItem, b: nat, state: Mask) {
    exists c | c in item.sensitive && c != b :: (c in state) != (c in item.required)
  }

  /** In this state one of the modifiers cannot be flipped. */
  ghost predicate Stuck(kb: Keyboard, button: nat, group: nat, m: Mask, required: Mask, notRequired: Mask,
                        state: Mask)
    requires kb.Ready() && group < kb.numGroups
    decreases Ceiling(m), 0
  {
    exists b: nat | b in m && b < NUM_BITS :: StuckAt(kb, button, group, b, b in required, notRequired, state)
  }

  /** It has no key and cannot be done without; or its key is sensitive to a higher one, or to
      one that is not as the key requires; or it is to be pressed, and one of the modifiers
      its key needs first is stuck itself. */
  ghost predicate StuckAt(kb: Keyboard, button: nat, group: nat, b: nat, press: bool, notRequired: Mask, state: Mask)
    requires kb.Ready() && group < kb.numGroups && b < NUM_BITS
    decreases b, 1
  {
    match KeyForModifier(kb, button, group, b)
    case None => b !in notRequired
    case Some(item) =>
      || Reaches(item, b) || Mismatched(item, b, state)
      || (press && Stuck(kb, button, group, Below(item.sensitive, b), item.required, notRequired, state))
  }

  ghost function Below(m: Mask, b: nat): (r: Mask)
    ensures Ceiling(r) <= b
  {
    set c | c in m && c < b
  }

  /** If matching fails, then, in the state it leaves, a modifier that had to be flipped is
      stuck. */
  lemma {:induction false} MatchFails(kb: Keyboard, button: nat, group: nat, required: Mask, sensitive: Mask,
                                      notRequired: Mask, sh: Shadow)
    requires kb.Ready() && group < kb.numGroups
    ensures var (ok, sh') := KeysForModifierState(kb, button, group, required, sensitive, notRequired, sh);
            var flip := Xor(sh.state, required) * sensitive - notRequired;
            !ok ==> Stuck(kb, button, group, flip, required, notRequired, sh'.state)
  {
    var flip := Xor(sh.state, required) * sensitive - notRequired;
    if !KeysForModifierState(kb, button, group, required, sensitive, notRequired, sh).0 {
      LoopFails(kb, button, group, NUM_BITS, flip, flip, required, notRequired, sh);
    }
  }

  lemma {:induction false} LoopFails(kb: Keyboard, button: nat, group: nat, bit: nat, flip: Mask, m: Mask,
                                     required: Mask, notRequired: Mask, sh: Shadow)
    requires kb.Ready() && group < kb.numGroups && bit <= NUM_BITS && flip <= m
    requires !FlipBelow(kb, button, group, bit, flip, required, notRequired, sh).0
    ensures Stuck(kb, button, group, m, required, notRequired,
                  FlipBelow(kb, button, group, bit, flip, required, notRequired, sh).1.state)
    decreases Ceiling(flip), 0, bit
  {
    if bit > 0 {
      var b := bit - 1;
      var key := KeyForModifier(kb, button, group, b);
      if b !in flip || (key.None? && b in notRequired) {
        LoopFails(kb, button, group, b, flip, m, required, notRequired, sh);
      } else if key.Some? {
        var press := b in required;
        var (ok, sh1) := PrepareFlip(kb, button, group, b, press, key.value, notRequired, sh);
        if ok {
          LoopFails(kb, button, group, b, flip, m, required, notRequired, Do(kb, Flip(press, key.value), sh1));
        } else {
          PrepareFails(kb, button, group, b, press, notRequired, sh);
          StuckIn(kb, button, group, b, m, required, notRequired, sh1.state);
        }
      } else {
        StuckIn(kb, button, group, b, m, required, notRequired, sh.state);
      }
    }
  }

  lemma StuckIn(kb: Keyboard, button: nat, group: nat, b: nat, m: Mask, required: Mask, notRequired: Mask,
                state: Mask)
    requires kb.Ready() && group < kb.numGroups && b < NUM_BITS && b in m
    requires StuckAt(kb, button, group, b, b in required, notRequired, state)
    ensures Stuck(kb, button, group, m, required, notRequired, state)
  {
  }

  lemma {:induction false} PrepareFails(kb: Keyboard, button: nat, group: nat, b: nat, press: bool,
                                        notRequired: Mask, sh: Shadow)
    requires kb.Ready() && group < kb.numGroups && b < NUM_BITS && KeyForModifier(kb, button, group, b).Some?
    requires !PrepareFlip(kb, button, group, b, press, KeyForModifier(kb, button, group, b).value, notRequired, sh).0
    ensures var item := KeyForModifier(kb, button, group, b).value;
            StuckAt(kb, button, group, b, press, notRequired,
                    PrepareFlip(kb, button, group, b, press, item, notRequired, sh).1.state)
    decreases b, 2, 0
  {
    var item := KeyForModifier(kb, button, group, b).value;
    var sensitive := item.sensitive - {b};
    var flip := Xor(sh.state, item.required) * sensitive - notRequired;
    if !AnyAbove(sensitive, b) {
      assert flip <= Below(item.sensitive, b);
      assert Ceiling(flip) <= b;
      if sensitive != {} && press && flip != {}
         && !FlipBelow(kb, button, group, NUM_BITS, flip, item.required, notRequired, sh).0 {
        LoopFails(kb, button, group, NUM_BITS, flip, Below(item.sensitive, b), item.required, notRequired, sh);
      } else {
        Unmatched(item, b, PrepareFlip(kb, button, group, b, press, item, notRequired, sh).1.state);
      }
    }
  }

  lemma Unmatched(item: KeyItem, b: nat, state: Mask)
    ensures state * (item.sensitive - {b}) == item.required * (item.sensitive - {b}) <==> !Mismatched(item, b, state)
  {
    var s := item.sensitive - {b};
    if !Mismatched(item, b, state) {
      forall c ensures c in state * s <==> c in item.required * s {}
    }
    if state * s == item.required * s {
      forall c | c in item.sensitive && c != b ensures (c in state) == (c in item.required) {
        assert c in state * s <==> c in item.required * s;
      }
    }
  }

  /** A modifier that is to be released gets no preparation: it is released at once, if its
      key is matched, or nothing is done at all. */
  lemma ReleasesAtOnce(kb: Keyboard, button: nat, group: nat, required: Mask, sensitive: Mask, notRequired: Mask,
                       sh: Shadow, b: nat)
    requires kb.Ready() && group < kb.numGroups && b < NUM_BITS
    requires var flip := Xor(sh.state, required) * sensitive - notRequired; b in flip && Ceiling(flip) == b + 1
    requires b !in required && KeyForModifier(kb, button, group, b).Some?
    ensures var item := KeyForModifier(kb, button, group, b).value;
            var acts := MatchActs(kb, button, group, required, sensitive, notRequired, sh);
            if Reaches(item, b) || Mismatched(item, b, sh.state) then
              && KeysForModifierState(kb, button, group, required, sensitive, notRequired, sh) == (false, sh)
              && acts == []
            else acts != [] && acts[0] == Stroke(Unmodify, item)
  {
    var flip := Xor(sh.state, required) * sensitive - notRequired;
    var item := KeyForModifier(kb, button, group, b).value;
    SkipTo(kb, button, group, NUM_BITS, b + 1, flip, required, notRequired, sh);
    SkipActs(kb, button, group, NUM_BITS, b + 1, flip, required, notRequired, sh);
    Unmatched(item, b, sh.state);
    AboveIsReached(item, b);
  }

  lemma AboveIsReached(item: KeyItem, b: nat)
    ensures AnyAbove(item.sensitive - {b}, b) <==> Reaches(item, b)
  {
    if Reaches(item, b) {
      var c :| c in item.sensitive && c > b;
      assert c in item.sensitive - {b};
    }
  }

  lemma {:induction false} SkipActs(kb: Keyboard, button: nat, group: nat, bit: nat, to: nat, flip: Mask,
                                    required: Mask, notRequired: Mask, sh: Shadow)
    requires kb.Ready() && group < kb.numGroups && to <= bit <= NUM_BITS
    requires forall b | b in flip && b < bit :: b < to
    ensures FlipActs(kb, button, group, bit, flip, required, notRequired, sh)
            == FlipActs(kb, button, group, to, flip, required, notRequired, sh)
  {
    if bit > to {
      assert bit - 1 !in flip;
      SkipActs(kb, button, group, bit - 1, to, flip, required, notRequired, sh);
    }
  }
}
