/** What the keyboards of the main theorems have in common, and what addKeystrokes does
    to the buttons the multimap of held modifier keys names.
 */
module KeyWiring {
  import opened KeyMasks
  import opened KeyData
  import opened KeySpec

  /** The one modifier a button generates, and whether it locks. */
  datatype Wire = Wire(bit: nat, lock: bool)

  /** The modifier buttons of a keyboard. */
  type Wiring = map<nat, Wire>

  /** An item that generates a modifier is on a button wired for it, and one that does
      not shares no button with one that does. */
  ghost predicate Fits(w: Wiring, item: KeyItem) {
    if item.generates == {} then item.button !in w
    else item.button in w && item.generates == {w[item.button].bit} && item.lock == w[item.button].lock
  }

  ghost predicate OneButtonPerLock(w: Wiring) {
    forall u, v | u in w && v in w && w[u].lock && w[u].bit == w[v].bit :: u == v
  }

  ghost predicate Wired(w: Wiring, kb: Keyboard) {
    && OneButtonPerLock(w)
    && forall i, j | 0 <= i < |kb.modifierKeys| && 0 <= j < |kb.modifierKeys[i]| ::
         Fits(w, kb.modifierKeys[i][j])
  }

  // ---- the buttons of a multimap ----

  /** How many nodes are on button `v`. */
  function Count(m: Modifiers, v: nat): nat {
    if m == [] then 0 else (if m[0].item.button == v then 1 else 0) + Count(m[1..], v)
  }

  ghost predicate TidyNode(w: Wiring, h: Held) {
    h.mask == h.item.generates && h.mask != {} && Fits(w, h.item)
  }

  ghost predicate Tidy(w: Wiring, m: Modifiers) {
    forall h | h in m :: TidyNode(w, h)
  }

  ghost predicate HoldsBit(w: Wiring, m: Modifiers, b: nat) {
    exists v | v in w :: w[v].bit == b && Count(m, v) > 0
  }

  /** Modifier `b` is on exactly when the multimap holds a key for it. */
  ghost predicate BitAgrees(w: Wiring, sh: Shadow, b: nat) {
    b in sh.state <==> HoldsBit(w, sh.active, b)
  }

  /** The shadow state is consistent: the multimap holds keys of this keyboard, and a
      modifier is on exactly when the multimap holds a key for it. */
  ghost predicate Agrees(w: Wiring, sh: Shadow) {
    && Tidy(w, sh.active)
    && forall b :: BitAgrees(w, sh, b)
  }

  /** Modifier `b` and how often its buttons are held are the same. */
  ghost predicate SameBit(w: Wiring, sh: Shadow, sh': Shadow, b: nat) {
    && (b in sh'.state <==> b in sh.state)
    && forall v | v in w && w[v].bit == b :: Count(sh'.active, v) == Count(sh.active, v)
  }

  lemma {:induction false} HeldAreWired(w: Wiring, m: Modifiers, v: nat)
    requires Tidy(w, m) && Count(m, v) > 0
    ensures v in w
  {
    if m[0].item.button == v {
      assert TidyNode(w, m[0]);
    } else {
      HeldAreWired(w, m[1..], v);
    }
  }

  lemma {:induction false} ButtonSetCounts(m: Modifiers, v: nat)
    ensures v in ButtonSet(m) <==> Count(m, v) > 0
  {
    if m != [] {
      ButtonSetCounts(m[1..], v);
      assert forall i | 0 <= i < |m| - 1 :: m[1..][i] == m[i + 1];
      if v in ButtonSet(m) && m[0].item.button != v {
        var i :| 0 <= i < |m| && m[i].item.button == v;
        assert m[1..][i - 1].item.button == v;
      }
      if v in ButtonSet(m[1..]) {
        var i :| 0 <= i < |m[1..]| && m[1..][i].item.button == v;
        assert m[i + 1].item.button == v;
      }
      if m[0].item.button == v {
        assert v in ButtonSet(m);
      }
    }
  }

  lemma {:induction false} InsertHeld(w: Wiring, m: Modifiers, h: Held)
    ensures forall v :: Count(Insert(m, h), v) == Count(m, v) + if v == h.item.button then 1 else 0
    ensures Tidy(w, m) && TidyNode(w, h) ==> Tidy(w, Insert(m, h))
  {
    if m == [] || Less(h.mask, m[0].mask) {
      assert ([h] + m)[1..] == m;
      assert [h][1..] == [];
    } else {
      InsertHeld(w, m[1..], h);
      var rest := Insert(m[1..], h);
      assert ([m[0]] + rest)[1..] == rest;
    }
  }

  lemma {:induction false} EraseAllHeld(w: Wiring, m: Modifiers, b: nat)
    requires Tidy(w, m)
    ensures Tidy(w, EraseAll(m, {b}))
    ensures forall v :: Count(EraseAll(m, {b}), v) == if v in w && w[v].bit == b then 0 else Count(m, v)
  {
    if m != [] {
      assert TidyNode(w, m[0]);
      EraseAllHeld(w, m[1..], b);
      var rest := EraseAll(m[1..], {b});
      assert ([m[0]] + rest)[1..] == rest;
      assert m[0].mask == {b} <==> w[m[0].item.button].bit == b;
    }
  }

  lemma {:induction false} EraseButtonHeld(w: Wiring, m: Modifiers, u: nat)
    requires Tidy(w, m) && u in w
    ensures Tidy(w, EraseButton(m, {w[u].bit}, u))
    ensures forall v :: Count(EraseButton(m, {w[u].bit}, u), v) ==
                        if v == u && Count(m, v) > 0 then Count(m, v) - 1 else Count(m, v)
  {
    if m != [] {
      assert TidyNode(w, m[0]);
      if m[0].item.button != u {
        EraseButtonHeld(w, m[1..], u);
        var rest := EraseButton(m[1..], {w[u].bit}, u);
        assert ([m[0]] + rest)[1..] == rest;
      }
    }
  }

  lemma {:induction false} EqualRangeHeld(w: Wiring, m: Modifiers, b: nat)
    requires Tidy(w, m)
    ensures forall v :: Count(EqualRange(m, {b}), v) == if v in w && w[v].bit == b then Count(m, v) else 0
  {
    if m != [] {
      assert TidyNode(w, m[0]);
      EqualRangeHeld(w, m[1..], b);
      var rest := EqualRange(m[1..], {b});
      assert ([m[0]] + rest)[1..] == rest;
      assert m[0].mask == {b} <==> w[m[0].item.button].bit == b;
    }
  }

  lemma EqualRangeEmpty(w: Wiring, m: Modifiers, b: nat)
    requires Tidy(w, m)
    ensures EqualRange(m, {b}) == [] <==> !HoldsBit(w, m, b)
  {
    EqualRangeHeld(w, m, b);
    var range := EqualRange(m, {b});
    if range != [] {
      var u := range[0].item.button;
      assert Count(range, u) > 0;
      assert u in w && w[u].bit == b && Count(m, u) > 0;
    }
    if HoldsBit(w, m, b) {
      var v :| v in w && w[v].bit == b && Count(m, v) > 0;
      assert Count(range, v) > 0;
    }
  }

  // ---- what one call of addKeystrokes does to them ----

  /** How often button `v` is held after keystrokes of type `ty` for `item`. */
  ghost function CountAfter(w: Wiring, ty: EKeystroke, item: KeyItem, m: Modifiers, v: nat): nat {
    var u := item.button;
    var n := Count(m, v);
    match ty
    case Press =>
      if v != u || item.generates == {} then n else if !item.lock || n == 0 then n + 1 else 0
    case Release =>
      if v != u || item.generates == {} || item.lock || n == 0 then n else n - 1
    case Repeat => n
    case Click => n
    case Modify => if v == u then n + 1 else n
    case Unmodify => if v in w && u in w && w[v].bit == w[u].bit then 0 else n
  }

  /** A lock is on exactly when its button is in the multimap. */
  lemma LockHeld(w: Wiring, sh: Shadow, u: nat)
    requires OneButtonPerLock(w) && u in w && w[u].lock && BitAgrees(w, sh, w[u].bit)
    ensures w[u].bit in sh.state <==> Count(sh.active, u) > 0
  {
    if HoldsBit(w, sh.active, w[u].bit) {
      var v :| v in w && w[v].bit == w[u].bit && Count(sh.active, v) > 0;
      assert v == u;
    }
  }

  lemma SameBitAgrees(w: Wiring, sh: Shadow, sh': Shadow, b: nat)
    requires SameBit(w, sh, sh', b)
    ensures BitAgrees(w, sh', b) <==> BitAgrees(w, sh, b)
  {
    if HoldsBit(w, sh.active, b) {
      var v :| v in w && w[v].bit == b && Count(sh.active, v) > 0;
      assert Count(sh'.active, v) > 0;
    }
    if HoldsBit(w, sh'.active, b) {
      var v :| v in w && w[v].bit == b && Count(sh'.active, v) > 0;
      assert Count(sh.active, v) > 0;
    }
  }

  lemma KeysDoNotMatter(w: Wiring, sh: Shadow, sh': Shadow)
    requires Agrees(w, sh) && sh'.active == sh.active && sh'.state == sh.state
    ensures Agrees(w, sh')
  {
    forall b ensures BitAgrees(w, sh', b) {
      assert BitAgrees(w, sh, b);
    }
  }

  /** Inserting a node and setting its modifier. */
  lemma InsertBit(w: Wiring, sh: Shadow, item: KeyItem, b: nat)
    requires Tidy(w, sh.active) && Fits(w, item) && item.generates != {}
    ensures var sh' := sh.(active := Insert(sh.active, Held(item.generates, item)),
                           state := sh.state + item.generates);
            && Tidy(w, sh'.active)
            && if item.generates == {b} then BitAgrees(w, sh', b) else SameBit(w, sh, sh', b)
  {
    var u, h := item.button, Held(item.generates, item);
    assert TidyNode(w, h);
    InsertHeld(w, sh.active, h);
    if item.generates == {b} {
      assert u in w && w[u].bit == b && Count(Insert(sh.active, h), u) > 0;
    }
  }

  /** Erasing every node of a modifier and clearing it. */
  lemma EraseBit(w: Wiring, sh: Shadow, c: nat, b: nat)
    requires Tidy(w, sh.active)
    ensures var sh' := sh.(active := EraseAll(sh.active, {c}), state := sh.state - {c});
            && Tidy(w, sh'.active)
            && if b == c then BitAgrees(w, sh', b) else SameBit(w, sh, sh', b)
  {
    EraseAllHeld(w, sh.active, c);
  }

  /** Erasing one node, and clearing its modifier if it was the last. */
  lemma ReleaseBit(w: Wiring, sh: Shadow, u: nat, b: nat)
    requires Tidy(w, sh.active) && u in w
    ensures var c := w[u].bit;
            var active := EraseButton(sh.active, {c}, u);
            var sh' := sh.(active := active,
                           state := if EqualRange(active, {c}) == [] then sh.state - {c} else sh.state);
            && Tidy(w, sh'.active)
            && if b == c then BitAgrees(w, sh, b) ==> BitAgrees(w, sh', b) else SameBit(w, sh, sh', b)
  {
    var c := w[u].bit;
    var active := EraseButton(sh.active, {c}, u);
    EraseButtonHeld(w, sh.active, u);
    EqualRangeEmpty(w, active, c);
    if HoldsBit(w, active, c) {
      var v :| v in w && w[v].bit == c && Count(active, v) > 0;
      assert Count(sh.active, v) > 0;
    }
  }

  /** What one call of addKeystrokes does to modifier `b`: a call for another modifier
      leaves it alone, and one that presses it or changes it makes it agree. */
  lemma AddKeystrokesBit(kb: Keyboard, w: Wiring, ty: EKeystroke, item: KeyItem, sh: Shadow, b: nat)
    requires Tidy(w, sh.active) && Fits(w, item)
    requires ty in {Modify, Unmodify} ==> item.generates != {}
    ensures var sh' := AddKeystrokes(kb, ty, item, sh);
            && Tidy(w, sh'.active)
            && (item.generates != {b} || ty in {Repeat, Click} ==> SameBit(w, sh, sh', b))
            && (item.generates == {b} && ty in {Press, Modify, Unmodify} ==> BitAgrees(w, sh', b))
            && (BitAgrees(w, sh, b) ==> BitAgrees(w, sh', b))
  {
    var sh' := AddKeystrokes(kb, ty, item, sh);
    if item.generates != {} {
      match ty
      case Press =>
        InsertBit(w, sh, item, b);
        EraseBit(w, sh, w[item.button].bit, b);
      case Release => ReleaseBit(w, sh, item.button, b);
      case Modify => InsertBit(w, sh, item, b);
      case Unmodify => EraseBit(w, sh, w[item.button].bit, b);
      case _ =>
    }
    if SameBit(w, sh, sh', b) {
      SameBitAgrees(w, sh, sh', b);
    }
  }

  /** addKeystrokes keeps the shadow state consistent, whatever the keystroke. */
  lemma AddKeystrokesAgrees(kb: Keyboard, w: Wiring, ty: EKeystroke, item: KeyItem, sh: Shadow)
    requires Agrees(w, sh) && Fits(w, item)
    requires ty in {Modify, Unmodify} ==> item.generates != {}
    ensures Agrees(w, AddKeystrokes(kb, ty, item, sh))
  {
    forall b ensures BitAgrees(w, AddKeystrokes(kb, ty, item, sh), b) {
      AddKeystrokesBit(kb, w, ty, item, sh, b);
    }
    AddKeystrokesBit(kb, w, ty, item, sh, 0);
  }

  /** The buttons addKeystrokes leaves in the multimap.  A locking key is pressed on or off
      by the modifier state, so that must agree for it. */
  lemma AddKeystrokesCounts(kb: Keyboard, w: Wiring, ty: EKeystroke, item: KeyItem, sh: Shadow, v: nat)
    requires OneButtonPerLock(w) && Tidy(w, sh.active) && Fits(w, item)
    requires ty in {Modify, Unmodify} ==> item.generates != {}
    requires ty == Press && item.lock && item.generates != {} ==> BitAgrees(w, sh, w[item.button].bit)
    ensures Count(AddKeystrokes(kb, ty, item, sh).active, v) == CountAfter(w, ty, item, sh.active, v)
  {
    if item.generates != {} {
      var u := item.button;
      match ty
      case Press =>
        InsertHeld(w, sh.active, Held(item.generates, item));
        EraseAllHeld(w, sh.active, w[u].bit);
        if item.lock {
          LockHeld(w, sh, u);
          assert sh.state * item.generates == {} <==> w[u].bit !in sh.state;
        }
      case Release => EraseButtonHeld(w, sh.active, u);
      case Modify => InsertHeld(w, sh.active, Held(item.generates, item));
      case Unmodify => EraseAllHeld(w, sh.active, w[u].bit);
      case _ =>
    }
  }
}
