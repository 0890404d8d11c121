/** Playing the emitted keystrokes on a physical keyboard brings it to the state the
    shadow modifiers describe, exactly as long as no call presses what is held or
    toggles what is already as it should be.
 */
module KeyReplay {
  import opened KeyMasks
  import opened KeyData
  import opened KeySpec
  import opened KeyWiring
  import opened KeySteps
  import opened KeyNeutrality

  /** A keyboard: the buttons that are down and the locks that are on. */
  datatype Physical = Physical(down: set<nat>, locks: Mask)

  /** A press of a locking button toggles its lock; its release does nothing to it. */
  function Strike(w: Wiring, k: Keystroke, p: Physical): Physical {
    match k
    case Group(_, _, _) => p
    case Button(u, press, _, _) =>
      if press then
        Physical(p.down + {u},
                 if u in w && w[u].lock then
                   (if w[u].bit in p.locks then p.locks - {w[u].bit} else p.locks + {w[u].bit})
                 else p.locks)
      else p.(down := p.down - {u})
  }

  function Replay(w: Wiring, keys: seq<Keystroke>, p: Physical): Physical {
    if keys == [] then p else Strike(w, keys[|keys| - 1], Replay(w, keys[..|keys| - 1], p))
  }

  lemma {:induction false} ReplayConcat(w: Wiring, a: seq<Keystroke>, b: seq<Keystroke>, p: Physical)
    ensures Replay(w, a + b, p) == Replay(w, b, Replay(w, a, p))
  {
    if b == [] {
      assert a + b == a;
    } else {
      assert (a + b)[..|a + b| - 1] == a + b[..|b| - 1];
      ReplayConcat(w, a, b[..|b| - 1], p);
    }
  }

  /** The keyboard agrees with the shadow state on a button: it is not held twice, an
      ordinary modifier button is down exactly when the multimap holds it, and a lock is
      on exactly when the modifier state says so. */
  ghost predicate ButtonInState(w: Wiring, sh: Shadow, p: Physical, v: nat) {
    && Count(sh.active, v) <= 1
    && (v in w && !w[v].lock ==> (v in p.down <==> Count(sh.active, v) > 0))
    && (v in w && w[v].lock ==> (w[v].bit in p.locks <==> w[v].bit in sh.state))
  }

  ghost predicate InState(w: Wiring, sh: Shadow, p: Physical) {
    Agrees(w, sh) && forall v :: ButtonInState(w, sh, p, v)
  }

  /** The keystrokes so far, played from `p0`, have brought the keyboard into the shadow state. */
  ghost predicate InSync(w: Wiring, p0: Physical, sh: Shadow) {
    InState(w, sh, Replay(w, sh.keys, p0))
  }

  /** Locking buttons are full duplex: every press toggles them. */
  ghost predicate FullDuplex(w: Wiring, kb: Keyboard) {
    forall v | v in w && w[v].lock :: v !in kb.halfDuplex
  }

  /** The platform sends key presses for an autorepeat. */
  predicate Repeats(kb: Keyboard) {
    kb.platform in {Windows, Mac}
  }

  /** A button that is pressed is not already held, one that is repeated is, a lock that is
      released is on, and a lock is neither clicked nor repeated. */
  ghost predicate Allowed(kb: Keyboard, ty: EKeystroke, item: KeyItem, sh: Shadow) {
    var held := Count(sh.active, item.button) > 0;
    match ty
    case Press => item.generates != {} && !item.lock ==> !held
    case Release => true
    case Repeat => item.generates != {} && Repeats(kb) ==> !item.lock && held
    case Click => item.generates != {} ==> !item.lock && !held
    case Modify => !held
    case Unmodify => item.lock ==> held
  }

  // ---- one call ----

  /** Lifting the keys of a range. */
  lemma {:induction false} LiftsReplay(w: Wiring, range: Modifiers, p: Physical)
    ensures Replay(w, Lifts(range), p).locks == p.locks
    ensures forall v :: v in Replay(w, Lifts(range), p).down <==> v in p.down && Count(range, v) == 0
  {
    if range != [] {
      var first := Button(range[0].item.button, false, false, range[0].item.client);
      assert Lifts(range) == [first] + Lifts(range[1..]);
      ReplayConcat(w, [first], Lifts(range[1..]), p);
      OneStroke(w, first, p);
      LiftsReplay(w, range[1..], Strike(w, first, p));
    }
  }

  /** The keystrokes one call appends. */
  function Strokes(kb: Keyboard, ty: EKeystroke, item: KeyItem, sh: Shadow): seq<Keystroke> {
    AddKeystrokes(kb, ty, item, sh.(keys := [])).keys
  }

  lemma StrokesAppended(kb: Keyboard, ty: EKeystroke, item: KeyItem, sh: Shadow)
    ensures AddKeystrokes(kb, ty, item, sh).keys == sh.keys + Strokes(kb, ty, item, sh)
  {}

  lemma OneStroke(w: Wiring, k: Keystroke, p: Physical)
    ensures Replay(w, [k], p) == Strike(w, k, p)
  {
    assert [k][..0] == [];
    assert Replay(w, [], p) == p;
  }

  lemma TwoStrokes(w: Wiring, j: Keystroke, k: Keystroke, p: Physical)
    ensures Replay(w, [j, k], p) == Strike(w, k, Strike(w, j, p))
  {
    assert [j, k][..1] == [j];
    OneStroke(w, j, p);
  }

  /** What a call does to modifier button `v`, which is its own button or not. */
  ghost predicate DownAfter(kb: Keyboard, ty: EKeystroke, item: KeyItem, m: Modifiers, v: nat, before: bool,
                            after: bool)
  {
    var own := v == item.button;
    match ty
    case Press => after <==> before || own
    case Release => after <==> before && !own
    case Repeat => after <==> before || (own && Repeats(kb))
    case Click => after <==> before && !own
    case Modify => after <==> before || own
    case Unmodify => after <==> before && (item.lock || Count(EqualRange(m, item.generates), v) == 0)
  }

  /** Whether it toggles the lock of its own button. */
  predicate Toggles(kb: Keyboard, ty: EKeystroke) {
    match ty
    case Release => false
    case Repeat => Repeats(kb)
    case _ => true
  }

  ghost predicate Played(kb: Keyboard, w: Wiring, ty: EKeystroke, item: KeyItem, m: Modifiers, v: nat,
                         p: Physical, p': Physical)
    requires v in w
  {
    if w[v].lock then w[v].bit in p'.locks <==> (w[v].bit in p.locks) != (v == item.button && Toggles(kb, ty))
    else DownAfter(kb, ty, item, m, v, v in p.down, v in p'.down)
  }

  /** What a call's keystrokes do to a modifier button or its lock. */
  lemma StrokesPlayed(kb: Keyboard, w: Wiring, ty: EKeystroke, item: KeyItem, sh: Shadow, p: Physical, v: nat)
    requires OneButtonPerLock(w) && FullDuplex(w, kb) && Fits(w, item) && v in w
    requires ty in {Modify, Unmodify} ==> item.generates != {}
    ensures Played(kb, w, ty, item, sh.active, v, p, Replay(w, Strokes(kb, ty, item, sh), p))
  {
    match ty
    case Press => PressPlayed(kb, w, item, sh, p, v);
    case Release => ReleasePlayed(kb, w, item, sh, p, v);
    case Repeat => RepeatPlayed(kb, w, item, sh, p, v);
    case Click => ClickPlayed(kb, w, item, sh, p, v);
    case Modify => ModifyPlayed(kb, w, item, sh, p, v);
    case Unmodify => UnmodifyPlayed(kb, w, item, sh, p, v);
  }

  /** One button stroke. */
  lemma StrikePlayed(w: Wiring, k: Keystroke, p: Physical, v: nat)
    requires OneButtonPerLock(w) && k.Button? && v in w
    ensures v in Strike(w, k, p).down <==> if v == k.button then k.press else v in p.down
    ensures w[v].lock ==> (w[v].bit in Strike(w, k, p).locks <==> (w[v].bit in p.locks) != (v == k.button && k.press))
  {
    var u := k.button;
    if u in w && w[u].lock && w[v].lock && w[u].bit == w[v].bit {
      assert u == v;
    }
  }

  /** Two strokes of one button, of which one is a press. */
  lemma Clicked(w: Wiring, j: Keystroke, k: Keystroke, p: Physical, v: nat)
    requires OneButtonPerLock(w) && j.Button? && k.Button? && j.button == k.button && j.press != k.press && v in w
    ensures var p' := Replay(w, [j, k], p);
            && (v in p'.down <==> if v == k.button then k.press else v in p.down)
            && (w[v].lock ==> (w[v].bit in p'.locks <==> (w[v].bit in p.locks) != (v == k.button)))
  {
    TwoStrokes(w, j, k, p);
    StrikePlayed(w, j, p, v);
    StrikePlayed(w, k, Strike(w, j, p), v);
  }

  lemma PressPlayed(kb: Keyboard, w: Wiring, item: KeyItem, sh: Shadow, p: Physical, v: nat)
    requires OneButtonPerLock(w) && v in w
    ensures Played(kb, w, Press, item, sh.active, v, p, Replay(w, Strokes(kb, Press, item, sh), p))
  {
    var down := Button(item.button, true, false, item.client);
    assert Strokes(kb, Press, item, sh) == [down];
    OneStroke(w, down, p);
    StrikePlayed(w, down, p, v);
  }

  lemma ReleasePlayed(kb: Keyboard, w: Wiring, item: KeyItem, sh: Shadow, p: Physical, v: nat)
    requires OneButtonPerLock(w) && v in w
    ensures Played(kb, w, Release, item, sh.active, v, p, Replay(w, Strokes(kb, Release, item, sh), p))
  {
    var up := Button(item.button, false, false, item.client);
    assert Strokes(kb, Release, item, sh) == [up];
    OneStroke(w, up, p);
    StrikePlayed(w, up, p, v);
  }

  lemma RepeatPlayed(kb: Keyboard, w: Wiring, item: KeyItem, sh: Shadow, p: Physical, v: nat)
    requires OneButtonPerLock(w) && v in w
    ensures Played(kb, w, Repeat, item, sh.active, v, p, Replay(w, Strokes(kb, Repeat, item, sh), p))
  {
    var down := Button(item.button, true, true, item.client);
    var up := Button(item.button, false, true, item.client);
    var strokes := Strokes(kb, Repeat, item, sh);
    match kb.platform
    case Windows =>
      assert strokes == [up, down];
      Clicked(w, up, down, p, v);
    case Mac =>
      assert strokes == [down];
      OneStroke(w, down, p);
      StrikePlayed(w, down, p, v);
    case Other => assert strokes == [];
  }

  lemma ClickPlayed(kb: Keyboard, w: Wiring, item: KeyItem, sh: Shadow, p: Physical, v: nat)
    requires OneButtonPerLock(w) && v in w
    ensures Played(kb, w, Click, item, sh.active, v, p, Replay(w, Strokes(kb, Click, item, sh), p))
  {
    var down := Button(item.button, true, false, item.client);
    var up := Button(item.button, false, false, item.client);
    assert Strokes(kb, Click, item, sh) == [down, up];
    Clicked(w, down, up, p, v);
  }

  lemma ModifyPlayed(kb: Keyboard, w: Wiring, item: KeyItem, sh: Shadow, p: Physical, v: nat)
    requires OneButtonPerLock(w) && FullDuplex(w, kb) && Fits(w, item) && item.generates != {} && v in w
    ensures Played(kb, w, Modify, item, sh.active, v, p, Replay(w, Strokes(kb, Modify, item, sh), p))
  {
    var down := Button(item.button, true, false, item.client);
    var up := Button(item.button, false, false, item.client);
    if item.lock {
      assert Strokes(kb, Modify, item, sh) == [down, up];
      Clicked(w, down, up, p, v);
    } else {
      assert Strokes(kb, Modify, item, sh) == [down];
      OneStroke(w, down, p);
      StrikePlayed(w, down, p, v);
    }
  }

  lemma UnmodifyPlayed(kb: Keyboard, w: Wiring, item: KeyItem, sh: Shadow, p: Physical, v: nat)
    requires OneButtonPerLock(w) && FullDuplex(w, kb) && Fits(w, item) && item.generates != {} && v in w
    ensures Played(kb, w, Unmodify, item, sh.active, v, p, Replay(w, Strokes(kb, Unmodify, item, sh), p))
  {
    var down := Button(item.button, true, false, item.client);
    var up := Button(item.button, false, false, item.client);
    if item.lock {
      assert Strokes(kb, Unmodify, item, sh) == [down, up];
      Clicked(w, down, up, p, v);
    } else {
      var range := EqualRange(sh.active, item.generates);
      assert Strokes(kb, Unmodify, item, sh) == Lifts(range);
      LiftsReplay(w, range, p);
    }
  }

  /** After a call a lock is on exactly when the call leaves its button in the multimap. */
  lemma LockAfter(kb: Keyboard, w: Wiring, ty: EKeystroke, item: KeyItem, sh: Shadow, v: nat)
    requires OneButtonPerLock(w) && Agrees(w, sh) && Fits(w, item) && v in w && w[v].lock
    requires ty in {Modify, Unmodify} ==> item.generates != {}
    ensures w[v].bit in AddKeystrokes(kb, ty, item, sh).state <==> CountAfter(w, ty, item, sh.active, v) > 0
  {
    AddKeystrokesAgrees(kb, w, ty, item, sh);
    AddKeystrokesCounts(kb, w, ty, item, sh, v);
    LockHeld(w, AddKeystrokes(kb, ty, item, sh), v);
  }

  /** An ordinary modifier button, or one of no modifier, after a call. */
  lemma OrdinaryInStep(kb: Keyboard, w: Wiring, ty: EKeystroke, item: KeyItem, sh: Shadow, p: Physical, v: nat)
    requires OneButtonPerLock(w) && FullDuplex(w, kb) && InState(w, sh, p) && Fits(w, item)
    requires ty in {Modify, Unmodify} ==> item.generates != {}
    requires !(v in w && w[v].lock)
    ensures ButtonInState(w, AddKeystrokes(kb, ty, item, sh), Replay(w, Strokes(kb, ty, item, sh), p), v)
            <==> (v == item.button ==> Allowed(kb, ty, item, sh))
  {
    assert BitAgrees(w, sh, if item.button in w then w[item.button].bit else 0) && ButtonInState(w, sh, p, v);
    AddKeystrokesCounts(kb, w, ty, item, sh, v);
    if v in w {
      StrokesPlayed(kb, w, ty, item, sh, p, v);
      if ty == Unmodify {
        EqualRangeHeld(w, sh.active, w[item.button].bit);
      }
    } else {
      NotHeld(w, sh.active, v);
    }
  }

  /** A locking button after a call. */
  lemma LockInStep(kb: Keyboard, w: Wiring, ty: EKeystroke, item: KeyItem, sh: Shadow, p: Physical, v: nat)
    requires OneButtonPerLock(w) && FullDuplex(w, kb) && InState(w, sh, p) && Fits(w, item)
    requires ty in {Modify, Unmodify} ==> item.generates != {}
    requires v in w && w[v].lock
    ensures ButtonInState(w, AddKeystrokes(kb, ty, item, sh), Replay(w, Strokes(kb, ty, item, sh), p), v)
            <==> (v == item.button ==> Allowed(kb, ty, item, sh))
  {
    assert BitAgrees(w, sh, w[v].bit) && ButtonInState(w, sh, p, v);
    assert item.button in w ==> BitAgrees(w, sh, w[item.button].bit);
    AddKeystrokesCounts(kb, w, ty, item, sh, v);
    StrokesPlayed(kb, w, ty, item, sh, p, v);
    LockAfter(kb, w, ty, item, sh, v);
    LockHeld(w, sh, v);
    assert item.button in w && w[item.button].bit == w[v].bit ==> v == item.button;
  }

  /** A call keeps the keyboard and the shadow state in step exactly when it is allowed. */
  lemma AddKeystrokesInSync(kb: Keyboard, w: Wiring, p0: Physical, ty: EKeystroke, item: KeyItem, sh: Shadow)
    requires OneButtonPerLock(w) && FullDuplex(w, kb) && InSync(w, p0, sh) && Fits(w, item)
    requires ty in {Modify, Unmodify} ==> item.generates != {}
    ensures InSync(w, p0, AddKeystrokes(kb, ty, item, sh)) <==> Allowed(kb, ty, item, sh)
  {
    var sh' := AddKeystrokes(kb, ty, item, sh);
    var p := Replay(w, sh.keys, p0);
    var strokes := Strokes(kb, ty, item, sh);
    StrokesAppended(kb, ty, item, sh);
    ReplayConcat(w, sh.keys, strokes, p0);
    AddKeystrokesAgrees(kb, w, ty, item, sh);
    forall v
      ensures ButtonInState(w, sh', Replay(w, strokes, p), v) <==> (v == item.button ==> Allowed(kb, ty, item, sh))
    {
      if v in w && w[v].lock {
        LockInStep(kb, w, ty, item, sh, p, v);
      } else {
        OrdinaryInStep(kb, w, ty, item, sh, p, v);
      }
    }
    assert ButtonInState(w, sh', Replay(w, strokes, p), item.button) <==> Allowed(kb, ty, item, sh);
  }
}
