/** Compression of mouse motion in the server proxy (ServerProxy.cpp): motion followed by
    more input is put off, and what is put off must not show.
 */
module MouseMotion {

  datatype Point = Point(x: int, y: int)

  function Plus(a: Point, b: Point): Point {
    Point(a.x + b.x, a.y + b.y)
  }

  const ZERO: Point := Point(0, 0)

  /** Messages as the proxy sees them: motion comes with whether more input follows on the
      stream.  `Act` is a key, button, wheel or gesture message, `Quiet` one that touches
      neither the mouse nor the screen, `Stop` one that ends the turn at once.  A malformed
      gesture does so, too, but the motion put off is done first. */
  datatype Message =
    | Move(to: Point, more: bool)
    | RelativeMove(delta: Point, more: bool)
    | Act(what: int)
    | Enter(at: Point, restore: bool)
    | Leave(save: bool)
    | InfoAcknowledgment
    | Quiet
    | Stop
    | BadGesture
  {
    predicate EndsTurn() {
      Stop? || BadGesture?
    }
  }

  /** A run of the proxy: turns of messages, and changes of the screen's shape between them. */
  datatype Input = Turn(messages: seq<Message>) | InfoChanged

  /** What the proxy has the client do. */
  datatype Action =
    | DoMove(to: Point)
    | DoRelativeMove(delta: Point)
    | DoAct(what: int)
    | DoEnter(at: Point, restore: bool)
    | DoLeave(save: bool)
    | TurnEnds

  // ---- the proxy ----

  /** The motion put off: an absolute position, a relative distance, or both. */
  datatype Mouse = Mouse(absolute: bool, relative: bool, to: Point, delta: Point, ignore: bool)

  const INITIAL: Mouse := Mouse(false, false, ZERO, ZERO, false)

  function Flush(m: Mouse): (Mouse, seq<Action>) {
    (m.(absolute := false, relative := false, delta := if m.relative then ZERO else m.delta),
     (if m.absolute then [DoMove(m.to)] else []) + (if m.relative then [DoRelativeMove(m.delta)] else []))
  }

  function Step(m: Mouse, message: Message): (Mouse, seq<Action>) {
    match message
    case Move(to, more) =>
      var absolute := m.absolute || (!m.ignore && more);
      if absolute then (m.(absolute := true, relative := false, to := to, delta := ZERO), [])
      else (m, if m.ignore then [] else [DoMove(to)])
    case RelativeMove(delta, more) =>
      var relative := m.relative || (!m.ignore && more);
      if relative then (m.(relative := true, delta := Plus(m.delta, delta)), [])
      else (m, if m.ignore then [] else [DoRelativeMove(delta)])
    case Act(what) => (Flush(m).0, Flush(m).1 + [DoAct(what)])
    case Enter(at, restore) =>
      (m.(absolute := false, relative := false, delta := ZERO), [DoEnter(at, restore)])
    case Leave(save) => (Flush(m).0, Flush(m).1 + [DoLeave(save)])
    case InfoAcknowledgment => (m.(ignore := false), [])
    case Quiet => (m, [])
    case Stop => (m, [])
    case BadGesture => Flush(m)
  }

  /** A turn ends with a flush, unless it is stopped. */
  function TurnStep(m: Mouse, messages: seq<Message>): (Mouse, seq<Action>)
    decreases |messages|
  {
    if messages == [] then (Flush(m).0, Flush(m).1 + [TurnEnds])
    else if messages[0].EndsTurn() then Step(m, messages[0])
    else
      var now := Step(m, messages[0]);
      var later := TurnStep(now.0, messages[1..]);
      (later.0, now.1 + later.1)
  }

  function InputStep(m: Mouse, input: Input): (Mouse, seq<Action>) {
    match input
    case Turn(messages) => TurnStep(m, messages)
    case InfoChanged => (m.(ignore := true), [])
  }

  function Run(m: Mouse, inputs: seq<Input>): seq<Action>
    decreases |inputs|
  {
    if inputs == [] then []
    else InputStep(m, inputs[0]).1 + Run(InputStep(m, inputs[0]).0, inputs[1..])
  }

  // ---- the proxy that puts nothing off ----

  function PlainStep(ignore: bool, message: Message): (bool, seq<Action>) {
    match message
    case Move(to, _) => (ignore, if ignore then [] else [DoMove(to)])
    case RelativeMove(delta, _) => (ignore, if ignore then [] else [DoRelativeMove(delta)])
    case Act(what) => (ignore, [DoAct(what)])
    case Enter(at, restore) => (ignore, [DoEnter(at, restore)])
    case Leave(save) => (ignore, [DoLeave(save)])
    case InfoAcknowledgment => (false, [])
    case Quiet => (ignore, [])
    case Stop => (ignore, [])
    case BadGesture => (ignore, [])
  }

  function PlainTurn(ignore: bool, messages: seq<Message>): (bool, seq<Action>)
    decreases |messages|
  {
    if messages == [] then (ignore, [TurnEnds])
    else if messages[0].EndsTurn() then PlainStep(ignore, messages[0])
    else
      var now := PlainStep(ignore, messages[0]);
      var later := PlainTurn(now.0, messages[1..]);
      (later.0, now.1 + later.1)
  }

  function PlainInput(ignore: bool, input: Input): (bool, seq<Action>) {
    match input
    case Turn(messages) => PlainTurn(ignore, messages)
    case InfoChanged => (true, [])
  }

  function PlainRun(ignore: bool, inputs: seq<Input>): seq<Action>
    decreases |inputs|
  {
    if inputs == [] then []
    else PlainInput(ignore, inputs[0]).1 + PlainRun(PlainInput(ignore, inputs[0]).0, inputs[1..])
  }

  // ---- the screen ----

  /** What the user sees: where the cursor was at each key, button, wheel, gesture, enter and
      leave, and whenever a turn was over. */
  datatype Observation = Observation(what: Action, cursor: Point)

  datatype Screen = Screen(cursor: Point, saved: Point, seen: seq<Observation>)

  function ApplyOne(s: Screen, a: Action): Screen {
    match a
    case DoMove(to) => s.(cursor := to)
    case DoRelativeMove(delta) => s.(cursor := Plus(s.cursor, delta))
    case DoAct(_) => s.(seen := s.seen + [Observation(a, s.cursor)])
    case DoEnter(at, restore) =>
      var cursor := if restore then s.saved else at;
      s.(cursor := cursor, seen := s.seen + [Observation(a, cursor)])
    case DoLeave(save) =>
      s.(saved := if save then s.cursor else s.saved, seen := s.seen + [Observation(a, s.cursor)])
    case TurnEnds => s.(seen := s.seen + [Observation(a, s.cursor)])
  }

  function Apply(s: Screen, actions: seq<Action>): Screen
    decreases |actions|
  {
    if actions == [] then s else Apply(ApplyOne(s, actions[0]), actions[1..])
  }

  lemma {:induction false} ApplyConcat(s: Screen, a: seq<Action>, b: seq<Action>)
    ensures Apply(s, a + b) == Apply(Apply(s, a), b)
    decreases |a|
  {
    if a == [] {
      assert a + b == b;
    } else {
      ApplyConcat(ApplyOne(s, a[0]), a[1..], b);
      assert (a + b)[1..] == a[1..] + b;
    }
  }

  // ---- when nothing shows ----

  /** Where the cursor would be if the motion put off were done now. */
  function Due(m: Mouse, cursor: Point): Point {
    var c := if m.absolute then m.to else cursor;
    if m.relative then Plus(c, m.delta) else c
  }

  /** The two screens differ only in the motion put off. */
  ghost predicate Same(m: Mouse, s: Screen, ignore: bool, plain: Screen) {
    && m.ignore == ignore && (!m.relative ==> m.delta == ZERO)
    && s.seen == plain.seen && s.saved == plain.saved
    && Due(m, s.cursor) == plain.cursor
  }

  /** A motion slips past one put off before it: an absolute one forwarded while a relative
      one waits, or a relative one forwarded while an absolute one waits; or one that should
      be ignored joins one that waits. */
  predicate Slips(m: Mouse, message: Message) {
    match message
    case Move(to, more) =>
      if m.ignore then m.absolute && Due(m, ZERO) != to
      else !m.absolute && !more && m.relative && m.delta != ZERO
    case RelativeMove(delta, more) =>
      if m.ignore then m.relative && delta != ZERO
      else !m.relative && !more && m.absolute && delta != ZERO
    case _ => false
  }

  lemma ApplySingle(s: Screen, a: Action)
    ensures Apply(s, [a]) == ApplyOne(s, a)
  {
    assert [a][1..] == [];
  }

  lemma FlushIs(m: Mouse, s: Screen)
    ensures Apply(s, Flush(m).1) == s.(cursor := Due(m, s.cursor))
  {
    var first := if m.absolute then [DoMove(m.to)] else [];
    var second := if m.relative then [DoRelativeMove(m.delta)] else [];
    ApplyConcat(s, first, second);
    ApplySingle(s, DoMove(m.to));
    ApplySingle(Apply(s, first), DoRelativeMove(m.delta));
  }

  /** A message keeps the screens the same but for the motion put off exactly when it does
      not slip past that motion. */
  lemma StepKeepsSame(m: Mouse, s: Screen, ignore: bool, plain: Screen, message: Message)
    requires Same(m, s, ignore, plain)
    ensures var now, then_ := Step(m, message), PlainStep(ignore, message);
            Same(now.0, Apply(s, now.1), then_.0, Apply(plain, then_.1)) <==> !Slips(m, message)
  {
    FlushIs(m, s);
    match message
    case Act(what) => ApplyConcat(s, Flush(m).1, [DoAct(what)]);
    case Leave(save) => ApplyConcat(s, Flush(m).1, [DoLeave(save)]);
    case _ =>
  }

  /** A slip at the end of a turn is seen at once. */
  lemma SlipShows(m: Mouse, s: Screen, ignore: bool, plain: Screen, message: Message)
    requires Same(m, s, ignore, plain) && Slips(m, message)
    ensures Apply(s, TurnStep(m, [message]).1).seen != Apply(plain, PlainTurn(ignore, [message]).1).seen
  {
    StepKeepsSame(m, s, ignore, plain, message);
    var now, then_ := Step(m, message), PlainStep(ignore, message);
    var s', plain' := Apply(s, now.1), Apply(plain, then_.1);
    assert [message][1..] == [];
    var last := TurnStep(now.0, []);
    ApplyConcat(s, now.1, last.1);
    FlushIs(now.0, s');
    ApplyConcat(s', Flush(now.0).1, [TurnEnds]);
    ApplySingle(s'.(cursor := Due(now.0, s'.cursor)), TurnEnds);
    assert PlainTurn(then_.0, []).1 == [TurnEnds];
    assert PlainTurn(ignore, [message]).1 == then_.1 + [TurnEnds];
    ApplyConcat(plain, then_.1, [TurnEnds]);
    ApplySingle(plain', TurnEnds);
    assert s'.seen == plain'.seen && s'.saved == plain'.saved;
    var a, b := Apply(s, TurnStep(m, [message]).1).seen, Apply(plain, PlainTurn(ignore, [message]).1).seen;
    assert a[|a| - 1].cursor == Due(now.0, s'.cursor) && b[|b| - 1].cursor == plain'.cursor;
  }

  /** No message of the turn slips. */
  predicate SafeTurn(m: Mouse, messages: seq<Message>)
    decreases |messages|
  {
    messages == [] || messages[0].EndsTurn() ||
    (!Slips(m, messages[0]) && SafeTurn(Step(m, messages[0]).0, messages[1..]))
  }

  predicate Safe(m: Mouse, inputs: seq<Input>)
    decreases |inputs|
  {
    inputs == [] ||
    ((inputs[0].Turn? ==> SafeTurn(m, inputs[0].messages)) && Safe(InputStep(m, inputs[0]).0, inputs[1..]))
  }

  lemma {:induction false} TurnKeepsSame(m: Mouse, s: Screen, ignore: bool, plain: Screen, messages: seq<Message>)
    requires Same(m, s, ignore, plain) && SafeTurn(m, messages)
    ensures var now, then_ := TurnStep(m, messages), PlainTurn(ignore, messages);
            Same(now.0, Apply(s, now.1), then_.0, Apply(plain, then_.1))
    decreases |messages|
  {
    if messages == [] {
      FlushIs(m, s);
      ApplyConcat(s, Flush(m).1, [TurnEnds]);
    } else if messages[0].EndsTurn() {
      StepKeepsSame(m, s, ignore, plain, messages[0]);
    } else {
      StepKeepsSame(m, s, ignore, plain, messages[0]);
      var now, then_ := Step(m, messages[0]), PlainStep(ignore, messages[0]);
      TurnKeepsSame(now.0, Apply(s, now.1), then_.0, Apply(plain, then_.1), messages[1..]);
      ApplyConcat(s, now.1, TurnStep(now.0, messages[1..]).1);
      ApplyConcat(plain, then_.1, PlainTurn(then_.0, messages[1..]).1);
    }
  }

  /** In a run without slips the user sees the cursor exactly where it would be had every
      motion been forwarded at once. */
  lemma {:induction false} CompressionDoesNotShow(m: Mouse, s: Screen, ignore: bool, plain: Screen, inputs: seq<Input>)
    requires Same(m, s, ignore, plain) && Safe(m, inputs)
    ensures Apply(s, Run(m, inputs)).seen == Apply(plain, PlainRun(ignore, inputs)).seen
    decreases |inputs|
  {
    if inputs != [] {
      var now, then_ := InputStep(m, inputs[0]), PlainInput(ignore, inputs[0]);
      if inputs[0].Turn? {
        TurnKeepsSame(m, s, ignore, plain, inputs[0].messages);
      }
      CompressionDoesNotShow(now.0, Apply(s, now.1), then_.0, Apply(plain, then_.1), inputs[1..]);
      ApplyConcat(s, now.1, Run(now.0, inputs[1..]));
      ApplyConcat(plain, then_.1, PlainRun(then_.0, inputs[1..]));
    }
  }

  // ---- unmixed motion ----

  datatype Kind = Neither | OnlyAbsolute | OnlyRelative

  /** Between one flush and the next, motion is all absolute or all relative; and no turn is
      stopped without a flush. */
  predicate Unmixed(kind: Kind, messages: seq<Message>)
    decreases |messages|
  {
    messages == [] ||
    (match messages[0]
     case Move(_, _) => kind != OnlyRelative && Unmixed(OnlyAbsolute, messages[1..])
     case RelativeMove(_, _) => kind != OnlyAbsolute && Unmixed(OnlyRelative, messages[1..])
     case Act(_) => Unmixed(Neither, messages[1..])
     case Enter(_, _) => Unmixed(Neither, messages[1..])
     case Leave(_) => Unmixed(Neither, messages[1..])
     case Stop => false
     case BadGesture => true
     case _ => Unmixed(kind, messages[1..]))
  }

  ghost predicate AllUnmixed(inputs: seq<Input>) {
    forall i | 0 <= i < |inputs| && inputs[i].Turn? :: Unmixed(Neither, inputs[i].messages)
  }

  /** What may wait after motion of a kind: nothing else, and nothing while ignoring. */
  predicate Waiting(kind: Kind, m: Mouse) {
    && (m.absolute ==> kind == OnlyAbsolute && !m.ignore)
    && (m.relative ==> kind == OnlyRelative && !m.ignore)
  }

  lemma {:induction false} UnmixedTurnIsSafe(kind: Kind, m: Mouse, messages: seq<Message>)
    requires Waiting(kind, m) && Unmixed(kind, messages)
    ensures SafeTurn(m, messages)
    ensures var after := TurnStep(m, messages).0; !after.absolute && !after.relative
    decreases |messages|
  {
    if messages != [] && !messages[0].EndsTurn() {
      var k := match messages[0]
               case Move(_, _) => OnlyAbsolute
               case RelativeMove(_, _) => OnlyRelative
               case InfoAcknowledgment => kind
               case Quiet => kind
               case _ => Neither;
      UnmixedTurnIsSafe(k, Step(m, messages[0]).0, messages[1..]);
    }
  }

  lemma {:induction false} UnmixedIsSafe(m: Mouse, inputs: seq<Input>)
    requires !m.absolute && !m.relative && AllUnmixed(inputs)
    ensures Safe(m, inputs)
    decreases |inputs|
  {
    if inputs != [] {
      if inputs[0].Turn? {
        UnmixedTurnIsSafe(Neither, m, inputs[0].messages);
      }
      assert forall i | 0 <= i < |inputs[1..]| :: inputs[1..][i] == inputs[i + 1];
      UnmixedIsSafe(InputStep(m, inputs[0]).0, inputs[1..]);
    }
  }

  /** The promise: as long as absolute and relative motion do not mix between two flushes,
      compression does not show, whatever follows on the stream and however the input falls
      into turns. */
  lemma UnmixedMotionDoesNotShow(s: Screen, inputs: seq<Input>)
    requires AllUnmixed(inputs)
    ensures Apply(s, Run(INITIAL, inputs)).seen == Apply(s, PlainRun(false, inputs)).seen
  {
    UnmixedIsSafe(INITIAL, inputs);
    CompressionDoesNotShow(INITIAL, s, false, s, inputs);
  }

  /** Mixed motion does show: a relative motion that was put off is added to the absolute
      position that came after it. */
  lemma MixedMotionShows()
    ensures var inputs := [Turn([RelativeMove(Point(1, 0), true), Move(Point(5, 5), false)])];
            var s := Screen(ZERO, ZERO, []);
            && Apply(s, PlainRun(false, inputs)).seen == [Observation(TurnEnds, Point(5, 5))]
            && Apply(s, Run(INITIAL, inputs)).seen == [Observation(TurnEnds, Point(6, 5))]
  {
    var first, second := RelativeMove(Point(1, 0), true), Move(Point(5, 5), false);
    var messages := [first, second];
    var inputs, s := [Turn(messages)], Screen(ZERO, ZERO, []);
    assert messages[1..] == [second] && [second][1..] == [] && inputs[1..] == [];
    var waiting := Step(INITIAL, first).0;
    var actions := [DoMove(Point(5, 5)), DoRelativeMove(Point(1, 0)), TurnEnds];
    assert TurnStep(waiting, []).1 == [DoRelativeMove(Point(1, 0)), TurnEnds];
    assert TurnStep(waiting, [second]).1 == actions;
    assert Run(INITIAL, inputs) == actions;
    assert actions[1..] == [DoRelativeMove(Point(1, 0)), TurnEnds] && actions[1..][1..] == [TurnEnds];
    var plain := [DoRelativeMove(Point(1, 0)), DoMove(Point(5, 5)), TurnEnds];
    assert PlainTurn(false, [second]).1 == [DoMove(Point(5, 5)), TurnEnds];
    assert PlainRun(false, inputs) == plain;
    assert plain[1..] == [DoMove(Point(5, 5)), TurnEnds] && plain[1..][1..] == [TurnEnds];
  }
}
