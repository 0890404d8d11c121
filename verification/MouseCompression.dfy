/** How much compression saves: between two flushes, motion of one kind costs one call.
 */
module MouseCompression {
  import opened MouseMotion

  /** The messages one after the other, without the end of a turn. */
  function StepAll(m: Mouse, messages: seq<Message>): (Mouse, seq<Action>)
    decreases |messages|
  {
    if messages == [] then (m, [])
    else
      var now := Step(m, messages[0]);
      var later := StepAll(now.0, messages[1..]);
      (later.0, now.1 + later.1)
  }

  /** Motion that is not ignored and has more input behind it makes no call. */
  lemma MotionWaits(m: Mouse, to: Point, delta: Point)
    requires !m.ignore
    ensures Step(m, Move(to, true)).1 == [] && Step(m, RelativeMove(delta, true)).1 == []
  {
  }

  /** Motion that is to be ignored makes none either, and is not put off. */
  lemma IgnoredMotionIsDropped(m: Mouse, to: Point, delta: Point, more: bool)
    requires m.ignore && !m.absolute && !m.relative
    ensures Step(m, Move(to, more)) == (m, []) && Step(m, RelativeMove(delta, more)) == (m, [])
  {
  }

  /** Nothing waits, and motion is not ignored. */
  predicate Clear(m: Mouse) {
    !m.absolute && !m.relative && m.delta == ZERO && !m.ignore
  }

  // ---- bursts ----

  /** Absolute motion only, with messages between that do not concern the mouse; all but the
      last motion has more input behind it. */
  predicate AbsoluteBurst(messages: seq<Message>) {
    messages == [] ||
    match messages[0]
    case Move(_, more) => (more || Motionless(messages[1..])) && AbsoluteBurst(messages[1..])
    case Quiet => AbsoluteBurst(messages[1..])
    case InfoAcknowledgment => AbsoluteBurst(messages[1..])
    case _ => false
  }

  predicate RelativeBurst(messages: seq<Message>) {
    messages == [] ||
    match messages[0]
    case RelativeMove(_, more) => (more || Motionless(messages[1..])) && RelativeBurst(messages[1..])
    case Quiet => RelativeBurst(messages[1..])
    case InfoAcknowledgment => RelativeBurst(messages[1..])
    case _ => false
  }

  predicate Motionless(messages: seq<Message>) {
    forall i | 0 <= i < |messages| :: !messages[i].Move? && !messages[i].RelativeMove?
  }

  /** The position of the last absolute motion. */
  function LastPosition(messages: seq<Message>, before: Point): Point {
    if messages == [] then before
    else LastPosition(messages[1..], if messages[0].Move? then messages[0].to else before)
  }

  /** The sum of the relative motion. */
  function Sum(messages: seq<Message>, before: Point): Point {
    if messages == [] then before
    else Sum(messages[1..], if messages[0].RelativeMove? then Plus(before, messages[0].delta) else before)
  }

  lemma {:induction false} NothingMoves(m: Mouse, messages: seq<Message>, p: Point)
    requires AbsoluteBurst(messages) || RelativeBurst(messages)
    requires Motionless(messages)
    requires !m.ignore
    ensures StepAll(m, messages) == (m, [])
    ensures LastPosition(messages, p) == p && Sum(messages, p) == p
    decreases |messages|
  {
    if messages != [] {
      assert messages[0].Quiet? || messages[0].InfoAcknowledgment?;
      assert Step(m, messages[0]) == (m, []);
      assert forall i | 0 <= i < |messages| - 1 :: messages[1..][i] == messages[i + 1];
      NothingMoves(m, messages[1..], p);
      var none: seq<Action> := [];
      assert none + none == none;
    }
  }

  /** Once absolute motion waits, more of it only changes the position. */
  lemma {:induction false} AbsoluteWaits(m: Mouse, messages: seq<Message>)
    requires m.absolute && !m.relative && m.delta == ZERO && !m.ignore && AbsoluteBurst(messages)
    ensures var after := StepAll(m, messages);
            && after.1 == [] && after.0.absolute && !after.0.relative && after.0.delta == ZERO && !after.0.ignore
            && after.0.to == LastPosition(messages, m.to)
    decreases |messages|
  {
    if messages != [] {
      AbsoluteWaits(Step(m, messages[0]).0, messages[1..]);
    }
  }

  /** Any number of absolute motions between two flushes makes one call, to the last
      position; and none before the flush if each has more input behind it. */
  lemma {:induction false} AbsoluteMotionIsOneCall(m: Mouse, messages: seq<Message>)
    requires Clear(m) && AbsoluteBurst(messages) && !Motionless(messages)
    ensures var after := StepAll(m, messages);
            && after.1 + Flush(after.0).1 == [DoMove(LastPosition(messages, ZERO))]
            && Clear(Flush(after.0).0)
            && ((forall i | 0 <= i < |messages| && messages[i].Move? :: messages[i].more) ==> after.1 == [])
    decreases |messages|
  {
    var first, rest := messages[0], messages[1..];
    assert forall i | 0 <= i < |rest| :: rest[i] == messages[i + 1];
    if first.Move? {
      if first.more {
        AbsoluteWaits(Step(m, first).0, rest);
        assert LastPosition(messages, ZERO) == LastPosition(rest, first.to);
      } else {
        NothingMoves(Step(m, first).0, rest, first.to);
      }
    } else {
      assert !Motionless(rest) by {
        var i :| 0 <= i < |messages| && (messages[i].Move? || messages[i].RelativeMove?);
        assert rest[i - 1] == messages[i];
      }
      AbsoluteMotionIsOneCall(Step(m, first).0, rest);
    }
  }

  lemma {:induction false} RelativeWaits(m: Mouse, messages: seq<Message>)
    requires m.relative && !m.absolute && !m.ignore && RelativeBurst(messages)
    ensures var after := StepAll(m, messages);
            && after.1 == [] && after.0.relative && !after.0.absolute && !after.0.ignore
            && after.0.delta == Sum(messages, m.delta)
    decreases |messages|
  {
    if messages != [] {
      RelativeWaits(Step(m, messages[0]).0, messages[1..]);
    }
  }

  /** Any number of relative motions between two flushes makes one call, by their sum; and
      none before the flush if each has more input behind it. */
  lemma {:induction false} RelativeMotionIsOneCall(m: Mouse, messages: seq<Message>)
    requires Clear(m) && RelativeBurst(messages) && !Motionless(messages)
    ensures var after := StepAll(m, messages);
            && after.1 + Flush(after.0).1 == [DoRelativeMove(Sum(messages, ZERO))]
            && Clear(Flush(after.0).0)
            && ((forall i | 0 <= i < |messages| && messages[i].RelativeMove? :: messages[i].more) ==> after.1 == [])
    decreases |messages|
  {
    var first, rest := messages[0], messages[1..];
    assert forall i | 0 <= i < |rest| :: rest[i] == messages[i + 1];
    if first.RelativeMove? {
      assert Sum(messages, ZERO) == Sum(rest, first.delta);
      if first.more {
        RelativeWaits(Step(m, first).0, rest);
      } else {
        NothingMoves(Step(m, first).0, rest, first.delta);
      }
    } else {
      assert !Motionless(rest) by {
        var i :| 0 <= i < |messages| && (messages[i].Move? || messages[i].RelativeMove?);
        assert rest[i - 1] == messages[i];
      }
      RelativeMotionIsOneCall(Step(m, first).0, rest);
    }
  }

  // ---- turns ----

  lemma {:induction false} TurnAfter(m: Mouse, messages: seq<Message>, later: seq<Message>)
    requires forall i | 0 <= i < |messages| :: !messages[i].EndsTurn()
    ensures var now := StepAll(m, messages);
            var turn := TurnStep(now.0, later);
            TurnStep(m, messages + later) == (turn.0, now.1 + turn.1)
    decreases |messages|
  {
    if messages == [] {
      var none: seq<Action> := [];
      assert messages + later == later && none + TurnStep(m, later).1 == TurnStep(m, later).1;
    } else {
      assert (messages + later)[0] == messages[0] && (messages + later)[1..] == messages[1..] + later;
      assert !messages[0].EndsTurn();
      var now := Step(m, messages[0]);
      var rest := StepAll(now.0, messages[1..]);
      TurnAfter(now.0, messages[1..], later);
      Regroup(now.1, rest.1, TurnStep(rest.0, later).1);
    }
  }

  lemma {:induction false} BurstGoesOn(messages: seq<Message>)
    requires AbsoluteBurst(messages) || RelativeBurst(messages)
    ensures forall i | 0 <= i < |messages| :: !messages[i].EndsTurn()
  {
    if messages != [] {
      BurstGoesOn(messages[1..]);
      assert forall i | 1 <= i < |messages| :: messages[i] == messages[1..][i - 1];
    }
  }

  /** What a burst of motion costs: one call, made at the latest when a key, button, wheel or
      gesture message comes or the turn ends. */
  lemma AbsoluteBurstIsOneCall(m: Mouse, burst: seq<Message>, what: int, later: seq<Message>)
    requires Clear(m) && !Motionless(burst) && AbsoluteBurst(burst)
    ensures var call := DoMove(LastPosition(burst, ZERO));
            var after := Flush(StepAll(m, burst).0).0;
            && Clear(after) && TurnStep(m, burst).1 == [call, TurnEnds]
            && TurnStep(m, burst + [Act(what)] + later).1 == [call, DoAct(what)] + TurnStep(after, later).1
  {
    BurstGoesOn(burst);
    AbsoluteMotionIsOneCall(m, burst);
    BurstThenAct(m, burst, DoMove(LastPosition(burst, ZERO)), what, later);
  }

  lemma RelativeBurstIsOneCall(m: Mouse, burst: seq<Message>, what: int, later: seq<Message>)
    requires Clear(m) && !Motionless(burst) && RelativeBurst(burst)
    ensures var call := DoRelativeMove(Sum(burst, ZERO));
            var after := Flush(StepAll(m, burst).0).0;
            && Clear(after) && TurnStep(m, burst).1 == [call, TurnEnds]
            && TurnStep(m, burst + [Act(what)] + later).1 == [call, DoAct(what)] + TurnStep(after, later).1
  {
    BurstGoesOn(burst);
    RelativeMotionIsOneCall(m, burst);
    BurstThenAct(m, burst, DoRelativeMove(Sum(burst, ZERO)), what, later);
  }

  lemma BurstThenAct(m: Mouse, burst: seq<Message>, call: Action, what: int, later: seq<Message>)
    requires forall i | 0 <= i < |burst| :: !burst[i].EndsTurn()
    requires var now := StepAll(m, burst); now.1 + Flush(now.0).1 == [call]
    ensures TurnStep(m, burst).1 == [call, TurnEnds]
    ensures TurnStep(m, burst + [Act(what)] + later).1
            == [call, DoAct(what)] + TurnStep(Flush(StepAll(m, burst).0).0, later).1
  {
    var now := StepAll(m, burst);
    var rest := TurnStep(Flush(now.0).0, later).1;
    ActFlushes(now.0, what, later);
    BurstThen(m, burst, call, [], [TurnEnds]);
    BurstThen(m, burst, call, [Act(what)] + later, [DoAct(what)] + rest);
    Grouped(burst, call, what, later, rest);
  }

  lemma Grouped(burst: seq<Message>, call: Action, what: int, later: seq<Message>, rest: seq<Action>)
    ensures burst + [] == burst && burst + [Act(what)] + later == burst + ([Act(what)] + later)
    ensures [call] + [TurnEnds] == [call, TurnEnds]
    ensures [call] + ([DoAct(what)] + rest) == [call, DoAct(what)] + rest
  {
  }

  lemma BurstThen(m: Mouse, burst: seq<Message>, call: Action, later: seq<Message>, tail: seq<Action>)
    requires forall i | 0 <= i < |burst| :: !burst[i].EndsTurn()
    requires var now := StepAll(m, burst);
             now.1 + Flush(now.0).1 == [call] && TurnStep(now.0, later).1 == Flush(now.0).1 + tail
    ensures TurnStep(m, burst + later).1 == [call] + tail
  {
    var now := StepAll(m, burst);
    TurnAfter(m, burst, later);
    Regroup(now.1, Flush(now.0).1, tail);
  }

  lemma Regroup(a: seq<Action>, b: seq<Action>, c: seq<Action>)
    ensures a + (b + c) == (a + b) + c
  {
  }

  lemma ActFlushes(m: Mouse, what: int, later: seq<Message>)
    ensures TurnStep(m, []).1 == Flush(m).1 + [TurnEnds]
    ensures TurnStep(m, [Act(what)] + later).1 == Flush(m).1 + ([DoAct(what)] + TurnStep(Flush(m).0, later).1)
  {
    var messages := [Act(what)] + later;
    assert messages[0] == Act(what) && messages[1..] == later;
    Regroup(Flush(m).1, [DoAct(what)], TurnStep(Flush(m).0, later).1);
  }

  // ---- what becomes of motion that waits ----

  /** Entering the screen drops it without a call. */
  lemma EnterDropsMotion(m: Mouse, at: Point, restore: bool)
    ensures var (after, calls) := Step(m, Enter(at, restore));
            calls == [DoEnter(at, restore)] && !after.absolute && !after.relative && after.delta == ZERO
  {
  }

  /** A message that ends the turn leaves it waiting, without a call; but a malformed gesture
      has it done first.  Neither is followed by the end of a turn. */
  lemma EndedTurn(m: Mouse, later: seq<Message>)
    ensures TurnStep(m, [Stop] + later) == (m, [])
    ensures var (after, calls) := TurnStep(m, [BadGesture] + later);
            && !after.absolute && !after.relative
            && calls == (if m.absolute then [DoMove(m.to)] else [])
                        + (if m.relative then [DoRelativeMove(m.delta)] else [])
  {
    assert ([Stop] + later)[0] == Stop && ([BadGesture] + later)[0] == BadGesture;
  }
}
