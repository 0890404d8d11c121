/** The mouse handling of the server proxy as the source has it (ServerProxy.cpp): fields
    changed in place, and calls on the client.
 */
module MouseProxies {
  import opened MouseMotion

  class MouseProxy {
    var compressMouse: bool
    var compressMouseRelative: bool
    var xMouse: int
    var yMouse: int
    var dxMouse: int
    var dyMouse: int
    var ignoreMouse: bool
    /** The calls made on the client. */
    var calls: seq<Action>

    ghost function View(): Mouse
      reads this
    {
      Mouse(compressMouse, compressMouseRelative, Point(xMouse, yMouse), Point(dxMouse, dyMouse), ignoreMouse)
    }

    constructor ()
      ensures View() == INITIAL && calls == []
    {
      compressMouse, compressMouseRelative, ignoreMouse := false, false, false;
      xMouse, yMouse, dxMouse, dyMouse, calls := 0, 0, 0, 0, [];
    }

    method Call(action: Action)
      modifies `calls
      ensures calls == old(calls) + [action]
    {
      calls := calls + [action];
    }

    method OnInfoChanged()
      modifies `ignoreMouse
      ensures View() == old(View()).(ignore := true)
    {
      ignoreMouse := true;
    }

    method FlushCompressedMouse()
      modifies this
      ensures View() == Flush(old(View())).0 && calls == old(calls) + Flush(old(View())).1
    {
      if compressMouse {
        compressMouse := false;
        Call(DoMove(Point(xMouse, yMouse)));
      }
      if compressMouseRelative {
        compressMouseRelative := false;
        Call(DoRelativeMove(Point(dxMouse, dyMouse)));
        dxMouse := 0;
        dyMouse := 0;
      }
      assert calls == old(calls) + Flush(old(View())).1;
    }

    method MouseMove(x: int, y: int, ready: bool)
      modifies this
      ensures var step := Step(old(View()), Move(Point(x, y), ready));
              View() == step.0 && calls == old(calls) + step.1
    {
      var ignore := ignoreMouse;
      if !ignore && !compressMouse && ready {
        compressMouse := true;
      }
      if compressMouse {
        compressMouseRelative := false;
        ignore := true;
        xMouse := x;
        yMouse := y;
        dxMouse := 0;
        dyMouse := 0;
      }
      if !ignore {
        Call(DoMove(Point(x, y)));
      }
    }

    method MouseRelativeMove(dx: int, dy: int, ready: bool)
      modifies this
      ensures var step := Step(old(View()), RelativeMove(Point(dx, dy), ready));
              View() == step.0 && calls == old(calls) + step.1
    {
      var ignore := ignoreMouse;
      if !ignore && !compressMouseRelative && ready {
        compressMouseRelative := true;
      }
      if compressMouseRelative {
        ignore := true;
        dxMouse := dxMouse + dx;
        dyMouse := dyMouse + dy;
      }
      if !ignore {
        Call(DoRelativeMove(Point(dx, dy)));
      }
    }

    /** enter discards the motion put off. */
    method EnterScreen(at: Point, restore: bool)
      modifies this
      ensures var step := Step(old(View()), Enter(at, restore));
              View() == step.0 && calls == old(calls) + step.1
    {
      compressMouse := false;
      compressMouseRelative := false;
      dxMouse := 0;
      dyMouse := 0;
      Call(DoEnter(at, restore));
    }

    /** One message; the result is false when the turn is over at once. */
    method HandleMessage(message: Message) returns (okay: bool)
      modifies this
      ensures var step := Step(old(View()), message);
              View() == step.0 && calls == old(calls) + step.1
      ensures okay == !message.EndsTurn()
    {
      okay := true;
      match message {
        case Move(to, ready) => MouseMove(to.x, to.y, ready);
        case RelativeMove(delta, ready) => MouseRelativeMove(delta.x, delta.y, ready);
        case Act(what) =>
          FlushCompressedMouse();
          Call(DoAct(what));
        case Enter(at, restore) => EnterScreen(at, restore);
        case Leave(save) =>
          FlushCompressedMouse();
          Call(DoLeave(save));
        case InfoAcknowledgment => ignoreMouse := false;
        case Quiet =>
        case Stop => okay := false;
        case BadGesture =>
          FlushCompressedMouse();
          okay := false;
      }
    }

    /** One message of a turn, after the calls made so far. */
    static lemma TurnGoesOn(m: Mouse, messages: seq<Message>, i: nat, calls: seq<Action>)
      requires i < |messages|
      ensures var turn, step := TurnStep(m, messages[i..]), Step(m, messages[i]);
              if messages[i].EndsTurn() then turn == step
              else
                && turn.0 == TurnStep(step.0, messages[i + 1..]).0
                && calls + turn.1 == (calls + step.1) + TurnStep(step.0, messages[i + 1..]).1
    {
      assert messages[i..][0] == messages[i] && messages[i..][1..] == messages[i + 1..];
    }

    /** handleData: the messages of one turn, then a flush; a stopped turn is not flushed. */
    method HandleData(messages: seq<Message>)
      modifies this
      ensures var turn := TurnStep(old(View()), messages);
              View() == turn.0 && calls == old(calls) + turn.1
    {
      for i := 0 to |messages|
        invariant TurnStep(View(), messages[i..]).0 == TurnStep(old(View()), messages).0
        invariant calls + TurnStep(View(), messages[i..]).1 == old(calls) + TurnStep(old(View()), messages).1
      {
        TurnGoesOn(View(), messages, i, calls);
        var okay := HandleMessage(messages[i]);
        if !okay {
          return;
        }
      }
      assert messages[|messages|..] == [];
      ghost var m, before := View(), calls;
      FlushCompressedMouse();
      Call(TurnEnds);
      assert before + (Flush(m).1 + [TurnEnds]) == calls;
    }

    /** A whole run.  What the user sees of it, with unmixed motion, is what would be seen
        without compression. */
    method Perform(inputs: seq<Input>)
      requires View() == INITIAL && calls == []
      modifies this
      ensures calls == MouseMotion.Run(INITIAL, inputs)
      ensures AllUnmixed(inputs) ==>
                forall s: Screen :: Apply(s, calls).seen == Apply(s, PlainRun(false, inputs)).seen
    {
      for i := 0 to |inputs|
        invariant calls + MouseMotion.Run(View(), inputs[i..]) == MouseMotion.Run(INITIAL, inputs)
      {
        assert inputs[i..][0] == inputs[i] && inputs[i..][1..] == inputs[i + 1..];
        ghost var m, before := View(), calls;
        match inputs[i] {
          case Turn(messages) => HandleData(messages);
          case InfoChanged => OnInfoChanged();
        }
        assert calls == before + InputStep(m, inputs[i]).1;
        assert before + (InputStep(m, inputs[i]).1 + MouseMotion.Run(View(), inputs[i + 1..]))
            == calls + MouseMotion.Run(View(), inputs[i + 1..]);
      }
      assert inputs[|inputs|..] == [];
      assert calls == calls + [];
      if AllUnmixed(inputs) {
        forall s: Screen ensures Apply(s, calls).seen == Apply(s, PlainRun(false, inputs)).seen {
          UnmixedMotionDoesNotShow(s, inputs);
        }
      }
    }
  }
}
