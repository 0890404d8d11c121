/** What is true of every run of the client's connection lifecycle.
 */
module ClientRuns {
  import opened ClientSession

  /** A run: the inputs one after the other. */
  function Run(s: Session, inputs: seq<Input>): Session {
    if inputs == [] then s else Step(Run(s, inputs[..|inputs| - 1]), inputs[|inputs| - 1])
  }

  // ---- the screen ----

  /** Whether the screen is on after these actions. */
  function Enabled(log: seq<Action>): bool {
    if log == [] then false
    else
      match log[|log| - 1]
      case EnableScreen => true
      case DisableScreen => false
      case _ => Enabled(log[..|log| - 1])
  }

  /** Enabling and disabling take turns, and every Connected notice directly follows an
      enabling. */
  predicate Alternates(log: seq<Action>) {
    log == [] ||
    (var before, last := log[..|log| - 1], log[|log| - 1];
     && Alternates(before)
     && (last == EnableScreen ==> !Enabled(before))
     && (last == DisableScreen ==> Enabled(before))
     && (last == Notify(Connected) ==> before != [] && before[|before| - 1] == EnableScreen))
  }

  /** What holds between any two inputs. */
  ghost predicate Inv(s: Session) {
    && s.Valid()
    && Alternates(s.log) && Enabled(s.log) == s.phase.Ready?
  }

  lemma LogOne(log: seq<Action>, a: Action)
    ensures (log + [a])[..|log + [a]| - 1] == log
    ensures Enabled(log + [a]) == if a.EnableScreen? then true else if a.DisableScreen? then false else Enabled(log)
  {
    assert (log + [a])[..|log + [a]| - 1] == log;
  }

  lemma LogPlain(log: seq<Action>, a: Action)
    requires Alternates(log) && !a.EnableScreen? && !a.DisableScreen? && a != Notify(Connected)
    ensures Alternates(log + [a]) && Enabled(log + [a]) == Enabled(log)
  {
    LogOne(log, a);
  }

  lemma CloseInv(s: Session)
    requires Inv(s)
    ensures Inv(Close(s).(suspended := s.suspended)) && Close(s).phase == Idle && !Enabled(Close(s).log)
  {
    if s.phase.Ready? {
      LogOne(s.log, DisableScreen);
    } else {
      assert s.log + [] == s.log;
    }
  }

  lemma CloseThenNotify(s: Session, notices: seq<Action>)
    requires Inv(s)
    requires notices == [] || exists n: Notice :: n != Connected && notices == [Notify(n)]
    ensures Inv(Log(Close(s), notices))
  {
    CloseInv(s);
    var c := Close(s);
    if notices != [] {
      LogPlain(c.log, notices[0]);
      assert notices == [notices[0]];
    } else {
      assert c.log + [] == c.log;
    }
  }

  lemma DisconnectInv(s: Session, message: bool)
    requires Inv(s.(suspended := false, connectOnResume := false))
    ensures Inv(DisconnectStep(s, message))
  {
    CloseThenNotify(s.(suspended := false, connectOnResume := false),
                    [Notify(if message then ConnectionFailed else Disconnected)]);
  }

  lemma RefuseInv(s: Session, message: bool)
    requires Inv(s.(suspended := false, connectOnResume := false))
    ensures Inv(RefuseStep(s, message))
  {
    CloseThenNotify(s.(suspended := false, connectOnResume := false),
                    if message then [Notify(ConnectionRefused)] else []);
  }

  lemma ConnectInv(s: Session, env: Env)
    requires Inv(s)
    ensures Inv(ConnectStep(s, env))
  {
    LogPlain(s.log, Notify(ConnectionFailed));
  }

  lemma {:induction false} RatesInv(s: Session, rates: seq<bool>)
    requires Inv(s) && s.phase.Proxied()
    ensures Inv(RatesStep(s, rates)) && RatesStep(s, rates).log == s.log
    decreases |rates|
  {
    if rates != [] {
      RatesInv(AlarmStep(s, rates[0]), rates[1..]);
    }
  }

  /** Turning the screen on and saying that the client is connected. */
  lemma LogConnected(log: seq<Action>)
    requires Alternates(log) && !Enabled(log)
    ensures var after := log + [EnableScreen, Notify(Connected)]; Alternates(after) && Enabled(after)
  {
    var on := log + [EnableScreen];
    LogOne(log, EnableScreen);
    LogOne(on, Notify(Connected));
    assert log + [EnableScreen, Notify(Connected)] == on + [Notify(Connected)];
  }

  lemma OptionsInv(s: Session, rates: seq<bool>)
    requires Inv(s) && s.phase.Proxied()
    ensures Inv(MessageStep(s, SetOptions(rates)))
  {
    RatesInv(s, rates);
    if s.phase.Handshaking? {
      LogConnected(s.log);
    }
  }

  /** A line in the log that is not about the screen. */
  lemma PostInv(s: Session, kind: EventType, target: nat)
    requires Inv(s)
    ensures Inv(Log(s, [Post(kind, target)]))
  {
    LogPlain(s.log, Post(kind, target));
  }

  lemma MessageInv(s: Session, m: Message)
    requires Inv(s) && s.phase.Proxied()
    ensures Inv(MessageStep(s, m)) && MessageStep(s, m).phase.Proxied()
  {
    match m
    case SetOptions(rates) => OptionsInv(s, rates);
    case Hangup => PostInv(s, ClientDisconnectRequested, s.phase.stream);
    case BadClipboard => PostInv(s, ClientDisconnectRequested, s.phase.stream);
    case _ =>
  }

  lemma {:induction false} DataInv(s: Session, messages: seq<Message>, more: bool)
    requires Inv(s) && s.phase.Proxied()
    ensures Inv(DataStep(s, messages, more))
    decreases |messages|
  {
    if messages == [] {
      if more {
        PostInv(s, StreamInputContinue, s.phase.proxy);
      } else {
        assert s.log + [] == s.log;
      }
    } else {
      MessageInv(s, messages[0]);
      if !messages[0].Hangup? {
        DataInv(MessageStep(s, messages[0]), messages[1..], more);
      }
    }
  }

  lemma HelloInv(s: Session, env: Env)
    requires Inv(s) && s.phase.AwaitHello?
    ensures Inv(HelloStep(s, env))
  {
    if !env.helloOk {
      FailedInv(s);
    } else {
      var t := s.(phase := Handshaking(s.phase.stream, s.nextId, At(s.nextId + 1)), nextId := s.nextId + 2);
      if env.more {
        PostInv(t, StreamInputReady, s.phase.stream);
      } else {
        assert s.log + [] == s.log;
      }
    }
  }

  /** A connection that failed before there was a proxy. */
  lemma FailedInv(s: Session)
    requires Inv(s) && !s.phase.Ready?
    ensures Inv(Log(s, [Notify(ConnectionFailed)]).(phase := Idle))
  {
    LogPlain(s.log, Notify(ConnectionFailed));
  }

  lemma RequestInv(s: Session, request: Request)
    requires Inv(s) && !s.phase.Idle?
    ensures Inv(RequestStep(s, request))
  {
    match request
    case NoRequest => DisconnectInv(s, false);
    case Disconnect(message) => DisconnectInv(s, message);
    case Refuse(message) => RefuseInv(s, message);
  }

  lemma StreamInv(s: Session, kind: EventType, env: Env)
    requires Inv(s) && !s.phase.Idle? && !s.phase.Connecting?
    ensures Inv(StreamStep(s, kind, env))
  {
    match kind {
      case ClientDisconnectRequested => RequestInv(s, env.request);
      case StreamInputReady =>
        if s.phase.AwaitHello? {
          HelloInv(s, env);
        } else {
          DataInv(s, env.messages, env.more);
        }
      case _ => CloseThenNotify(s, [Notify(Disconnected)]);
    }
  }

  lemma ScreenEventInv(s: Session, kind: EventType, env: Env)
    requires Inv(s)
    ensures Inv(EventStep(s, kind, SCREEN, env))
  {
    DisconnectInv(s.(suspended := true), false);
    ConnectInv(s.(suspended := false, connectOnResume := false), env);
  }

  lemma ProxiedEventInv(s: Session, kind: EventType, target: nat, env: Env)
    requires Inv(s) && s.phase.Proxied() && target != SCREEN
    ensures Inv(EventStep(s, kind, target, env))
  {
    if target == s.phase.stream {
      StreamInv(s, kind, env);
    } else if target == s.phase.proxy {
      DataInv(s, env.messages, env.more);
    }
    PostInv(s, ClientDisconnectRequested, s.phase.stream);
  }

  lemma ConnectingEventInv(s: Session, kind: EventType, target: nat, env: Env)
    requires Inv(s) && (s.phase.Connecting? || s.phase.Idle?) && target != SCREEN
    ensures Inv(EventStep(s, kind, target, env))
  {
    FailedInv(s);
  }

  lemma AwaitEventInv(s: Session, kind: EventType, target: nat, env: Env)
    requires Inv(s) && s.phase.AwaitHello? && target != SCREEN
    ensures Inv(EventStep(s, kind, target, env))
  {
    if target == s.phase.stream {
      StreamInv(s, kind, env);
    } else {
      FailedInv(s);
    }
  }

  lemma EventInv(s: Session, kind: EventType, target: nat, env: Env)
    requires Inv(s)
    ensures Inv(EventStep(s, kind, target, env))
  {
    if target == SCREEN {
      ScreenEventInv(s, kind, env);
    } else if s.phase.Proxied() {
      ProxiedEventInv(s, kind, target, env);
    } else if s.phase.AwaitHello? {
      AwaitEventInv(s, kind, target, env);
    } else {
      ConnectingEventInv(s, kind, target, env);
    }
  }

  /** Over every run of calls and events, in any order and for any targets: the client is in
      one of the phases, suspended only when idle and waiting to reconnect only when suspended;
      screen enabling and disabling alternate, and the screen is on exactly when ready. */
  lemma {:induction false} AlwaysConsistent(inputs: seq<Input>)
    ensures Inv(Run(INITIAL, inputs))
  {
    if inputs != [] {
      AlwaysConsistent(inputs[..|inputs| - 1]);
      var s, input := Run(INITIAL, inputs[..|inputs| - 1]), inputs[|inputs| - 1];
      match input
      case Connect(env) => ConnectInv(s, env);
      case CallDisconnect(message) => DisconnectInv(s, message);
      case CallRefuse(message) => RefuseInv(s, message);
      case Event(kind, target, env) => EventInv(s, kind, target, env);
    }
  }

  // ---- targets that are gone ----

  /** The targets of a phase beside the client's own. */
  function Targets(p: Phase): set<nat> {
    match p
    case Idle => {}
    case Connecting(s, t, _) => {s, t}
    case AwaitHello(s, t) => {s, t}
    case _ => {p.stream, p.proxy} + if p.alarm.At? then {p.alarm.id} else {}
  }

  lemma OtherTargetsAreIgnored(s: Session, kind: EventType, target: nat, env: Env)
    requires target != SCREEN && target !in Targets(s.phase)
    ensures EventStep(s, kind, target, env) == s
  {}

  /** A target of one phase is one of the phase before or was never used before. */
  ghost predicate OnlyNewTargets(s: Session, t: Session) {
    s.nextId <= t.nextId && forall x | x in Targets(t.phase) :: x in Targets(s.phase) || x >= s.nextId
  }

  lemma {:induction false} RatesTargets(s: Session, rates: seq<bool>)
    requires s.phase.Proxied()
    ensures OnlyNewTargets(s, RatesStep(s, rates))
    decreases |rates|
  {
    if rates != [] {
      RatesTargets(AlarmStep(s, rates[0]), rates[1..]);
    }
  }

  lemma {:induction false} DataTargets(s: Session, messages: seq<Message>, more: bool)
    requires s.phase.Proxied()
    ensures OnlyNewTargets(s, DataStep(s, messages, more))
    decreases |messages|
  {
    if messages != [] && !messages[0].Hangup? {
      if messages[0].SetOptions? {
        RatesTargets(s, messages[0].rates);
      }
      DataTargets(MessageStep(s, messages[0]), messages[1..], more);
    }
  }

  lemma StepTargets(s: Session, input: Input)
    ensures OnlyNewTargets(s, Step(s, input))
  {
    match input
    case Event(kind, target, env) =>
      if target == SCREEN {
        ScreenTargets(s, kind, env);
      } else if s.phase.Proxied() {
        ProxiedTargets(s, kind, target, env);
      } else {
        UnproxiedTargets(s, kind, target, env);
      }
    case _ =>
  }

  lemma ScreenTargets(s: Session, kind: EventType, env: Env)
    ensures OnlyNewTargets(s, EventStep(s, kind, SCREEN, env))
  {}

  lemma ProxiedTargets(s: Session, kind: EventType, target: nat, env: Env)
    requires s.phase.Proxied() && target != SCREEN
    ensures OnlyNewTargets(s, EventStep(s, kind, target, env))
  {
    DataTargets(s, env.messages, env.more);
  }

  lemma UnproxiedTargets(s: Session, kind: EventType, target: nat, env: Env)
    requires !s.phase.Proxied() && target != SCREEN
    ensures OnlyNewTargets(s, EventStep(s, kind, target, env))
  {}

  lemma {:induction false} RunTargets(s: Session, inputs: seq<Input>)
    ensures OnlyNewTargets(s, Run(s, inputs))
  {
    if inputs != [] {
      RunTargets(s, inputs[..|inputs| - 1]);
      StepTargets(Run(s, inputs[..|inputs| - 1]), inputs[|inputs| - 1]);
    }
  }

  /** Events for a stream, proxy or timer that is gone are ignored for ever: whatever happens
      in between, a late one changes nothing. */
  lemma GoneForEver(s: Session, inputs: seq<Input>, kind: EventType, target: nat, env: Env)
    requires SCREEN < target < s.nextId && target !in Targets(s.phase)
    ensures EventStep(Run(s, inputs), kind, target, env) == Run(s, inputs)
  {
    RunTargets(s, inputs);
    OtherTargetsAreIgnored(Run(s, inputs), kind, target, env);
  }

  // ---- suspending ----

  predicate IsResume(input: Input) {
    input.Event? && input.kind == ScreenResume && input.target == SCREEN
  }

  /** Whether a connection is wanted after these inputs: the last call decides. */
  function Wanted(before: bool, inputs: seq<Input>): bool {
    if inputs == [] then before
    else
      match inputs[|inputs| - 1]
      case Connect(_) => true
      case CallDisconnect(_) => false
      case CallRefuse(_) => false
      case Event(_, _, _) => Wanted(before, inputs[..|inputs| - 1])
  }

  lemma {:induction false} WhileSuspended(s: Session, inputs: seq<Input>)
    requires s.suspended && s.phase == Idle
    requires forall i | 0 <= i < |inputs| :: !IsResume(inputs[i])
    ensures var t := Run(s, inputs);
            && t.suspended && t.phase == Idle && t.nextId == s.nextId
            && t.connectOnResume == Wanted(s.connectOnResume, inputs)
  {
    if inputs != [] {
      WhileSuspended(s, inputs[..|inputs| - 1]);
      assert !IsResume(inputs[|inputs| - 1]);
    }
  }

  /** Suspending ends any connection.  Resuming starts a new one exactly when the last call
      in between asked for one or, without such a call, when there was a connection past its
      hello to begin with. */
  lemma ResumeReconnects(s: Session, inputs: seq<Input>, env: Env)
    requires !s.suspended && forall i | 0 <= i < |inputs| :: !IsResume(inputs[i])
    ensures var t := Run(SuspendStep(s), inputs);
            var u := ResumeStep(t, env);
            && t.phase == Idle && !u.suspended && !u.connectOnResume
            && (u.phase.Connecting? <==> Wanted(s.phase.Proxied(), inputs) && env.attempt.Starts?)
            && (u.phase.Idle? <==> !u.phase.Connecting?)
  {
    WhileSuspended(SuspendStep(s), inputs);
  }
}
