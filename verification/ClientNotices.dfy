/** What the client tells about its connection: each step gives at most one notice, and which
    it is.
 */
module ClientNotices {
  import opened ClientSession
  import opened ClientRuns
  import opened ClientTurns

  function NoticesIn(log: seq<Action>): seq<Notice> {
    if log == [] then []
    else (if log[0].Notify? then [log[0].notice] else []) + NoticesIn(log[1..])
  }

  lemma {:induction false} NoticesConcat(a: seq<Action>, b: seq<Action>)
    ensures NoticesIn(a + b) == NoticesIn(a) + NoticesIn(b)
  {
    if a == [] {
      assert a + b == b;
    } else {
      NoticesConcat(a[1..], b);
      NoticesStep(a, b);
      var first: seq<Notice> := if a[0].Notify? then [a[0].notice] else [];
      Regroup(first, NoticesIn(a[1..]), NoticesIn(b));
    }
  }

  lemma NoticesStep(a: seq<Action>, b: seq<Action>)
    requires a != []
    ensures NoticesIn(a + b) == (if a[0].Notify? then [a[0].notice] else []) + NoticesIn(a[1..] + b)
  {
    assert (a + b)[0] == a[0] && (a + b)[1..] == a[1..] + b;
  }

  lemma Regroup<T>(a: seq<T>, b: seq<T>, c: seq<T>)
    ensures a + (b + c) == (a + b) + c
  {
  }

  // ---- what is told ----

  /** The server is reached, and the client waits for its hello. */
  predicate Reached(s: Session) {
    s.phase.AwaitHello? || s.phase.Handshaking? || s.phase.Ready?
  }

  predicate OnStream(s: Session, input: Input, kind: EventType) {
    Reached(s) && input.Event? && input.target == s.phase.stream && input.kind == kind
  }

  predicate OnScreen(input: Input, kind: EventType) {
    input.Event? && input.target == SCREEN && input.kind == kind
  }

  /** A connection is tried: by a call, or on resuming one that is wanted. */
  predicate Tries(s: Session, input: Input) {
    || (input.Connect? && s.phase.Idle? && !s.suspended)
    || (OnScreen(input, ScreenResume) && s.suspended && s.connectOnResume && s.phase.Idle?)
  }

  /** An attempt fails: at once, on the socket, for lack of time, by a bad hello, or because
      it is broken off with a message. */
  predicate Fails(s: Session, input: Input) {
    || (Tries(s, input) && !input.env.attempt.Starts?)
    || (s.phase.Connecting? && input.Event?
        && (input.kind, input.target) in {(DataSocketConnectionFailed, s.phase.stream), (Timer, s.phase.timer)})
    || (s.phase.AwaitHello? && input.Event? && (input.kind, input.target) == (Timer, s.phase.timer))
    || (s.phase.AwaitHello? && OnStream(s, input, StreamInputReady) && !input.env.helloOk)
    || (input.CallDisconnect? && input.message)
    || (OnStream(s, input, ClientDisconnectRequested) && input.env.request == Disconnect(true))
  }

  predicate Refused(s: Session, input: Input) {
    || (input.CallRefuse? && input.message)
    || (OnStream(s, input, ClientDisconnectRequested) && input.env.request == Refuse(true))
  }

  /** The connection ends without a message: the socket is closed or broken, or the client is
      suspended, or it is asked to disconnect. */
  predicate Ends(s: Session, input: Input) {
    || OnStream(s, input, SocketDisconnected) || OnStream(s, input, StreamOutputError)
    || OnStream(s, input, StreamInputShutdown) || OnStream(s, input, StreamOutputShutdown)
    || (OnScreen(input, ScreenSuspend) && !s.suspended)
    || (input.CallDisconnect? && !input.message)
    || (OnStream(s, input, ClientDisconnectRequested) && input.env.request in {NoRequest, Disconnect(false)})
  }

  /** The handshake is completed by the first options. */
  ghost predicate Completes(s: Session, input: Input) {
    && s.phase.Handshaking? && input.Event?
    && (input.kind, input.target) in {(StreamInputReady, s.phase.stream), (StreamInputContinue, s.phase.proxy)}
    && SetsOptions(input.env.messages)
  }

  ghost function Told(s: Session, input: Input): seq<Notice> {
    if Fails(s, input) then [ConnectionFailed]
    else if Refused(s, input) then [ConnectionRefused]
    else if Ends(s, input) then [Disconnected]
    else if Completes(s, input) then [Connected]
    else []
  }

  // ---- turns ----

  lemma MessageTells(s: Session, m: Message) returns (new_: seq<Action>)
    requires s.phase.Proxied()
    ensures MessageStep(s, m).log == s.log + new_
    ensures NoticesIn(new_) == if s.phase.Handshaking? && m.SetOptions? then [Connected] else []
  {
    new_ := [];
    match m
    case SetOptions(rates) =>
      RatesPhase(s, rates);
      if s.phase.Handshaking? {
        new_ := [EnableScreen, Notify(Connected)];
        assert new_[1..] == [Notify(Connected)] && new_[1..][1..] == [];
      }
    case Hangup => new_ := [Post(ClientDisconnectRequested, s.phase.stream)];
    case BadClipboard =>
      if s.phase.Ready? {
        new_ := [Post(ClientDisconnectRequested, s.phase.stream)];
      }
    case _ =>
  }

  lemma LogTwice(s: Session, t: Session, u: Session, first: seq<Action>, rest: seq<Action>)
    requires t.log == s.log + first && u.log == t.log + rest
    ensures u.log == s.log + (first + rest)
    ensures NoticesIn(first + rest) == NoticesIn(first) + NoticesIn(rest)
  {
    Regroup(s.log, first, rest);
    NoticesConcat(first, rest);
  }

  lemma EmptyTurnTells(s: Session, more: bool) returns (new_: seq<Action>)
    requires s.phase.Proxied()
    ensures DataStep(s, [], more).log == s.log + new_ && NoticesIn(new_) == []
  {
    new_ := if more then [Post(StreamInputContinue, s.phase.proxy)] else [];
  }

  lemma {:induction false} TurnTells(s: Session, messages: seq<Message>, more: bool) returns (new_: seq<Action>)
    requires s.phase.Proxied()
    ensures DataStep(s, messages, more).log == s.log + new_
    ensures NoticesIn(new_) == if s.phase.Handshaking? && SetsOptions(messages) then [Connected] else []
    decreases |messages|
  {
    if messages == [] {
      new_ := EmptyTurnTells(s, more);
    } else {
      var m, t := messages[0], MessageStep(s, messages[0]);
      var first := MessageTells(s, m);
      MessagePhase(s, m);
      SetsOptionsStep(messages);
      if m.Hangup? {
        new_ := first;
      } else {
        var rest := TurnTells(t, messages[1..], more);
        new_ := first + rest;
        LogTwice(s, t, DataStep(t, messages[1..], more), first, rest);
      }
    }
  }

  // ---- steps ----

  lemma CloseTells(s: Session, notices: seq<Notice>) returns (new_: seq<Action>)
    requires |notices| <= 1
    ensures var after := if notices == [] then [] else [Notify(notices[0])];
            Log(Close(s), after).log == s.log + new_ && NoticesIn(new_) == notices
  {
    var first: seq<Action> := if s.phase.Ready? then [DisableScreen] else [];
    var after: seq<Action> := if notices == [] then [] else [Notify(notices[0])];
    new_ := first + after;
    NoticesConcat(first, after);
    Regroup(s.log, first, after);
    if after != [] {
      assert after[1..] == [];
    }
  }

  lemma DisconnectTells(s: Session, message: bool) returns (new_: seq<Action>)
    ensures DisconnectStep(s, message).log == s.log + new_
    ensures NoticesIn(new_) == [if message then ConnectionFailed else Disconnected]
  {
    new_ := CloseTells(s.(connectOnResume := false), [if message then ConnectionFailed else Disconnected]);
  }

  lemma RefuseTells(s: Session, message: bool) returns (new_: seq<Action>)
    ensures RefuseStep(s, message).log == s.log + new_
    ensures NoticesIn(new_) == if message then [ConnectionRefused] else []
  {
    new_ := CloseTells(s.(connectOnResume := false), if message then [ConnectionRefused] else []);
  }

  lemma ConnectTells(s: Session, env: Env) returns (new_: seq<Action>)
    ensures ConnectStep(s, env).log == s.log + new_
    ensures NoticesIn(new_) == if s.phase.Idle? && !s.suspended && !env.attempt.Starts? then [ConnectionFailed] else []
  {
    new_ := if s.phase.Idle? && !s.suspended && !env.attempt.Starts? then [Notify(ConnectionFailed)] else [];
    if new_ != [] {
      assert new_[1..] == [];
    }
  }

  lemma ScreenTells(s: Session, kind: EventType, env: Env) returns (new_: seq<Action>)
    requires s.Valid()
    ensures EventStep(s, kind, SCREEN, env).log == s.log + new_
    ensures NoticesIn(new_) == Told(s, Event(kind, SCREEN, env))
  {
    new_ := [];
    if kind == ScreenSuspend && !s.suspended {
      new_ := DisconnectTells(s.(suspended := true), false);
    } else if kind == ScreenResume && s.suspended && s.connectOnResume {
      new_ := ConnectTells(s.(suspended := false, connectOnResume := false), env);
    }
  }

  lemma OneNotice(s: Session, n: Notice) returns (new_: seq<Action>)
    ensures Log(s, [Notify(n)]).log == s.log + new_ && NoticesIn(new_) == [n]
  {
    new_ := [Notify(n)];
    assert new_[1..] == [];
  }

  lemma HelloTells(s: Session, env: Env) returns (new_: seq<Action>)
    requires s.phase.AwaitHello?
    ensures HelloStep(s, env).log == s.log + new_
    ensures NoticesIn(new_) == if env.helloOk then [] else [ConnectionFailed]
  {
    if !env.helloOk {
      new_ := OneNotice(s, ConnectionFailed);
    } else {
      new_ := if env.more then [Post(StreamInputReady, s.phase.stream)] else [];
    }
  }

  /** Events on the stream that close the connection. */
  predicate Closes(kind: EventType) {
    kind in {SocketDisconnected, StreamOutputError, StreamInputShutdown, StreamOutputShutdown}
  }

  lemma RequestTells(s: Session, request: Request) returns (new_: seq<Action>)
    ensures RequestStep(s, request).log == s.log + new_
    ensures NoticesIn(new_) == match request
                               case NoRequest => [Disconnected]
                               case Disconnect(message) => [if message then ConnectionFailed else Disconnected]
                               case Refuse(message) => if message then [ConnectionRefused] else []
  {
    match request
    case NoRequest => new_ := DisconnectTells(s, false);
    case Disconnect(message) => new_ := DisconnectTells(s, message);
    case Refuse(message) => new_ := RefuseTells(s, message);
  }

  lemma StreamTold(s: Session, kind: EventType, env: Env)
    requires s.Valid() && Reached(s)
    ensures Told(s, Event(kind, s.phase.stream, env))
            == if kind == ClientDisconnectRequested then
                 (match env.request
                  case NoRequest => [Disconnected]
                  case Disconnect(message) => [if message then ConnectionFailed else Disconnected]
                  case Refuse(message) => if message then [ConnectionRefused] else [])
               else if Closes(kind) then [Disconnected]
               else if kind != StreamInputReady then []
               else if s.phase.AwaitHello? then if env.helloOk then [] else [ConnectionFailed]
               else if s.phase.Handshaking? && SetsOptions(env.messages) then [Connected] else []
  {
  }

  lemma StreamTells(s: Session, kind: EventType, env: Env) returns (new_: seq<Action>)
    requires s.Valid() && Reached(s)
    ensures StreamStep(s, kind, env).log == s.log + new_
    ensures NoticesIn(new_) == Told(s, Event(kind, s.phase.stream, env))
  {
    new_ := [];
    StreamTold(s, kind, env);
    if kind == ClientDisconnectRequested {
      new_ := RequestTells(s, env.request);
    } else if Closes(kind) {
      new_ := CloseTells(s, [Disconnected]);
    } else if kind == StreamInputReady {
      if s.phase.AwaitHello? {
        new_ := HelloTells(s, env);
      } else {
        new_ := TurnTells(s, env.messages, env.more);
      }
    }
  }

  lemma UnreachedTells(s: Session, kind: EventType, target: nat, env: Env) returns (new_: seq<Action>)
    requires s.Valid() && !Reached(s) && target != SCREEN
    ensures EventStep(s, kind, target, env).log == s.log + new_
    ensures NoticesIn(new_) == Told(s, Event(kind, target, env))
  {
    new_ := [];
    if Fails(s, Event(kind, target, env)) {
      new_ := OneNotice(s, ConnectionFailed);
    }
  }

  lemma ReachedTells(s: Session, kind: EventType, target: nat, env: Env) returns (new_: seq<Action>)
    requires s.Valid() && Reached(s) && target != SCREEN
    ensures EventStep(s, kind, target, env).log == s.log + new_
    ensures NoticesIn(new_) == Told(s, Event(kind, target, env))
  {
    new_ := [];
    if target == s.phase.stream {
      new_ := StreamTells(s, kind, env);
    } else if s.phase.AwaitHello? {
      if target == s.phase.timer && kind == Timer {
        new_ := OneNotice(s, ConnectionFailed);
      }
    } else if target == s.phase.proxy && kind == StreamInputContinue {
      new_ := TurnTells(s, env.messages, env.more);
    } else if At(target) == s.phase.alarm && kind == Timer {
      new_ := [Post(ClientDisconnectRequested, s.phase.stream)];
    }
  }

  /** Every step of every run tells at most one thing, and exactly this: that an attempt
      failed, that the server refused, that the connection ended, or that it is complete. */
  lemma StepTells(inputs: seq<Input>, input: Input) returns (new_: seq<Action>)
    ensures var s := Run(INITIAL, inputs);
            Step(s, input).log == s.log + new_ && NoticesIn(new_) == Told(s, input)
  {
    AlwaysConsistent(inputs);
    var s := Run(INITIAL, inputs);
    match input
    case Connect(env) => new_ := ConnectTells(s, env);
    case CallDisconnect(message) => new_ := DisconnectTells(s, message);
    case CallRefuse(message) => new_ := RefuseTells(s, message);
    case Event(kind, target, env) =>
      if target == SCREEN {
        new_ := ScreenTells(s, kind, env);
      } else if Reached(s) {
        new_ := ReachedTells(s, kind, target, env);
      } else {
        new_ := UnreachedTells(s, kind, target, env);
      }
  }

  // ---- where each step leads ----

  predicate Breaks(s: Session, input: Input) {
    Fails(s, input) || Ends(s, input) || input.CallRefuse?
    || (OnStream(s, input, ClientDisconnectRequested) && input.env.request.Refuse?)
  }

  predicate Connects(s: Session, input: Input) {
    && s.phase.Connecting? && input.Event? && input.target == s.phase.stream
    && input.kind == if s.phase.tls then DataSocketSecureConnected else DataSocketConnected
  }

  predicate Greets(s: Session, input: Input) {
    s.phase.AwaitHello? && OnStream(s, input, StreamInputReady) && input.env.helloOk
  }

  /** Where a step leads: whatever breaks the connection makes the client idle; a successful
      attempt, the connected socket, the hello and the first options each lead one phase on;
      nothing else changes the phase, but for the alarm. */
  ghost predicate Leads(s: Session, input: Input, t: Phase) {
    if Breaks(s, input) then t == Idle
    else if Tries(s, input) then t.Connecting? && t.tls == input.env.tls && t.stream >= s.nextId && t.timer >= s.nextId
    else if Connects(s, input) then t == AwaitHello(s.phase.stream, s.phase.timer)
    else if Greets(s, input) then
      t.Handshaking? && t.stream == s.phase.stream && t.proxy >= s.nextId && t.alarm.At? && t.alarm.id >= s.nextId
    else if Completes(s, input) then t.Ready? && t.stream == s.phase.stream && t.proxy == s.phase.proxy
    else if s.phase.Proxied() then
      t.Proxied() && t.Ready? == s.phase.Ready? && t.stream == s.phase.stream && t.proxy == s.phase.proxy
    else t == s.phase
  }

  lemma StepLeads(inputs: seq<Input>, input: Input)
    ensures var s := Run(INITIAL, inputs); Leads(s, input, Step(s, input).phase)
  {
    AlwaysConsistent(inputs);
    var s := Run(INITIAL, inputs);
    match input
    case Event(kind, target, env) =>
      if target == SCREEN {
        ScreenLeads(s, kind, env);
      } else if Reached(s) && target == s.phase.stream {
        StreamLeads(s, kind, env);
      } else if Reached(s) {
        BesideLeads(s, kind, target, env);
      } else {
        UnreachedLeads(s, kind, target, env);
      }
    case _ =>
  }

  lemma ScreenLeads(s: Session, kind: EventType, env: Env)
    requires s.Valid()
    ensures Leads(s, Event(kind, SCREEN, env), EventStep(s, kind, SCREEN, env).phase)
  {
  }

  lemma UnreachedLeads(s: Session, kind: EventType, target: nat, env: Env)
    requires s.Valid() && !Reached(s) && target != SCREEN
    ensures Leads(s, Event(kind, target, env), EventStep(s, kind, target, env).phase)
  {
  }

  lemma TurnLeads(s: Session, messages: seq<Message>, more: bool)
    requires s.phase.Proxied()
    ensures var t := DataStep(s, messages, more).phase;
            && t.Proxied() && t.stream == s.phase.stream && t.proxy == s.phase.proxy
            && (t.Ready? <==> s.phase.Ready? || SetsOptions(messages))
  {
    TurnPhase(s, messages, more);
  }

  lemma StreamLeads(s: Session, kind: EventType, env: Env)
    requires s.Valid() && Reached(s)
    ensures Leads(s, Event(kind, s.phase.stream, env), StreamStep(s, kind, env).phase)
  {
    if s.phase.Proxied() && kind == StreamInputReady {
      assert StreamStep(s, kind, env) == DataStep(s, env.messages, env.more);
      TurnLeads(s, env.messages, env.more);
    }
  }

  lemma BesideLeads(s: Session, kind: EventType, target: nat, env: Env)
    requires s.Valid() && Reached(s) && target != SCREEN && target != s.phase.stream
    ensures Leads(s, Event(kind, target, env), EventStep(s, kind, target, env).phase)
  {
    if s.phase.Proxied() && target == s.phase.proxy && kind == StreamInputContinue {
      TurnLeads(s, env.messages, env.more);
    }
  }

  // ---- what a turn posts ----

  function Times(log: seq<Action>, a: Action): nat {
    if log == [] then 0 else (if log[0] == a then 1 else 0) + Times(log[1..], a)
  }

  lemma {:induction false} TimesConcat(a: seq<Action>, b: seq<Action>, x: Action)
    ensures Times(a + b, x) == Times(a, x) + Times(b, x)
  {
    if a == [] {
      assert a + b == b;
    } else {
      assert (a + b)[0] == a[0] && (a + b)[1..] == a[1..] + b;
      TimesConcat(a[1..], b, x);
    }
  }

  /** How often a turn asks to disconnect: for the hangup that ends it, and for each bad
      clipboard that comes when the client is ready. */
  function Asks(ready: bool, messages: seq<Message>): nat
    decreases |messages|
  {
    if messages == [] then 0
    else if messages[0].Hangup? then 1
    else (if messages[0].BadClipboard? && ready then 1 else 0) + Asks(ready || messages[0].SetOptions?, messages[1..])
  }

  lemma MessagePosts(s: Session, m: Message) returns (new_: seq<Action>)
    requires s.phase.Proxied()
    ensures MessageStep(s, m).log == s.log + new_
    ensures Times(new_, Post(ClientDisconnectRequested, s.phase.stream))
            == if m.Hangup? || (m.BadClipboard? && s.phase.Ready?) then 1 else 0
    ensures Times(new_, Post(StreamInputContinue, s.phase.proxy)) == 0
  {
    new_ := [];
    match m
    case SetOptions(rates) =>
      RatesPhase(s, rates);
      if s.phase.Handshaking? {
        new_ := [EnableScreen, Notify(Connected)];
        assert new_[1..] == [Notify(Connected)] && new_[1..][1..] == [];
      }
    case Hangup =>
      new_ := [Post(ClientDisconnectRequested, s.phase.stream)];
      assert new_[1..] == [];
    case BadClipboard =>
      if s.phase.Ready? {
        new_ := [Post(ClientDisconnectRequested, s.phase.stream)];
        assert new_[1..] == [];
      }
    case _ =>
  }

  /** A turn asks to disconnect for what is wrong in it, and asks for another turn exactly
      when the stream has more and nothing ended it. */
  lemma {:induction false} TurnPosts(s: Session, messages: seq<Message>, more: bool) returns (new_: seq<Action>)
    requires s.phase.Proxied()
    ensures DataStep(s, messages, more).log == s.log + new_
    ensures Times(new_, Post(ClientDisconnectRequested, s.phase.stream)) == Asks(s.phase.Ready?, messages)
    ensures Times(new_, Post(StreamInputContinue, s.phase.proxy))
            == if more && Hangup !in messages then 1 else 0
    decreases |messages|
  {
    if messages == [] {
      new_ := if more then [Post(StreamInputContinue, s.phase.proxy)] else [];
      assert new_ != [] ==> new_[1..] == [];
    } else {
      var m, t := messages[0], MessageStep(s, messages[0]);
      var first := MessagePosts(s, m);
      MessagePhase(s, m);
      assert Hangup in messages <==> m.Hangup? || Hangup in messages[1..];
      if m.Hangup? {
        new_ := first;
      } else {
        var rest := TurnPosts(t, messages[1..], more);
        new_ := first + rest;
        Regroup(s.log, first, rest);
        TimesConcat(first, rest, Post(ClientDisconnectRequested, s.phase.stream));
        TimesConcat(first, rest, Post(StreamInputContinue, s.phase.proxy));
      }
    }
  }
}
