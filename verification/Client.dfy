/** The client's connection lifecycle (Client.cpp) and the part the server proxy has in it
    (ServerProxy.cpp): who handles which event, which timers run, and when the screen is on.
 */
module Clients {
  import opened ClientSession

  // ---- facts about the handler tables ----

  ghost function StreamKeys(s: nat): set<Key> {
    {(s, ClientDisconnectRequested), (s, SocketDisconnected), (s, StreamInputReady), (s, StreamOutputError),
     (s, StreamInputShutdown), (s, StreamOutputShutdown)}
  }

  ghost function ConnectingKeys(s: nat): set<Key> {
    {(s, DataSocketConnected), (s, DataSocketSecureConnected), (s, DataSocketConnectionFailed)}
  }

  ghost function ProxyKeys(s: nat, p: nat): set<Key> {
    {(s, StreamInputReady), (p, StreamInputContinue), (p, ClipboardSending)}
  }

  /** Without the alarm's handler. */
  ghost function NoAlarm(h: Handlers, alarm: Ref): Handlers {
    if alarm.At? then h - {(alarm.id, Timer)} else h
  }

  ghost function NoTimer(timers: set<nat>, timer: Ref): set<nat> {
    if timer.At? then timers - {timer.id} else timers
  }

  /** The handlers of a phase without those of the client's timer and of the proxy. */
  ghost function AfterScreen(h: Handlers, p: Phase): Handlers {
    if p.Proxied() then NoAlarm(h - ScreenKeys(), p.alarm) - ProxyKeys(p.stream, p.proxy)
    else if p.Idle? then h
    else h - {(p.timer, Timer)}
  }

  ghost function AfterStream(h: Handlers, stream: Ref): Handlers {
    if stream.At? then h - ConnectingKeys(stream.id) - StreamKeys(stream.id) else h
  }

  ghost function ScreenKeys(): set<Key> {
    {(SCREEN, ScreenShapeChanged), (SCREEN, ClipboardGrabbed)}
  }

  lemma ConnectingGone(h: Handlers, p: Phase, nextId: nat)
    requires p.Valid(nextId) && p.Connecting? && Registered(h, p)
    ensures Registered(h - {(p.timer, Timer)} - ConnectingKeys(p.stream), Idle)
  {}

  lemma AwaitGone(h: Handlers, p: Phase, nextId: nat)
    requires p.Valid(nextId) && p.AwaitHello? && Registered(h, p)
    ensures Registered(h - {(p.timer, Timer)} - StreamKeys(p.stream), Idle)
  {}

  lemma ProxyGone(h: Handlers, p: Phase, nextId: nat)
    requires p.Valid(nextId) && p.Proxied() && Registered(h, p)
    ensures Registered(NoAlarm(h - ScreenKeys(), p.alarm) - ProxyKeys(p.stream, p.proxy) - StreamKeys(p.stream), Idle)
  {}

  /** What is left of a connected stream when its timer, its proxy and its handlers are gone. */
  lemma ConnectionGone(h: Handlers, p: Phase, nextId: nat)
    requires p.Valid(nextId) && !p.Idle? && !p.Connecting? && Registered(h, p)
    ensures Registered(AfterScreen(h, p) - StreamKeys(p.stream), Idle)
  {
    if p.AwaitHello? {
      AwaitGone(h, p, nextId);
    } else {
      ProxyGone(h, p, nextId);
    }
  }

  /** The handlers of a stream that is connecting and of one that is connected, removed both. */
  lemma BothGone(h: Handlers, s: nat)
    requires Registered(h - ConnectingKeys(s), Idle) || Registered(h - StreamKeys(s), Idle)
    requires s != SCREEN
    ensures Registered(h - ConnectingKeys(s) - StreamKeys(s), Idle)
  {
    assert h - ConnectingKeys(s) - StreamKeys(s) == h - StreamKeys(s) - ConnectingKeys(s);
  }

  /** From waiting for the connection to waiting for the hello. */
  lemma ConnectionSetUp(h: Handlers, p: Phase, nextId: nat)
    requires p.Valid(nextId) && p.Connecting? && Registered(h, p)
    ensures Registered(WithConnection(h - ConnectingKeys(p.stream), p.stream), AwaitHello(p.stream, p.timer))
  {}

  /** The proxy takes the stream's input over, and the timer goes. */
  lemma ProxySetUp(h: Handlers, p: Phase, x: nat, k: nat)
    requires p.Valid(x) && k == x + 1 && p.AwaitHello? && Registered(h, p)
    ensures var g := WithScreen(WithAlarm(WithProxy(h, p.stream, x), At(k)));
            Registered(g - {(p.timer, Timer)}, Handshaking(p.stream, x, At(k)))
  {}

  lemma ConnectingSetUp(h: Handlers, s: nat, t: nat, tls: bool)
    requires s > SCREEN && t > SCREEN && s != t && Registered(h, Idle)
    ensures Registered(WithTimer(WithConnecting(h, s, tls), t), Connecting(s, t, tls))
  {}

  lemma AlarmMoves(h: Handlers, p: Phase, k: Ref, nextId: nat)
    requires p.Valid(nextId) && p.Proxied() && Registered(h, p)
    requires k.At? ==> k.id == nextId
    ensures Registered(WithAlarm(NoAlarm(h, p.alarm), k), p.(alarm := k))
  {}

  // ---- the event queue ----

  /** What a session uses of the event queue. */
  class Events {
    var handlers: Handlers
    var timers: set<nat>
    var nextId: nat

    constructor ()
      ensures handlers == map[] && timers == {} && nextId == 1
    {
      handlers, timers, nextId := map[], {}, 1;
    }

    method AddHandler(kind: EventType, target: nat, handler: Handler)
      modifies `handlers
      ensures handlers == old(handlers)[(target, kind) := handler]
    {
      handlers := handlers[(target, kind) := handler];
    }

    method RemoveHandler(kind: EventType, target: nat)
      modifies `handlers
      ensures handlers == old(handlers) - {(target, kind)}
    {
      handlers := handlers - {(target, kind)};
    }

    /** The address of a new object, which no earlier object had. */
    method NewTarget() returns (id: nat)
      modifies `nextId
      ensures id == old(nextId) && nextId == id + 1
    {
      id := nextId;
      nextId := nextId + 1;
    }

    method NewOneShotTimer() returns (id: nat)
      modifies `nextId, `timers
      ensures id == old(nextId) && nextId == id + 1 && timers == old(timers) + {id}
    {
      id := NewTarget();
      timers := timers + {id};
    }

    method DeleteTimer(id: nat)
      modifies `timers
      ensures timers == old(timers) - {id}
    {
      timers := timers - {id};
    }
  }

  // ---- the server proxy ----

  class ServerProxy {
    const client: Client
    const stream: nat
    const events: Events
    const id: nat
    var alarmTimer: Ref
    /** Whether the keep-alive rate is positive. */
    var keepAlive: bool
    /** Whether the parser for ordinary messages is in use. */
    var handshakeDone: bool

    /** Takes the stream's input over from the client. */
    constructor (client: Client, stream: nat, events: Events)
      modifies events
      ensures this.client == client && this.stream == stream && this.events == events && !handshakeDone
      ensures id == old(events.nextId) && alarmTimer == At(id + 1) && keepAlive && events.nextId == id + 2
      ensures events.timers == old(events.timers) + {id + 1}
      ensures events.handlers == WithAlarm(WithProxy(old(events.handlers), stream, id), alarmTimer)
    {
      this.client, this.stream, this.events, alarmTimer, keepAlive, handshakeDone
        := client, stream, events, Null, false, false;
      id := events.nextId;
      new;
      var _ := events.NewTarget();
      events.AddHandler(StreamInputReady, stream, OnData);
      events.AddHandler(StreamInputContinue, id, OnData);
      events.AddHandler(ClipboardSending, id, OnSending);
      SetKeepAliveRate(true);
    }

    /** The destructor */
    method Destroy()
      modifies `alarmTimer, `keepAlive, events
      ensures alarmTimer == Null && events.nextId == old(events.nextId)
      ensures events.timers == NoTimer(old(events.timers), old(alarmTimer))
      ensures events.handlers == NoAlarm(old(events.handlers), old(alarmTimer)) - ProxyKeys(stream, id)
    {
      SetKeepAliveRate(false);
      events.RemoveHandler(StreamInputReady, stream);
      events.RemoveHandler(StreamInputContinue, id);
      events.RemoveHandler(ClipboardSending, id);
    }

    /** The timer is replaced, or removed when the rate is not positive. */
    method ResetKeepAliveAlarm()
      modifies `alarmTimer, events
      ensures alarmTimer == if keepAlive then At(old(events.nextId)) else Null
      ensures events.nextId == old(events.nextId) + if keepAlive then 1 else 0
      ensures events.handlers == WithAlarm(NoAlarm(old(events.handlers), old(alarmTimer)), alarmTimer)
      ensures events.timers == NoTimer(old(events.timers), old(alarmTimer))
                               + if keepAlive then {alarmTimer.id} else {}
    {
      if alarmTimer.At? {
        events.RemoveHandler(Timer, alarmTimer.id);
        events.DeleteTimer(alarmTimer.id);
        alarmTimer := Null;
      }
      if keepAlive {
        var timer := events.NewOneShotTimer();
        alarmTimer := At(timer);
        events.AddHandler(Timer, timer, OnAlarm);
      }
    }

    method SetKeepAliveRate(positive: bool)
      modifies `alarmTimer, `keepAlive, events
      ensures keepAlive == positive
      ensures alarmTimer == if positive then At(old(events.nextId)) else Null
      ensures events.nextId == old(events.nextId) + if positive then 1 else 0
      ensures events.handlers == WithAlarm(NoAlarm(old(events.handlers), old(alarmTimer)), alarmTimer)
      ensures events.timers == NoTimer(old(events.timers), old(alarmTimer))
                               + if positive then {alarmTimer.id} else {}
    {
      keepAlive := positive;
      ResetKeepAliveAlarm();
    }

    method RequestDisconnect()
      modifies client`log
      ensures client.log == old(client.log) + [Post(ClientDisconnectRequested, stream)]
    {
      client.log := client.log + [Post(ClientDisconnectRequested, stream)];
    }

    /** A change of the rate, or an answered keep-alive, during a session. */
    method Alarm(positive: bool)
      requires client.Valid() && client.server == this && client.phase.Proxied()
      modifies `alarmTimer, `keepAlive, client`phase, events
      ensures client.Valid() && client.phase.Proxied()
      ensures client.Session() == AlarmStep(old(client.Session()), positive)
    {
      ghost var k := if positive then At(events.nextId) else Null;
      AlarmMoves(events.handlers, client.phase, k, events.nextId);
      SetKeepAliveRate(positive);
      client.phase := client.phase.(alarm := k);
    }

    /** The part of setOptions that concerns the keep-alive rate. */
    method SetOptions(rates: seq<bool>)
      requires client.Valid() && client.server == this && client.phase.Proxied()
      modifies `alarmTimer, `keepAlive, client`phase, events
      ensures client.Valid() && client.phase.Proxied()
      ensures client.Session() == RatesStep(old(client.Session()), rates)
    {
      for i := 0 to |rates|
        invariant client.Valid() && client.phase.Proxied()
        invariant RatesStep(client.Session(), rates[i..]) == RatesStep(old(client.Session()), rates)
      {
        assert rates[i..][0] == rates[i] && rates[i..][1..] == rates[i + 1..];
        Alarm(rates[i]);
      }
      assert rates[|rates|..] == [];
    }

    /** The options, which complete the handshake. */
    method HandleOptions(rates: seq<bool>)
      requires client.Valid() && client.server == this && client.phase.Proxied()
      modifies this, client`ready, client`log, client`phase, client`screenEnabled, events
      ensures client.Valid() && client.phase.Proxied()
      ensures client.Session() == MessageStep(old(client.Session()), Message.SetOptions(rates))
    {
      SetOptions(rates);
      if !handshakeDone {
        handshakeDone := true;
        client.HandshakeComplete();
      }
    }

    /** One message; a hangup asks for nothing more to be read. */
    method HandleMessage(m: Message) returns (okay: bool)
      requires client.Valid() && client.server == this && client.phase.Proxied()
      modifies this, client`ready, client`log, client`phase, client`screenEnabled, events
      ensures client.Valid() && client.phase.Proxied() && okay == !m.Hangup?
      ensures client.Session() == MessageStep(old(client.Session()), m)
    {
      okay := true;
      match m {
        case SetOptions(rates) =>
          HandleOptions(rates);
        case ResetOptions =>
          Alarm(true);
        case KeepAlive =>
          Alarm(keepAlive);
        case Hangup =>
          RequestDisconnect();
          okay := false;
        case BadClipboard =>
          if handshakeDone {
            RequestDisconnect();
          }
        case Other =>
      }
    }

    /** handleData, as far as the session goes: one turn over the messages read. */
    method HandleData(messages: seq<Message>, more: bool)
      requires client.Valid() && client.server == this && client.phase.Proxied()
      modifies this, client`ready, client`log, client`phase, client`screenEnabled, events
      ensures client.Valid() && client.phase.Proxied()
      ensures client.Session() == DataStep(old(client.Session()), messages, more)
    {
      for i := 0 to |messages|
        invariant client.Valid() && client.phase.Proxied()
        invariant DataStep(client.Session(), messages[i..], more) == DataStep(old(client.Session()), messages, more)
      {
        assert messages[i..][0] == messages[i] && messages[i..][1..] == messages[i + 1..];
        var okay := HandleMessage(messages[i]);
        if !okay {
          return;
        }
      }
      assert messages[|messages|..] == [];
      if more {
        client.log := client.log + [Post(StreamInputContinue, id)];
      }
    }
  }

  // ---- the client ----

  class Client {
    const events: Events
    var stream: Ref
    var timer: Ref
    var server: ServerProxy?
    var ready: bool
    var suspended: bool
    var connectOnResume: bool
    var screenEnabled: bool
    /** What was done to the screen and put on the event queue. */
    var log: seq<Action>
    ghost var phase: Phase

    ghost predicate HasProxy(p: nat, s: nat, k: Ref, done: bool)
      reads `server, server
    {
      && server != null && server.client == this && server.events == events
      && server.id == p && server.stream == s && server.alarmTimer == k
      && server.keepAlive == k.At? && server.handshakeDone == done
    }

    /** The fields are those of a phase. */
    ghost predicate FieldsOf(p: Phase)
      reads `ready, `screenEnabled, `stream, `timer, `server, server
    {
      && ready == screenEnabled == p.Ready?
      && match p
         case Idle => stream == Null && timer == Null && server == null
         case Connecting(s, t, _) => stream == At(s) && timer == At(t) && server == null
         case AwaitHello(s, t) => stream == At(s) && timer == At(t) && server == null
         case Handshaking(s, x, k) => stream == At(s) && timer == Null && HasProxy(x, s, k, false)
         case Ready(s, x, k) => stream == At(s) && timer == Null && HasProxy(x, s, k, true)
    }

    ghost predicate Valid()
      reads `ready, `screenEnabled, `stream, `timer, `server, `phase, events, server
    {
      && phase.Valid(events.nextId) && FieldsOf(phase)
      && Registered(events.handlers, phase) && events.timers == TimersOf(phase)
    }

    ghost function Session(): Session
      reads this, events
    {
      ClientSession.Session(phase, suspended, connectOnResume, events.nextId, log)
    }

    constructor ()
      ensures Valid() && fresh(events) && Session() == INITIAL
    {
      events := new Events();
      stream, timer, server, ready, suspended, connectOnResume := Null, Null, null, false, false, false;
      screenEnabled, log, phase := false, [], Idle;
      new;
      events.AddHandler(ScreenSuspend, SCREEN, OnSuspend);
      events.AddHandler(ScreenResume, SCREEN, OnResume);
    }

    // ---- setting up and cleaning up ----

    method SetupConnecting(tls: bool)
      requires stream != Null
      modifies events`handlers
      ensures events.handlers == WithConnecting(old(events.handlers), stream.id, tls)
    {
      events.AddHandler(if tls then DataSocketSecureConnected else DataSocketConnected, stream.id, OnConnected);
      events.AddHandler(DataSocketConnectionFailed, stream.id, OnConnectionFailed);
    }

    method SetupConnection()
      requires stream != Null
      modifies events`handlers
      ensures events.handlers == WithConnection(old(events.handlers), stream.id)
    {
      events.AddHandler(ClientDisconnectRequested, stream.id, OnDisconnectRequested);
      events.AddHandler(SocketDisconnected, stream.id, OnDisconnected);
      events.AddHandler(StreamInputReady, stream.id, OnHello);
      events.AddHandler(StreamOutputError, stream.id, OnOutputError);
      events.AddHandler(StreamInputShutdown, stream.id, OnDisconnected);
      events.AddHandler(StreamOutputShutdown, stream.id, OnDisconnected);
    }

    method SetupScreen()
      requires stream != Null && server == null
      modifies `ready, `server, events
      ensures !ready && server != null && fresh(server)
      ensures HasProxy(old(events.nextId), stream.id, At(old(events.nextId) + 1), false)
      ensures events.nextId == old(events.nextId) + 2 && events.timers == old(events.timers) + {server.alarmTimer.id}
      ensures events.handlers
              == WithScreen(WithAlarm(WithProxy(old(events.handlers), stream.id, server.id), server.alarmTimer))
    {
      ready := false;
      server := new ServerProxy(this, stream.id, events);
      events.AddHandler(ScreenShapeChanged, SCREEN, OnShapeChanged);
      events.AddHandler(ClipboardGrabbed, SCREEN, OnClipboardGrabbed);
    }

    method SetupTimer()
      requires timer == Null
      modifies `timer, events
      ensures timer == At(old(events.nextId)) && events.nextId == old(events.nextId) + 1
      ensures events.timers == old(events.timers) + {timer.id}
      ensures events.handlers == WithTimer(old(events.handlers), timer.id)
    {
      var t := events.NewOneShotTimer();
      timer := At(t);
      events.AddHandler(Timer, t, OnConnectTimeout);
    }

    method CleanupConnecting()
      modifies events`handlers
      ensures events.handlers == if stream == Null then old(events.handlers)
                                 else old(events.handlers) - ConnectingKeys(stream.id)
    {
      if stream != Null {
        events.RemoveHandler(DataSocketConnected, stream.id);
        events.RemoveHandler(DataSocketSecureConnected, stream.id);
        events.RemoveHandler(DataSocketConnectionFailed, stream.id);
      }
    }

    method CleanupConnection()
      modifies `stream, events`handlers
      ensures stream == Null
      ensures events.handlers == if old(stream) == Null then old(events.handlers)
                                 else old(events.handlers) - StreamKeys(old(stream.id))
    {
      if stream != Null {
        events.RemoveHandler(StreamInputReady, stream.id);
        events.RemoveHandler(StreamOutputError, stream.id);
        events.RemoveHandler(StreamInputShutdown, stream.id);
        events.RemoveHandler(StreamOutputShutdown, stream.id);
        events.RemoveHandler(SocketDisconnected, stream.id);
        events.RemoveHandler(ClientDisconnectRequested, stream.id);
        CleanupStream();
      }
    }

    /** A proxy goes, and with it everything it registered; a screen that was enabled is
        disabled first. */
    method CleanupScreen()
      requires server != null ==> server.events == events
      requires ready ==> screenEnabled && server != null
      modifies `ready, `screenEnabled, `log, `server, events, server
      ensures server == null && !ready
      ensures screenEnabled == if old(ready) then false else old(screenEnabled)
      ensures log == old(log) + if old(ready) then [DisableScreen] else []
      ensures events.nextId == old(events.nextId)
      ensures events.timers == if old(server) == null then old(events.timers)
                               else NoTimer(old(events.timers), old(server.alarmTimer))
      ensures events.handlers
              == if old(server) == null then old(events.handlers)
                 else NoAlarm(old(events.handlers) - ScreenKeys(), old(server.alarmTimer))
                      - ProxyKeys(old(server).stream, old(server).id)
    {
      if server != null {
        if ready {
          DisableTheScreen();
          ready := false;
        }
        events.RemoveHandler(ScreenShapeChanged, SCREEN);
        events.RemoveHandler(ClipboardGrabbed, SCREEN);
        server.Destroy();
        server := null;
      }
    }

    method CleanupTimer()
      modifies `timer, events`handlers, events`timers
      ensures timer == Null
      ensures events.timers == if old(timer) == Null then old(events.timers) else old(events.timers) - {old(timer.id)}
      ensures events.handlers == if old(timer) == Null then old(events.handlers)
                                 else old(events.handlers) - {(old(timer.id), Timer)}
    {
      if timer != Null {
        events.RemoveHandler(Timer, timer.id);
        events.DeleteTimer(timer.id);
        timer := Null;
      }
    }

    method CleanupStream()
      modifies `stream
      ensures stream == Null
    {
      stream := Null;
    }

    /** The screen is never enabled twice in a row. */
    method EnableTheScreen()
      requires !screenEnabled
      modifies `screenEnabled, `log
      ensures screenEnabled && log == old(log) + [EnableScreen]
    {
      screenEnabled := true;
      log := log + [EnableScreen];
    }

    method DisableTheScreen()
      requires screenEnabled
      modifies `screenEnabled, `log
      ensures !screenEnabled && log == old(log) + [DisableScreen]
    {
      screenEnabled := false;
      log := log + [DisableScreen];
    }

    method Send(notice: Notice)
      modifies `log
      ensures log == old(log) + [Notify(notice)]
    {
      log := log + [Notify(notice)];
    }

    // ---- the interface ----

    method Connect(env: Env)
      requires Valid()
      modifies this, events
      ensures Valid() && Session() == ConnectStep(old(Session()), env)
    {
      if stream != Null {
        return;
      }
      if suspended {
        connectOnResume := true;
        return;
      }
      if env.attempt.FailsEarly? {
        CleanupTimer();
        CleanupConnecting();
        CleanupStream();
        Send(ConnectionFailed);
        return;
      }
      StartConnecting(env.tls);
      if env.attempt.FailsLate? {
        // the exception's handler does what the handler of a failed connection does
        HandleConnectionFailed();
      }
    }

    /** The part of connect() between creating the stream and the socket's own connect. */
    method StartConnecting(tls: bool)
      requires Valid() && phase.Idle?
      modifies this, events
      ensures Valid()
      ensures Session() == old(Session()).(phase := Connecting(old(events.nextId), old(events.nextId) + 1, tls),
                                           nextId := old(events.nextId) + 2)
    {
      var id := events.NewTarget();
      ConnectingSetUp(events.handlers, id, id + 1, tls);
      stream := At(id);
      SetupConnecting(tls);
      SetupTimer();
      phase := Connecting(id, timer.id, tls);
    }

    /** What the cleanup functions leave of the handlers, phase by phase. */
    lemma AllGone()
      requires Valid()
      ensures Registered(AfterStream(AfterScreen(events.handlers, phase), stream), Idle)
    {
      match phase
      case Idle =>
      case Connecting(s, t, tls) =>
        ConnectingGone(events.handlers, phase, events.nextId);
        BothGone(AfterScreen(events.handlers, phase), s);
      case _ =>
        ConnectionGone(events.handlers, phase, events.nextId);
        BothGone(AfterScreen(events.handlers, phase), phase.stream);
    }

    /** What every way of closing a connection begins with. */
    method CleanupTimerAndScreen()
      requires Valid()
      modifies `timer, `ready, `screenEnabled, `log, `server, events, server
      ensures timer == Null && server == null && !ready && !screenEnabled
      ensures log == old(log) + if phase.Ready? then [DisableScreen] else []
      ensures events.nextId == old(events.nextId) && events.timers == {}
      ensures events.handlers == AfterScreen(old(events.handlers), phase)
    {
      CleanupTimer();
      CleanupScreen();
    }

    method CleanupBoth()
      modifies `stream, events`handlers
      ensures stream == Null && events.handlers == AfterStream(old(events.handlers), old(stream))
    {
      CleanupConnecting();
      CleanupConnection();
    }

    /** cleanup: nothing of the connection is left. */
    method CleanupAll()
      requires Valid()
      modifies `timer, `ready, `screenEnabled, `log, `server, `stream, `phase, events, server
      ensures Valid() && phase == Idle && events.nextId == old(events.nextId)
      ensures log == old(log) + if old(phase).Ready? then [DisableScreen] else []
    {
      AllGone();
      CleanupTimerAndScreen();
      CleanupBoth();
      phase := Idle;
    }

    method Cleanup()
      requires Valid()
      modifies this, events, server
      ensures Valid() && Session() == Close(old(Session()).(connectOnResume := false))
    {
      connectOnResume := false;
      CleanupAll();
    }

    method Disconnect(message: bool)
      requires Valid()
      modifies this, events, server
      ensures Valid() && Session() == DisconnectStep(old(Session()), message)
    {
      Cleanup();
      if message {
        Send(ConnectionFailed);
      } else {
        Send(Disconnected);
      }
    }

    method RefuseConnection(message: bool)
      requires Valid()
      modifies this, events, server
      ensures Valid() && Session() == RefuseStep(old(Session()), message)
    {
      Cleanup();
      if message {
        Send(ConnectionRefused);
      }
    }

    /** Called by the proxy when the handshake is over, with its parser already switched. */
    method HandshakeComplete()
      requires phase.Handshaking? && !screenEnabled
      modifies `ready, `screenEnabled, `log, `phase
      ensures ready && screenEnabled && log == old(log) + [EnableScreen, Notify(Connected)]
      ensures phase == Ready(old(phase.stream), old(phase.proxy), old(phase.alarm))
    {
      ready := true;
      EnableTheScreen();
      Send(Connected);
      phase := Ready(phase.stream, phase.proxy, phase.alarm);
    }

    // ---- the event handlers ----

    method HandleConnected()
      requires Valid() && phase.Connecting?
      modifies this, events
      ensures Valid() && Session() == old(Session()).(phase := AwaitHello(old(phase.stream), old(phase.timer)))
    {
      ConnectionSetUp(events.handlers, phase, events.nextId);
      CleanupConnecting();
      SetupConnection();
      phase := AwaitHello(phase.stream, phase.timer);
    }

    method HandleConnectionFailed()
      requires Valid() && phase.Connecting?
      modifies this, events
      ensures Valid() && Session() == Log(old(Session()), [Notify(ConnectionFailed)]).(phase := Idle)
    {
      ConnectingGone(events.handlers, phase, events.nextId);
      CleanupTimer();
      CleanupConnecting();
      CleanupStream();
      phase := Idle;
      Send(ConnectionFailed);
    }

    /** No proxy can exist while the timer runs, so none has to be cleaned up. */
    method HandleConnectTimeout()
      requires Valid() && (phase.Connecting? || phase.AwaitHello?)
      modifies this, events
      ensures Valid() && Session() == Log(old(Session()), [Notify(ConnectionFailed)]).(phase := Idle)
    {
      AllGone();
      CleanupTimer();
      CleanupBoth();
      CleanupStream();
      phase := Idle;
      Send(ConnectionFailed);
    }

    /** The body of handleOutputError and handleDisconnected. */
    method HandleDisconnected()
      requires Valid() && !phase.Idle? && !phase.Connecting?
      modifies this, events, server
      ensures Valid() && Session() == Log(Close(old(Session())), [Notify(Disconnected)])
    {
      ConnectionGone(events.handlers, phase, events.nextId);
      CleanupTimerAndScreen();
      CleanupConnection();
      phase := Idle;
      Send(Disconnected);
    }

    method HandleDisconnectRequested(request: Request)
      requires Valid()
      modifies this, events, server
      ensures Valid() && Session() == RequestStep(old(Session()), request)
    {
      match request {
        case NoRequest => Disconnect(false);
        case Refuse(message) => RefuseConnection(message);
        case Disconnect(message) => Disconnect(message);
      }
    }

    method HandleHello(env: Env)
      requires Valid() && phase.AwaitHello?
      modifies this, events
      ensures Valid() && Session() == HelloStep(old(Session()), env)
    {
      if !env.helloOk {
        Send(ConnectionFailed);
        DropConnection();
        return;
      }
      StartHandshake();
      if env.more {
        log := log + [Post(StreamInputReady, stream.id)];
      }
    }

    /** A hello that is not acceptable ends the connection. */
    method DropConnection()
      requires Valid() && phase.AwaitHello?
      modifies `stream, `timer, `phase, events
      ensures Valid() && Session() == old(Session()).(phase := Idle)
    {
      AwaitGone(events.handlers, phase, events.nextId);
      CleanupTimer();
      CleanupConnection();
      phase := Idle;
    }

    /** The proxy takes over. */
    method StartHandshake()
      requires Valid() && phase.AwaitHello?
      modifies `ready, `server, `timer, `phase, events
      ensures Valid() && events.nextId == old(events.nextId) + 2
      ensures phase == Handshaking(old(phase.stream), old(events.nextId), At(old(events.nextId) + 1))
    {
      ghost var h, x := events.handlers, events.nextId;
      ProxySetUp(h, phase, x, x + 1);
      SetupScreen();
      assert events.handlers == WithScreen(WithAlarm(WithProxy(h, phase.stream, x), At(x + 1)));
      CleanupTimer();
      assert events.timers == {x + 1};
      phase := Handshaking(phase.stream, server.id, server.alarmTimer);
    }

    method HandleSuspend()
      requires Valid()
      modifies this, events, server
      ensures Valid() && Session() == SuspendStep(old(Session()))
    {
      if !suspended {
        suspended := true;
        var wasConnected := server != null;
        Disconnect(false);
        connectOnResume := wasConnected;
      }
    }

    method HandleResume(env: Env)
      requires Valid()
      modifies this, events
      ensures Valid() && Session() == ResumeStep(old(Session()), env)
    {
      if suspended {
        suspended := false;
        if connectOnResume {
          connectOnResume := false;
          Connect(env);
        }
      }
    }

    /** handleShapeChanged and handleClipboardGrabbed use the proxy without asking whether
        there is one. */
    method HandleScreenEvent() returns (r: ServerProxy)
      requires Valid() && phase.Proxied()
      ensures r == server && r.client == this
    {
      r := server;
    }

    // ---- the event queue calls ----

    /** Dispatching an event: the handler registered for it runs, if there is one. */
    method Dispatch(kind: EventType, target: nat, env: Env)
      requires Valid()
      modifies this, events, server
      ensures Valid() && Session() == EventStep(old(Session()), kind, target, env)
    {
      EventIsHandled(Session(), kind, target, env);
      if (target, kind) in events.handlers {
        Handle(events.handlers[(target, kind)], env);
      }
    }

    method Handle(handler: Handler, env: Env)
      requires Valid() && Fits(handler, phase)
      modifies this, events, server
      ensures Valid() && Session() == HandlerStep(old(Session()), handler, env)
    {
      match handler {
        case OnSuspend => HandleSuspend();
        case OnResume => HandleResume(env);
        case OnConnected => HandleConnected();
        case OnConnectionFailed => HandleConnectionFailed();
        case OnConnectTimeout => HandleConnectTimeout();
        case OnDisconnectRequested => HandleDisconnectRequested(env.request);
        case OnDisconnected => HandleDisconnected();
        case OnOutputError => HandleDisconnected();
        case OnHello => HandleHello(env);
        case OnData => server.HandleData(env.messages, env.more);
        case OnAlarm => server.RequestDisconnect();
        case OnShapeChanged => var _ := HandleScreenEvent();
        case OnClipboardGrabbed => var _ := HandleScreenEvent();
        case OnSending =>
      }
    }

    /** One input of a run. */
    method Take(input: Input)
      requires Valid()
      modifies this, events, server
      ensures Valid() && Session() == Step(old(Session()), input)
    {
      match input {
        case Connect(env) => Connect(env);
        case CallDisconnect(message) => Disconnect(message);
        case CallRefuse(message) => RefuseConnection(message);
        case Event(kind, target, env) => Dispatch(kind, target, env);
      }
    }

    /** The destructor leaves nothing on the event queue. */
    method Destroy()
      requires Valid()
      modifies this, events, server
      ensures events.handlers == map[] && events.timers == {} && !screenEnabled
    {
      events.RemoveHandler(ScreenSuspend, SCREEN);
      events.RemoveHandler(ScreenResume, SCREEN);
      CleanupTimer();
      CleanupScreen();
      CleanupBoth();
    }
  }

  /** The phases in which a handler's own assumptions hold. */
  predicate Fits(h: Handler, p: Phase) {
    match h
    case OnSuspend => true
    case OnResume => true
    case OnConnected => p.Connecting?
    case OnConnectionFailed => p.Connecting?
    case OnConnectTimeout => p.Connecting? || p.AwaitHello?
    case OnDisconnectRequested => true
    case OnDisconnected => p.AwaitHello? || p.Proxied()
    case OnOutputError => p.AwaitHello? || p.Proxied()
    case OnHello => p.AwaitHello?
    case _ => p.Proxied()
  }

  function HandlerStep(s: Session, h: Handler, env: Env): Session
    requires Fits(h, s.phase)
  {
    match h
    case OnSuspend => SuspendStep(s)
    case OnResume => ResumeStep(s, env)
    case OnConnected => s.(phase := AwaitHello(s.phase.stream, s.phase.timer))
    case OnConnectionFailed => Log(s, [Notify(ConnectionFailed)]).(phase := Idle)
    case OnConnectTimeout => Log(s, [Notify(ConnectionFailed)]).(phase := Idle)
    case OnDisconnectRequested => RequestStep(s, env.request)
    case OnDisconnected => Log(Close(s), [Notify(Disconnected)])
    case OnOutputError => Log(Close(s), [Notify(Disconnected)])
    case OnHello => HelloStep(s, env)
    case OnData => DataStep(s, env.messages, env.more)
    case OnAlarm => Log(s, [Post(ClientDisconnectRequested, s.phase.stream)])
    case _ => s
  }

  // ---- which event has which handler ----

  datatype Lookup = Missing | Found(handler: Handler)

  function LookUp(h: Handlers, key: Key): Lookup {
    if key in h then Found(h[key]) else Missing
  }

  /** The handlers of a connected stream; its input has the client's or the proxy's. */
  function StreamHandler(kind: EventType, input: Handler): Lookup {
    match kind
    case ClientDisconnectRequested => Found(OnDisconnectRequested)
    case SocketDisconnected => Found(OnDisconnected)
    case StreamInputReady => Found(input)
    case StreamOutputError => Found(OnOutputError)
    case StreamInputShutdown => Found(OnDisconnected)
    case StreamOutputShutdown => Found(OnDisconnected)
    case _ => Missing
  }

  function ScreenHandler(kind: EventType, proxied: bool): Lookup {
    match kind
    case ScreenSuspend => Found(OnSuspend)
    case ScreenResume => Found(OnResume)
    case ScreenShapeChanged => if proxied then Found(OnShapeChanged) else Missing
    case ClipboardGrabbed => if proxied then Found(OnClipboardGrabbed) else Missing
    case _ => Missing
  }

  /** The handler that an event has in a phase. */
  function HandlerFor(p: Phase, kind: EventType, target: nat): Lookup {
    if target == SCREEN then ScreenHandler(kind, p.Proxied())
    else
      match p
      case Idle => Missing
      case Connecting(s, t, tls) =>
        if target == s && kind == (if tls then DataSocketSecureConnected else DataSocketConnected) then
          Found(OnConnected)
        else if target == s && kind == DataSocketConnectionFailed then Found(OnConnectionFailed)
        else if target == t && kind == Timer then Found(OnConnectTimeout)
        else Missing
      case AwaitHello(s, t) =>
        if target == s then StreamHandler(kind, OnHello)
        else if target == t && kind == Timer then Found(OnConnectTimeout)
        else Missing
      case _ =>
        if target == p.stream then StreamHandler(kind, OnData)
        else if target == p.proxy && kind == StreamInputContinue then Found(OnData)
        else if target == p.proxy && kind == ClipboardSending then Found(OnSending)
        else if At(target) == p.alarm && kind == Timer then Found(OnAlarm)
        else Missing
  }

  lemma BaseLookUp(kind: EventType, target: nat)
    ensures LookUp(BaseHandlers(), (target, kind))
            == if target == SCREEN then ScreenHandler(kind, false) else Missing
  {}

  lemma ConnectionLookUp(h: Handlers, s: nat, kind: EventType, target: nat)
    ensures LookUp(WithConnection(h, s), (target, kind))
            == if target == s && StreamHandler(kind, OnHello).Found? then StreamHandler(kind, OnHello)
               else LookUp(h, (target, kind))
  {}

  lemma ProxyLookUp(h: Handlers, s: nat, p: nat, kind: EventType, target: nat)
    ensures LookUp(WithProxy(h, s, p), (target, kind))
            == if target == p && kind == ClipboardSending then Found(OnSending)
               else if (target == p && kind == StreamInputContinue) || (target == s && kind == StreamInputReady)
               then Found(OnData)
               else LookUp(h, (target, kind))
  {}

  lemma AlarmLookUp(h: Handlers, alarm: Ref, kind: EventType, target: nat)
    ensures LookUp(WithAlarm(h, alarm), (target, kind))
            == if At(target) == alarm && kind == Timer then Found(OnAlarm) else LookUp(h, (target, kind))
  {}

  lemma ScreenLookUp(h: Handlers, kind: EventType, target: nat)
    ensures LookUp(WithScreen(h), (target, kind))
            == if target == SCREEN && kind == ScreenShapeChanged then Found(OnShapeChanged)
               else if target == SCREEN && kind == ClipboardGrabbed then Found(OnClipboardGrabbed)
               else LookUp(h, (target, kind))
  {}

  lemma ProxiedLookUp(p: Phase, nextId: nat, kind: EventType, target: nat)
    requires p.Valid(nextId) && p.Proxied()
    ensures LookUp(HandlersOf(p), (target, kind)) == HandlerFor(p, kind, target)
  {
    var base := BaseHandlers();
    var connected := WithConnection(base, p.stream);
    var proxied := WithProxy(connected, p.stream, p.proxy);
    var alarmed := WithAlarm(proxied, p.alarm);
    BaseLookUp(kind, target);
    ConnectionLookUp(base, p.stream, kind, target);
    ProxyLookUp(connected, p.stream, p.proxy, kind, target);
    AlarmLookUp(proxied, p.alarm, kind, target);
    ScreenLookUp(alarmed, kind, target);
  }

  lemma AwaitLookUp(p: Phase, nextId: nat, kind: EventType, target: nat)
    requires p.Valid(nextId) && p.AwaitHello?
    ensures LookUp(HandlersOf(p), (target, kind)) == HandlerFor(p, kind, target)
  {
    BaseLookUp(kind, target);
    ConnectionLookUp(WithTimer(BaseHandlers(), p.timer), p.stream, kind, target);
  }

  /** The handler table of a phase, looked up. */
  lemma HandlerLookUp(p: Phase, nextId: nat, kind: EventType, target: nat)
    requires p.Valid(nextId)
    ensures LookUp(HandlersOf(p), (target, kind)) == HandlerFor(p, kind, target)
  {
    match p
    case Idle => BaseLookUp(kind, target);
    case Connecting(_, _, _) => BaseLookUp(kind, target);
    case AwaitHello(_, _) => AwaitLookUp(p, nextId, kind, target);
    case _ => ProxiedLookUp(p, nextId, kind, target);
  }

  /** Events without a handler do nothing; a handler that runs is in a phase it fits. */
  ghost predicate Handled(s: Session, found: Lookup, kind: EventType, target: nat, env: Env) {
    var after := EventStep(s, kind, target, env);
    match found
    case Missing => after == s
    case Found(h) => Fits(h, s.phase) && after == HandlerStep(s, h, env)
  }

  lemma ScreenIsHandled(s: Session, kind: EventType, env: Env)
    ensures Handled(s, ScreenHandler(kind, s.phase.Proxied()), kind, SCREEN, env)
  {}

  lemma ConnectingIsHandled(s: Session, kind: EventType, target: nat, env: Env)
    requires (s.phase.Connecting? || s.phase.Idle?) && target != SCREEN
    ensures Handled(s, HandlerFor(s.phase, kind, target), kind, target, env)
  {}

  lemma StreamIsHandled(s: Session, kind: EventType, env: Env)
    requires (s.phase.AwaitHello? || s.phase.Proxied()) && s.phase.stream != SCREEN
    ensures Handled(s, StreamHandler(kind, if s.phase.AwaitHello? then OnHello else OnData), kind, s.phase.stream, env)
  {}

  lemma OtherIsHandled(s: Session, kind: EventType, target: nat, env: Env)
    requires (s.phase.AwaitHello? || s.phase.Proxied()) && target != SCREEN && target != s.phase.stream
    requires s.phase.Valid(s.nextId)
    ensures Handled(s, HandlerFor(s.phase, kind, target), kind, target, env)
  {}

  lemma EventIsHandled(s: Session, kind: EventType, target: nat, env: Env)
    requires s.phase.Valid(s.nextId)
    ensures Handled(s, LookUp(HandlersOf(s.phase), (target, kind)), kind, target, env)
  {
    HandlerLookUp(s.phase, s.nextId, kind, target);
    if target == SCREEN {
      ScreenIsHandled(s, kind, env);
    } else if s.phase.Idle? || s.phase.Connecting? {
      ConnectingIsHandled(s, kind, target, env);
    } else if target == s.phase.stream {
      StreamIsHandled(s, kind, env);
    } else {
      OtherIsHandled(s, kind, target, env);
    }
  }
}
