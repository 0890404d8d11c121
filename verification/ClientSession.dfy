/** The client's connection to a server as a small state machine of phases, and what is true
    of all its runs.  The handlers and timers the event queue holds are a function of the
    phase; Client.dfy proves that the code keeps them so.
 */
module ClientSession {

  datatype EventType =
    | ScreenSuspend | ScreenResume | ScreenShapeChanged | ClipboardGrabbed
    | DataSocketConnected | DataSocketSecureConnected | DataSocketConnectionFailed
    | ClientDisconnectRequested | SocketDisconnected | StreamInputReady | StreamOutputError
    | StreamInputShutdown | StreamOutputShutdown | StreamInputContinue | ClipboardSending | Timer

  datatype Handler =
    | OnSuspend | OnResume | OnShapeChanged | OnClipboardGrabbed
    | OnConnected | OnConnectionFailed | OnConnectTimeout | OnDisconnectRequested
    | OnDisconnected | OnHello | OnOutputError
    | OnData | OnSending | OnAlarm

  type Key = (nat, EventType)

  type Handlers = map<Key, Handler>

  /** The event target of the client itself.  Streams, proxies and timers get targets never
      used before. */
  const SCREEN: nat := 0

  /** A pointer to a stream or a timer. */
  datatype Ref = Null | At(id: nat)

  /** How far the connection is: what exists in each phase.  The server may switch the alarm
      for missing keep-alives off. */
  datatype Phase =
    | Idle
    | Connecting(stream: nat, timer: nat, tls: bool)
    | AwaitHello(stream: nat, timer: nat)
    | Handshaking(stream: nat, proxy: nat, alarm: Ref)
    | Ready(stream: nat, proxy: nat, alarm: Ref)
  {
    ghost predicate Valid(nextId: nat) {
      && nextId > SCREEN
      && match this
         case Idle => true
         case Connecting(s, t, _) => SCREEN < s < nextId && SCREEN < t < nextId && s != t
         case AwaitHello(s, t) => SCREEN < s < nextId && SCREEN < t < nextId && s != t
         case _ =>
           && SCREEN < stream < nextId && SCREEN < proxy < nextId && stream != proxy
           && (alarm.At? ==> SCREEN < alarm.id < nextId && alarm.id !in {stream, proxy})
    }

    predicate Proxied() {
      Handshaking? || Ready?
    }
  }

  // ---- the handlers and timers of a phase ----

  function BaseHandlers(): Handlers {
    map[(SCREEN, ScreenSuspend) := OnSuspend, (SCREEN, ScreenResume) := OnResume]
  }

  function WithConnecting(h: Handlers, s: nat, tls: bool): Handlers {
    h[(s, if tls then DataSocketSecureConnected else DataSocketConnected) := OnConnected]
     [(s, DataSocketConnectionFailed) := OnConnectionFailed]
  }

  function WithConnection(h: Handlers, s: nat): Handlers {
    h[(s, ClientDisconnectRequested) := OnDisconnectRequested][(s, SocketDisconnected) := OnDisconnected]
     [(s, StreamInputReady) := OnHello][(s, StreamOutputError) := OnOutputError]
     [(s, StreamInputShutdown) := OnDisconnected][(s, StreamOutputShutdown) := OnDisconnected]
  }

  function WithTimer(h: Handlers, t: nat): Handlers {
    h[(t, Timer) := OnConnectTimeout]
  }

  /** The proxy has the stream's input instead of the client. */
  function WithProxy(h: Handlers, s: nat, p: nat): Handlers {
    h[(s, StreamInputReady) := OnData][(p, StreamInputContinue) := OnData][(p, ClipboardSending) := OnSending]
  }

  function WithAlarm(h: Handlers, alarm: Ref): Handlers {
    if alarm.At? then h[(alarm.id, Timer) := OnAlarm] else h
  }

  function WithScreen(h: Handlers): Handlers {
    h[(SCREEN, ScreenShapeChanged) := OnShapeChanged][(SCREEN, ClipboardGrabbed) := OnClipboardGrabbed]
  }

  function HandlersOf(p: Phase): Handlers {
    match p
    case Idle => BaseHandlers()
    case Connecting(s, t, tls) => WithTimer(WithConnecting(BaseHandlers(), s, tls), t)
    case AwaitHello(s, t) => WithConnection(WithTimer(BaseHandlers(), t), s)
    case Handshaking(s, x, k) => WithScreen(WithAlarm(WithProxy(WithConnection(BaseHandlers(), s), s, x), k))
    case Ready(s, x, k) => WithScreen(WithAlarm(WithProxy(WithConnection(BaseHandlers(), s), s, x), k))
  }

  /** The handlers of a phase are registered, and no others. */
  ghost predicate Registered(h: Handlers, p: Phase) {
    h == HandlersOf(p)
  }

  function TimersOf(p: Phase): set<nat> {
    match p
    case Idle => {}
    case Connecting(_, t, _) => {t}
    case AwaitHello(_, t) => {t}
    case _ => if p.alarm.At? then {p.alarm.id} else {}
  }

  // ---- steps ----

  datatype Notice = Connected | Disconnected | ConnectionFailed | ConnectionRefused

  /** What the client does to its surroundings. */
  datatype Action = EnableScreen | DisableScreen | Notify(notice: Notice) | Post(kind: EventType, target: nat)

  /** How an attempt to connect goes: an exception before or after the stream exists, or none. */
  datatype Attempt = FailsEarly | FailsLate | Starts

  datatype Request = NoRequest | Disconnect(message: bool) | Refuse(message: bool)

  /** The messages that matter to the session.  Options may set the keep-alive rate, each time
      to a positive rate or to zero.  A hangup stands for whatever ends the turn with a
      request to disconnect: a close, an incomplete or malformed message, a refusal.  Bad
      clipboard data asks to disconnect, too, but the turn goes on; before the handshake is
      complete the message is not known. */
  datatype Message = SetOptions(rates: seq<bool>) | ResetOptions | KeepAlive | Hangup | BadClipboard | Other

  /** Everything a step's surroundings decide: how connecting goes and whether TLS is on,
      what a disconnect event asks for, whether the hello is acceptable, the messages of a
      turn and whether the stream has more to read. */
  datatype Env = Env(attempt: Attempt, tls: bool, request: Request, helloOk: bool,
                     messages: seq<Message>, more: bool)

  datatype Input =
    | Connect(env: Env)
    | CallDisconnect(message: bool)
    | CallRefuse(message: bool)
    | Event(kind: EventType, target: nat, env: Env)

  datatype Session = Session(phase: Phase, suspended: bool, connectOnResume: bool, nextId: nat, log: seq<Action>) {
    ghost predicate Valid() {
      && phase.Valid(nextId)
      && (suspended ==> phase == Idle)
      && (connectOnResume ==> suspended)
    }
  }

  const INITIAL: Session := Session(Idle, false, false, 1, [])

  function Log(s: Session, actions: seq<Action>): Session {
    s.(log := s.log + actions)
  }

  /** Everything is torn down; an enabled screen is disabled on the way. */
  function Close(s: Session): Session {
    Log(s, if s.phase.Ready? then [DisableScreen] else []).(phase := Idle)
  }

  function ConnectStep(s: Session, env: Env): Session {
    if s.phase != Idle then s
    else if s.suspended then s.(connectOnResume := true)
    else
      match env.attempt
      case FailsEarly => Log(s, [Notify(ConnectionFailed)])
      case FailsLate => Log(s.(nextId := s.nextId + 2), [Notify(ConnectionFailed)])
      case Starts => s.(phase := Connecting(s.nextId, s.nextId + 1, env.tls), nextId := s.nextId + 2)
  }

  function DisconnectStep(s: Session, message: bool): Session {
    Log(Close(s.(connectOnResume := false)), [Notify(if message then ConnectionFailed else Disconnected)])
  }

  function RefuseStep(s: Session, message: bool): Session {
    Log(Close(s.(connectOnResume := false)), if message then [Notify(ConnectionRefused)] else [])
  }

  function RequestStep(s: Session, request: Request): Session {
    match request
    case NoRequest => DisconnectStep(s, false)
    case Disconnect(message) => DisconnectStep(s, message)
    case Refuse(message) => RefuseStep(s, message)
  }

  function HelloStep(s: Session, env: Env): Session
    requires s.phase.AwaitHello?
  {
    if !env.helloOk then Log(s, [Notify(ConnectionFailed)]).(phase := Idle)
    else
      Log(s.(phase := Handshaking(s.phase.stream, s.nextId, At(s.nextId + 1)), nextId := s.nextId + 2),
          if env.more then [Post(StreamInputReady, s.phase.stream)] else [])
  }

  /** The keep-alive alarm is replaced, or removed when the rate is not positive. */
  function AlarmStep(s: Session, positive: bool): (r: Session)
    requires s.phase.Proxied()
    ensures r.phase.Proxied()
  {
    if positive then s.(phase := s.phase.(alarm := At(s.nextId)), nextId := s.nextId + 1)
    else s.(phase := s.phase.(alarm := Null))
  }

  function RatesStep(s: Session, rates: seq<bool>): (r: Session)
    requires s.phase.Proxied()
    ensures r.phase.Proxied() && r.phase.Ready? == s.phase.Ready?
    decreases |rates|
  {
    if rates == [] then s else RatesStep(AlarmStep(s, rates[0]), rates[1..])
  }

  /** One message from the server. */
  function MessageStep(s: Session, m: Message): (r: Session)
    requires s.phase.Proxied()
    ensures r.phase.Proxied()
  {
    match m
    case SetOptions(rates) =>
      var t := RatesStep(s, rates);
      if t.phase.Handshaking?
      then Log(t, [EnableScreen, Notify(Connected)]).(phase := Ready(t.phase.stream, t.phase.proxy, t.phase.alarm))
      else t
    case ResetOptions => AlarmStep(s, true)
    case KeepAlive => AlarmStep(s, s.phase.alarm.At?)
    case Hangup => Log(s, [Post(ClientDisconnectRequested, s.phase.stream)])
    case BadClipboard => if s.phase.Ready? then Log(s, [Post(ClientDisconnectRequested, s.phase.stream)]) else s
    case Other => s
  }

  /** A turn over the messages read; a hangup ends it. */
  function DataStep(s: Session, messages: seq<Message>, more: bool): Session
    requires s.phase.Proxied()
    decreases |messages|
  {
    if messages == [] then Log(s, if more then [Post(StreamInputContinue, s.phase.proxy)] else [])
    else if messages[0].Hangup? then MessageStep(s, messages[0])
    else DataStep(MessageStep(s, messages[0]), messages[1..], more)
  }

  function SuspendStep(s: Session): Session {
    if s.suspended then s
    else DisconnectStep(s.(suspended := true), false).(connectOnResume := s.phase.Proxied())
  }

  function ResumeStep(s: Session, env: Env): Session {
    if !s.suspended then s
    else if s.connectOnResume then ConnectStep(s.(suspended := false, connectOnResume := false), env)
    else s.(suspended := false)
  }

  /** Events on a stream once it is connected. */
  function StreamStep(s: Session, kind: EventType, env: Env): Session
    requires !s.phase.Idle? && !s.phase.Connecting?
  {
    match kind
    case ClientDisconnectRequested => RequestStep(s, env.request)
    case SocketDisconnected => Log(Close(s), [Notify(Disconnected)])
    case StreamOutputError => Log(Close(s), [Notify(Disconnected)])
    case StreamInputShutdown => Log(Close(s), [Notify(Disconnected)])
    case StreamOutputShutdown => Log(Close(s), [Notify(Disconnected)])
    case StreamInputReady => if s.phase.AwaitHello? then HelloStep(s, env) else DataStep(s, env.messages, env.more)
    case _ => s
  }

  function EventStep(s: Session, kind: EventType, target: nat, env: Env): Session {
    if target == SCREEN then
      if kind == ScreenSuspend then SuspendStep(s)
      else if kind == ScreenResume then ResumeStep(s, env)
      else s
    else
      match s.phase
      case Idle => s
      case Connecting(stream, timer, tls) =>
        if target == stream && kind == (if tls then DataSocketSecureConnected else DataSocketConnected)
        then s.(phase := AwaitHello(stream, timer))
        else if (target == stream && kind == DataSocketConnectionFailed) || (target == timer && kind == Timer)
        then Log(s, [Notify(ConnectionFailed)]).(phase := Idle)
        else s
      case AwaitHello(stream, timer) =>
        if target == stream then StreamStep(s, kind, env)
        else if target == timer && kind == Timer then Log(s, [Notify(ConnectionFailed)]).(phase := Idle)
        else s
      case _ =>
        if target == s.phase.stream then StreamStep(s, kind, env)
        else if target == s.phase.proxy && kind == StreamInputContinue then DataStep(s, env.messages, env.more)
        else if At(target) == s.phase.alarm && kind == Timer
        then Log(s, [Post(ClientDisconnectRequested, s.phase.stream)])
        else s
  }

  function Step(s: Session, input: Input): Session {
    match input
    case Connect(env) => ConnectStep(s, env)
    case CallDisconnect(message) => DisconnectStep(s, message)
    case CallRefuse(message) => RefuseStep(s, message)
    case Event(kind, target, env) => EventStep(s, kind, target, env)
  }
}
