/** What the messages of a turn do to the session: to its alarm for missing keep-alives, to
    its phase, and to the log.
 */
module ClientTurns {
  import opened ClientSession
  import opened ClientRuns

  /** The messages that are handled: up to the first hangup. */
  function Handled(messages: seq<Message>): (r: seq<Message>)
    ensures r <= messages
  {
    if messages == [] then []
    else if messages[0].Hangup? then [messages[0]]
    else [messages[0]] + Handled(messages[1..])
  }

  lemma HandledStep(messages: seq<Message>)
    requires messages != []
    ensures Handled(messages)[0] == messages[0]
    ensures Handled(messages)[1..] == if messages[0].Hangup? then [] else Handled(messages[1..])
  {
  }

  // ---- the alarm ----

  /** Whether the alarm runs after the handled messages: the last rate that was set decides. */
  predicate Runs(before: bool, handled: seq<Message>) {
    if handled == [] then before
    else
      match handled[|handled| - 1]
      case SetOptions(rates) => if rates == [] then Runs(before, handled[..|handled| - 1]) else rates[|rates| - 1]
      case ResetOptions => true
      case _ => Runs(before, handled[..|handled| - 1])
  }

  /** The message sets a rate, or is a keep-alive while the alarm runs. */
  predicate RenewsAt(before: bool, handled: seq<Message>, i: nat)
    requires i < |handled|
  {
    match handled[i]
    case SetOptions(rates) => rates != []
    case ResetOptions => true
    case KeepAlive => Runs(before, handled[..i])
    case _ => false
  }

  ghost predicate Renews(before: bool, handled: seq<Message>) {
    exists i: nat | i < |handled| :: RenewsAt(before, handled, i)
  }

  /** What one message means for the alarm. */
  ghost predicate AlarmMoves(s: Session, t: Session, runs: bool, renewed: bool) {
    && s.phase.Proxied() && t.phase.Proxied() && s.nextId <= t.nextId
    && (t.phase.alarm.At? <==> runs)
    && (if renewed then t.phase.alarm.At? ==> s.nextId <= t.phase.alarm.id < t.nextId
        else t.phase.alarm == s.phase.alarm)
  }

  lemma {:induction false} RatesAlarm(s: Session, rates: seq<bool>)
    requires s.phase.Proxied()
    ensures AlarmMoves(s, RatesStep(s, rates), if rates == [] then s.phase.alarm.At? else rates[|rates| - 1],
                       rates != [])
    decreases |rates|
  {
    if rates != [] {
      var t := AlarmStep(s, rates[0]);
      RatesAlarm(t, rates[1..]);
      if |rates| > 1 {
        assert rates[1..][|rates| - 2] == rates[|rates| - 1];
      }
    }
  }

  lemma MessageAlarm(s: Session, m: Message)
    requires s.phase.Proxied()
    ensures AlarmMoves(s, MessageStep(s, m), Runs(s.phase.alarm.At?, [m]), Renews(s.phase.alarm.At?, [m]))
  {
    RenewsOne(s.phase.alarm.At?, m);
    if m.SetOptions? {
      RatesAlarm(s, m.rates);
    }
  }

  lemma RenewsOne(before: bool, m: Message)
    ensures Renews(before, [m]) <==> RenewsAt(before, [m], 0)
    ensures Runs(before, [m][..0]) == before
    ensures Runs(before, [m]) == if m.SetOptions? && m.rates != [] then m.rates[|m.rates| - 1]
                                 else before || m.ResetOptions?
  {
    assert [m][..0] == [];
    if Renews(before, [m]) {
      var i: nat :| i < |[m]| && RenewsAt(before, [m], i);
      assert i == 0;
    }
  }

  lemma MovesTwice(s: Session, t: Session, u: Session, runs1: bool, renewed1: bool, runs2: bool, renewed2: bool)
    requires AlarmMoves(s, t, runs1, renewed1) && AlarmMoves(t, u, runs2, renewed2)
    ensures AlarmMoves(s, u, runs2, renewed1 || renewed2)
  {
  }

  lemma {:induction false} RunsOn(before: bool, m: Message, h: seq<Message>)
    ensures Runs(before, [m] + h) == Runs(Runs(before, [m]), h)
  {
    if h == [] {
      assert [m] + h == [m];
    } else {
      RunsOn(before, m, h[..|h| - 1]);
      assert ([m] + h)[..|h|] == [m] + h[..|h| - 1];
      assert ([m] + h)[|h|] == h[|h| - 1];
    }
  }

  lemma RenewsLater(before: bool, m: Message, h: seq<Message>, i: nat)
    requires i < |h|
    ensures RenewsAt(before, [m] + h, i + 1) <==> RenewsAt(Runs(before, [m]), h, i)
  {
    assert ([m] + h)[..i + 1] == [m] + h[..i];
    RunsOn(before, m, h[..i]);
  }

  lemma RenewsFirst(before: bool, m: Message, h: seq<Message>)
    ensures RenewsAt(before, [m] + h, 0) <==> RenewsAt(before, [m], 0)
  {
    assert ([m] + h)[..0] == [m][..0];
  }

  lemma RenewsOn(before: bool, m: Message, h: seq<Message>)
    ensures Renews(before, [m] + h) <==> Renews(before, [m]) || Renews(Runs(before, [m]), h)
  {
    var all := [m] + h;
    RenewsFirst(before, m, h);
    forall i: nat | i < |h| ensures RenewsAt(before, all, i + 1) <==> RenewsAt(Runs(before, [m]), h, i) {
      RenewsLater(before, m, h, i);
    }
    if Renews(before, all) {
      var i: nat :| i < |all| && RenewsAt(before, all, i);
      if i > 0 {
        assert RenewsAt(Runs(before, [m]), h, i - 1);
      }
    }
  }

  /** The alarm after a turn: whether it runs is decided by the last rate set, and it is the
      one that ran before exactly as long as no rate was set and, while it ran, no keep-alive
      came; otherwise it is one that did not exist before. */
  lemma {:induction false} TurnAlarm(s: Session, messages: seq<Message>, more: bool)
    requires s.phase.Proxied()
    ensures var before := s.phase.alarm.At?;
            AlarmMoves(s, DataStep(s, messages, more), Runs(before, Handled(messages)),
                       Renews(before, Handled(messages)))
    decreases |messages|
  {
    if messages != [] {
      var m, t := messages[0], MessageStep(s, messages[0]);
      var before := s.phase.alarm.At?;
      MessageAlarm(s, m);
      if !m.Hangup? {
        var h := Handled(messages[1..]);
        TurnAlarm(t, messages[1..], more);
        RunsOn(before, m, h);
        RenewsOn(before, m, h);
        MovesTwice(s, t, DataStep(s, messages, more), Runs(before, [m]), Renews(before, [m]),
                   Runs(Runs(before, [m]), h), Renews(Runs(before, [m]), h));
      }
    }
  }

  /** As long as the server lives: after a turn in which a keep-alive was handled while the
      alarm ran, that alarm is gone, and when its time runs out, whatever has happened since,
      nothing changes and nobody is asked to disconnect. */
  lemma KeepAliveDefers(inputs: seq<Input>, messages: seq<Message>, more: bool, i: nat, later: seq<Input>, env: Env)
    requires var s := Run(INITIAL, inputs);
             && s.phase.Proxied() && s.phase.alarm.At?
             && i < |Handled(messages)| && Handled(messages)[i] == KeepAlive && Runs(true, Handled(messages)[..i])
    ensures var s := Run(INITIAL, inputs);
            var u := Run(DataStep(s, messages, more), later);
            EventStep(u, Timer, s.phase.alarm.id, env) == u
  {
    AlwaysConsistent(inputs);
    var s := Run(INITIAL, inputs);
    var t := DataStep(s, messages, more);
    TurnAlarm(s, messages, more);
    assert RenewsAt(true, Handled(messages), i);
    TurnKeepsTargets(s, messages, more);
    GoneForEver(t, later, Timer, s.phase.alarm.id, env);
  }

  /** When the time of the present alarm runs out, exactly one request to disconnect is
      posted, and nothing else changes. */
  lemma AlarmAsksOnce(s: Session, env: Env)
    requires s.Valid() && s.phase.Proxied() && s.phase.alarm.At?
    ensures EventStep(s, Timer, s.phase.alarm.id, env)
            == s.(log := s.log + [Post(ClientDisconnectRequested, s.phase.stream)])
  {
  }

  /** A keep-alive does not start an alarm that was switched off. */
  lemma KeepAliveDoesNotStart(s: Session, n: nat, more: bool)
    requires s.phase.Proxied() && s.phase.alarm.Null?
    ensures DataStep(s, seq(n, _ => KeepAlive), more).phase == s.phase
  {
    var messages := seq(n, _ => KeepAlive);
    KeepAlivesOnly(s, messages, more);
  }

  lemma {:induction false} KeepAlivesOnly(s: Session, messages: seq<Message>, more: bool)
    requires s.phase.Proxied() && s.phase.alarm.Null? && forall i | 0 <= i < |messages| :: messages[i] == KeepAlive
    ensures DataStep(s, messages, more).phase == s.phase
    decreases |messages|
  {
    if messages != [] {
      assert messages[0] == KeepAlive;
      assert forall i | 0 <= i < |messages| - 1 :: messages[1..][i] == messages[i + 1];
      KeepAlivesOnly(MessageStep(s, messages[0]), messages[1..], more);
    }
  }

  // ---- the phase ----

  /** Options are among the messages that are handled. */
  ghost predicate SetsOptions(messages: seq<Message>) {
    exists i | 0 <= i < |Handled(messages)| :: Handled(messages)[i].SetOptions?
  }

  lemma SetsOptionsStep(messages: seq<Message>)
    requires messages != []
    ensures SetsOptions(messages)
            <==> messages[0].SetOptions? || (!messages[0].Hangup? && SetsOptions(messages[1..]))
  {
    var all := Handled(messages);
    HandledStep(messages);
    if messages[0].Hangup? {
      assert all == [messages[0]];
    } else {
      var h := Handled(messages[1..]);
      assert forall i | 0 <= i < |h| :: h[i] == all[i + 1];
      assert forall i | 1 <= i < |all| :: all[i] == h[i - 1];
    }
  }

  /** The client is ready after a turn exactly if it was before or options were set; stream
      and proxy stay. */
  lemma {:induction false} TurnPhase(s: Session, messages: seq<Message>, more: bool)
    requires s.phase.Proxied()
    ensures var t := DataStep(s, messages, more);
            && t.phase.Proxied() && t.phase.stream == s.phase.stream && t.phase.proxy == s.phase.proxy
            && t.suspended == s.suspended && t.connectOnResume == s.connectOnResume
            && (t.phase.Ready? <==> s.phase.Ready? || SetsOptions(messages))
    decreases |messages|
  {
    if messages != [] {
      var m, t := messages[0], MessageStep(s, messages[0]);
      MessagePhase(s, m);
      SetsOptionsStep(messages);
      if !m.Hangup? {
        TurnPhase(t, messages[1..], more);
      }
    }
  }

  lemma {:induction false} RatesPhase(s: Session, rates: seq<bool>)
    requires s.phase.Proxied()
    ensures var t := RatesStep(s, rates);
            && t.phase.stream == s.phase.stream && t.phase.proxy == s.phase.proxy
            && t.suspended == s.suspended && t.connectOnResume == s.connectOnResume && t.log == s.log
            && t.phase.Ready? == s.phase.Ready?
    decreases |rates|
  {
    if rates != [] {
      RatesPhase(AlarmStep(s, rates[0]), rates[1..]);
    }
  }

  lemma MessagePhase(s: Session, m: Message)
    requires s.phase.Proxied()
    ensures var t := MessageStep(s, m);
            && t.phase.stream == s.phase.stream && t.phase.proxy == s.phase.proxy
            && t.suspended == s.suspended && t.connectOnResume == s.connectOnResume
            && (t.phase.Ready? <==> s.phase.Ready? || m.SetOptions?)
  {
    if m.SetOptions? {
      RatesPhase(s, m.rates);
    }
  }

  lemma TurnKeepsTargets(s: Session, messages: seq<Message>, more: bool)
    requires s.Valid() && s.phase.Proxied() && s.phase.alarm.At?
    requires Renews(true, Handled(messages))
    ensures var t := DataStep(s, messages, more);
            SCREEN < s.phase.alarm.id < t.nextId && s.phase.alarm.id !in Targets(t.phase)
  {
    var t := DataStep(s, messages, more);
    TurnAlarm(s, messages, more);
    TurnPhase(s, messages, more);
    ReplacedIsNoTarget(s, t);
  }

  lemma ReplacedIsNoTarget(s: Session, t: Session)
    requires s.Valid() && s.phase.Proxied() && s.phase.alarm.At? && t.phase.Proxied() && s.nextId <= t.nextId
    requires t.phase.stream == s.phase.stream && t.phase.proxy == s.phase.proxy
    requires t.phase.alarm.At? ==> s.nextId <= t.phase.alarm.id
    ensures SCREEN < s.phase.alarm.id < t.nextId && s.phase.alarm.id !in Targets(t.phase)
  {
  }
}
