/** Runs of the event queue: adds from any thread, interleaved with the loop thread
    becoming ready, draining what was pending, taking ids and removing their events.
 */
module EventRuns {
  import opened EventSpec
  import opened EventIds

  datatype Action = AddEvent(e: Event) | BecomeReady | Drain | TakeId | RemoveTaken

  predicate Enabled(q: Queue, a: Action) {
    match a
    case AddEvent(_) => true
    case BecomeReady => !q.ready
    case Drain => q.ready && q.pending != []
    case TakeId => q.ready && q.ids != [] && q.taken == None
    case RemoveTaken => q.taken.Some?
  }

  function Step(q: Queue, a: Action): Queue
    requires Enabled(q, a)
  {
    match a
    case AddEvent(e) => Add(q, e)
    case BecomeReady => MakeReady(q)
    case Drain => DrainOne(q)
    case TakeId => Take(q)
    case RemoveTaken => Remove(q).1
  }

  /** The actions, from the empty queue, were possible one after the other. */
  ghost predicate Legal(acts: seq<Action>)
    decreases |acts|, 0
  {
    acts != [] ==> Legal(acts[..|acts| - 1]) && Enabled(After(acts[..|acts| - 1]), acts[|acts| - 1])
  }

  ghost function After(acts: seq<Action>): Queue
    requires Legal(acts)
    decreases |acts|, 1
  {
    if acts == [] then INITIAL else Step(After(acts[..|acts| - 1]), acts[|acts| - 1])
  }

  function Added(acts: seq<Action>): seq<Event> {
    if acts == [] then []
    else Added(acts[..|acts| - 1]) + match acts[|acts| - 1] case AddEvent(e) => [e] case _ => []
  }

  ghost function Delivered(acts: seq<Action>): seq<Event>
    requires Legal(acts)
  {
    if acts == [] then []
    else
      var before := acts[..|acts| - 1];
      Delivered(before) + if acts[|acts| - 1] == RemoveTaken then [Remove(After(before)).0] else []
  }

  function Waiting(q: Queue): seq<Event> {
    Buffered(q) + q.pending
  }

  /** No event was added while others were still being drained. */
  ghost predicate Quiet(acts: seq<Action>)
    requires Legal(acts)
  {
    acts != [] ==>
      var q := After(acts[..|acts| - 1]);
      Quiet(acts[..|acts| - 1]) && !(acts[|acts| - 1].AddEvent? && q.ready && q.pending != [])
  }

  ghost predicate Distinct(events: seq<Event>) {
    forall i, j | 0 <= i < j < |events| :: events[i] != events[j]
  }

  /** Whatever the interleaving, an id is never given out while its event is stored or on
      its way, and the ids in use and the free ones are 0 to k - 1. */
  lemma {:induction false} IdsAlwaysConsistent(acts: seq<Action>)
    requires Legal(acts)
    ensures IdsConsistent(After(acts))
    ensures var all := Live(After(acts)) + After(acts).free;
            NoneTwice(all) && forall id: nat :: id in all <==> id < |all|
  {
    if acts != [] {
      IdsAlwaysConsistent(acts[..|acts| - 1]);
      var q := After(acts[..|acts| - 1]);
      match acts[|acts| - 1]
      case AddEvent(e) => AddToBufferIs(q, e);
      case BecomeReady =>
      case Drain => AddToBufferIs(q, q.pending[0]);
      case TakeId => TakeIs(q);
      case RemoveTaken => RemoveIs(q);
    }
    AllIdsBelow(After(acts));
  }

  lemma AddWaiting(q: Queue, e: Event)
    requires IdsConsistent(q)
    ensures Waiting(Add(q, e)) == if q.ready then Buffered(q) + [e] + q.pending else Waiting(q) + [e]
  {
    if q.ready {
      AddToBufferIs(q, e);
    } else {
      assert Live(Add(q, e)) == Live(q);
      assert Buffered(q) + (q.pending + [e]) == (Buffered(q) + q.pending) + [e];
    }
  }

  lemma DrainWaiting(q: Queue)
    requires IdsConsistent(q) && q.pending != []
    ensures Waiting(DrainOne(q)) == Waiting(q)
  {
    var p, rest := q.pending[0], q.pending[1..];
    AddToBufferIs(q, p);
    assert Live(DrainOne(q)) == Live(AddToBuffer(q, p));
    MovedUp(Buffered(q), p, rest);
    assert q.pending == [p] + rest;
  }

  lemma MovedUp(buffered: seq<Event>, p: Event, rest: seq<Event>)
    ensures (buffered + [p]) + rest == buffered + ([p] + rest)
  {}

  lemma RemoveWaiting(q: Queue)
    requires IdsConsistent(q) && q.taken.Some?
    ensures Waiting(q) == [Remove(q).0] + Waiting(Remove(q).1)
  {
    RemoveIs(q);
    FrontOf(Remove(q).0, Buffered(Remove(q).1), q.pending);
  }

  lemma FrontOf(e: Event, buffered: seq<Event>, pending: seq<Event>)
    ensures ([e] + buffered) + pending == [e] + (buffered + pending)
  {}

  /** What one action does to the waiting events. */
  lemma StepWaiting(q: Queue, a: Action)
    requires Enabled(q, a) && IdsConsistent(q)
    ensures match a
            case AddEvent(e) =>
              Waiting(Step(q, a)) == if q.ready then Buffered(q) + [e] + q.pending else Waiting(q) + [e]
            case RemoveTaken => Waiting(q) == [Remove(q).0] + Waiting(Step(q, a))
            case _ => Waiting(Step(q, a)) == Waiting(q)
  {
    match a
    case AddEvent(e) => AddWaiting(q, e);
    case BecomeReady => assert Live(Step(q, a)) == Live(q);
    case Drain => DrainWaiting(q);
    case TakeId => TakeIs(q);
    case RemoveTaken => RemoveWaiting(q);
  }

  /** Nothing is lost and nothing is delivered twice: over every run the added events are
      those delivered and those waiting, each as often as it was added. */
  lemma {:induction false} EachDeliveredOnce(acts: seq<Action>)
    requires Legal(acts)
    ensures multiset(Added(acts)) == multiset(Delivered(acts)) + multiset(Waiting(After(acts)))
  {
    if acts == [] {
      assert Waiting(INITIAL) == [];
    } else {
      var before := acts[..|acts| - 1];
      EachDeliveredOnce(before);
      IdsAlwaysConsistent(before);
      StepWaiting(After(before), acts[|acts| - 1]);
    }
  }

  /** Delivered and waiting events together are in the order of the adds. */
  ghost predicate InOrder(acts: seq<Action>)
    requires Legal(acts)
  {
    Added(acts) == Delivered(acts) + Waiting(After(acts))
  }

  lemma Snoc(acts: seq<Action>, a: Action)
    requires Legal(acts) && Enabled(After(acts), a)
    ensures Legal(acts + [a]) && After(acts + [a]) == Step(After(acts), a)
    ensures Added(acts + [a]) == if a.AddEvent? then Added(acts) + [a.e] else Added(acts)
    ensures Delivered(acts + [a])
            == if a == RemoveTaken then Delivered(acts) + [Remove(After(acts)).0] else Delivered(acts)
    ensures Quiet(acts + [a]) <==>
            Quiet(acts) && !(a.AddEvent? && After(acts).ready && After(acts).pending != [])
  {
    assert (acts + [a])[..|acts|] == acts;
  }

  lemma AddInPlace(added: seq<Event>, delivered: seq<Event>, buffered: seq<Event>, pending: seq<Event>,
                   e: Event, ready: bool)
    ensures var waiting' := if ready then buffered + [e] + pending else buffered + pending + [e];
            var draining := ready && pending != [];
            && (added == delivered + (buffered + pending) && !draining ==> added + [e] == delivered + waiting')
            && (Distinct(added + [e]) && added + [e] == delivered + waiting' ==>
                  added == delivered + (buffered + pending) && !draining)
  {
    var behind := if ready then pending else [];
    var x := if ready then delivered + buffered else delivered + (buffered + pending);
    assert delivered + (buffered + pending) == x + behind;
    assert delivered + (if ready then buffered + [e] + pending else buffered + pending + [e]) == x + [e] + behind;
    InsertedLast(added, e, x, behind);
  }

  /** An add keeps the order exactly when it does not come in the middle of the drain. */
  lemma AddOrder(acts: seq<Action>, e: Event)
    requires Legal(acts)
    ensures Legal(acts + [AddEvent(e)])
    ensures var q := After(acts);
            var draining := q.ready && q.pending != [];
            && (InOrder(acts) && !draining ==> InOrder(acts + [AddEvent(e)]))
            && (Distinct(Added(acts) + [e]) && InOrder(acts + [AddEvent(e)]) ==> InOrder(acts) && !draining)
  {
    var q := After(acts);
    IdsAlwaysConsistent(acts);
    Snoc(acts, AddEvent(e));
    AddWaiting(q, e);
    AddInPlace(Added(acts), Delivered(acts), Buffered(q), q.pending, e, q.ready);
  }

  lemma RemoveInPlace(delivered: seq<Event>, e: Event, waiting: seq<Event>)
    ensures (delivered + [e]) + waiting == delivered + ([e] + waiting)
  {}

  /** No other action changes the order. */
  lemma OtherOrder(acts: seq<Action>, a: Action)
    requires Legal(acts) && Enabled(After(acts), a) && !a.AddEvent?
    ensures Legal(acts + [a])
    ensures InOrder(acts + [a]) <==> InOrder(acts)
  {
    var q := After(acts);
    IdsAlwaysConsistent(acts);
    Snoc(acts, a);
    StepWaiting(q, a);
    if a == RemoveTaken {
      RemoveInPlace(Delivered(acts), Remove(q).0, Waiting(Step(q, a)));
    }
  }

  lemma InsertedLast(added: seq<Event>, e: Event, x: seq<Event>, y: seq<Event>)
    ensures added == x + y && y == [] ==> added + [e] == x + [e] + y
    ensures Distinct(added + [e]) && added + [e] == x + [e] + y ==> y == [] && added == x + y
  {
    var t := added + [e];
    if Distinct(t) && t == x + [e] + y {
      assert t[|x|] == e && t[|added|] == e;
      assert |x| == |added|;
      assert t[..|added|] == added && (x + [e] + y)[..|x|] == x;
    }
  }

  /** Events are delivered in the order in which they were added if none is added while
      the drain of the pending ones is going on, and, when they are all different, only
      then. */
  lemma {:induction false} DeliveredInOrder(acts: seq<Action>)
    requires Legal(acts)
    ensures Quiet(acts) ==> InOrder(acts)
    ensures Distinct(Added(acts)) ==> (Quiet(acts) <==> InOrder(acts))
  {
    if acts == [] {
      assert Waiting(INITIAL) == [];
    } else {
      var before, a := acts[..|acts| - 1], acts[|acts| - 1];
      assert acts == before + [a];
      DeliveredInOrder(before);
      Snoc(before, a);
      if a.AddEvent? {
        AddOrder(before, a.e);
        DistinctPrefix(Added(before), a.e);
      } else {
        OtherOrder(before, a);
      }
    }
  }

  lemma DistinctPrefix(events: seq<Event>, e: Event)
    ensures Distinct(events + [e]) ==> Distinct(events)
  {
    assert forall i | 0 <= i < |events| :: events[i] == (events + [e])[i];
  }

  const EARLY: Event := Event(Other(1), 1, 0, false)
  const LATE: Event := Event(Other(2), 1, 0, false)

  const ADDED: seq<Action> := [AddEvent(EARLY), BecomeReady, AddEvent(LATE)]

  lemma AddedDuringDrain()
    ensures Legal(ADDED) && Added(ADDED) == [EARLY, LATE] && Delivered(ADDED) == []
    ensures After(ADDED) == Queue(map[0 := LATE], [], [0], None, true, [EARLY])
  {
    var first := [AddEvent(EARLY)];
    assert [] + [AddEvent(EARLY)] == first;
    Snoc([], AddEvent(EARLY));
    ReadyThenLate(first);
    assert first + [BecomeReady] + [AddEvent(LATE)] == ADDED;
  }

  const PENDING: Queue := Queue(map[], [], [], None, false, [EARLY])
  const DRAINING: Queue := Queue(map[], [], [], None, true, [EARLY])

  lemma ReadyThenLate(first: seq<Action>)
    requires Legal(first) && Added(first) == [EARLY] && Delivered(first) == [] && After(first) == PENDING
    ensures var acts := first + [BecomeReady] + [AddEvent(LATE)];
            && Legal(acts) && Added(acts) == [EARLY, LATE] && Delivered(acts) == []
            && After(acts) == Queue(map[0 := LATE], [], [0], None, true, [EARLY])
  {
    Snoc(first, BecomeReady);
    assert After(first + [BecomeReady]) == DRAINING;
    AddsLate();
    LateIsAdded(first + [BecomeReady], DRAINING, Queue(map[0 := LATE], [], [0], None, true, [EARLY]), EARLY, LATE);
  }

  lemma LateIsAdded(acts: seq<Action>, q: Queue, q': Queue, early: Event, late: Event)
    requires Legal(acts) && Added(acts) == [early] && Delivered(acts) == [] && After(acts) == q
    requires Step(q, AddEvent(late)) == q'
    ensures var acts' := acts + [AddEvent(late)];
            Legal(acts') && Added(acts') == [early, late] && Delivered(acts') == [] && After(acts') == q'
  {
    Snoc(acts, AddEvent(late));
  }

  lemma AddsLate()
    ensures Step(DRAINING, AddEvent(LATE)) == Queue(map[0 := LATE], [], [0], None, true, [EARLY])
  {}

  /** The loop is marked ready before it drains: an event added in between overtakes the
      pending ones. */
  lemma OvertakenDuringDrain()
    ensures var acts := ADDED + [Drain] + [TakeId] + [RemoveTaken];
            Legal(acts) && Added(acts) == [EARLY, LATE] && Delivered(acts) == [LATE]
  {
    AddedDuringDrain();
    LateOvertakes(ADDED);
  }

  lemma LateOvertakes(added: seq<Action>)
    requires Legal(added) && Added(added) == [EARLY, LATE] && Delivered(added) == []
    requires After(added) == Queue(map[0 := LATE], [], [0], None, true, [EARLY])
    ensures var acts := added + [Drain] + [TakeId] + [RemoveTaken];
            Legal(acts) && Added(acts) == [EARLY, LATE] && Delivered(acts) == [LATE]
  {
    Snoc(added, Drain);
    DrainsEarly();
    TakeSteps(added + [Drain], Step(After(added), Drain));
  }

  lemma DrainsEarly()
    ensures var q := DrainOne(Queue(map[0 := LATE], [], [0], None, true, [EARLY]));
            q.ready && q.taken == None && |q.ids| == 2 && q.ids[0] == 0 && 0 in q.events && q.events[0] == LATE
  {}

  lemma TakeSteps(acts: seq<Action>, q: Queue)
    requires Legal(acts) && q == After(acts) && Enabled(q, TakeId) && q.ids[0] in q.events
    ensures var acts' := acts + [TakeId] + [RemoveTaken];
            Legal(acts') && Added(acts') == Added(acts) && Delivered(acts') == Delivered(acts) + [q.events[q.ids[0]]]
  {
    Snoc(acts, TakeId);
    Snoc(acts + [TakeId], RemoveTaken);
  }
}
