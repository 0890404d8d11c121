/** The event queue as a machine: a table of events by id, a list of ids to reuse, a FIFO
    of ids, the id the consumer has taken but not yet looked up, and the events added
    before the loop was ready.
 */
module EventSpec {

  datatype EventType = Unknown | Quit | System | TimerTick | Other(code: nat)

  datatype Event = Event(ty: EventType, target: nat, payload: nat, immediate: bool)

  const NO_EVENT: Event := Event(Unknown, 0, 0, false)

  datatype Option<+T> = None | Some(value: T)

  datatype Queue = Queue(
    events: map<nat, Event>,   // m_events
    free: seq<nat>,            // m_oldEventIDs
    ids: seq<nat>,             // the buffer, oldest first
    taken: Option<nat>,        // the id getEvent returned, until removeEvent has run
    ready: bool, pending: seq<Event>)

  const INITIAL: Queue := Queue(map[], [], [], None, false, [])

  // ---- the operations ----

  /** saveEvent: the id to store the next event under, and the ids left to reuse. */
  function ChooseId(events: map<nat, Event>, free: seq<nat>): (nat, seq<nat>) {
    if free != [] then (free[|free| - 1], free[..|free| - 1]) else (|events|, free)
  }

  /** addEventToBuffer */
  function AddToBuffer(q: Queue, e: Event): Queue {
    var (id, free) := ChooseId(q.events, q.free);
    q.(events := q.events[id := e], free := free, ids := q.ids + [id])
  }

  /** addEvent, for an event that is queued. */
  function Add(q: Queue, e: Event): Queue {
    if q.ready then AddToBuffer(q, e) else q.(pending := q.pending + [e])
  }

  /** The loop declares itself ready, before it drains what is pending. */
  function MakeReady(q: Queue): Queue {
    q.(ready := true)
  }

  /** One turn of the drain. */
  function DrainOne(q: Queue): Queue
    requires q.pending != []
  {
    AddToBuffer(q, q.pending[0]).(pending := q.pending[1..])
  }

  /** The buffer's getEvent. */
  function Take(q: Queue): Queue
    requires q.ids != [] && q.taken == None
  {
    q.(taken := Some(q.ids[0]), ids := q.ids[1..])
  }

  /** removeEvent of the taken id: the event it returns, and the queue. */
  function Remove(q: Queue): (Event, Queue)
    requires q.taken.Some?
  {
    var id := q.taken.value;
    if id !in q.events then (NO_EVENT, q.(taken := None))
    else (q.events[id], q.(events := q.events - {id}, free := q.free + [id], taken := None))
  }

  // ---- what the ids are ----

  function Taken(q: Queue): seq<nat> {
    if q.taken.Some? then [q.taken.value] else []
  }

  /** The ids in use, in the order in which their events will be delivered. */
  function Live(q: Queue): seq<nat> {
    Taken(q) + q.ids
  }

  ghost predicate NoneTwice(s: seq<nat>) {
    forall i, j | 0 <= i < j < |s| :: s[i] != s[j]
  }

  /** The events in the table are those in the buffer or on their way out of it; these ids
      and the free ones are all different, and together they are 0, 1, ..., k - 1. */
  ghost predicate IdsConsistent(q: Queue) {
    var all := Live(q) + q.free;
    && (forall id :: id in q.events <==> id in Live(q))
    && NoneTwice(all)
    && (forall id | id in all :: id < |all|)
  }

  function EventsOf(events: map<nat, Event>, ids: seq<nat>): seq<Event> {
    if ids == [] then []
    else [if ids[0] in events then events[ids[0]] else NO_EVENT] + EventsOf(events, ids[1..])
  }

  /** The events still to be delivered from the buffer, in order. */
  function Buffered(q: Queue): seq<Event> {
    EventsOf(q.events, Live(q))
  }
}
