/** EventQueue and SimpleEventQueueBuffer as objects.  Each method is the atomic step that
    its mutex makes it; `EventSpec` says what the step does to the queue.
 */
module EventQueues {
  import opened EventSpec
  import opened EventIds
  import opened EventRuns

  function Reverse(s: seq<nat>): (r: seq<nat>)
    ensures |r| == |s|
  {
    if s == [] then [] else Reverse(s[1..]) + [s[0]]
  }

  lemma {:induction false} ReverseLast(s: seq<nat>)
    requires s != []
    ensures Reverse(s) == [s[|s| - 1]] + Reverse(s[..|s| - 1])
  {
    if |s| > 1 {
      ReverseLast(s[1..]);
      assert s[1..][..|s| - 2] == s[1..|s| - 1];
      assert s[..|s| - 1][1..] == s[1..|s| - 1];
    }
  }

  class SimpleEventQueueBuffer {
    var queue: seq<nat>
    var queueReady: bool

    ghost predicate Valid()
      reads this
    {
      queueReady <==> queue != []
    }

    /** The ids in the deque, oldest first: they are pushed in front and taken from the back. */
    ghost function Ids(): seq<nat>
      reads this
    {
      Reverse(queue)
    }

    constructor ()
      ensures Valid() && Ids() == []
    {
      queue := [];
      queueReady := false;
    }

    method AddEvent(dataID: nat) returns (ok: bool)
      requires Valid()
      modifies this
      ensures Valid() && ok && Ids() == old(Ids()) + [dataID]
    {
      queue := [dataID] + queue;
      assert queue[1..] == old(queue);
      if !queueReady {
        queueReady := true;
      }
      ok := true;
    }

    /** The oldest id, or none when the buffer is not ready. */
    method GetEvent() returns (dataID: Option<nat>)
      requires Valid()
      modifies this
      ensures Valid()
      ensures old(Ids()) == [] ==> dataID == None && Ids() == []
      ensures old(Ids()) != [] ==> dataID.Some? && old(Ids()) == [dataID.value] + Ids()
    {
      if !queueReady {
        return None;
      }
      ReverseLast(queue);
      var back := queue[|queue| - 1];
      queue := queue[..|queue| - 1];
      queueReady := queue != [];
      dataID := Some(back);
    }

    method IsEmpty() returns (empty: bool)
      requires Valid()
      ensures empty <==> Ids() == []
    {
      empty := !queueReady;
    }
  }

  /** The drain, all of it. */
  function DrainAll(q: Queue): Queue
    decreases |q.pending|
  {
    if q.pending == [] then q else DrainAll(DrainOne(q))
  }

  /** The drain moves the pending events behind those in the buffer, in order. */
  lemma {:induction false} DrainAllIs(q: Queue)
    requires IdsConsistent(q)
    ensures IdsConsistent(DrainAll(q)) && DrainAll(q).pending == []
    ensures Buffered(DrainAll(q)) == Waiting(q)
    decreases |q.pending|
  {
    if q.pending == [] {
      assert Buffered(q) + [] == Buffered(q);
    } else {
      AddToBufferIs(q, q.pending[0]);
      DrainWaiting(q);
      DrainAllIs(DrainOne(q));
    }
  }

  class EventQueue {
    const buffer: SimpleEventQueueBuffer
    var events: map<nat, Event>
    var oldEventIDs: seq<nat>
    var isReady: bool
    var pending: seq<Event>
    /** The id getEvent has taken from the buffer and not yet looked up. */
    ghost var taken: Option<nat>

    ghost function State(): Queue
      reads this, buffer
    {
      Queue(events, oldEventIDs, buffer.Ids(), taken, isReady, pending)
    }

    ghost predicate Valid()
      reads this, buffer
    {
      buffer.Valid() && IdsConsistent(State())
    }

    constructor ()
      ensures Valid() && fresh(buffer) && State() == INITIAL
    {
      buffer := new SimpleEventQueueBuffer();
      events := map[];
      oldEventIDs := [];
      isReady := false;
      pending := [];
      taken := None;
    }

    /** Stores the event under an id that is not in use. */
    method SaveEvent(e: Event) returns (id: nat)
      requires Valid()
      modifies this`events, this`oldEventIDs
      ensures id !in old(events) && events == old(events)[id := e]
      ensures (id, oldEventIDs) == ChooseId(old(events), old(oldEventIDs))
    {
      ChosenIsFresh(State());
      if oldEventIDs != [] {
        id := oldEventIDs[|oldEventIDs| - 1];
        oldEventIDs := oldEventIDs[..|oldEventIDs| - 1];
      } else {
        id := |events|;
      }
      events := events[id := e];
    }

    /** Takes the event of the id out of the table and keeps the id for reuse. */
    method RemoveEvent(id: nat) returns (e: Event)
      modifies this`events, this`oldEventIDs
      ensures id !in old(events) ==>
                e == NO_EVENT && events == old(events) && oldEventIDs == old(oldEventIDs)
      ensures id in old(events) ==>
                e == old(events)[id] && events == old(events) - {id} && oldEventIDs == old(oldEventIDs) + [id]
    {
      if id !in events {
        return NO_EVENT;
      }
      e := events[id];
      events := events - {id};
      oldEventIDs := oldEventIDs + [id];
    }

    method AddEventToBuffer(e: Event)
      requires Valid()
      modifies this`events, this`oldEventIDs, buffer
      ensures Valid() && State() == AddToBuffer(old(State()), e)
    {
      AddToBufferIs(State(), e);
      var id := SaveEvent(e);
      // the buffer takes every id
      var ok := buffer.AddEvent(id);
    }

    /** Discards an event of a bogus type, hands one that is to be delivered at once back
        to be dispatched, and queues any other. */
    method AddEvent(e: Event) returns (now: Option<Event>)
      requires Valid()
      modifies this`events, this`oldEventIDs, this`pending, buffer
      ensures Valid()
      ensures now == if e.ty !in {Unknown, System, TimerTick} && e.immediate then Some(e) else None
      ensures State() == if e.ty in {Unknown, System, TimerTick} || e.immediate then old(State())
                         else Add(old(State()), e)
    {
      now := None;
      if e.ty == Unknown || e.ty == System || e.ty == TimerTick {
        return;
      }
      if e.immediate {
        now := Some(e);
      } else if !isReady {
        assert Live(State().(pending := pending + [e])) == Live(State());
        pending := pending + [e];
      } else {
        AddEventToBuffer(e);
      }
    }

    /** The start of loop(): ready, then the drain. */
    method BeginLoop()
      requires Valid()
      modifies this`events, this`oldEventIDs, this`pending, this`isReady, buffer
      ensures Valid() && State() == DrainAll(MakeReady(old(State())))
    {
      assert Live(MakeReady(State())) == Live(State());
      isReady := true;
      ghost var start := State();
      while pending != []
        invariant Valid() && DrainAll(start) == DrainAll(State())
        decreases |pending|
      {
        var e := pending[0];
        ghost var q := State();
        AddEventToBuffer(e);
        assert Live(State().(pending := pending[1..])) == Live(State());
        pending := pending[1..];
        assert State() == DrainOne(q);
      }
    }

    /** The first half of delivering an event: its id leaves the buffer. */
    method TakeEvent() returns (id: Option<nat>)
      requires Valid() && taken == None
      modifies buffer, this`taken
      ensures Valid()
      ensures old(State()).ids == [] ==> id == None && State() == old(State())
      ensures old(State()).ids != [] ==> id == State().taken && State() == Take(old(State()))
    {
      if State().ids != [] { TakeIs(State()); }
      id := buffer.GetEvent();
      taken := id;
    }

    /** The second half: the event of the taken id, which is always in the table. */
    method Deliver(id: nat) returns (e: Event)
      requires Valid() && taken == Some(id)
      modifies this`events, this`oldEventIDs, this`taken
      ensures Valid() && id in old(events)
      ensures (e, State()) == Remove(old(State()))
    {
      RemoveIs(State());
      e := RemoveEvent(id);
      taken := None;
    }
  }
}
