/** The timers of EventQueue.cpp against absolute deadlines.

    A timer in the queue holds the time that remains of it since the stopwatch was last
    reset, so its deadline is the stopwatch's mark plus that time.  hasTimerExpired reads
    the clock twice, once for the elapsed time and once to reset the stopwatch; the model
    has both readings, and the deadlines move by what lies between them.
 */
module Timers {
  import opened PriorityQueues
  import opened TimerArithmetic

  /** A timer with its deadline. */
  datatype Due = Due(timeout: real, target: nat, oneShot: bool, deadline: real)

  /** The deadlines of the timers, by timer. */
  type Dues = map<nat, Due>

  function DueOf(mark: real, t: Timer): Due {
    Due(t.timeout, t.target, t.oneShot, mark + t.time)
  }

  function Later(dues: Dues, shift: real): (r: Dues)
    ensures r.Keys == dues.Keys
  {
    map id | id in dues :: dues[id].(deadline := dues[id].deadline + shift)
  }

  /** When period `k` of a timer begins. */
  function Period(d: Due, k: nat): real {
    d.deadline + k as real * d.timeout
  }

  /** `count` periods of the timer have begun by `now`. */
  ghost predicate Begun(d: Due, now: real, count: nat) {
    forall k: nat :: k < count <==> Period(d, k) <= now
  }

  /** A timer that has run out counts once exactly until its next period begins, whether or
      not it is to start over. */
  lemma CountsOne(d: Due, now: real, count: nat)
    requires d.deadline <= now && Begun(d, now, count)
    ensures count == 1 <==> now < d.deadline + d.timeout
  {
    assert 0 < count <==> Period(d, 0) <= now;
    assert 1 < count <==> Period(d, 1) <= now;
  }

  /** The event of a timer that fired. */
  datatype Expiry = Idle | Fired(timer: nat, target: nat, count: nat)

  /** What a check at `t1`, with the stopwatch reset at `t2`, does to a set of deadlines. */
  ghost predicate Checked(dues: Dues, t1: real, t2: real, e: Expiry, dues': Dues) {
    match e
    case Idle =>
      && (forall id | id in dues :: dues[id].deadline > t1)
      && dues' == Later(dues, t2 - t1)
    case Fired(timer, target, count) =>
      && timer in dues
      && var d := dues[timer];
         && d.target == target
         && d.deadline <= t1 && (forall id | id in dues :: d.deadline <= dues[id].deadline)
         && count >= 1 && Begun(d, t1, count)
         && var others := Later(dues - {timer}, t2 - t1);
            dues' == if d.oneShot then others else others[timer := d.(deadline := t2 + d.timeout)]
  }

  // ---- how often a timer went off ----

  /** Timer::fillEvent: the count of a timer that has run out is the number of its
      periods that have begun, so at least one. */
  method FillEvent(t: Timer, mark: real) returns (count: nat)
    requires t.timeout > 0.0
    ensures t.time > 0.0 ==> count == 0
    ensures t.time <= 0.0 ==> count >= 1 && Begun(DueOf(mark, t), mark, count)
  {
    count := 0;
    if t.time <= 0.0 {
      LateBy(0, t.timeout, -t.time);
      count := ((t.timeout - t.time) / t.timeout).Floor;
      forall k: nat ensures k < count <==> Period(DueOf(mark, t), k) <= mark {
        LateBy(k, t.timeout, -t.time);
      }
    }
  }

  // ---- the timers in the queue ----

  function Ids(c: seq<Timer>): set<nat> {
    if c == [] then {} else Ids(c[..|c| - 1]) + {c[|c| - 1].timer}
  }

  /** No timer is in the queue twice. */
  ghost predicate Distinct(c: seq<Timer>) {
    c != [] ==> Distinct(c[..|c| - 1]) && c[|c| - 1].timer !in Ids(c[..|c| - 1])
  }

  function View(mark: real, c: seq<Timer>): (v: Dues)
    ensures v.Keys == Ids(c)
  {
    if c == [] then map[]
    else View(mark, c[..|c| - 1])[c[|c| - 1].timer := DueOf(mark, c[|c| - 1])]
  }

  /** Where a timer stands in the queue does not matter. */
  lemma {:induction false} IdsAnywhere(a: seq<Timer>, x: Timer, b: seq<Timer>)
    ensures Ids(a + [x] + b) == Ids(a + b) + {x.timer}
    ensures Distinct(a + [x] + b) <==> Distinct(a + b) && x.timer !in Ids(a + b)
  {
    if b == [] {
      assert a + [x] + b == a + [x] && a + b == a;
      assert (a + [x])[..|a|] == a;
    } else {
      var n := |b| - 1;
      assert (a + [x] + b)[..|a + [x] + b| - 1] == a + [x] + b[..n];
      assert (a + b)[..|a + b| - 1] == a + b[..n];
      IdsAnywhere(a, x, b[..n]);
    }
  }

  lemma Commute(v: Dues, i: nat, d: Due, j: nat, e: Due)
    requires i != j
    ensures v[i := d][j := e] == v[j := e][i := d]
  {}

  lemma ViewSnoc(mark: real, c: seq<Timer>, t: Timer)
    ensures View(mark, c + [t]) == View(mark, c)[t.timer := DueOf(mark, t)]
    ensures Ids(c + [t]) == Ids(c) + {t.timer}
    ensures Distinct(c + [t]) <==> Distinct(c) && t.timer !in Ids(c)
  {
    assert (c + [t])[..|c|] == c;
  }

  lemma {:induction false} ViewAnywhere(mark: real, a: seq<Timer>, x: Timer, b: seq<Timer>)
    requires Distinct(a + b) && x.timer !in Ids(a + b)
    ensures View(mark, a + [x] + b) == View(mark, a + b)[x.timer := DueOf(mark, x)]
  {
    if b == [] {
      assert a + [x] + b == a + [x] && a + b == a;
      ViewSnoc(mark, a, x);
    } else {
      var n := |b| - 1;
      var y := b[n];
      var init := a + b[..n];
      assert a + b == init + [y] && a + [x] + b == (a + [x] + b[..n]) + [y];
      ViewSnoc(mark, init, y);
      ViewAnywhere(mark, a, x, b[..n]);
      ViewBeforeLast(mark, init, a + [x] + b[..n], x, y);
    }
  }

  lemma ViewBeforeLast(mark: real, init: seq<Timer>, more: seq<Timer>, x: Timer, y: Timer)
    requires x.timer != y.timer && View(mark, more) == View(mark, init)[x.timer := DueOf(mark, x)]
    ensures View(mark, more + [y]) == View(mark, init + [y])[x.timer := DueOf(mark, x)]
  {
    ViewSnoc(mark, init, y);
    ViewSnoc(mark, more, y);
    Commute(View(mark, init), x.timer, DueOf(mark, x), y.timer, DueOf(mark, y));
  }

  lemma Member(mark: real, c: seq<Timer>, i: nat)
    requires i < |c|
    ensures c[i].timer in Ids(c)
    ensures Distinct(c) ==> View(mark, c)[c[i].timer] == DueOf(mark, c[i])
  {
    assert c == c[..i] + [c[i]] + c[i + 1..];
    IdsAnywhere(c[..i], c[i], c[i + 1..]);
    if Distinct(c) {
      ViewAnywhere(mark, c[..i], c[i], c[i + 1..]);
    }
  }

  lemma {:induction false} Find(c: seq<Timer>, id: nat) returns (i: nat)
    requires id in Ids(c)
    ensures i < |c| && c[i].timer == id
  {
    i := |c| - 1;
    if c[i].timer != id {
      i := Find(c[..i], id);
    }
  }

  lemma WithoutOne(c: seq<Timer>, k: nat)
    requires k < |c|
    ensures c == c[..k] + [c[k]] + c[k + 1..]
    ensures multiset(c[..k] + c[k + 1..]) == multiset(c) - multiset{c[k]}
    ensures k == |c| - 1 ==> c[..k] + c[k + 1..] == c[..k]
  {
    assert c == c[..k] + [c[k]] + c[k + 1..];
  }

  lemma RearrangedStep(mark: real, c: seq<Timer>, a: seq<Timer>, x: Timer, b: seq<Timer>)
    requires Distinct(c) && c != [] && x == c[|c| - 1]
    requires var init := c[..|c| - 1];
             Distinct(a + b) && Ids(a + b) == Ids(init) && View(mark, a + b) == View(mark, init)
    ensures Distinct(a + [x] + b) && Ids(a + [x] + b) == Ids(c) && View(mark, a + [x] + b) == View(mark, c)
  {
    IdsAnywhere(a, x, b);
    ViewAnywhere(mark, a, x, b);
  }

  lemma Position(d: seq<Timer>, x: Timer) returns (k: nat)
    requires x in multiset(d)
    ensures k < |d| && d[k] == x
  {
    assert x in d;
    k :| 0 <= k < |d| && d[k] == x;
  }

  /** The deadlines do not depend on how the heap arranges the timers. */
  lemma {:induction false} Rearranged(mark: real, c: seq<Timer>, d: seq<Timer>)
    requires multiset(c) == multiset(d) && Distinct(c)
    ensures Distinct(d) && Ids(d) == Ids(c) && View(mark, d) == View(mark, c)
    decreases |c|
  {
    if c == [] {
      assert |multiset(d)| == 0;
    } else {
      var n := |c| - 1;
      WithoutOne(c, n);
      assert c[n] in multiset(c);
      var k := Position(d, c[n]);
      WithoutOne(d, k);
      Rearranged(mark, c[..n], d[..k] + d[k + 1..]);
      RearrangedStep(mark, c, d[..k], c[n], d[k + 1..]);
    }
  }

  /** The timers of a consistent queue: distinct, with a positive period, and registered. */
  ghost predicate Consistent(c: seq<Timer>, timers: set<nat>) {
    Distinct(c) && Ids(c) <= timers && forall i | 0 <= i < |c| :: c[i].timeout > 0.0
  }

  lemma RearrangedConsistent(mark: real, c: seq<Timer>, d: seq<Timer>, timers: set<nat>)
    requires multiset(c) == multiset(d) && Consistent(c, timers)
    ensures Consistent(d, timers) && View(mark, d) == View(mark, c)
  {
    Rearranged(mark, c, d);
    forall i | 0 <= i < |d| ensures d[i].timeout > 0.0 {
      assert d[i] in multiset(c);
    }
  }

  /** One timer more in the queue. */
  lemma Entered(mark: real, c: seq<Timer>, t: Timer, d: seq<Timer>, timers: set<nat>)
    requires multiset(d) == multiset(c) + multiset{t}
    requires Consistent(c, timers) && t.timer !in Ids(c) && t.timeout > 0.0
    ensures Consistent(d, timers + {t.timer})
    ensures View(mark, d) == View(mark, c)[t.timer := DueOf(mark, t)]
  {
    assert (c + [t])[..|c|] == c;
    RearrangedConsistent(mark, c + [t], d, timers + {t.timer});
  }

  /** One timer fewer in the queue. */
  lemma Left(mark: real, c: seq<Timer>, t: Timer, d: seq<Timer>, timers: set<nat>)
    requires multiset(d) + multiset{t} == multiset(c) && Consistent(c, timers)
    ensures Consistent(d, timers - {t.timer}) && t.timer in Ids(c) && t.timer !in Ids(d)
    ensures View(mark, d) == View(mark, c) - {t.timer}
  {
    var e := d + [t];
    assert e[..|d|] == d;
    RearrangedConsistent(mark, c, e, timers);
    Rearranged(mark, c, e);
    assert Ids(e) == Ids(d) + {t.timer};
    assert forall i | 0 <= i < |d| :: d[i] == e[i];
  }

  /** Counting every timer down and resetting the mark moves every deadline by what
      passed between the two readings of the clock. */
  lemma {:induction false} CountedDown(m: real, t1: real, t2: real, before: seq<Timer>, after: seq<Timer>)
    requires |after| == |before| && Distinct(before)
    requires forall i | 0 <= i < |before| :: after[i] == before[i].(time := before[i].time - (t1 - m))
    ensures Distinct(after) && Ids(after) == Ids(before)
    ensures View(t2, after) == Later(View(m, before), t2 - t1)
  {
    if before != [] {
      var n := |before| - 1;
      CountedDown(m, t1, t2, before[..n], after[..n]);
      CountedSnoc(m, t1, t2, before[..n], before[n], after[..n]);
      assert before == before[..n] + [before[n]] && after == after[..n] + [after[n]];
    }
  }

  lemma CountedIds(m: real, b: seq<Timer>, x: Timer, a: seq<Timer>, y: Timer)
    requires Distinct(b) && Distinct(a) && Ids(a) == Ids(b) && x.timer !in Ids(b) && y.timer == x.timer
    ensures Distinct(a + [y]) && Ids(a + [y]) == Ids(b + [x])
  {
    ViewSnoc(m, b, x);
    ViewSnoc(m, a, y);
  }

  lemma CountedView(m: real, t1: real, t2: real, b: seq<Timer>, x: Timer, a: seq<Timer>, y: Timer)
    requires View(t2, a) == Later(View(m, b), t2 - t1) && y == x.(time := x.time - (t1 - m))
    ensures View(t2, a + [y]) == Later(View(m, b + [x]), t2 - t1)
  {
    ViewSnoc(m, b, x);
    ViewSnoc(t2, a, y);
    ShiftedDue(m, t1, t2, x);
    LaterWith(View(m, b), View(t2, a), t2 - t1, x.timer, DueOf(m, x), DueOf(t2, y));
  }

  lemma LaterWith(dues: Dues, later: Dues, shift: real, id: nat, d: Due, e: Due)
    requires later == Later(dues, shift) && e == d.(deadline := d.deadline + shift)
    ensures later[id := e] == Later(dues[id := d], shift)
  {
    LaterPlus(dues, shift, id, d);
  }

  lemma CountedSnoc(m: real, t1: real, t2: real, b: seq<Timer>, x: Timer, a: seq<Timer>)
    requires Distinct(b) && Distinct(a) && Ids(a) == Ids(b) && x.timer !in Ids(b)
    requires View(t2, a) == Later(View(m, b), t2 - t1)
    ensures var y := x.(time := x.time - (t1 - m));
            && Distinct(a + [y]) && Ids(a + [y]) == Ids(b + [x])
            && View(t2, a + [y]) == Later(View(m, b + [x]), t2 - t1)
  {
    var y := x.(time := x.time - (t1 - m));
    CountedIds(m, b, x, a, y);
    CountedView(m, t1, t2, b, x, a, y);
  }

  lemma ShiftedDue(m: real, t1: real, t2: real, x: Timer)
    ensures DueOf(t2, x.(time := x.time - (t1 - m))) == DueOf(m, x).(deadline := DueOf(m, x).deadline + (t2 - t1))
  {}

  lemma LaterPlus(dues: Dues, shift: real, id: nat, d: Due)
    ensures Later(dues[id := d], shift) == Later(dues, shift)[id := d.(deadline := d.deadline + shift)]
  {}

  lemma LaterMinus(dues: Dues, shift: real, id: nat)
    ensures Later(dues, shift) - {id} == Later(dues - {id}, shift)
  {}

  /** The front of the counted-down queue has the earliest deadline. */
  lemma EarliestIs(t1: real, t2: real, dues: Dues, c: seq<Timer>)
    requires Distinct(c) && c != [] && Heap(c) && View(t2, c) == Later(dues, t2 - t1)
    ensures c[0].timer in dues && dues[c[0].timer] == DueOf(t1, c[0])
    ensures forall id | id in dues :: dues[c[0].timer].deadline <= dues[id].deadline
  {
    Member(t2, c, 0);
    assert c[0].timer in Later(dues, t2 - t1);
    forall id | id in dues ensures dues[c[0].timer].deadline <= dues[id].deadline {
      assert id in Later(dues, t2 - t1);
      var i := Find(c, id);
      Member(t2, c, i);
      FrontIsLeast(c, i);
    }
  }

  // ---- the queue ----

  class TimerQueue {
    var mark: real
    var timers: set<nat>
    const queue: PriorityQueue

    ghost predicate Valid()
      reads this, queue
    {
      queue.Valid() && Consistent(queue.c, timers)
    }

    /** The deadlines of the timers in the queue. */
    ghost function Deadlines(): Dues
      reads this, queue
    {
      View(mark, queue.c)
    }

    constructor (now: real)
      ensures Valid() && fresh(queue) && Deadlines() == map[] && timers == {} && mark == now
    {
      mark := now;
      timers := {};
      queue := new PriorityQueue();
    }

    /** newTimer and newOneShotTimer: the new timer is due `duration` from now, and the
        others are due when they were. */
    method NewTimer(now: real, id: nat, duration: real, target: nat, oneShot: bool)
      requires Valid() && duration > 0.0 && id !in timers
      modifies this, queue
      ensures Valid() && mark == old(mark) && timers == old(timers) + {id}
      ensures Deadlines() == old(Deadlines())[id := Due(duration, target, oneShot, now + duration)]
    {
      var t := Timer(id, duration, target, oneShot, duration + (now - mark));
      ghost var was := queue.c;
      queue.Push(t);
      Entered(mark, was, t, queue.c, timers);
      timers := timers + {id};
    }

    /** deleteTimer takes the timer out of the queue and changes no other. */
    method DeleteTimer(id: nat)
      requires Valid()
      modifies this, queue
      ensures Valid() && mark == old(mark) && timers == old(timers) - {id}
      ensures Deadlines() == old(Deadlines()) - {id}
    {
      var i := FindTimer(queue.c, id);
      if i < |queue.c| {
        ghost var was := queue.c;
        queue.Erase(i);
        Left(mark, was, was[i], queue.c, timers);
      }
      timers := timers - {id};
      assert Deadlines() == old(Deadlines()) - {id};
    }

    /** hasTimerExpired, with the clock read at `t1` and again at `t2`.  With an empty
        queue nothing happens. */
    method HasTimerExpired(t1: real, t2: real) returns (e: Expiry)
      requires Valid() && t1 <= t2
      modifies this, queue
      ensures Valid() && timers == old(timers)
      ensures old(Deadlines()) == map[] ==> e == Idle && Deadlines() == map[] && mark == old(mark)
      ensures old(Deadlines()) != map[] ==> mark == t2 && Checked(old(Deadlines()), t1, t2, e, Deadlines())
    {
      ghost var before, m := queue.c, mark;
      ghost var dues := View(m, before);
      EmptyView(m, before);
      if queue.c == [] {
        e := Idle;
        return;
      }
      var time := t1 - mark;
      mark := t2;
      queue.SubtractAll(time);
      CheckBegins(m, t1, t2, before, queue.c, timers);
      // nothing is due while the earliest is not
      var top := queue.Top();
      if top.time > 0.0 {
        IdleIs(dues, t1, t2, queue.c);
        e := Idle;
        return;
      }
      ghost var counted := queue.c;
      queue.Pop();
      ghost var rest := queue.c;
      var count := FillEvent(top, t1);
      e := Fired(top.timer, top.target, count);
      var again := top.(time := top.timeout);
      // a periodic timer starts over
      if !top.oneShot {
        queue.Push(again);
      }
      FiredIs(dues, t1, t2, counted, rest, queue.c, count, timers);
    }
  }

  lemma CheckBegins(m: real, t1: real, t2: real, before: seq<Timer>, after: seq<Timer>, timers: set<nat>)
    requires |after| == |before| && Consistent(before, timers)
    requires forall i | 0 <= i < |before| :: after[i] == before[i].(time := before[i].time - (t1 - m))
    ensures Consistent(after, timers) && View(t2, after) == Later(View(m, before), t2 - t1)
  {
    CountedDown(m, t1, t2, before, after);
  }

  lemma EmptyView(mark: real, c: seq<Timer>)
    ensures View(mark, c) == map[] <==> c == []
  {
    if c != [] {
      Member(mark, c, 0);
    }
  }

  /** The deadlines after the front timer has fired. */
  lemma FiredIs(dues: Dues, t1: real, t2: real, counted: seq<Timer>, rest: seq<Timer>, after: seq<Timer>,
                count: nat, timers: set<nat>)
    requires Consistent(counted, timers) && counted != [] && Heap(counted) && FrontFired(counted, rest, after)
    requires View(t2, counted) == Later(dues, t2 - t1)
    requires counted[0].time <= 0.0 && count >= 1 && Begun(DueOf(t1, counted[0]), t1, count)
    ensures Consistent(after, timers)
    ensures Checked(dues, t1, t2, Fired(counted[0].timer, counted[0].target, count), View(t2, after))
  {
    EarliestIs(t1, t2, dues, counted);
    FiredConsistent(counted, rest, after, timers);
    FiredDues(dues, t1, t2, counted, rest, after, timers);
    CheckedFired(dues, t1, t2, counted[0].timer, count, View(t2, after));
  }

  lemma FiredDues(dues: Dues, t1: real, t2: real, counted: seq<Timer>, rest: seq<Timer>, after: seq<Timer>,
                  timers: set<nat>)
    requires Consistent(counted, timers) && counted != [] && FrontFired(counted, rest, after)
    requires View(t2, counted) == Later(dues, t2 - t1)
    requires counted[0].timer in dues && dues[counted[0].timer] == DueOf(t1, counted[0])
    ensures View(t2, after) == AfterFiring(dues, t1, t2, counted[0].timer)
  {
    FiredView(t2, counted, rest, after, timers);
  }

  function AfterFiring(dues: Dues, t1: real, t2: real, id: nat): Dues
    requires id in dues
  {
    var others := Later(dues, t2 - t1) - {id};
    var d := dues[id];
    if d.oneShot then others else others[id := d.(deadline := t2 + d.timeout)]
  }

  lemma CheckedFired(dues: Dues, t1: real, t2: real, id: nat, count: nat, dues': Dues)
    requires id in dues && dues[id].deadline <= t1 && count >= 1 && Begun(dues[id], t1, count)
    requires forall x | x in dues :: dues[id].deadline <= dues[x].deadline
    requires dues' == AfterFiring(dues, t1, t2, id)
    ensures Checked(dues, t1, t2, Fired(id, dues[id].target, count), dues')
  {
    LaterMinus(dues, t2 - t1, id);
  }

  /** The front timer taken out, and put back for its next period unless it is a one-shot. */
  ghost predicate FrontFired(counted: seq<Timer>, rest: seq<Timer>, after: seq<Timer>)
    requires counted != []
  {
    && multiset(rest) + multiset{counted[0]} == multiset(counted)
    && if counted[0].oneShot then after == rest
       else multiset(after) == multiset(rest) + multiset{counted[0].(time := counted[0].timeout)}
  }

  lemma FiredConsistent(counted: seq<Timer>, rest: seq<Timer>, after: seq<Timer>, timers: set<nat>)
    requires Consistent(counted, timers) && counted != [] && FrontFired(counted, rest, after)
    ensures Consistent(after, timers)
  {
    var top := counted[0];
    var others := timers - {top.timer};
    Left(0.0, counted, top, rest, timers);
    if !top.oneShot {
      Entered(0.0, rest, top.(time := top.timeout), after, others);
      assert others + {top.timer} <= timers;
    }
  }

  lemma FiredView(mark: real, counted: seq<Timer>, rest: seq<Timer>, after: seq<Timer>, timers: set<nat>)
    requires Consistent(counted, timers) && counted != [] && FrontFired(counted, rest, after)
    ensures var top := counted[0];
            var others := View(mark, counted) - {top.timer};
            View(mark, after)
            == if top.oneShot then others else others[top.timer := DueOf(mark, top.(time := top.timeout))]
  {
    var top := counted[0];
    Left(mark, counted, top, rest, timers);
    if !top.oneShot {
      Entered(mark, rest, top.(time := top.timeout), after, timers - {top.timer});
    }
  }

  /** The deadlines when the front timer is not due yet. */
  lemma IdleIs(dues: Dues, t1: real, t2: real, c: seq<Timer>)
    requires Distinct(c) && c != [] && Heap(c) && View(t2, c) == Later(dues, t2 - t1) && c[0].time > 0.0
    ensures Checked(dues, t1, t2, Idle, View(t2, c))
  {
    EarliestIs(t1, t2, dues, c);
  }

  /** The loop of deleteTimer that looks for the timer. */
  method FindTimer(c: seq<Timer>, id: nat) returns (i: nat)
    ensures i <= |c|
    ensures i < |c| ==> c[i].timer == id
    ensures i == |c| ==> id !in Ids(c)
  {
    i := 0;
    while i < |c| && c[i].timer != id
      invariant i <= |c| && forall j | 0 <= j < i :: c[j].timer != id
    {
      i := i + 1;
    }
    if i == |c| && id in Ids(c) {
      var k := Find(c, id);
      assert false;
    }
  }
}
