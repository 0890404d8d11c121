/** Runs of the timer queue: when a timer fires, whatever happens to the others.
 */
module TimerRuns {
  import opened Timers

  datatype Step =
    | New(now: real, id: nat, duration: real, target: nat, oneShot: bool)
    | Delete(id: nat)
    | Check(t1: real, t2: real, e: Expiry)

  /** What the methods of TimerQueue promise of the deadlines. */
  ghost predicate Next(dues: Dues, step: Step, dues': Dues) {
    match step
    case New(now, id, duration, target, oneShot) =>
      id !in dues && duration > 0.0 && dues' == dues[id := Due(duration, target, oneShot, now + duration)]
    case Delete(id) => dues' == dues - {id}
    case Check(t1, t2, e) =>
      && t1 <= t2
      && if dues == map[] then e == Idle && dues' == dues else Checked(dues, t1, t2, e, dues')
  }

  ghost predicate Run(states: seq<Dues>, steps: seq<Step>) {
    && |states| == |steps| + 1
    && forall i | 0 <= i < |steps| :: Next(states[i], steps[i], states[i + 1])
  }

  /** The step neither deletes nor fires the timer. */
  predicate Spares(step: Step, id: nat) {
    match step
    case New(_, _, _, _, _) => true
    case Delete(x) => x != id
    case Check(_, _, e) => e.Fired? ==> e.timer != id
  }

  /** The time a step loses between its clock readings. */
  function LostIn(step: Step): real {
    match step
    case Check(t1, t2, _) => t2 - t1
    case _ => 0.0
  }

  /** The time lost between the two clock readings of the checks from step `i` on, before `k`. */
  function Lost(steps: seq<Step>, i: nat, k: nat): real
    requires i <= k <= |steps|
    decreases k
  {
    if k == i then 0.0
    else Lost(steps, i, k - 1) + LostIn(steps[k - 1])
  }

  /** The step starts a period of the timer: it creates it, or fires it and puts it back. */
  ghost predicate Arms(dues: Dues, step: Step, id: nat, due: Due) {
    match step
    case New(now, x, duration, target, oneShot) => x == id && due == Due(duration, target, oneShot, now + duration)
    case Delete(_) => false
    case Check(_, t2, e) =>
      && e.Fired? && e.timer == id && id in dues && !dues[id].oneShot
      && due == dues[id].(deadline := t2 + dues[id].timeout)
  }

  lemma ArmedStep(dues: Dues, step: Step, dues': Dues, id: nat, due: Due)
    requires Next(dues, step, dues') && Arms(dues, step, id, due)
    ensures id in dues' && dues'[id] == due
  {}

  /** What a step that spares a timer does to its deadline. */
  lemma SparedStep(dues: Dues, step: Step, dues': Dues, id: nat)
    requires Next(dues, step, dues') && Spares(step, id) && id in dues
    ensures id in dues' && dues'[id] == dues[id].(deadline := dues[id].deadline + LostIn(step))
  {}

  lemma NothingLost(due: Due)
    ensures due.(deadline := due.deadline + 0.0) == due
  {
  }

  lemma KeptStep(dues: Dues, step: Step, dues': Dues, id: nat, due: Due, lost: real)
    requires Next(dues, step, dues') && Spares(step, id)
    requires id in dues && dues[id] == due.(deadline := due.deadline + lost)
    ensures id in dues' && dues'[id] == due.(deadline := due.deadline + (lost + LostIn(step)))
  {
    SparedStep(dues, step, dues', id);
  }

  /** While it is neither deleted nor fired, a timer's deadline is the beginning of its period
      plus its duration, plus what the checks since have lost between their clock readings. */
  lemma {:induction false} DeadlineKept(states: seq<Dues>, steps: seq<Step>, i: nat, k: nat, id: nat, due: Due)
    requires Run(states, steps) && i < |steps| && Arms(states[i], steps[i], id, due) && i < k <= |steps|
    requires forall j | i < j < k :: Spares(steps[j], id)
    ensures id in states[k] && states[k][id] == due.(deadline := due.deadline + Lost(steps, i + 1, k))
    decreases k
  {
    assert Next(states[k - 1], steps[k - 1], states[k]);
    if k == i + 1 {
      ArmedStep(states[i], steps[i], states[k], id, due);
      NothingLost(due);
    } else {
      DeadlineKept(states, steps, i, k - 1, id, due);
      KeptStep(states[k - 1], steps[k - 1], states[k], id, due, Lost(steps, i + 1, k - 1));
    }
  }

  predicate Fires(step: Step, id: nat) {
    step.Check? && step.e.Fired? && step.e.timer == id
  }

  /** How often the timer fires from step `i` on, before `k`. */
  function Firings(steps: seq<Step>, id: nat, i: nat, k: nat): nat
    requires i <= k <= |steps|
    decreases k
  {
    if k == i then 0 else Firings(steps, id, i, k - 1) + if Fires(steps[k - 1], id) then 1 else 0
  }

  /** The step neither deletes the timer nor creates it anew. */
  predicate Keeps(step: Step, id: nat) {
    match step
    case New(_, x, _, _, _) => x != id
    case Delete(x) => x != id
    case Check(_, _, _) => true
  }

  /** `n` durations, one after the other. */
  function Times(n: nat, duration: real): real {
    if n == 0 then 0.0 else Times(n - 1, duration) + duration
  }

  /** After `n` firings a timer that is still there is due no earlier than n + 1 periods
      after its creation. */
  lemma {:induction false} DueAfterFirings(states: seq<Dues>, steps: seq<Step>, i: nat, k: nat)
    requires Run(states, steps) && i < |steps| && steps[i].New? && i < k <= |steps|
    requires forall j | i < j < k :: Keeps(steps[j], steps[i].id)
    ensures var id, n := steps[i].id, Firings(steps, steps[i].id, i + 1, k);
            id in states[k] ==>
              && states[k][id].timeout == steps[i].duration
              && states[k][id].deadline >= steps[i].now + Times(n + 1, steps[i].duration)
    decreases k
  {
    assert Next(states[k - 1], steps[k - 1], states[k]);
    if k - 1 > i {
      DueAfterFirings(states, steps, i, k - 1);
      assert Keeps(steps[k - 1], steps[i].id);
    }
  }

  /** The n-th firing of a timer is no earlier than n durations after its creation, whatever
      else was created, deleted or fired in between; and at least one of its periods has
      begun. */
  lemma FiresOnTime(states: seq<Dues>, steps: seq<Step>, i: nat, k: nat)
    requires Run(states, steps) && i < |steps| && steps[i].New? && i < k < |steps|
    requires forall j | i < j < k :: Keeps(steps[j], steps[i].id)
    requires Fires(steps[k], steps[i].id)
    ensures var earlier := Firings(steps, steps[i].id, i + 1, k);
            steps[k].t1 >= steps[i].now + Times(earlier + 1, steps[i].duration)
    ensures steps[k].e.count >= 1
  {
    DueAfterFirings(states, steps, i, k);
    assert Next(states[k], steps[k], states[k + 1]);
  }

  /** A check that comes after the end of some timer's period fires a timer. */
  lemma OverdueFires(states: seq<Dues>, steps: seq<Step>, i: nat, k: nat, id: nat, due: Due)
    requires Run(states, steps) && i < |steps| && Arms(states[i], steps[i], id, due) && i < k < |steps|
    requires forall j | i < j < k :: Spares(steps[j], id)
    requires steps[k].Check? && steps[k].t1 >= due.deadline + Lost(steps, i + 1, k)
    ensures steps[k].e.Fired?
  {
    DeadlineKept(states, steps, i, k, id, due);
    assert Next(states[k], steps[k], states[k + 1]);
  }

  /** The count of a firing is that of the periods that have begun. */
  lemma PeriodsBegun(d: Due, now: real, count: nat, n: nat)
    requires Begun(d, now, count)
    ensures n < count <==> d.deadline + n as real * d.timeout <= now
  {
    assert n < count <==> Period(d, n) <= now;
  }

  /** What a firing is: the period that was started last is over, by the check's clock and
      but for the time lost; the event is for the timer's own target, and counts the periods
      that have begun since. */
  lemma FiringIs(states: seq<Dues>, steps: seq<Step>, i: nat, k: nat, id: nat, due: Due)
    requires Run(states, steps) && i < |steps| && Arms(states[i], steps[i], id, due) && i < k < |steps|
    requires (forall j | i < j < k :: Spares(steps[j], id)) && Fires(steps[k], id)
    ensures var end := due.deadline + Lost(steps, i + 1, k);
            && end <= steps[k].t1 && steps[k].e.target == due.target
            && Begun(due.(deadline := end), steps[k].t1, steps[k].e.count)
  {
    DeadlineKept(states, steps, i, k, id, due);
    assert Next(states[k], steps[k], states[k + 1]);
  }

  /** Of two timers the one whose period ends first fires first. */
  lemma EarliestFirst(states: seq<Dues>, steps: seq<Step>, i: nat, i': nat, k: nat, id: nat, id': nat, due: Due,
                      due': Due)
    requires Run(states, steps) && i < k < |steps| && i' < k
    requires Arms(states[i], steps[i], id, due) && forall j | i < j < k :: Spares(steps[j], id)
    requires Arms(states[i'], steps[i'], id', due') && forall j | i' < j < k :: Spares(steps[j], id')
    requires Fires(steps[k], id)
    ensures due.deadline + Lost(steps, i + 1, k) <= due'.deadline + Lost(steps, i' + 1, k)
  {
    DeadlineKept(states, steps, i, k, id, due);
    DeadlineKept(states, steps, i', k, id', due');
    assert Next(states[k], steps[k], states[k + 1]);
  }

  /** A one-shot timer that has fired is gone: it does not fire again unless it is created
      anew. */
  lemma {:induction false} OneShotFiresOnce(states: seq<Dues>, steps: seq<Step>, i: nat, k: nat, id: nat)
    requires Run(states, steps) && i < k <= |steps| && Fires(steps[i], id) && id in states[i] && states[i][id].oneShot
    requires forall j | i < j < k :: Keeps(steps[j], id)
    ensures id !in states[k]
    ensures k < |steps| ==> !Fires(steps[k], id)
    decreases k
  {
    assert Next(states[k - 1], steps[k - 1], states[k]);
    if k - 1 > i {
      OneShotFiresOnce(states, steps, i, k - 1, id);
    }
    if k < |steps| {
      assert Next(states[k], steps[k], states[k + 1]);
    }
  }
}
