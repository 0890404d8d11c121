/** Every operation keeps the ids consistent and does to the waiting events what it would
    do to a plain queue of events.
 */
module EventIds {
  import opened EventSpec

  // ---- distinct numbers below a bound ----

  function Range(n: nat): (r: set<nat>)
    ensures forall i: nat :: i in r <==> i < n
    ensures |r| == n
  {
    if n == 0 then {} else Range(n - 1) + {n - 1}
  }

  function Elements(s: seq<nat>): set<nat> {
    set i | 0 <= i < |s| :: s[i]
  }

  lemma {:induction false} SizeOfElements(s: seq<nat>)
    requires NoneTwice(s)
    ensures |Elements(s)| == |s|
  {
    if s != [] {
      var n := |s| - 1;
      SizeOfElements(s[..n]);
      assert Elements(s) == Elements(s[..n]) + {s[n]} by {
        forall x ensures x in Elements(s) <==> x in Elements(s[..n]) + {s[n]} {
          if x in Elements(s) {
            var i :| 0 <= i < |s| && s[i] == x;
            if i < n { assert s[..n][i] == x; }
          }
          if x in Elements(s[..n]) {
            var i :| 0 <= i < n && s[..n][i] == x;
            assert s[i] == x;
          }
        }
      }
      assert s[n] !in Elements(s[..n]);
    }
  }

  lemma SubsetOfSameSize(a: set<nat>, b: set<nat>)
    requires a <= b && |a| == |b|
    ensures a == b
  {
    assert |b - a| == |b| - |a|;
  }

  /** Distinct numbers below their count are all the numbers below it. */
  lemma AllBelow(s: seq<nat>, id: nat)
    requires NoneTwice(s) && forall x | x in s :: x < |s|
    requires id < |s|
    ensures id in s
  {
    SizeOfElements(s);
    forall x | x in Elements(s) ensures x in Range(|s|) {
      assert x in s;
    }
    SubsetOfSameSize(Elements(s), Range(|s|));
    assert id in Elements(s);
  }

  /** The ids in use and the free ones are just the numbers below their count. */
  lemma AllIdsBelow(q: Queue)
    requires IdsConsistent(q)
    ensures var all := Live(q) + q.free;
            NoneTwice(all) && forall id: nat :: id in all <==> id < |all|
  {
    var all := Live(q) + q.free;
    forall id: nat | id < |all| ensures id in all {
      AllBelow(all, id);
    }
  }

  /** With nothing to reuse, the number of events in the table is the next new id. */
  lemma TableSize(q: Queue)
    requires IdsConsistent(q)
    ensures |q.events| == |Live(q)|
  {
    var live := Live(q);
    assert NoneTwice(live) by {
      forall i, j | 0 <= i < j < |live| ensures live[i] != live[j] {
        assert (live + q.free)[i] != (live + q.free)[j];
      }
    }
    SizeOfElements(live);
    assert Elements(live) == q.events.Keys;
  }

  // ---- the operations keep the ids consistent ----

  /** The id chosen for an event is not in use, and is the next new one or a free one. */
  lemma ChosenIsFresh(q: Queue)
    requires IdsConsistent(q)
    ensures var (id, free) := ChooseId(q.events, q.free);
            && id !in q.events
            && (if q.free == [] then id == |Live(q)| && free == [] else q.free == free + [id])
  {
    TableSize(q);
    var all := Live(q) + q.free;
    if q.free != [] {
      var n := |q.free| - 1;
      assert q.free == q.free[..n] + [q.free[n]];
      forall i | 0 <= i < |Live(q)| ensures Live(q)[i] != q.free[n] {
        assert all[i] != all[|all| - 1];
      }
    } else {
      assert all == Live(q);
    }
  }

  /** Moving an element to the end, or adding a new largest one, keeps a list a permutation
      of the numbers below its length. */
  ghost predicate Numbering(s: seq<nat>) {
    NoneTwice(s) && forall x | x in s :: x < |s|
  }

  lemma MoveKeepsNumbering(a: seq<nat>, b: seq<nat>, id: nat)
    requires Numbering(a + (b + [id]))
    ensures Numbering((a + [id]) + b)
  {
    var s, t := a + (b + [id]), (a + [id]) + b;
    forall i, j | 0 <= i < j < |t| ensures t[i] != t[j] {
      var i' := if i < |a| then i else if i == |a| then |s| - 1 else i - 1;
      var j' := if j < |a| then j else if j == |a| then |s| - 1 else j - 1;
      assert t[i] == s[i'] && t[j] == s[j'] && i' != j';
    }
    forall x | x in t ensures x < |t| {
      assert x in s;
    }
  }

  lemma AppendKeepsNumbering(a: seq<nat>)
    requires Numbering(a)
    ensures Numbering(a + [|a|])
  {
    var t := a + [|a|];
    forall i, j | 0 <= i < j < |t| ensures t[i] != t[j] {
      if j == |a| { assert a[i] in a; }
    }
  }

  lemma BackKeepsNumbering(id: nat, a: seq<nat>, b: seq<nat>)
    requires Numbering(([id] + a) + b)
    ensures Numbering(a + (b + [id]))
  {
    var s, t := ([id] + a) + b, a + (b + [id]);
    forall i, j | 0 <= i < j < |t| ensures t[i] != t[j] {
      var i' := i + 1;
      var j' := if j == |t| - 1 then 0 else j + 1;
      assert t[i] == s[i'] && t[j] == s[j'] && i' != j';
    }
    forall x | x in t ensures x < |t| {
      assert x in s;
    }
  }

  lemma {:induction false} EventsOfAppend(events: map<nat, Event>, ids: seq<nat>, id: nat)
    requires id in events
    ensures EventsOf(events, ids + [id]) == EventsOf(events, ids) + [events[id]]
  {
    if ids == [] {
      assert [id][1..] == [];
    } else {
      assert (ids + [id])[1..] == ids[1..] + [id];
      EventsOfAppend(events, ids[1..], id);
    }
  }

  lemma {:induction false} EventsOfSame(a: map<nat, Event>, b: map<nat, Event>, ids: seq<nat>)
    requires forall id | id in ids :: id in a && id in b && a[id] == b[id]
    ensures EventsOf(a, ids) == EventsOf(b, ids)
  {
    if ids != [] {
      assert ids[0] in ids;
      assert forall id | id in ids[1..] :: id in ids;
      EventsOfSame(a, b, ids[1..]);
    }
  }

  lemma AddKeepsIds(q: Queue, e: Event)
    requires IdsConsistent(q)
    ensures IdsConsistent(AddToBuffer(q, e))
    ensures Live(AddToBuffer(q, e)) == Live(q) + [ChooseId(q.events, q.free).0]
  {
    ChosenIsFresh(q);
    var (id, free) := ChooseId(q.events, q.free);
    var r := AddToBuffer(q, e);
    assert Live(r) == Live(q) + [id];
    if q.free == [] {
      assert Live(q) + q.free == Live(q) && Live(r) + r.free == Live(r);
      AppendKeepsNumbering(Live(q));
    } else {
      MoveKeepsNumbering(Live(q), free, id);
    }
    assert forall x :: x in Live(r) <==> x in Live(q) || x == id;
  }

  /** Adding an event to the buffer adds it behind all that wait there. */
  lemma AddToBufferIs(q: Queue, e: Event)
    requires IdsConsistent(q)
    ensures IdsConsistent(AddToBuffer(q, e))
    ensures Buffered(AddToBuffer(q, e)) == Buffered(q) + [e]
  {
    var id := ChooseId(q.events, q.free).0;
    var r := AddToBuffer(q, e);
    AddKeepsIds(q, e);
    ChosenIsFresh(q);
    EventsOfAppend(r.events, Live(q), id);
    EventsOfSame(q.events, r.events, Live(q));
  }

  /** Taking an id changes no event and no id. */
  lemma TakeIs(q: Queue)
    requires IdsConsistent(q) && q.ids != [] && q.taken == None
    ensures IdsConsistent(Take(q)) && Buffered(Take(q)) == Buffered(q)
  {
    assert Live(Take(q)) == Live(q);
  }

  /** With an id taken, the live ids are that one and those in the buffer, without it. */
  lemma LiveIs(q: Queue)
    requires IdsConsistent(q) && q.taken.Some?
    ensures Live(q) == [q.taken.value] + q.ids && q.taken.value !in q.ids
    ensures forall x :: x in q.events <==> x == q.taken.value || x in q.ids
  {
    var all := Live(q) + q.free;
    forall i | 0 <= i < |q.ids| ensures q.ids[i] != q.taken.value {
      assert all[0] != all[i + 1];
    }
    assert forall x :: x in Live(q) <==> x == q.taken.value || x in q.ids;
  }

  lemma RemoveKeepsIds(q: Queue)
    requires IdsConsistent(q) && q.taken.Some?
    ensures q.taken.value in q.events && IdsConsistent(Remove(q).1)
  {
    var r := Remove(q).1;
    LiveIs(q);
    BackKeepsNumbering(q.taken.value, q.ids, q.free);
    assert Live(r) == q.ids;
  }

  /** Removing the taken event delivers the oldest one; its id was live until then. */
  lemma RemoveIs(q: Queue)
    requires IdsConsistent(q) && q.taken.Some?
    ensures var (e, r) := Remove(q);
            && q.taken.value in q.events
            && IdsConsistent(r) && Buffered(q) == [e] + Buffered(r)
  {
    var (e, r) := Remove(q);
    RemoveKeepsIds(q);
    LiveIs(q);
    assert Live(q)[1..] == q.ids && Live(r) == q.ids;
    EventsOfSame(q.events, r.events, q.ids);
  }
}
