/** Which key findBestKey chooses, and where the hypotheses of the mapping theorems come
    from: the items the platform enters.
 */
module KeyChoice {
  import opened KeyMasks
  import opened KeyData
  import opened KeySpec
  import opened KeyWiring
  import opened KeySteps
  import opened KeyNeutrality
  import opened KeyMaps

  function Changes(entries: KeyEntryList, desired: Mask, i: nat): nat
    requires Filled(entries) && i < |entries|
  {
    |Change(Last(entries[i]), desired)|
  }

  /** An item that requires only what it is sensitive to passes the exact test exactly
      when it needs no modifier changed. */
  lemma ExactIffNoChange(item: KeyItem, desired: Mask)
    requires item.required <= item.sensitive
    ensures FitsExactly(item, desired) <==> Change(item, desired) == {}
  {
    var r, s, d := item.required, item.sensitive, desired;
    assert forall b :: b in Change(item, desired) <==> b in s && (b in r) != (b in d);
    if FitsExactly(item, desired) {
      assert forall b | b in r :: b in r * d;
      assert forall b | b in s && b in d :: b in s * d;
      assert Change(item, desired) == {};
    }
    if Change(item, desired) == {} {
      assert forall b | b in s :: b in r <==> b in d;
      assert r * d == r && s * d == r * d;
    }
  }

  lemma {:induction false} FirstExactIs(entries: KeyEntryList, desired: Mask, from: nat)
    requires Filled(entries) && from <= |entries|
    ensures var r := FirstExact(entries, desired, from);
            if r == -1 then forall i | from <= i < |entries| :: !FitsExactly(Last(entries[i]), desired)
            else
              && from <= r < |entries| && FitsExactly(Last(entries[r]), desired)
              && forall i | from <= i < r :: !FitsExactly(Last(entries[i]), desired)
    decreases |entries| - from
  {
    if from < |entries| {
      FirstExactIs(entries, desired, from + 1);
    }
  }

  /** What the second pass knows after the entries before `upto`. */
  ghost predicate FewestSoFar(entries: KeyEntryList, desired: Mask, upto: nat, best: int, count: nat)
    requires Filled(entries) && upto <= |entries|
  {
    && (forall i | 0 <= i < upto :: count <= Changes(entries, desired, i))
    && if best == -1 then count == 32
       else
         && 0 <= best < upto && count == Changes(entries, desired, best) < 32
         && forall i | 0 <= i < best :: count < Changes(entries, desired, i)
  }

  lemma FewestStep(entries: KeyEntryList, desired: Mask, upto: nat, before: (int, nat), after: (int, nat))
    requires Filled(entries) && 0 < upto <= |entries| && FewestSoFar(entries, desired, upto - 1, before.0, before.1)
    requires var n := Changes(entries, desired, upto - 1); after == if n < before.1 then (upto - 1, n) else before
    ensures FewestSoFar(entries, desired, upto, after.0, after.1)
  {}

  lemma FewestNext(entries: KeyEntryList, desired: Mask, upto: nat)
    requires Filled(entries) && 0 < upto <= |entries|
    ensures var before, n := Fewest(entries, desired, upto - 1), Changes(entries, desired, upto - 1);
            Fewest(entries, desired, upto) == if n < before.1 then (upto - 1, n) else before
  {}

  lemma {:induction false} FewestIs(entries: KeyEntryList, desired: Mask, upto: nat)
    requires Filled(entries) && upto <= |entries|
    ensures var (best, count) := Fewest(entries, desired, upto);
            FewestSoFar(entries, desired, upto, best, count)
  {
    if upto > 0 {
      FewestIs(entries, desired, upto - 1);
      FewestNext(entries, desired, upto);
      FewestStep(entries, desired, upto, Fewest(entries, desired, upto - 1), Fewest(entries, desired, upto));
    }
  }

  /** findBestKey's two passes are one search: the first entry that needs the fewest
      modifier changes, and none exactly when every entry needs 32 of them. */
  lemma BestKeyIsFirstFewest(entries: KeyEntryList, desired: Mask)
    requires Filled(entries)
    requires forall i | 0 <= i < |entries| :: Last(entries[i]).required <= Last(entries[i]).sensitive
    ensures var best := FindBestKey(entries, desired);
            && (best == -1 <==> forall i | 0 <= i < |entries| :: Changes(entries, desired, i) >= 32)
            && (best != -1 ==>
                  && 0 <= best < |entries|
                  && (forall i | 0 <= i < |entries| :: Changes(entries, desired, best) <= Changes(entries, desired, i))
                  && (forall i | 0 <= i < best :: Changes(entries, desired, best) < Changes(entries, desired, i)))
  {
    FirstExactIs(entries, desired, 0);
    FewestIs(entries, desired, |entries|);
    var exact := FirstExact(entries, desired, 0);
    forall i | 0 <= i < |entries|
      ensures FitsExactly(Last(entries[i]), desired) <==> Changes(entries, desired, i) == 0
    {
      ExactIffNoChange(Last(entries[i]), desired);
    }
    if exact != -1 {
      assert Changes(entries, desired, exact) == 0;
    }
  }

  // ---- where the wiring comes from ----

  /** The modifier that each modifier key generates. */
  const MODIFIER_OF: map<nat, nat> := map[
    0xEFE1 := SHIFT, 0xEFE2 := SHIFT, 0xEFE3 := CONTROL, 0xEFE4 := CONTROL, 0xEFE9 := ALT, 0xEFEA := ALT,
    0xEFE7 := META, 0xEFE8 := META, 0xEFEB := SUPER, 0xEFEC := SUPER, 0xEF7E := ALT_GR,
    0xEFE5 := CAPS_LOCK, 0xEF7F := NUM_LOCK, 0xEF14 := SCROLL_LOCK]
  const LOCKS: set<nat> := {CAPS_LOCK, NUM_LOCK, SCROLL_LOCK}

  /** initModifierKey: nothing but the generated modifier and whether it locks changes. */
  function InitModifierKey(item: KeyItem): (r: KeyItem)
    ensures r == item.(generates := r.generates, lock := r.lock)
    ensures r.generates == if item.id in MODIFIER_OF then {MODIFIER_OF[item.id]} else {}
    ensures r.lock <==> item.id in MODIFIER_OF && MODIFIER_OF[item.id] in LOCKS
  {
    match item.id
    case 0xEFE1 => item.(generates := {SHIFT}, lock := false)
    case 0xEFE2 => item.(generates := {SHIFT}, lock := false)
    case 0xEFE3 => item.(generates := {CONTROL}, lock := false)
    case 0xEFE4 => item.(generates := {CONTROL}, lock := false)
    case 0xEFE9 => item.(generates := {ALT}, lock := false)
    case 0xEFEA => item.(generates := {ALT}, lock := false)
    case 0xEFE7 => item.(generates := {META}, lock := false)
    case 0xEFE8 => item.(generates := {META}, lock := false)
    case 0xEFEB => item.(generates := {SUPER}, lock := false)
    case 0xEFEC => item.(generates := {SUPER}, lock := false)
    case 0xEF7E => item.(generates := {ALT_GR}, lock := false)
    case 0xEFE5 => item.(generates := {CAPS_LOCK}, lock := true)
    case 0xEF7F => item.(generates := {NUM_LOCK}, lock := true)
    case 0xEF14 => item.(generates := {SCROLL_LOCK}, lock := true)
    case _ => item.(generates := {}, lock := false)
  }

  /** The platform has put the item through initModifierKey(). */
  ghost predicate Initialised(item: KeyItem) {
    item == InitModifierKey(item)
  }

  /** Items on the same button generate the same, and the keys of a lock are on one button. */
  ghost predicate Compatible(items: seq<KeyItem>) {
    forall i, j | i in items && j in items ::
      && (i.button == j.button ==> i.generates == j.generates)
      && (i.lock && i.generates == j.generates ==> i.button == j.button)
  }

  ghost function WiringOf(items: seq<KeyItem>): Wiring {
    if items == [] then map[]
    else
      var w := WiringOf(items[1..]);
      if items[0].id in MODIFIER_OF then
        w[items[0].button := Wire(MODIFIER_OF[items[0].id], MODIFIER_OF[items[0].id] in LOCKS)]
      else w
  }

  /** Every wire is that of one of the items. */
  lemma {:induction false} WiresAreOfItems(items: seq<KeyItem>, u: nat)
    requires forall i | i in items :: Initialised(i)
    ensures u in WiringOf(items) ==>
              exists i | i in items ::
                i.button == u && i.generates == {WiringOf(items)[u].bit} && i.lock == WiringOf(items)[u].lock
  {
    if items != [] {
      assert Initialised(items[0]);
      WiresAreOfItems(items[1..], u);
    }
  }

  lemma {:induction false} ItemsAreWired(items: seq<KeyItem>, item: KeyItem)
    requires (forall i | i in items :: Initialised(i)) && item in items && item.generates != {}
    ensures item.button in WiringOf(items)
  {
    if items[0] != item {
      ItemsAreWired(items[1..], item);
    } else {
      assert Initialised(items[0]);
    }
  }

  /** There is a wiring that all items fit exactly when they are compatible. */
  lemma InitialisedKeysFit(items: seq<KeyItem>)
    requires forall i | i in items :: Initialised(i)
    ensures Compatible(items) <==> exists w :: OneButtonPerLock(w) && forall i | i in items :: Fits(w, i)
    ensures Compatible(items) ==>
              OneButtonPerLock(WiringOf(items)) && forall i | i in items :: Fits(WiringOf(items), i)
  {
    if Compatible(items) {
      CompatibleFit(items);
    }
    if exists w :: OneButtonPerLock(w) && forall i | i in items :: Fits(w, i) {
      var w :| OneButtonPerLock(w) && forall i | i in items :: Fits(w, i);
      forall i, j | i in items && j in items
        ensures i.button == j.button ==> i.generates == j.generates
        ensures i.lock && i.generates == j.generates ==> i.button == j.button
      {
        assert Initialised(i) && Initialised(j);
        FittingAreCompatible(w, i, j);
      }
    }
  }

  lemma FittingAreCompatible(w: Wiring, i: KeyItem, j: KeyItem)
    requires OneButtonPerLock(w) && Fits(w, i) && Fits(w, j) && Initialised(i)
    ensures i.button == j.button ==> i.generates == j.generates
    ensures i.lock && i.generates == j.generates ==> i.button == j.button
  {
    if i.lock && i.generates == j.generates {
      var b := MODIFIER_OF[i.id];
      assert i.generates == {b};
      assert w[i.button].bit in {b} && w[j.button].bit in {b};
    }
  }

  lemma CompatibleFit(items: seq<KeyItem>)
    requires (forall i | i in items :: Initialised(i)) && Compatible(items)
    ensures OneButtonPerLock(WiringOf(items)) && forall i | i in items :: Fits(WiringOf(items), i)
  {
    var w := WiringOf(items);
    forall i | i in items ensures Fits(w, i) {
      WiresAreOfItems(items, i.button);
      if i.button in w {
        var j :| j in items && j.button == i.button && j.generates == {w[i.button].bit} && j.lock == w[i.button].lock;
        assert i.generates == j.generates;
        SameModifierSameLock(i, j);
      } else if i.generates != {} {
        ItemsAreWired(items, i);
      }
    }
    forall u, v | u in w && v in w && w[u].lock && w[u].bit == w[v].bit ensures u == v {
      WiresAreOfItems(items, u);
      WiresAreOfItems(items, v);
      var i :| i in items && i.button == u && i.generates == {w[u].bit} && i.lock == w[u].lock;
      var j :| j in items && j.button == v && j.generates == {w[v].bit} && j.lock == w[v].lock;
    }
  }

  lemma SameModifierSameLock(i: KeyItem, j: KeyItem)
    requires Initialised(i) && Initialised(j) && i.generates == j.generates
    ensures i.lock == j.lock
  {
    if i.id in MODIFIER_OF {
      assert MODIFIER_OF[i.id] in j.generates;
    }
  }

  // ---- the hypotheses of the mapping theorems ----

  /** If the entered keys fit the wiring, so does the table of modifier keys, and each of
      its keys generates just the modifier it is listed under; also after more keys have
      been entered than finish() listed. */
  lemma FinishedIsWired(kb: Keyboard, w: Wiring)
    requires OneButtonPerLock(w)
    requires |kb.modifierKeys| == NUM_BITS * kb.numGroups
    requires forall id | id in kb.keyIDMap :: |kb.keyIDMap[id]| == kb.numGroups
    requires ListedAreEntered(kb.keyIDMap, kb.numGroups, kb.modifierKeys)
    requires forall id | id in kb.keyIDMap :: TableWired(w, kb.keyIDMap[id])
    ensures WiredKeys(w, kb) && SingleBits(kb)
  {
    forall i, j | 0 <= i < |kb.modifierKeys| && 0 <= j < |kb.modifierKeys[i]|
      ensures Fits(w, kb.modifierKeys[i][j])
      ensures kb.modifierKeys[i][j].generates == {i % NUM_BITS}
    {
      var g, b, item := i / NUM_BITS, i % NUM_BITS, kb.modifierKeys[i][j];
      assert item in Cell(kb.modifierKeys, g, b);
      assert EnteredIn(kb.keyIDMap, g, item);
      var id :| id in kb.keyIDMap && g < |kb.keyIDMap[id]| && [item] in kb.keyIDMap[id][g];
      var table := kb.keyIDMap[id];
      var e :| 0 <= e < |table[g]| && table[g][e] == [item];
      assert PlainList(w, table[g][e], false);
      assert table[g][e][0] == item;
    }
  }

  /** Every key of the table is one of the items. */
  ghost predicate EnteredFrom(m: map<nat, KeyGroupTable>, items: seq<KeyItem>) {
    forall id | id in m :: forall g, e | 0 <= g < |m[id]| && 0 <= e < |m[id][g]| ::
      m[id][g][e] != [] && m[id][g][e][0] in items
  }

  /** A keyboard entered with addKeyEntry() from compatible items that went through
      initModifierKey() meets the hypotheses of the mapping theorems. */
  lemma InitialisedIsWired(kb: Keyboard, items: seq<KeyItem>)
    requires Entered(kb.keyIDMap) && EnteredFrom(kb.keyIDMap, items)
    requires (forall i | i in items :: Initialised(i)) && Compatible(items)
    requires |kb.modifierKeys| == NUM_BITS * kb.numGroups
    requires forall id | id in kb.keyIDMap :: |kb.keyIDMap[id]| == kb.numGroups
    requires ListedAreEntered(kb.keyIDMap, kb.numGroups, kb.modifierKeys)
    ensures kb.Ready() && WiredKeys(WiringOf(items), kb) && SingleBits(kb)
  {
    EnteredIsReady(kb);
    InitialisedKeysFit(items);
    forall id | id in kb.keyIDMap ensures TableWired(WiringOf(items), kb.keyIDMap[id]) {
      TableIsWired(WiringOf(items), kb.keyIDMap, id, items);
    }
    FinishedIsWired(kb, WiringOf(items));
  }

  lemma TableIsWired(w: Wiring, m: map<nat, KeyGroupTable>, id: nat, items: seq<KeyItem>)
    requires Entered(m) && EnteredFrom(m, items) && id in m
    requires forall i | i in items :: Initialised(i) && Fits(w, i)
    ensures TableWired(w, m[id])
  {
    assert EnteredTable(id, m[id]);
    forall g, e | 0 <= g < |m[id]| && 0 <= e < |m[id][g]| ensures PlainList(w, m[id][g][e], false) {
      assert EnteredList(id, g, m[id][g]);
      assert EnteredEntry(id, g, m[id][g][e]);
      var item := m[id][g][e][0];
      assert item in items;
      DeadGenerateNothing(item);
    }
  }

  /** No modifier key is dead. */
  lemma DeadGenerateNothing(item: KeyItem)
    requires Initialised(item) && item.dead == IsDeadKey(item.id)
    ensures item.generates != {} ==> !item.dead
  {}
}
