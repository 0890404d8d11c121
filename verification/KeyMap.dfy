/** The KeyMap of KeyMap.cpp: the table of keys as it is built, and the const mapping
    methods, each proved equal to its function in KeySpec.  The methods take the
    modifier state and keystrokes that the program updates through reference
    parameters as a value and return the updated one.
 */
module KeyMaps {
  import opened KeyMasks
  import opened KeyData
  import Spec = KeySpec

  predicate IsDeadKey(id: nat) {
    id == KEY_COMPOSE || 0x0300 <= id <= 0x036f
  }

  function Resized(table: KeyGroupTable, n: nat): (r: KeyGroupTable)
    ensures |r| == if |table| < n then n else |table|
    ensures table <= r && forall g | |table| <= g < |r| :: r[g] == []
  {
    if |table| < n then table + seq(n - |table|, _ => []) else table
  }

  /** The item as addKeyEntry stores it. */
  function Stored(item: KeyItem): KeyItem {
    item.(dead := IsDeadKey(item.id), required := item.required * item.sensitive)
  }

  function TableFor(m: map<nat, KeyGroupTable>, id: nat): KeyGroupTable {
    if id in m then m[id] else []
  }

  /** What addKeyEntry keeps true of the table: every entry is where its item says it
      is, requires only modifiers it is sensitive to, is marked dead as its id is, and
      is not there twice. */
  ghost predicate Entered(m: map<nat, KeyGroupTable>) {
    forall id | id in m :: EnteredTable(id, m[id])
  }

  ghost predicate EnteredTable(id: nat, table: KeyGroupTable) {
    && id != KEY_NONE
    && forall g | 0 <= g < |table| :: EnteredList(id, g, table[g])
  }

  ghost predicate EnteredList(id: nat, g: nat, entries: KeyEntryList) {
    && (forall e | 0 <= e < |entries| :: EnteredEntry(id, g, entries[e]))
    && forall d, e | 0 <= d < e < |entries| :: entries[d] != entries[e]
  }

  ghost predicate EnteredEntry(id: nat, g: nat, entry: KeyItemList) {
    && |entry| == 1
    && entry[0].id == id && entry[0].group == g
    && entry[0].required <= entry[0].sensitive
    && entry[0].dead == IsDeadKey(id)
  }

  /** Every table with the same number of groups. */
  function Padded(m: map<nat, KeyGroupTable>, n: nat): (r: map<nat, KeyGroupTable>)
    ensures r.Keys == m.Keys
  {
    map id | id in m :: Resized(m[id], n)
  }

  lemma PaddedEntered(m: map<nat, KeyGroupTable>, n: nat)
    requires Entered(m)
    requires forall id | id in m :: |m[id]| <= n
    ensures Entered(Padded(m, n))
    ensures forall id | id in Padded(m, n) :: |Padded(m, n)[id]| == n
  {
    forall id | id in m ensures EnteredTable(id, Padded(m, n)[id]) {
      assert EnteredTable(id, m[id]);
    }
  }

  // ---- the order in which setModifierKeys visits the keys ----

  /** The ids of a std::map in order. */
  ghost function Sorted(ids: set<nat>): (r: seq<nat>)
    ensures |r| == |ids| && forall id :: id in r <==> id in ids
    decreases |ids|
  {
    if ids == {} then []
    else
      var top := Top(ids);
      assert ids == (ids - {top}) + {top};
      Sorted(ids - {top}) + [top]
  }

  ghost function Top(ids: set<nat>): (top: nat)
    requires ids != {}
    ensures top in ids && forall id :: id in ids ==> id <= top
  {
    Highest'(ids);
    var top :| top in ids && forall id :: id in ids ==> id <= top;
    top
  }

  lemma Highest'(ids: set<nat>)
    requires ids != {}
    ensures exists top :: top in ids && forall id :: id in ids ==> id <= top
  {
    var top := Highest(ids);
  }

  /** The single-key entries of a list that generate a modifier, in order. */
  function Picked(entries: KeyEntryList, b: nat): KeyItemList {
    if entries == [] then []
    else
      var entry := entries[|entries| - 1];
      Picked(entries[..|entries| - 1], b) + if |entry| == 1 && b in entry[0].generates then entry else []
  }

  /** The keys of group `g` that generate modifier `b`, in the order of their ids. */
  function ModifierKeys(m: map<nat, KeyGroupTable>, ids: seq<nat>, g: nat, b: nat): KeyItemList
    requires forall id | id in ids :: id in m && g < |m[id]|
  {
    if ids == [] then []
    else ModifierKeys(m, ids[..|ids| - 1], g, b) + Picked(m[ids[|ids| - 1]][g], b)
  }

  lemma {:induction false} PickedGenerate(entries: KeyEntryList, b: nat, item: KeyItem)
    ensures item in Picked(entries, b) <==> [item] in entries && b in item.generates
  {
    if entries != [] {
      var n := |entries| - 1;
      PickedGenerate(entries[..n], b, item);
      assert entries == entries[..n] + [entries[n]];
      if |entries[n]| == 1 {
        assert entries[n] == [entries[n][0]];
      }
    }
  }

  /** The list for a group and modifier. */
  function Cell(keys: seq<KeyItemList>, g: nat, b: nat): KeyItemList
    requires b < NUM_BITS && g * NUM_BITS + NUM_BITS <= |keys|
  {
    keys[g * NUM_BITS + b]
  }

  lemma CellAfterUpdate(keys: seq<KeyItemList>, g: nat, b: nat, item: KeyItem, h: nat, c: nat)
    requires b < NUM_BITS && c < NUM_BITS
    requires g * NUM_BITS + NUM_BITS <= |keys| && h * NUM_BITS + NUM_BITS <= |keys|
    ensures var i := g * NUM_BITS + b;
            Cell(keys[i := keys[i] + [item]], h, c)
            == Cell(keys, h, c) + if h == g && c == b then [item] else []
  {
    if h * NUM_BITS + c == g * NUM_BITS + b {
      assert (h - g) * NUM_BITS == b - c;
      assert h == g;
    }
  }

  /** A key is listed for a group and modifier exactly when some id has it as a one-key
      entry in that group and it generates the modifier. */
  lemma {:induction false} ModifierKeysGenerate(m: map<nat, KeyGroupTable>, ids: seq<nat>, g: nat, b: nat,
                                                 item: KeyItem)
    requires forall id | id in ids :: id in m && g < |m[id]|
    ensures item in ModifierKeys(m, ids, g, b) <==>
            b in item.generates && exists id | id in ids :: [item] in m[id][g]
  {
    if ids != [] {
      var n := |ids| - 1;
      ModifierKeysGenerate(m, ids[..n], g, b, item);
      PickedGenerate(m[ids[n]][g], b, item);
      assert ids == ids[..n] + [ids[n]];
    }
  }

  lemma ModifierKeysAppend(m: map<nat, KeyGroupTable>, ids: seq<nat>, id: nat, g: nat, b: nat)
    requires forall i | i in ids + [id] :: i in m && g < |m[i]|
    ensures forall i | i in ids :: i in m && g < |m[i]|
    ensures ModifierKeys(m, ids + [id], g, b) == ModifierKeys(m, ids, g, b) + Picked(m[id][g], b)
  {
    assert (ids + [id])[..|ids|] == ids;
    assert forall i | i in ids :: i in ids + [id];
  }

  method Largest(ids: set<nat>) returns (top: nat)
    requires ids != {}
    ensures top == Top(ids)
    decreases |ids|
  {
    var id :| id in ids;
    top := id;
    if ids - {id} != {} {
      var other := Largest(ids - {id});
      top := if other >= id then other else id;
    }
    assert ids == (ids - {id}) + {id};
  }

  /** The table lists, for each group and modifier, exactly the keys that some id has as a
      one-key entry of that group and that generate the modifier. */
  ghost predicate ListsModifierKeys(m: map<nat, KeyGroupTable>, n: nat, keys: seq<KeyItemList>)
    requires |keys| == NUM_BITS * n && forall id | id in m :: |m[id]| == n
  {
    forall g, b | 0 <= g < n && 0 <= b < NUM_BITS ::
      forall item ::
        item in Cell(keys, g, b) <==> b in item.generates && exists id | id in m :: [item] in m[id][g]
  }

  /** Half of that, which stays true when keys are entered later: each listed key is one
      that some id has as a one-key entry of the group, and generates the modifier. */
  ghost predicate ListedAreEntered(m: map<nat, KeyGroupTable>, n: nat, keys: seq<KeyItemList>)
    requires |keys| == NUM_BITS * n && forall id | id in m :: |m[id]| == n
  {
    forall g, b | 0 <= g < n && 0 <= b < NUM_BITS ::
      forall item | item in Cell(keys, g, b) :: b in item.generates && EnteredIn(m, g, item)
  }

  ghost predicate EnteredIn(m: map<nat, KeyGroupTable>, g: nat, item: KeyItem) {
    exists id | id in m :: g < |m[id]| && [item] in m[id][g]
  }

  lemma ListsAreEntered(m: map<nat, KeyGroupTable>, n: nat, keys: seq<KeyItemList>)
    requires |keys| == NUM_BITS * n && forall id | id in m :: |m[id]| == n
    requires ListsModifierKeys(m, n, keys)
    ensures ListedAreEntered(m, n, keys)
  {
    forall g, b | 0 <= g < n && 0 <= b < NUM_BITS
      ensures forall item | item in Cell(keys, g, b) :: b in item.generates && EnteredIn(m, g, item)
    {
      forall item | item in Cell(keys, g, b) ensures b in item.generates && EnteredIn(m, g, item) {
        var id :| id in m && [item] in m[id][g];
      }
    }
  }

  /** The table lists the modifier keys of the ids, in their order. */
  ghost predicate CellsFrom(m: map<nat, KeyGroupTable>, ids: seq<nat>, n: nat, keys: seq<KeyItemList>) {
    && |keys| == NUM_BITS * n
    && (forall id | id in ids :: id in m && |m[id]| == n)
    && forall g, b | 0 <= g < n && 0 <= b < NUM_BITS :: Cell(keys, g, b) == ModifierKeys(m, ids, g, b)
  }

  /** Each list has grown by the modifier keys of one more id. */
  ghost predicate Grown(was: seq<KeyItemList>, now: seq<KeyItemList>, n: nat, table: KeyGroupTable) {
    && |was| == |now| == NUM_BITS * n && |table| == n
    && forall g, b | 0 <= g < n && 0 <= b < NUM_BITS :: Cell(now, g, b) == Cell(was, g, b) + Picked(table[g], b)
  }

  lemma CellsFromAppend(m: map<nat, KeyGroupTable>, ids: seq<nat>, id: nat, n: nat,
                        was: seq<KeyItemList>, now: seq<KeyItemList>)
    requires id in m && CellsFrom(m, ids, n, was) && Grown(was, now, n, m[id])
    ensures CellsFrom(m, ids + [id], n, now)
  {
    forall g, b | 0 <= g < n && 0 <= b < NUM_BITS
      ensures Cell(now, g, b) == ModifierKeys(m, ids + [id], g, b)
    {
      ModifierKeysAppend(m, ids, id, g, b);
    }
  }

  lemma CellsGenerate(m: map<nat, KeyGroupTable>, n: nat, keys: seq<KeyItemList>)
    requires |keys| == NUM_BITS * n && forall id | id in m :: |m[id]| == n
    requires CellsFrom(m, Sorted(m.Keys), n, keys)
    ensures ListsModifierKeys(m, n, keys)
  {
    forall g, b | 0 <= g < n && 0 <= b < NUM_BITS
      ensures forall item ::
                item in Cell(keys, g, b) <==> b in item.generates && exists id | id in m :: [item] in m[id][g]
    {
      forall item
        ensures item in Cell(keys, g, b) <==> b in item.generates && exists id | id in m :: [item] in m[id][g]
      {
        ModifierKeysGenerate(m, Sorted(m.Keys), g, b, item);
      }
    }
  }

  /** A table built by addKeyEntry and completed by finish() is ready for mapping. */
  lemma EnteredIsReady(kb: Keyboard)
    requires Entered(kb.keyIDMap)
    requires |kb.modifierKeys| == NUM_BITS * kb.numGroups
    requires forall id | id in kb.keyIDMap :: |kb.keyIDMap[id]| == kb.numGroups
    requires ListedAreEntered(kb.keyIDMap, kb.numGroups, kb.modifierKeys)
    ensures kb.Ready()
  {
    forall i, j | 0 <= i < |kb.modifierKeys| && 0 <= j < |kb.modifierKeys[i]|
      ensures i % NUM_BITS in kb.modifierKeys[i][j].generates
    {
      assert kb.modifierKeys[i][j] in Cell(kb.modifierKeys, i / NUM_BITS, i % NUM_BITS);
    }
    forall id | id in kb.keyIDMap ensures kb.TableReady(kb.keyIDMap[id]) {
      var table := kb.keyIDMap[id];
      assert EnteredTable(id, table);
      forall g, e | 0 <= g < |table| && 0 <= e < |table[g]| ensures kb.EntryReady(table[g][e]) {
        assert EnteredList(id, g, table[g]);
        assert EnteredEntry(id, g, table[g][e]);
      }
    }
  }

  // ---- entering keys ----

  /** One entry more for an id in a group, at the end of its list, unless the list has it
      already; `n` is the number of groups there are so far. */
  ghost predicate Adds(m: map<nat, KeyGroupTable>, n: nat, id: nat, g: nat, entry: KeyItemList,
                       m': map<nat, KeyGroupTable>)
  {
    && id in m' && m' - {id} == m - {id}
    && var before, after := TableFor(m, id), m'[id];
       var groups := if n > g + 1 then n else g + 1;
       && |after| == (if |before| < groups then groups else |before|)
       && (forall h | 0 <= h < |after| && h != g :: after[h] == if h < |before| then before[h] else [])
       && var list := if g < |before| then before[g] else [];
          after[g] == if entry in list then list else list + [entry]
  }

  lemma AddsElsewhere(m: map<nat, KeyGroupTable>, n: nat, id: nat, g: nat, entry: KeyItemList,
                      m': map<nat, KeyGroupTable>, i: nat)
    requires Adds(m, n, id, g, entry, m') && i != id
    ensures i in m <==> i in m'
    ensures i in m ==> m'[i] == m[i]
  {
    assert i in m' - {id} <==> i in m - {id};
    if i in m {
      assert (m' - {id})[i] == (m - {id})[i];
    }
  }

  /** The table that addKeyEntry leaves for the id. */
  lemma EntryAdded(m: map<nat, KeyGroupTable>, n: nat, item: KeyItem, table: KeyGroupTable)
    requires Entered(m) && item.id != KEY_NONE
    requires var before := Resized(TableFor(m, item.id), if n > item.group + 1 then n else item.group + 1);
             var entries := before[item.group];
             table == if [Stored(item)] in entries then before
                      else before[item.group := entries + [[Stored(item)]]]
    ensures Entered(m[item.id := table])
    ensures Adds(m, n, item.id, item.group, [Stored(item)], m[item.id := table])
  {
    var m' := m[item.id := table];
    var before := Resized(TableFor(m, item.id), if n > item.group + 1 then n else item.group + 1);
    assert EnteredTable(item.id, before);
    assert EnteredList(item.id, item.group, before[item.group]);
    assert EnteredEntry(item.id, item.group, [Stored(item)]);
    assert EnteredList(item.id, item.group, table[item.group]);
    assert EnteredTable(item.id, table);
    assert m' - {item.id} == m - {item.id};
  }

  lemma StaysReady(kb: Keyboard, item: KeyItem, m': map<nat, KeyGroupTable>)
    requires Adds(kb.keyIDMap, kb.numGroups, item.id, item.group, [Stored(item)], m')
    ensures kb.Ready() && item.group < kb.numGroups ==> kb.(keyIDMap := m').Ready()
  {
    if kb.Ready() && item.group < kb.numGroups {
      assert kb.EntryReady([Stored(item)]);
      LaterEntryIsReady(kb, item.id, item.group, [Stored(item)], m');
    }
  }

  /** Keys that are entered after finish(), in a group there is, leave the map ready, and
      the listed modifier keys are still among the entered ones. */
  lemma LaterEntryIsReady(kb: Keyboard, id: nat, g: nat, entry: KeyItemList, m': map<nat, KeyGroupTable>)
    requires kb.Ready() && kb.EntryReady(entry) && g < kb.numGroups
    requires Adds(kb.keyIDMap, kb.numGroups, id, g, entry, m')
    ensures kb.(keyIDMap := m').Ready()
    ensures ListedAreEntered(kb.keyIDMap, kb.numGroups, kb.modifierKeys) ==>
              ListedAreEntered(m', kb.numGroups, kb.modifierKeys)
  {
    var kb', m, n := kb.(keyIDMap := m'), kb.keyIDMap, kb.numGroups;
    forall i | i in m' ensures kb'.TableReady(m'[i]) {
      if i == id {
        LaterTableIsReady(kb, id, g, entry, m');
      } else {
        AddsElsewhere(m, n, id, g, entry, m', i);
        assert kb.TableReady(m[i]);
      }
    }
    if ListedAreEntered(m, n, kb.modifierKeys) {
      forall h, b, item | 0 <= h < n && 0 <= b < NUM_BITS && item in Cell(kb.modifierKeys, h, b)
        ensures b in item.generates && EnteredIn(m', h, item)
      {
        assert EnteredIn(m, h, item);
        StillEntered(m, n, id, g, entry, m', h, item);
      }
    }
  }

  lemma LaterTableIsReady(kb: Keyboard, id: nat, g: nat, entry: KeyItemList, m': map<nat, KeyGroupTable>)
    requires kb.Ready() && kb.EntryReady(entry) && g < kb.numGroups
    requires Adds(kb.keyIDMap, kb.numGroups, id, g, entry, m')
    ensures kb.(keyIDMap := m').TableReady(m'[id])
  {
    var kb', before, after := kb.(keyIDMap := m'), TableFor(kb.keyIDMap, id), m'[id];
    assert before != [] ==> kb.TableReady(before);
    forall h, e | 0 <= h < |after| && 0 <= e < |after[h]| ensures kb'.EntryReady(after[h][e]) {
      if h < |before| && e < |before[h]| {
        assert kb.EntryReady(before[h][e]);
      }
    }
  }

  lemma StillEntered(m: map<nat, KeyGroupTable>, n: nat, id: nat, g: nat, entry: KeyItemList,
                     m': map<nat, KeyGroupTable>, h: nat, item: KeyItem)
    requires Adds(m, n, id, g, entry, m') && EnteredIn(m, h, item)
    ensures EnteredIn(m', h, item)
  {
    var i :| i in m && h < |m[i]| && [item] in m[i][h];
    if i != id {
      AddsElsewhere(m, n, id, g, entry, m', i);
    }
    assert i in m' && h < |m'[i]| && [item] in m'[i][h];
  }

  /** The order in which a std::map is walked. */
  method InOrder(ids: set<nat>) returns (r: seq<nat>)
    ensures r == Sorted(ids)
    decreases |ids|
  {
    if ids == {} {
      return [];
    }
    var top := Largest(ids);
    r := InOrder(ids - {top});
    r := r + [top];
  }

  // ---- the class ----

  class KeyMap {
    var keyIDMap: map<nat, KeyGroupTable>
    var numGroups: nat
    var modifierKeys: seq<KeyItemList>
    var halfDuplex: set<nat>
    var layouts: seq<string>
    const platform: Platform

    /** What the mapping methods read. */
    function Board(): Keyboard
      reads this
    {
      Keyboard(keyIDMap, numGroups, modifierKeys, halfDuplex, layouts, platform)
    }

    ghost predicate Valid()
      reads this
    {
      Entered(keyIDMap)
    }

    constructor (platform: Platform)
      ensures Valid() && Board() == Keyboard(map[], 0, [], {}, [], platform)
    {
      keyIDMap := map[];
      numGroups := 0;
      modifierKeys := [];
      halfDuplex := {};
      layouts := [];
      this.platform := platform;
    }

    method AddHalfDuplexButton(button: nat)
      modifies this`halfDuplex
      ensures halfDuplex == old(halfDuplex) + {button}
    {
      halfDuplex := halfDuplex + {button};
    }

    method SetLanguageData(names: seq<string>)
      modifies this`layouts
      ensures layouts == names
    {
      layouts := names;
    }

    /** Enters the item, as it is stored, at the end of its group's list, unless the list
        has it already.  Nothing else of the map changes but the number of lists of the
        item's id. */
    method AddKeyEntry(item: KeyItem)
      requires Valid()
      modifies this`keyIDMap
      ensures Valid()
      ensures item.id == KEY_NONE ==> keyIDMap == old(keyIDMap)
      ensures item.id != KEY_NONE ==>
                Adds(old(keyIDMap), numGroups, item.id, item.group, [Stored(item)], keyIDMap)
      ensures old(Board().Ready()) && item.group < numGroups ==> Board().Ready()
    {
      // a key without an id is not entered
      if item.id == KEY_NONE {
        return;
      }
      var groups := item.group + 1;
      if numGroups > groups {
        groups := numGroups;
      }
      ghost var was := Board();
      var table := Resized(TableFor(keyIDMap, item.id), groups);

      var newItem := item.(dead := IsDeadKey(item.id));
      newItem := newItem.(required := newItem.required * newItem.sensitive);

      var entries := table[item.group];
      var found := HasEntry(entries, newItem);
      if !found {
        table := table[item.group := entries + [[newItem]]];
      }
      EntryAdded(keyIDMap, numGroups, item, table);
      keyIDMap := keyIDMap[item.id := table];
      StaysReady(was, item, keyIDMap);
    }

    static method HasEntry(entries: KeyEntryList, item: KeyItem) returns (found: bool)
      ensures found <==> [item] in entries
    {
      var i := 0;
      found := false;
      while i < |entries| && !found
        invariant 0 <= i <= |entries|
        invariant found ==> [item] in entries
        invariant !found ==> forall e | 0 <= e < i :: entries[e] != [item]
      {
        if |entries[i]| == 1 && entries[i][0] == item {
          assert entries[i] == [item];
          found := true;
        }
        i := i + 1;
      }
    }

    /** The largest number of groups any key has. */
    method FindNumGroups() returns (max: nat)
      ensures forall id | id in keyIDMap :: |keyIDMap[id]| <= max
      ensures max == 0 || exists id | id in keyIDMap :: |keyIDMap[id]| == max
    {
      max := 0;
      var rest := keyIDMap.Keys;
      while rest != {}
        invariant rest <= keyIDMap.Keys
        invariant forall id | id in keyIDMap.Keys - rest :: |keyIDMap[id]| <= max
        invariant max == 0 || exists id | id in keyIDMap :: |keyIDMap[id]| == max
        decreases rest
      {
        var id :| id in rest;
        if |keyIDMap[id]| > max {
          max := |keyIDMap[id]|;
        }
        rest := rest - {id};
      }
    }

    /** Gives every key the same number of groups and lists the modifier keys.  A map
        built by addKeyEntry is ready for mapping afterwards. */
    method Finish()
      requires Valid()
      modifies this`keyIDMap, this`numGroups, this`modifierKeys
      ensures Valid()
      ensures keyIDMap == Padded(old(keyIDMap), numGroups)
      ensures numGroups == 0 || exists id | id in old(keyIDMap) :: |old(keyIDMap)[id]| == numGroups
      ensures Board().Ready()
      ensures |modifierKeys| == NUM_BITS * numGroups
      ensures forall id | id in keyIDMap :: |keyIDMap[id]| == numGroups
      ensures ListsModifierKeys(keyIDMap, numGroups, modifierKeys)
    {
      numGroups := FindNumGroups();
      PaddedEntered(keyIDMap, numGroups);
      keyIDMap := Padded(keyIDMap, numGroups);
      SetModifierKeys();
      CellsGenerate(keyIDMap, numGroups, modifierKeys);
      ListsAreEntered(keyIDMap, numGroups, modifierKeys);
      EnteredIsReady(Board());
    }

    /** Lists, for each group and modifier, the keys that generate it. */
    method SetModifierKeys()
      requires forall id | id in keyIDMap :: |keyIDMap[id]| == numGroups
      modifies this`modifierKeys
      ensures CellsFrom(keyIDMap, Sorted(keyIDMap.Keys), numGroups, modifierKeys)
    {
      modifierKeys := seq(NUM_BITS * numGroups, _ => []);
      var ids := InOrder(keyIDMap.Keys);
      var i := 0;
      while i < |ids|
        invariant 0 <= i <= |ids|
        invariant CellsFrom(keyIDMap, ids[..i], numGroups, modifierKeys)
      {
        ghost var was := modifierKeys;
        AddModifierKeysOf(keyIDMap[ids[i]]);
        CellsFromAppend(keyIDMap, ids[..i], ids[i], numGroups, was, modifierKeys);
        assert ids[..i + 1] == ids[..i] + [ids[i]];
        i := i + 1;
      }
      assert ids[..i] == ids;
    }

    /** The loop over the groups, entries and modifiers of one id. */
    method AddModifierKeysOf(table: KeyGroupTable)
      requires |table| == numGroups && |modifierKeys| == NUM_BITS * numGroups
      modifies this`modifierKeys
      ensures Grown(old(modifierKeys), modifierKeys, numGroups, table)
    {
      ghost var was := modifierKeys;
      var g := 0;
      while g < |table|
        invariant 0 <= g <= |table| && |modifierKeys| == |was|
        invariant forall h, b | 0 <= h < numGroups && 0 <= b < NUM_BITS ::
                    Cell(modifierKeys, h, b)
                    == Cell(was, h, b) + if h < g then Picked(table[h], b) else []
      {
        AddModifierKeysIn(g, table[g]);
        g := g + 1;
      }
    }

    /** The loop over the entries of one group. */
    method AddModifierKeysIn(g: nat, entries: KeyEntryList)
      requires g < numGroups && |modifierKeys| == NUM_BITS * numGroups
      modifies this`modifierKeys
      ensures |modifierKeys| == NUM_BITS * numGroups
      ensures forall h, b | 0 <= h < numGroups && 0 <= b < NUM_BITS ::
                Cell(modifierKeys, h, b)
                == Cell(old(modifierKeys), h, b) + if h == g then Picked(entries, b) else []
    {
      ghost var was := modifierKeys;
      var k := 0;
      while k < |entries|
        invariant 0 <= k <= |entries| && |modifierKeys| == |was|
        invariant forall h, b | 0 <= h < numGroups && 0 <= b < NUM_BITS ::
                    Cell(modifierKeys, h, b)
                    == Cell(was, h, b) + if h == g then Picked(entries[..k], b) else []
      {
        var entry := entries[k];
        forall b ensures Picked(entries[..k + 1], b)
                         == Picked(entries[..k], b) + if |entry| == 1 && b in entry[0].generates then [entry[0]] else []
        {
          PickedNext(entries, k, b);
        }
        // only single keys that generate something are listed
        if |entry| == 1 && entry[0].generates != {} {
          AddModifierKey(g, entry[0]);
        }
        k := k + 1;
      }
      assert entries[..k] == entries;
    }

    static lemma PickedNext(entries: KeyEntryList, k: nat, b: nat)
      requires k < |entries|
      ensures var entry := entries[k];
              Picked(entries[..k + 1], b)
              == Picked(entries[..k], b) + if |entry| == 1 && b in entry[0].generates then [entry[0]] else []
    {
      assert entries[..k + 1][..k] == entries[..k];
      if |entries[k]| == 1 {
        assert entries[k] == [entries[k][0]];
      }
    }

    /** Adds the key to each indicated modifier in the group. */
    method AddModifierKey(g: nat, item: KeyItem)
      requires g < numGroups && |modifierKeys| == NUM_BITS * numGroups
      modifies this`modifierKeys
      ensures |modifierKeys| == NUM_BITS * numGroups
      ensures forall h, b | 0 <= h < numGroups && 0 <= b < NUM_BITS ::
                Cell(modifierKeys, h, b)
                == Cell(old(modifierKeys), h, b) + if h == g && b in item.generates then [item] else []
    {
      ghost var was := modifierKeys;
      var bit := 0;
      while bit < NUM_BITS
        invariant 0 <= bit <= NUM_BITS && |modifierKeys| == |was|
        invariant forall h, b | 0 <= h < numGroups && 0 <= b < NUM_BITS ::
                    Cell(modifierKeys, h, b)
                    == Cell(was, h, b) + if h == g && b < bit && b in item.generates then [item] else []
      {
        if bit in item.generates {
          var i := g * NUM_BITS + bit;
          forall h, b | 0 <= h < numGroups && 0 <= b < NUM_BITS
            ensures Cell(modifierKeys[i := modifierKeys[i] + [item]], h, b)
                    == Cell(modifierKeys, h, b) + if h == g && b == bit then [item] else []
          {
            CellAfterUpdate(modifierKeys, g, bit, item, h, b);
          }
          modifierKeys := modifierKeys[i := modifierKeys[i] + [item]];
        }
        bit := bit + 1;
      }
    }

    // ---- the mapping methods ----

    /** Two passes: the first exact match, else the first entry with the fewest changes. */
    method FindBestKey(entries: KeyEntryList, desired: Mask) returns (best: int)
      requires Spec.Filled(entries)
      ensures best == Spec.FindBestKey(entries, desired)
    {
      // an item that needs no change comes first
      var i := 0;
      while i < |entries|
        invariant 0 <= i <= |entries|
        invariant Spec.FirstExact(entries, desired, 0) == Spec.FirstExact(entries, desired, i)
      {
        var item := Spec.Last(entries[i]);
        if item.required * desired == item.required
           && item.required * desired == item.sensitive * desired {
          return i;
        }
        i := i + 1;
      }
      // otherwise the first of those with the fewest changes
      best := -1;
      var bestCount := 32;
      i := 0;
      while i < |entries|
        invariant 0 <= i <= |entries|
        invariant (best, bestCount) == Spec.Fewest(entries, desired, i)
      {
        var item := Spec.Last(entries[i]);
        var change := Xor(item.required, desired) * item.sensitive;
        if |change| < bestCount {
          bestCount := |change|;
          best := i;
        }
        i := i + 1;
      }
    }

    method KeyForModifier(button: nat, group: nat, bit: nat) returns (key: Option<KeyItem>)
      requires Board().Ready() && group < numGroups && bit < NUM_BITS
      ensures key == Spec.KeyForModifier(Board(), button, group, bit)
    {
      var items := modifierKeys[group * NUM_BITS + bit];
      var i := 0;
      while i < |items|
        invariant 0 <= i <= |items|
        invariant Spec.FirstOther(items, button) == Spec.FirstOther(items[i..], button)
      {
        if items[i].button != button {
          return Some(items[i]);
        }
        i := i + 1;
      }
      return None;
    }

    method GetLanguageGroupID(group: nat, lang: string) returns (id: nat)
      ensures id == Spec.LanguageGroup(Board(), group, lang)
    {
      id := group;
      var i := 0;
      while i < |layouts|
        invariant 0 <= i <= |layouts| && id == group
        invariant Spec.IndexOf(layouts, lang)
                  == match Spec.IndexOf(layouts[i..], lang)
                     case None => None
                     case Some(k) => Some(i + k)
      {
        if layouts[i] == lang {
          return i;
        }
        i := i + 1;
      }
    }

    method GetKeyItemList(table: KeyGroupTable, group: nat, desired: Mask) returns (list: Option<KeyItemList>)
      requires Board().Ready() && Board().TableReady(table)
      ensures list == Spec.CharacterKeys(Board(), table, group, desired, 0)
    {
      var offset := 0;
      while offset < numGroups
        invariant 0 <= offset <= numGroups
        invariant Spec.CharacterKeys(Board(), table, group, desired, 0)
                  == Spec.CharacterKeys(Board(), table, group, desired, offset)
      {
        var entries := table[Spec.EffectiveGroup(Board(), group, offset)];
        Spec.BestKeyInRange(entries, desired);
        var best := FindBestKey(entries, desired);
        if best != -1 {
          return Some(entries[best]);
        }
        offset := offset + 1;
      }
      return None;
    }

    method AddKeystrokes(ty: EKeystroke, item: KeyItem, before: Shadow) returns (sh: Shadow)
      ensures sh == Spec.AddKeystrokes(Board(), ty, item, before)
    {
      var active, state, keys := before.active, before.state, before.keys;
      var button, data := item.button, item.client;
      match ty {
      case Press =>
        keys := keys + [Button(button, true, false, data)];
        if item.generates != {} {
          if !item.lock || state * item.generates == {} {
            active := Insert(active, Held(item.generates, item));
            state := state + item.generates;
          } else {
            active := EraseAll(active, item.generates);
            state := state - item.generates;
          }
        }
      case Release =>
        keys := keys + [Button(button, false, false, data)];
        if item.generates != {} && !item.lock {
          active := EraseFirst(active, item.generates, button);
          if EqualRange(active, item.generates) == [] {
            state := state - item.generates;
          }
        }
      case Repeat =>
        if platform == Windows {
          keys := keys + [Button(button, false, true, data)];
          keys := keys + [Button(button, true, true, data)];
        } else if platform == Mac {
          keys := keys + [Button(button, true, true, data)];
        }
      case Click =>
        keys := keys + [Button(button, true, false, data)];
        keys := keys + [Button(button, false, false, data)];
      case _ =>
        if item.lock {
          if button in halfDuplex {
            if ty == Modify {
              keys := keys + [Button(button, true, false, data)];
            } else {
              keys := keys + [Button(button, false, false, data)];
            }
          } else {
            keys := keys + [Button(button, true, false, data)];
            keys := keys + [Button(button, false, false, data)];
          }
        } else if ty == Modify {
          keys := keys + [Button(button, true, false, data)];
        } else {
          // every held button for the modifier goes up
          var range := EqualRange(active, item.generates);
          keys := AppendLifts(keys, range);
        }
        if ty == Modify {
          active := Insert(active, Held(item.generates, item));
          state := state + item.generates;
        } else {
          active := EraseAll(active, item.generates);
          state := state - item.generates;
        }
      }
      sh := Shadow(active, state, keys);
    }

    /** The loop over the keys of a modifier: erases the first one on the button. */
    static method EraseFirst(m: Modifiers, mask: Mask, button: nat) returns (active: Modifiers)
      ensures active == EraseButton(m, mask, button)
    {
      var i := 0;
      while i < |m| && !IsOn(m[i], mask, button)
        invariant 0 <= i <= |m|
        invariant forall k | 0 <= k < i :: !IsOn(m[k], mask, button)
      {
        i := i + 1;
      }
      ErasesAt(m, mask, button, i);
      active := if i < |m| then m[..i] + m[i + 1..] else m;
    }

    static predicate IsOn(h: Held, mask: Mask, button: nat) {
      h.mask == mask && h.item.button == button
    }

    static lemma {:induction false} ErasesAt(m: Modifiers, mask: Mask, button: nat, i: nat)
      requires i <= |m| && forall k | 0 <= k < i :: !IsOn(m[k], mask, button)
      requires i < |m| ==> IsOn(m[i], mask, button)
      ensures EraseButton(m, mask, button) == if i < |m| then m[..i] + m[i + 1..] else m
    {
      if i > 0 {
        var rest := m[1..];
        forall k | 0 <= k < i - 1 ensures !IsOn(rest[k], mask, button) {
          assert rest[k] == m[k + 1];
        }
        ErasesAt(rest, mask, button, i - 1);
        assert !IsOn(m[0], mask, button);
        assert i < |m| ==> [m[0]] + (rest[..i - 1] + rest[i..]) == m[..i] + m[i + 1..];
      }
    }

    static method AppendLifts(before: seq<Keystroke>, range: Modifiers) returns (keys: seq<Keystroke>)
      ensures keys == before + Lifts(range)
    {
      keys := before;
      var i := 0;
      while i < |range|
        invariant 0 <= i <= |range|
        invariant before + Lifts(range) == keys + Lifts(range[i..])
      {
        assert range[i..][1..] == range[i + 1..];
        keys := keys + [Button(range[i].item.button, false, false, range[i].item.client)];
        i := i + 1;
      }
    }

    method KeysForModifierState(button: nat, group: nat, required: Mask, sensitiveMask: Mask,
                                notRequired: Mask, before: Shadow) returns (ok: bool, sh: Shadow)
      requires Board().Ready() && group < numGroups
      ensures (ok, sh)
              == Spec.KeysForModifierState(Board(), button, group, required, sensitiveMask, notRequired, before)
      decreases Ceiling(sensitiveMask)
    {
      sh := before;
      var flip := Xor(sh.state, required) * sensitiveMask;
      flip := flip - notRequired;
      if flip == {} {
        return true, sh;
      }
      var bit: nat := NUM_BITS;
      while bit > 0
        invariant bit <= NUM_BITS
        invariant Spec.FlipBelow(Board(), button, group, NUM_BITS, flip, required, notRequired, before)
                  == Spec.FlipBelow(Board(), button, group, bit, flip, required, notRequired, sh)
      {
        bit := bit - 1;
        if bit !in flip {
          continue;
        }
        var active := bit in required;
        var key := KeyForModifier(button, group, bit);
        if key == None {
          if bit !in notRequired {
            return false, sh;
          }
          continue;
        }
        var item := key.value;
        var sensitive := item.sensitive - {bit};
        if sensitive != {} {
          if AnyAbove(sensitive, bit) {
            // only lower modifiers may be needed for a higher one
            return false, sh;
          }
          if active {
            assert Ceiling(sensitive) <= bit;
            ok, sh := KeysForModifierState(button, group, item.required, sensitive, notRequired, sh);
            if !ok {
              return;
            }
          }
        }
        // the flips made on the way must have got there
        if sh.state * sensitive != item.required * sensitive {
          return false, sh;
        }
        sh := AddKeystrokes(if active then Modify else Unmodify, item, sh);
      }
      return true, sh;
    }

    method KeysForKeyItem(item: KeyItem, group: nat, desired: Mask, override: Mask, again: bool,
                          lang: string, before: Shadow) returns (ok: bool, newGroup: nat, sh: Shadow)
      requires Board().Ready() && Spec.PassedOn(Board(), item, group, lang) < numGroups
      ensures (ok, newGroup, sh) == Spec.KeysForKeyItem(Board(), item, group, desired, override, again, lang, before)
    {
      newGroup, sh := group, before;
      if newGroup != item.group {
        newGroup := GetLanguageGroupID(item.group, lang);
        sh := sh.(keys := sh.keys + [Group(newGroup, true, false)]);
      }
      var ty;
      if item.dead {
        // a dead key wants its group and its modifiers first
        ok, sh := KeysForModifierState(item.button, newGroup, item.required, item.sensitive, {}, sh);
        if !ok {
          return;
        }
        ty := Click;
      } else {
        var sensitive := item.sensitive - override;
        ok, sh := KeysForModifierState(item.button, newGroup, item.required, sensitive, {}, sh);
        if !ok {
          return;
        }
        ok, sh := KeysForModifierState(item.button, newGroup, desired, ALL - (sensitive + item.generates),
                                       Spec.NOT_REQUIRED, sh);
        if !ok {
          return;
        }
        ty := if again then Repeat else Press;
      }
      sh := AddKeystrokes(ty, item, sh);
    }

    /** collectButtons, of which only the buttons are used. */
    static method CollectButtons(mods: Modifiers) returns (buttons: set<nat>)
      ensures buttons == Spec.ButtonSet(mods)
    {
      buttons := {};
      var i := 0;
      while i < |mods|
        invariant 0 <= i <= |mods|
        invariant buttons == set k | 0 <= k < i :: mods[k].item.button
      {
        buttons := buttons + {mods[i].item.button};
        i := i + 1;
      }
    }

    method KeysToRestoreModifiers(button: nat, desired: Modifiers, before: Shadow) returns (sh: Shadow)
      ensures sh == Spec.KeysToRestoreModifiers(Board(), button, desired, before)
    {
      sh := before;
      var oldModifiers := sh.active;
      var oldKeys := CollectButtons(oldModifiers);
      var newKeys := CollectButtons(desired);
      var i := 0;
      while i < |oldModifiers|
        invariant 0 <= i <= |oldModifiers|
        invariant Spec.ReleaseUnwanted(Board(), oldModifiers, button, newKeys, before)
                  == Spec.ReleaseUnwanted(Board(), oldModifiers[i..], button, newKeys, sh)
      {
        var item := oldModifiers[i].item;
        if item.button != button && item.button !in newKeys {
          var ty := Release;
          if item.lock {
            ty := Unmodify;
          }
          sh := AddKeystrokes(ty, item, sh);
        }
        i := i + 1;
      }
      ghost var between := sh;
      i := 0;
      while i < |desired|
        invariant 0 <= i <= |desired|
        invariant Spec.PressWanted(Board(), desired, button, oldKeys, between)
                  == Spec.PressWanted(Board(), desired[i..], button, oldKeys, sh)
      {
        var item := desired[i].item;
        if item.button != button && item.button !in oldKeys {
          var ty := Press;
          if item.lock {
            ty := Modify;
          }
          sh := AddKeystrokes(ty, item, sh);
        }
        i := i + 1;
      }
    }

    /** Maps a key to the list found for it.  When it cannot, the modifier state is the
        caller's and there are no keystrokes, or just the caller's. */
    method MapCharacterKey(id: nat, group: nat, desired: Mask, again: bool, lang: string, sh: Shadow)
      returns (key: Option<KeyItem>, sh': Shadow)
      requires Board().Ready() && Spec.CharacterServed(Board(), id, group, desired, lang)
      ensures Spec.Mapped(key, sh') == Spec.MapCharacterKey(Board(), id, group, desired, again, lang, sh)
      ensures key == None ==> sh'.active == sh.active && sh'.state == sh.state && sh'.keys in {[], sh.keys}
    {
      if id !in keyIDMap {
        return None, sh;
      }
      var language := GetLanguageGroupID(group, lang);
      var found := GetKeyItemList(keyIDMap[id], language, desired);
      if found == None {
        return None, sh;
      }
      var items := found.value;
      var item := Spec.Last(items);
      var working := sh;
      var newGroup := group;
      var i := 0;
      while i < |items|
        invariant 0 <= i <= |items| && Spec.GroupsExist(Board(), items[i..], newGroup, lang)
        invariant Spec.KeysForItems(Board(), items, group, desired, {}, again, lang, sh)
                  == Spec.KeysForItems(Board(), items[i..], newGroup, desired, {}, again, lang, working)
      {
        NextItem(Board(), items, i, newGroup, desired, again, lang, working);
        var ok;
        ok, newGroup, working := KeysForKeyItem(items[i], newGroup, desired, {}, again, lang, working);
        if !ok {
          return None, sh.(keys := []);
        }
        i := i + 1;
      }
      working := KeysToRestoreModifiers(item.button, sh.active, working);
      return Some(item), working;
    }

    static lemma NextItem(kb: Keyboard, items: KeyItemList, i: nat, group: nat, desired: Mask, again: bool,
                          lang: string, sh: Shadow)
      requires kb.Ready() && i < |items| && Spec.GroupsExist(kb, items[i..], group, lang)
      ensures Spec.PassedOn(kb, items[i], group, lang) < kb.numGroups
      ensures var (ok, g, sh1) := Spec.KeysForKeyItem(kb, items[i], group, desired, {}, again, lang, sh);
              && Spec.GroupsExist(kb, items[i + 1..], g, lang)
              && Spec.KeysForItems(kb, items[i..], group, desired, {}, again, lang, sh)
                 == if ok then Spec.KeysForItems(kb, items[i + 1..], g, desired, {}, again, lang, sh1) else (false, sh1)
    {
      assert items[i..][1..] == items[i + 1..];
    }

    method FindCommandKey(table: KeyGroupTable, group: nat, desired: Mask) returns (key: Option<KeyItem>)
      requires Board().Ready() && Board().TableReady(table)
      ensures key == Spec.CommandKey(Board(), table, group, desired, 0)
    {
      var offset := 0;
      while offset < numGroups
        invariant 0 <= offset <= numGroups
        invariant Spec.CommandKey(Board(), table, group, desired, 0)
                  == Spec.CommandKey(Board(), table, group, desired, offset)
      {
        var entries := table[Spec.EffectiveGroup(Board(), group, offset)];
        var i := 0;
        while i < |entries|
          invariant 0 <= i <= |entries|
          invariant Spec.FirstCommand(entries, desired) == Spec.FirstCommand(entries[i..], desired)
        {
          if |entries[i]| == 1 && Spec.SuitsCommand(entries[i][0], desired) {
            return Some(entries[i][0]);
          }
          assert entries[i..][1..] == entries[i + 1..];
          i := i + 1;
        }
        offset := offset + 1;
      }
      return None;
    }

    /** Maps a key to the first button that generates its id under the desired modifiers. */
    method MapCommandKey(id: nat, group: nat, desired: Mask, again: bool, lang: string, sh: Shadow)
      returns (key: Option<KeyItem>, sh': Shadow)
      requires Board().Ready() && Spec.CommandServed(Board(), id, group, desired, lang)
      ensures Spec.Mapped(key, sh') == Spec.MapCommandKey(Board(), id, group, desired, again, lang, sh)
      ensures key == None ==> sh'.active == sh.active && sh'.state == sh.state && sh'.keys in {[], sh.keys}
    {
      if id !in keyIDMap {
        return None, sh;
      }
      var found := FindCommandKey(keyIDMap[id], group, desired);
      if found == None {
        return None, sh;
      }
      var item := found.value;
      assert [item][0] == item;
      // caps lock stays out of it
      var wanted := desired - {CAPS_LOCK} + sh.state * {CAPS_LOCK};
      var ok, newGroup, working := KeysForKeyItem(item, group, wanted, Spec.OVERRIDE, again, lang, sh);
      CommandIsOneItem(item, group, wanted, again, lang, sh);
      if !ok {
        return None, sh.(keys := []);
      }
      working := KeysToRestoreModifiers(item.button, sh.active, working);
      return Some(item), working;
    }

    lemma CommandIsOneItem(item: KeyItem, group: nat, wanted: Mask, again: bool, lang: string, sh: Shadow)
      requires Board().Ready() && Spec.PassedOn(Board(), item, group, lang) < numGroups
      ensures var (ok, g, sh') := Spec.KeysForKeyItem(Board(), item, group, wanted, Spec.OVERRIDE, again, lang, sh);
              Spec.KeysForItems(Board(), [item], group, wanted, Spec.OVERRIDE, again, lang, sh) == (ok, sh')
    {
      assert [item][1..] == [];
    }

    method MapKey(id: nat, group: nat, desired: Mask, again: bool, lang: string, sh: Shadow)
      returns (key: Option<KeyItem>, sh': Shadow)
      requires Board().Ready() && Spec.Served(Board(), id, group, desired, lang)
      ensures Spec.Mapped(key, sh') == Spec.MapKey(Board(), id, group, desired, again, lang, sh)
    {
      if id == Spec.NEXT_GROUP {
        return None, sh.(keys := sh.keys + [Group(1, false, false)]);
      } else if id == Spec.PREV_GROUP {
        return None, sh.(keys := sh.keys + [Group(-1, false, false)]);
      }
      if id in Spec.MODIFIER_IDS {
        key, sh' := MapCharacterKey(id, group, desired, again, lang, sh);
      } else if id == Spec.SET_MODIFIERS {
        var ok;
        ok, sh' := KeysForModifierState(0, group, desired, desired, {}, sh);
        key := if ok then Some(Spec.MODIFIER_KEY_ITEM) else None;
      } else if id == Spec.CLEAR_MODIFIERS {
        var ok;
        ok, sh' := KeysForModifierState(0, group, sh.state - desired, desired, {}, sh);
        key := if ok then Some(Spec.MODIFIER_KEY_ITEM) else None;
      } else if Spec.IsCommand(desired) {
        key, sh' := MapCommandKey(id, group, desired, again, lang, sh);
      } else {
        key, sh' := MapCharacterKey(id, group, desired, again, lang, sh);
      }
    }
  }
}
