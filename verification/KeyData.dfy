/** The values KeyMap.h declares: key items, keystrokes, the multimap of held
    modifier keys, and the keyboard a mapping call reads.
 */
module KeyData {
  import opened KeyMasks

  datatype Option<+T> = None | Some(value: T)

  const KEY_NONE: nat := 0
  const KEY_COMPOSE: nat := 0xEF20

  /** KeyMap::KeyItem */
  datatype KeyItem = KeyItem(
    id: nat, group: nat, button: nat,
    required: Mask, sensitive: Mask, generates: Mask,
    dead: bool, lock: bool, client: nat)

  /** KeyMap::Keystroke */
  datatype Keystroke =
    | Button(button: nat, press: bool, again: bool, client: nat)
    | Group(group: int, absolute: bool, restore: bool)

  datatype EKeystroke = Press | Release | Repeat | Click | Modify | Unmodify

  /** The platforms the autorepeat keystroke distinguishes. */
  datatype Platform = Windows | Mac | Other

  type KeyItemList = seq<KeyItem>
  type KeyEntryList = seq<KeyItemList>
  type KeyGroupTable = seq<KeyEntryList>

  /** What the mapping calls read of a KeyMap; they are const. */
  datatype Keyboard = Keyboard(
    keyIDMap: map<nat, KeyGroupTable>, numGroups: nat, modifierKeys: seq<KeyItemList>,
    halfDuplex: set<nat>, layouts: seq<string>, platform: Platform)
  {
    /** The map as finish() leaves it: one entry list per group for every key, and one list
        per group and modifier of keys that generate it. */
    ghost predicate Ready() {
      && |modifierKeys| == NUM_BITS * numGroups
      && (forall i, j | 0 <= i < |modifierKeys| && 0 <= j < |modifierKeys[i]| ::
            i % NUM_BITS in modifierKeys[i][j].generates)
      && forall id | id in keyIDMap :: TableReady(keyIDMap[id])
    }

    ghost predicate TableReady(table: KeyGroupTable) {
      && |table| == numGroups
      && forall g, e | 0 <= g < |table| && 0 <= e < |table[g]| :: EntryReady(table[g][e])
    }

    ghost predicate EntryReady(entry: KeyItemList) {
      && entry != []
      && forall i | 0 <= i < |entry| :: entry[i].group < numGroups
    }
  }

  // ---- ModifierToKeys: std::multimap<KeyModifierMask, KeyItem> ----

  /** One node.  The nodes are kept in key order, equal keys in order of insertion. */
  datatype Held = Held(mask: Mask, item: KeyItem)
  type Modifiers = seq<Held>

  function Insert(m: Modifiers, h: Held): Modifiers {
    if m == [] then [h]
    else if Less(h.mask, m[0].mask) then [h] + m
    else [m[0]] + Insert(m[1..], h)
  }

  /** equal_range(mask) */
  function EqualRange(m: Modifiers, mask: Mask): Modifiers {
    if m == [] then []
    else if m[0].mask == mask then [m[0]] + EqualRange(m[1..], mask)
    else EqualRange(m[1..], mask)
  }

  /** erase(mask) */
  function EraseAll(m: Modifiers, mask: Mask): Modifiers {
    if m == [] then []
    else if m[0].mask == mask then EraseAll(m[1..], mask)
    else [m[0]] + EraseAll(m[1..], mask)
  }

  /** Erases the first node of equal_range(mask) on the given button, if there is one. */
  function EraseButton(m: Modifiers, mask: Mask, button: nat): Modifiers {
    if m == [] then []
    else if m[0].mask == mask && m[0].item.button == button then m[1..]
    else [m[0]] + EraseButton(m[1..], mask, button)
  }

  /** The modifier state a mapping call updates through its reference parameters,
      and the keystrokes it appends to. */
  datatype Shadow = Shadow(active: Modifiers, state: Mask, keys: seq<Keystroke>)

  /** The keystrokes that lift every key of a range, in order. */
  function Lifts(range: Modifiers): seq<Keystroke> {
    if range == [] then []
    else [Button(range[0].item.button, false, false, range[0].item.client)] + Lifts(range[1..])
  }
}
