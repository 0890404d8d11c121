/** The mapping functions of KeyMap.cpp as functions of their arguments: the
    specification the imperative KeyMap is proved against, and what the lemmas
    of KeySteps, KeyNeutrality and KeyReplay are about.
 */
module KeySpec {
  import opened KeyMasks
  import opened KeyData

  /** Modifiers a character key tries to match but can do without. */
  const NOT_REQUIRED: Mask := {ALT_GR, NUM_LOCK, SCROLL_LOCK}
  /** 0xffffu: what a command key overrides. */
  const OVERRIDE: Mask := set b: nat | b < 16
  const COMMAND_MODIFIERS: Mask := {CONTROL, ALT, ALT_GR, META, SUPER}

  // ---- lookups ----

  function FirstOther(items: KeyItemList, button: nat): Option<KeyItem> {
    if items == [] then None
    else if items[0].button != button then Some(items[0])
    else FirstOther(items[1..], button)
  }

  /** keyForModifier: a key for the modifier that is not on the given button. */
  function KeyForModifier(kb: Keyboard, button: nat, group: nat, bit: nat): Option<KeyItem>
    requires kb.Ready() && group < kb.numGroups && bit < NUM_BITS
  {
    FirstOther(kb.modifierKeys[group * NUM_BITS + bit], button)
  }

  function IndexOf(names: seq<string>, name: string): Option<nat> {
    if names == [] then None
    else if names[0] == name then Some(0)
    else match IndexOf(names[1..], name)
      case None => None
      case Some(i) => Some(i + 1)
  }

  /** getLanguageGroupID */
  function LanguageGroup(kb: Keyboard, group: nat, lang: string): nat {
    match IndexOf(kb.layouts, lang)
    case None => group
    case Some(i) => i
  }

  /** The group that keysForKeyItem passes on: the current one if it is the item's, else
      that of the language. */
  function PassedOn(kb: Keyboard, item: KeyItem, group: nat, lang: string): nat {
    if group == item.group then group else LanguageGroup(kb, item.group, lang)
  }

  /** Every group passed on for the items of a list exists, as keyForModifier() asserts. */
  ghost predicate GroupsExist(kb: Keyboard, items: KeyItemList, group: nat, lang: string) {
    items != [] ==>
      var g := PassedOn(kb, items[0], group, lang);
      g < kb.numGroups && GroupsExist(kb, items[1..], g, lang)
  }

  /** getEffectiveGroup */
  function EffectiveGroup(kb: Keyboard, group: nat, offset: nat): (g: nat)
    requires kb.numGroups > 0
    ensures g < kb.numGroups
  {
    (group + offset + kb.numGroups) % kb.numGroups
  }

  /** The modifiers that would have to change before the item types what is wanted. */
  function Change(item: KeyItem, desired: Mask): Mask {
    Xor(item.required, desired) * item.sensitive
  }

  /** The test of findBestKey's first pass. */
  predicate FitsExactly(item: KeyItem, desired: Mask) {
    && item.required * desired == item.required
    && item.required * desired == item.sensitive * desired
  }

  ghost predicate Filled(entries: KeyEntryList) {
    forall e | 0 <= e < |entries| :: entries[e] != []
  }

  function FirstExact(entries: KeyEntryList, desired: Mask, from: nat): int
    requires from <= |entries| && Filled(entries)
    decreases |entries| - from
  {
    if from == |entries| then -1
    else if FitsExactly(Last(entries[from]), desired) then from
    else FirstExact(entries, desired, from + 1)
  }

  /** The best index and count of findBestKey's second pass over the entries before `upto`. */
  function Fewest(entries: KeyEntryList, desired: Mask, upto: nat): (int, nat)
    requires upto <= |entries| && Filled(entries)
  {
    if upto == 0 then (-1, 32)
    else
      var (best, count) := Fewest(entries, desired, upto - 1);
      var n := |Change(Last(entries[upto - 1]), desired)|;
      if n < count then (upto - 1, n) else (best, count)
  }

  function FindBestKey(entries: KeyEntryList, desired: Mask): int
    requires Filled(entries)
  {
    var exact := FirstExact(entries, desired, 0);
    if exact != -1 then exact else Fewest(entries, desired, |entries|).0
  }

  function Last(items: KeyItemList): KeyItem
    requires items != []
  {
    items[|items| - 1]
  }

  lemma BestKeyInRange(entries: KeyEntryList, desired: Mask)
    requires Filled(entries)
    ensures -1 <= FindBestKey(entries, desired) < |entries|
  {
    FewestInRange(entries, desired, |entries|);
    FirstExactInRange(entries, desired, 0);
  }

  lemma FewestInRange(entries: KeyEntryList, desired: Mask, upto: nat)
    requires upto <= |entries| && Filled(entries)
    ensures -1 <= Fewest(entries, desired, upto).0 < upto
  {}

  lemma FirstExactInRange(entries: KeyEntryList, desired: Mask, from: nat)
    requires from <= |entries| && Filled(entries)
    ensures -1 <= FirstExact(entries, desired, from) < |entries|
    decreases |entries| - from
  {}

  /** getKeyItemList: the best entry of the first group, from the given one on, that has any. */
  function CharacterKeys(kb: Keyboard, table: KeyGroupTable, group: nat, desired: Mask, offset: nat)
    : (r: Option<KeyItemList>)
    requires kb.Ready() && kb.TableReady(table) && offset <= kb.numGroups
    ensures r.Some? ==> kb.EntryReady(r.value)
    decreases kb.numGroups - offset
  {
    if offset == kb.numGroups then None
    else
      var entries := table[EffectiveGroup(kb, group, offset)];
      var best := FindBestKey(entries, desired);
      BestKeyInRange(entries, desired);
      if best != -1 then Some(entries[best]) else CharacterKeys(kb, table, group, desired, offset + 1)
  }

  /** The test by which mapCommandKey picks a button. */
  predicate SuitsCommand(item: KeyItem, desired: Mask) {
    var shift := {SHIFT} * desired;
    var others := item.required - {SHIFT};
    && item.required * shift == item.sensitive * shift
    && others * desired == others
  }

  function FirstCommand(entries: KeyEntryList, desired: Mask): (r: Option<KeyItem>)
    ensures r.Some? ==> [r.value] in entries
  {
    if entries == [] then None
    else if |entries[0]| == 1 && SuitsCommand(entries[0][0], desired) then
      assert entries[0] == [entries[0][0]];
      Some(entries[0][0])
    else FirstCommand(entries[1..], desired)
  }

  function CommandKey(kb: Keyboard, table: KeyGroupTable, group: nat, desired: Mask, offset: nat): (r: Option<KeyItem>)
    requires kb.Ready() && kb.TableReady(table) && offset <= kb.numGroups
    ensures r.Some? ==> kb.EntryReady([r.value])
    decreases kb.numGroups - offset
  {
    if offset == kb.numGroups then None
    else
      var entries := table[EffectiveGroup(kb, group, offset)];
      match FirstCommand(entries, desired)
      case Some(item) =>
        assert kb.EntryReady([item]);
        Some(item)
      case None => CommandKey(kb, table, group, desired, offset + 1)
  }

  // ---- keystrokes ----

  /** addKeystrokes */
  function AddKeystrokes(kb: Keyboard, ty: EKeystroke, item: KeyItem, sh: Shadow): Shadow {
    var down := Button(item.button, true, false, item.client);
    var up := Button(item.button, false, false, item.client);
    var on := sh.(active := Insert(sh.active, Held(item.generates, item)), state := sh.state + item.generates);
    var off := sh.(active := EraseAll(sh.active, item.generates), state := sh.state - item.generates);
    match ty
    case Press =>
      var sh' := if item.generates == {} then sh
                 else if !item.lock || sh.state * item.generates == {} then on else off;
      sh'.(keys := sh.keys + [down])
    case Release =>
      var sh' :=
        if item.generates != {} && !item.lock then
          var active := EraseButton(sh.active, item.generates, item.button);
          Shadow(active,
                 if EqualRange(active, item.generates) == [] then sh.state - item.generates else sh.state,
                 sh.keys)
        else sh;
      sh'.(keys := sh.keys + [up])
    case Repeat =>
      sh.(keys := sh.keys + match kb.platform
                            case Windows => [Button(item.button, false, true, item.client),
                                             Button(item.button, true, true, item.client)]
                            case Mac => [Button(item.button, true, true, item.client)]
                            case Other => [])
    case Click =>
      sh.(keys := sh.keys + [down, up])
    case Modify =>
      on.(keys := sh.keys + if item.lock then (if item.button in kb.halfDuplex then [down] else [down, up])
                            else [down])
    case Unmodify =>
      off.(keys := sh.keys + if item.lock then (if item.button in kb.halfDuplex then [up] else [down, up])
                             else Lifts(EqualRange(sh.active, item.generates)))
  }

  // ---- matching a modifier state ----

  /** keysForModifierState.  Every recursive call is on modifiers strictly below one of
      the caller's sensitive modifiers, so the function ends on every keyboard. */
  function KeysForModifierState(kb: Keyboard, button: nat, group: nat, required: Mask, sensitive: Mask,
                                notRequired: Mask, sh: Shadow): (bool, Shadow)
    requires kb.Ready() && group < kb.numGroups
    decreases Ceiling(sensitive), 1, 0
  {
    var flip := Xor(sh.state, required) * sensitive - notRequired;
    if flip == {} then (true, sh)
    else FlipBelow(kb, button, group, NUM_BITS, flip, required, notRequired, sh)
  }

  /** The rest of the bit loop, when the bits from `bit` up are done. */
  function FlipBelow(kb: Keyboard, button: nat, group: nat, bit: nat, flip: Mask, required: Mask,
                     notRequired: Mask, sh: Shadow): (bool, Shadow)
    requires kb.Ready() && group < kb.numGroups && bit <= NUM_BITS
    decreases Ceiling(flip), 0, bit
  {
    if bit == 0 then (true, sh)
    else
      var b := bit - 1;
      if b !in flip then FlipBelow(kb, button, group, b, flip, required, notRequired, sh)
      else
        match KeyForModifier(kb, button, group, b)
        case None =>
          if b in notRequired then FlipBelow(kb, button, group, b, flip, required, notRequired, sh)
          else (false, sh)
        case Some(item) =>
          var (ok, sh1) := PrepareFlip(kb, button, group, b, b in required, item, notRequired, sh);
          if ok then
            FlipBelow(kb, button, group, b, flip, required, notRequired,
                      AddKeystrokes(kb, if b in required then Modify else Unmodify, item, sh1))
          else (false, sh1)
  }

  /** Adjusts the modifiers the modifier key itself is sensitive to, before it is pressed. */
  function PrepareFlip(kb: Keyboard, button: nat, group: nat, b: nat, press: bool, item: KeyItem,
                       notRequired: Mask, sh: Shadow): (bool, Shadow)
    requires kb.Ready() && group < kb.numGroups && b < NUM_BITS
    decreases b, 2, 0
  {
    var sensitive := item.sensitive - {b};
    if AnyAbove(sensitive, b) then (false, sh)
    else
      var (ok, sh1) :=
        if sensitive != {} && press then
          KeysForModifierState(kb, button, group, item.required, sensitive, notRequired, sh)
        else (true, sh);
      (ok && sh1.state * sensitive == item.required * sensitive, sh1)
  }

  // ---- mapping a key ----

  /** keysForKeyItem: whether it could be done, the group it leaves, the new state. */
  function KeysForKeyItem(kb: Keyboard, item: KeyItem, group: nat, desired: Mask, override: Mask,
                          again: bool, lang: string, sh: Shadow): (bool, nat, Shadow)
    requires kb.Ready() && PassedOn(kb, item, group, lang) < kb.numGroups
  {
    var group1 := PassedOn(kb, item, group, lang);
    var sh1 := if group == item.group then sh else sh.(keys := sh.keys + [Group(group1, true, false)]);
    if item.dead then
      var (ok, sh2) := KeysForModifierState(kb, item.button, group1, item.required, item.sensitive, {}, sh1);
      if ok then (true, group1, AddKeystrokes(kb, Click, item, sh2)) else (false, group1, sh2)
    else
      var sensitive := item.sensitive - override;
      var (ok, sh2) := KeysForModifierState(kb, item.button, group1, item.required, sensitive, {}, sh1);
      if !ok then (false, group1, sh2)
      else
        var (ok', sh3) := KeysForModifierState(kb, item.button, group1, desired,
                                               ALL - (sensitive + item.generates), NOT_REQUIRED, sh2);
        if ok' then (true, group1, AddKeystrokes(kb, if again then Repeat else Press, item, sh3))
        else (false, group1, sh3)
  }

  function ButtonSet(m: Modifiers): set<nat> {
    set i | 0 <= i < |m| :: m[i].item.button
  }

  /** The first loop of keysToRestoreModifiers over what is left of the old modifiers. */
  function ReleaseUnwanted(kb: Keyboard, old_: Modifiers, button: nat, wanted: set<nat>, sh: Shadow): Shadow {
    if old_ == [] then sh
    else
      var item := old_[0].item;
      ReleaseUnwanted(kb, old_[1..], button, wanted,
        if item.button != button && item.button !in wanted then
          AddKeystrokes(kb, if item.lock then Unmodify else Release, item, sh)
        else sh)
  }

  /** The second loop of keysToRestoreModifiers over what is left of the desired modifiers. */
  function PressWanted(kb: Keyboard, desired: Modifiers, button: nat, down: set<nat>, sh: Shadow): Shadow {
    if desired == [] then sh
    else
      var item := desired[0].item;
      PressWanted(kb, desired[1..], button, down,
        if item.button != button && item.button !in down then
          AddKeystrokes(kb, if item.lock then Modify else Press, item, sh)
        else sh)
  }

  /** keysToRestoreModifiers */
  function KeysToRestoreModifiers(kb: Keyboard, button: nat, desired: Modifiers, sh: Shadow): Shadow {
    PressWanted(kb, desired, button, ButtonSet(sh.active),
      ReleaseUnwanted(kb, sh.active, button, ButtonSet(desired), sh))
  }

  /** The loop of mapCharacterKey over the items of the list. */
  function KeysForItems(kb: Keyboard, items: KeyItemList, group: nat, desired: Mask, override: Mask,
                        again: bool, lang: string, sh: Shadow): (bool, Shadow)
    requires kb.Ready() && GroupsExist(kb, items, group, lang)
  {
    if items == [] then (true, sh)
    else
      var (ok, group1, sh1) := KeysForKeyItem(kb, items[0], group, desired, override, again, lang, sh);
      if ok then KeysForItems(kb, items[1..], group1, desired, override, again, lang, sh1) else (false, sh1)
  }

  /** What a mapping call leaves: the key it pressed, none if it could not, and the
      modifier state and keystrokes. */
  datatype Mapped = Mapped(item: Option<KeyItem>, sh: Shadow)

  /** The common end of mapCharacterKey and mapCommandKey: press the items on working
      copies of the modifiers, restore the others, and commit. */
  function MapItems(kb: Keyboard, items: KeyItemList, group: nat, desired: Mask, override: Mask,
                    again: bool, lang: string, sh: Shadow): Mapped
    requires kb.Ready() && items != [] && GroupsExist(kb, items, group, lang)
  {
    var (ok, sh1) := KeysForItems(kb, items, group, desired, override, again, lang, sh);
    if ok then Mapped(Some(Last(items)), KeysToRestoreModifiers(kb, Last(items).button, sh.active, sh1))
    else Mapped(None, sh.(keys := []))
  }

  /** Every group that the call passes on exists. */
  ghost predicate CharacterServed(kb: Keyboard, id: nat, group: nat, desired: Mask, lang: string)
    requires kb.Ready()
  {
    id in kb.keyIDMap ==>
      var list := CharacterKeys(kb, kb.keyIDMap[id], LanguageGroup(kb, group, lang), desired, 0);
      list.Some? ==> GroupsExist(kb, list.value, group, lang)
  }

  ghost predicate CommandServed(kb: Keyboard, id: nat, group: nat, desired: Mask, lang: string)
    requires kb.Ready()
  {
    id in kb.keyIDMap ==>
      var key := CommandKey(kb, kb.keyIDMap[id], group, desired, 0);
      key.Some? ==> GroupsExist(kb, [key.value], group, lang)
  }

  function MapCharacterKey(kb: Keyboard, id: nat, group: nat, desired: Mask, again: bool, lang: string,
                           sh: Shadow): Mapped
    requires kb.Ready() && CharacterServed(kb, id, group, desired, lang)
  {
    if id !in kb.keyIDMap then Mapped(None, sh)
    else
      match CharacterKeys(kb, kb.keyIDMap[id], LanguageGroup(kb, group, lang), desired, 0)
      case None => Mapped(None, sh)
      case Some(items) => MapItems(kb, items, group, desired, {}, again, lang, sh)
  }

  function MapCommandKey(kb: Keyboard, id: nat, group: nat, desired: Mask, again: bool, lang: string,
                         sh: Shadow): Mapped
    requires kb.Ready() && CommandServed(kb, id, group, desired, lang)
  {
    if id !in kb.keyIDMap then Mapped(None, sh)
    else
      match CommandKey(kb, kb.keyIDMap[id], group, desired, 0)
      case None => Mapped(None, sh)
      case Some(item) =>
        var wanted := desired - {CAPS_LOCK} + sh.state * {CAPS_LOCK};
        MapItems(kb, [item], group, wanted, OVERRIDE, again, lang, sh)
  }

  const MODIFIER_IDS: set<nat> := {
    0xEFE1, 0xEFE2, 0xEFE3, 0xEFE4, 0xEFE9, 0xEFEA, 0xEFE7, 0xEFE8, 0xEFEB, 0xEFEC,
    0xEF7E, 0xEFE5, 0xEF7F, 0xEF14
  }
  const SET_MODIFIERS: nat := 0xEE06
  const CLEAR_MODIFIERS: nat := 0xEE07
  const NEXT_GROUP: nat := 0xEE08
  const PREV_GROUP: nat := 0xEE0A

  /** m_modifierKeyItem */
  const MODIFIER_KEY_ITEM: KeyItem := KeyItem(KEY_NONE, 0, 0, {}, {}, {}, false, false, 0)

  predicate IsCommand(mask: Mask) {
    mask * COMMAND_MODIFIERS != {}
  }

  /** Every group that the call passes on to keyForModifier() exists. */
  ghost predicate Served(kb: Keyboard, id: nat, group: nat, desired: Mask, lang: string)
    requires kb.Ready()
  {
    if id in {NEXT_GROUP, PREV_GROUP} then true
    else if id in {SET_MODIFIERS, CLEAR_MODIFIERS} then group < kb.numGroups
    else if id !in MODIFIER_IDS && IsCommand(desired) then CommandServed(kb, id, group, desired, lang)
    else CharacterServed(kb, id, group, desired, lang)
  }

  /** mapKey.  Setting or clearing modifiers works on the caller's state directly, so a
      failure part way leaves what was done before it. */
  function MapKey(kb: Keyboard, id: nat, group: nat, desired: Mask, again: bool, lang: string,
                  sh: Shadow): Mapped
    requires kb.Ready() && Served(kb, id, group, desired, lang)
  {
    if id == NEXT_GROUP then Mapped(None, sh.(keys := sh.keys + [Group(1, false, false)]))
    else if id == PREV_GROUP then Mapped(None, sh.(keys := sh.keys + [Group(-1, false, false)]))
    else if id in MODIFIER_IDS then MapCharacterKey(kb, id, group, desired, again, lang, sh)
    else if id == SET_MODIFIERS then
      var (ok, sh1) := KeysForModifierState(kb, 0, group, desired, desired, {}, sh);
      Mapped(if ok then Some(MODIFIER_KEY_ITEM) else None, sh1)
    else if id == CLEAR_MODIFIERS then
      var (ok, sh1) := KeysForModifierState(kb, 0, group, sh.state - desired, desired, {}, sh);
      Mapped(if ok then Some(MODIFIER_KEY_ITEM) else None, sh1)
    else if IsCommand(desired) then MapCommandKey(kb, id, group, desired, again, lang, sh)
    else MapCharacterKey(kb, id, group, desired, again, lang, sh)
  }
}
