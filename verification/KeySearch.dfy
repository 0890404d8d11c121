/** Which key a request finds: in which group, and which entry of it, with the masks
    written out.
 */
module KeySearch {
  import opened KeyMasks
  import opened KeyData
  import opened KeySpec
  import opened KeyChoice

  // ---- character keys ----

  /** The modifiers the item would have to see changed. */
  function Differing(item: KeyItem, desired: Mask): Mask {
    set b | b in item.sensitive && (b in item.required) != (b in desired)
  }

  /** Each entry needs 32 or more modifiers changed. */
  ghost predicate NoneSuits(entries: KeyEntryList, desired: Mask)
    requires Filled(entries)
  {
    forall i | 0 <= i < |entries| :: |Differing(Last(entries[i]), desired)| >= 32
  }

  /** The entry needs the fewest changes, and is the first that does. */
  ghost predicate FirstFewest(entries: KeyEntryList, desired: Mask, i: nat)
    requires Filled(entries)
  {
    && i < |entries| && |Differing(Last(entries[i]), desired)| < 32
    && (forall j | 0 <= j < |entries| ::
          |Differing(Last(entries[i]), desired)| <= |Differing(Last(entries[j]), desired)|)
    && (forall j | 0 <= j < i :: |Differing(Last(entries[i]), desired)| < |Differing(Last(entries[j]), desired)|)
  }

  /** Items require only what they are sensitive to, as addKeyEntry() stores them. */
  ghost predicate Sensible(table: KeyGroupTable) {
    forall g, e | 0 <= g < |table| && 0 <= e < |table[g]| && table[g][e] != [] ::
      Last(table[g][e]).required <= Last(table[g][e]).sensitive
  }

  lemma DifferingIsChange(item: KeyItem, desired: Mask)
    ensures Differing(item, desired) == Change(item, desired)
  {
    forall b ensures b in Differing(item, desired) <==> b in Change(item, desired) {}
  }

  lemma BestIsFirstFewest(entries: KeyEntryList, desired: Mask)
    requires Filled(entries)
    requires forall e | 0 <= e < |entries| :: Last(entries[e]).required <= Last(entries[e]).sensitive
    ensures var best := FindBestKey(entries, desired);
            if best == -1 then NoneSuits(entries, desired) else best >= 0 && FirstFewest(entries, desired, best)
  {
    BestKeyIsFirstFewest(entries, desired);
    forall i | 0 <= i < |entries|
      ensures |Differing(Last(entries[i]), desired)| == Changes(entries, desired, i)
    {
      DifferingIsChange(Last(entries[i]), desired);
    }
  }

  /** The list of entries of the k-th group after the current one. */
  function GroupAfter(table: KeyGroupTable, group: nat, k: nat): KeyEntryList
    requires table != []
  {
    table[(group + k) % |table|]
  }

  lemma AfterIsEffective(kb: Keyboard, table: KeyGroupTable, group: nat, k: nat)
    requires kb.Ready() && kb.TableReady(table) && kb.numGroups > 0
    ensures GroupAfter(table, group, k) == table[EffectiveGroup(kb, group, k)]
    ensures Filled(GroupAfter(table, group, k))
  {
    assert EffectiveGroup(kb, group, k) == (group + k) % kb.numGroups by {
      Wraps(group + k, kb.numGroups);
    }
  }

  lemma Wraps(a: nat, n: nat)
    requires n > 0
    ensures (a + n) % n == a % n
  {
    assert (a / n + 1) * n == a / n * n + n;
    OneRemainder((a + n) / n, (a + n) % n, a / n + 1, a % n, n);
  }

  lemma OneRemainder(q: nat, r: nat, q': nat, r': nat, n: nat)
    requires r < n && r' < n && q * n + r == q' * n + r'
    ensures r == r'
  {
    var d := q - q';
    assert d * n == r' - r by {
      assert d * n == q * n - q' * n;
    }
    assert d >= 1 ==> d * n >= n;
    assert d <= -1 ==> d * n <= -1 * n;
  }

  /** The list is the first of those in its group with the fewest changes, and no group
      before it, from the current one on, has any that suits. */
  ghost predicate CharacterChoice(table: KeyGroupTable, group: nat, desired: Mask, list: KeyItemList, k: nat, i: nat)
    requires forall g | 0 <= g < |table| :: Filled(table[g])
  {
    && k < |table|
    && FirstFewest(GroupAfter(table, group, k), desired, i) && GroupAfter(table, group, k)[i] == list
    && forall j: nat | j < k :: NoneSuits(GroupAfter(table, group, j), desired)
  }

  lemma {:induction false} CharacterSearch(kb: Keyboard, table: KeyGroupTable, group: nat, desired: Mask, offset: nat)
    returns (k: nat, i: nat)
    requires kb.Ready() && kb.TableReady(table) && Sensible(table) && offset <= kb.numGroups
    requires forall j: nat | j < offset :: NoneSuits(GroupAfter(table, group, j), desired)
    ensures var r := CharacterKeys(kb, table, group, desired, offset);
            if r.Some? then CharacterChoice(table, group, desired, r.value, k, i)
            else forall j: nat | j < |table| :: NoneSuits(GroupAfter(table, group, j), desired)
    decreases kb.numGroups - offset
  {
    if offset < kb.numGroups {
      AfterIsEffective(kb, table, group, offset);
      var entries := GroupAfter(table, group, offset);
      BestIsFirstFewest(entries, desired);
      BestKeyInRange(entries, desired);
      var best := FindBestKey(entries, desired);
      if best == -1 {
        k, i := CharacterSearch(kb, table, group, desired, offset + 1);
      } else {
        k, i := offset, best;
      }
    } else {
      k, i := 0, 0;
    }
  }

  /** getKeyItemList: from the current group on, cyclically, the first group with an entry
      that suits, and of its entries the first that needs the fewest changes; none exactly
      when no group has any. */
  lemma CharacterKeysAre(kb: Keyboard, table: KeyGroupTable, group: nat, desired: Mask) returns (k: nat, i: nat)
    requires kb.Ready() && kb.TableReady(table) && Sensible(table)
    ensures var r := CharacterKeys(kb, table, group, desired, 0);
            && (r.Some? ==> CharacterChoice(table, group, desired, r.value, k, i))
            && (r.None? <==> forall j: nat | j < |table| :: NoneSuits(GroupAfter(table, group, j), desired))
  {
    k, i := CharacterSearch(kb, table, group, desired, 0);
  }

  // ---- command keys ----

  /** With shift wanted, the item requires shift if it is sensitive to it; whatever else it
      requires is wanted. */
  ghost predicate ForCommand(item: KeyItem, desired: Mask) {
    && (SHIFT in desired ==> (SHIFT in item.required <==> SHIFT in item.sensitive))
    && forall b | b in item.required && b != SHIFT :: b in desired
  }

  lemma SuitsIsForCommand(item: KeyItem, desired: Mask)
    ensures SuitsCommand(item, desired) <==> ForCommand(item, desired)
  {
    var shift, others := {SHIFT} * desired, item.required - {SHIFT};
    assert others * desired == others <==> forall b | b in others :: b in desired by {
      forall b ensures b in others * desired <==> b in others && b in desired {}
    }
    if SHIFT in desired {
      assert shift == {SHIFT};
      assert item.required * shift == if SHIFT in item.required then {SHIFT} else {};
      assert item.sensitive * shift == if SHIFT in item.sensitive then {SHIFT} else {};
    } else {
      assert shift == {};
    }
  }

  /** A single item that is fit for the command. */
  ghost predicate CommandEntry(entry: KeyItemList, desired: Mask) {
    |entry| == 1 && ForCommand(entry[0], desired)
  }

  ghost predicate NoneCommands(entries: KeyEntryList, desired: Mask) {
    forall i | 0 <= i < |entries| :: !CommandEntry(entries[i], desired)
  }

  /** The item is the first of its group that is fit, and no group before it has any. */
  ghost predicate CommandChoice(table: KeyGroupTable, group: nat, desired: Mask, item: KeyItem, k: nat, i: nat) {
    && k < |table| && i < |GroupAfter(table, group, k)|
    && GroupAfter(table, group, k)[i] == [item] && ForCommand(item, desired)
    && (forall e | 0 <= e < i :: !CommandEntry(GroupAfter(table, group, k)[e], desired))
    && forall j: nat | j < k :: NoneCommands(GroupAfter(table, group, j), desired)
  }

  lemma {:induction false} FirstCommandIs(entries: KeyEntryList, desired: Mask) returns (i: nat)
    ensures var r := FirstCommand(entries, desired);
            if r.Some? then
              && i < |entries| && entries[i] == [r.value] && ForCommand(r.value, desired)
              && forall e | 0 <= e < i :: !CommandEntry(entries[e], desired)
            else NoneCommands(entries, desired)
  {
    i := 0;
    if entries != [] {
      if |entries[0]| == 1 {
        SuitsIsForCommand(entries[0][0], desired);
        assert entries[0] == [entries[0][0]];
      }
      if !CommandEntry(entries[0], desired) {
        var n := FirstCommandIs(entries[1..], desired);
        assert forall e | 1 <= e < |entries| :: entries[1..][e - 1] == entries[e];
        i := n + 1;
      }
    }
  }

  lemma {:induction false} CommandSearch(kb: Keyboard, table: KeyGroupTable, group: nat, desired: Mask, offset: nat)
    returns (k: nat, i: nat)
    requires kb.Ready() && kb.TableReady(table) && offset <= kb.numGroups
    requires forall j: nat | j < offset :: NoneCommands(GroupAfter(table, group, j), desired)
    ensures var r := CommandKey(kb, table, group, desired, offset);
            if r.Some? then CommandChoice(table, group, desired, r.value, k, i)
            else forall j: nat | j < |table| :: NoneCommands(GroupAfter(table, group, j), desired)
    decreases kb.numGroups - offset
  {
    k, i := 0, 0;
    if offset < kb.numGroups {
      AfterIsEffective(kb, table, group, offset);
      var entries := GroupAfter(table, group, offset);
      i := FirstCommandIs(entries, desired);
      if FirstCommand(entries, desired).None? {
        k, i := CommandSearch(kb, table, group, desired, offset + 1);
      } else {
        k := offset;
      }
    }
  }

  /** The search of mapCommandKey: from the current group on, cyclically, the first entry of
      one item that is fit for the command; none exactly when there is no such entry. */
  lemma CommandKeyIs(kb: Keyboard, table: KeyGroupTable, group: nat, desired: Mask) returns (k: nat, i: nat)
    requires kb.Ready() && kb.TableReady(table)
    ensures var r := CommandKey(kb, table, group, desired, 0);
            && (r.Some? ==> CommandChoice(table, group, desired, r.value, k, i))
            && (r.None? <==> forall j: nat | j < |table| :: NoneCommands(GroupAfter(table, group, j), desired))
  {
    k, i := CommandSearch(kb, table, group, desired, 0);
  }

  // ---- whole requests ----

  /** The group the search begins with: that of the language if it is known. */
  ghost predicate Begins(layouts: seq<string>, group: nat, lang: string, start: nat) {
    if lang in layouts then
      start < |layouts| && layouts[start] == lang && forall i | 0 <= i < start :: layouts[i] != lang
    else start == group
  }

  lemma {:induction false} IndexIsFirst(names: seq<string>, name: string)
    ensures IndexOf(names, name).None? <==> name !in names
    ensures var i := IndexOf(names, name);
            i.Some? ==> i.value < |names| && names[i.value] == name && forall j | 0 <= j < i.value :: names[j] != name
  {
    if names != [] && names[0] != name {
      IndexIsFirst(names[1..], name);
      assert names == [names[0]] + names[1..];
    }
  }

  lemma LanguageBegins(kb: Keyboard, group: nat, lang: string)
    ensures Begins(kb.layouts, group, lang, LanguageGroup(kb, group, lang))
  {
    IndexIsFirst(kb.layouts, lang);
  }

  /** The key a character request presses last. */
  lemma MapCharacterKeyPresses(kb: Keyboard, id: nat, group: nat, desired: Mask, again: bool, lang: string,
                               sh: Shadow)
    returns (start: nat, k: nat, i: nat, list: KeyItemList)
    requires kb.Ready() && CharacterServed(kb, id, group, desired, lang)
    requires id in kb.keyIDMap ==> Sensible(kb.keyIDMap[id])
    ensures var r := MapCharacterKey(kb, id, group, desired, again, lang, sh);
            && Begins(kb.layouts, group, lang, start)
            && (r.item.Some? ==>
                  && id in kb.keyIDMap && list != [] && r.item.value == Last(list)
                  && CharacterChoice(kb.keyIDMap[id], start, desired, list, k, i))
            && (id !in kb.keyIDMap
                || (forall j: nat | j < |kb.keyIDMap[id]| :: NoneSuits(GroupAfter(kb.keyIDMap[id], start, j), desired))
                ==> r == Mapped(None, sh))
  {
    start, k, i, list := LanguageGroup(kb, group, lang), 0, 0, [];
    LanguageBegins(kb, group, lang);
    if id in kb.keyIDMap {
      k, i := CharacterKeysAre(kb, kb.keyIDMap[id], start, desired);
      var found := CharacterKeys(kb, kb.keyIDMap[id], start, desired, 0);
      if found.Some? {
        list := found.value;
      }
    }
  }

  /** The key a command presses. */
  lemma MapCommandKeyPresses(kb: Keyboard, id: nat, group: nat, desired: Mask, again: bool, lang: string,
                             sh: Shadow)
    returns (k: nat, i: nat)
    requires kb.Ready() && CommandServed(kb, id, group, desired, lang)
    ensures var r := MapCommandKey(kb, id, group, desired, again, lang, sh);
            && (r.item.Some? ==>
                  id in kb.keyIDMap && CommandChoice(kb.keyIDMap[id], group, desired, r.item.value, k, i))
            && (id !in kb.keyIDMap
                || (forall j: nat | j < |kb.keyIDMap[id]| ::
                      NoneCommands(GroupAfter(kb.keyIDMap[id], group, j), desired))
                ==> r == Mapped(None, sh))
  {
    k, i := 0, 0;
    if id in kb.keyIDMap {
      k, i := CommandKeyIs(kb, kb.keyIDMap[id], group, desired);
    }
  }

  lemma ModifierKeys(id: nat)
    ensures id in MODIFIER_OF <==> id in MODIFIER_IDS
  {
  }

  lemma CommandsAre(desired: Mask)
    ensures IsCommand(desired)
            <==> CONTROL in desired || ALT in desired || ALT_GR in desired || META in desired || SUPER in desired
  {
    assert forall b :: b in desired * COMMAND_MODIFIERS <==> b in desired && b in COMMAND_MODIFIERS;
    if IsCommand(desired) {
      var b :| b in desired * COMMAND_MODIFIERS;
    }
  }

  lemma TakesOne(kb: Keyboard, id: nat, group: nat, desired: Mask, again: bool, lang: string, sh: Shadow)
    requires kb.Ready() && Served(kb, id, group, desired, lang)
    requires id !in {SET_MODIFIERS, CLEAR_MODIFIERS, NEXT_GROUP, PREV_GROUP}
    ensures if IsCommand(desired) && id !in MODIFIER_IDS then
              && CommandServed(kb, id, group, desired, lang)
              && MapKey(kb, id, group, desired, again, lang, sh)
                 == MapCommandKey(kb, id, group, desired, again, lang, sh)
            else
              && CharacterServed(kb, id, group, desired, lang)
              && MapKey(kb, id, group, desired, again, lang, sh)
                 == MapCharacterKey(kb, id, group, desired, again, lang, sh)
  {
  }

  /** Which of the two searches a request takes: a command is wanted with control, alt, AltGr,
      meta or super, but a modifier key is always mapped as a character. */
  lemma MapKeyTakes(kb: Keyboard, id: nat, group: nat, desired: Mask, again: bool, lang: string, sh: Shadow)
    requires kb.Ready() && Served(kb, id, group, desired, lang)
    requires id !in {SET_MODIFIERS, CLEAR_MODIFIERS, NEXT_GROUP, PREV_GROUP}
    ensures var command := CONTROL in desired || ALT in desired || ALT_GR in desired || META in desired
                           || SUPER in desired;
            if command && id !in MODIFIER_OF then
              && CommandServed(kb, id, group, desired, lang)
              && MapKey(kb, id, group, desired, again, lang, sh)
                 == MapCommandKey(kb, id, group, desired, again, lang, sh)
            else
              && CharacterServed(kb, id, group, desired, lang)
              && MapKey(kb, id, group, desired, again, lang, sh)
                 == MapCharacterKey(kb, id, group, desired, again, lang, sh)
  {
    ModifierKeys(id);
    CommandsAre(desired);
    TakesOne(kb, id, group, desired, again, lang, sh);
  }
}
