/** When the groups that a mapping call passes on exist: setLanguageData() takes one name
    for each layout, however many groups the keys have.
 */
module KeyGroups {
  import opened KeyMasks
  import opened KeyData
  import opened KeySpec

  /** The language is not known, or its group is one there is. */
  predicate Serves(kb: Keyboard, lang: string) {
    match IndexOf(kb.layouts, lang)
    case None => true
    case Some(i) => i < kb.numGroups
  }

  /** Only for such a language is every group that getLanguageGroupID() gives one there is. */
  lemma LanguageGroupsExist(kb: Keyboard, lang: string)
    requires kb.numGroups > 0
    ensures Serves(kb, lang) <==> forall g: nat | g < kb.numGroups :: LanguageGroup(kb, g, lang) < kb.numGroups
  {
    assert LanguageGroup(kb, 0, lang) < kb.numGroups <==> Serves(kb, lang);
  }

  /** The groups passed on for the keys of a list all exist exactly when the language
      serves or no key is in another group than the current one. */
  lemma {:induction false} GroupsExistExactly(kb: Keyboard, items: KeyItemList, group: nat, lang: string)
    requires forall i | 0 <= i < |items| :: items[i].group < kb.numGroups
    ensures GroupsExist(kb, items, group, lang)
            <==> Serves(kb, lang) || forall i | 0 <= i < |items| :: items[i].group == group
  {
    if items != [] {
      var g := PassedOn(kb, items[0], group, lang);
      GroupsExistExactly(kb, items[1..], g, lang);
      assert forall i | 0 <= i < |items| - 1 :: items[1..][i] == items[i + 1];
      if !Serves(kb, lang) && items[0].group == group {
        assert forall i | 0 <= i < |items| && items[i].group != group :: i > 0 && items[1..][i - 1].group != group;
      }
    }
  }

  /** Whatever the key and the request, mapKey stays within the groups there are if the
      language serves. */
  lemma ServesEveryRequest(kb: Keyboard, id: nat, group: nat, desired: Mask, lang: string)
    requires kb.Ready() && Serves(kb, lang)
    requires id in {SET_MODIFIERS, CLEAR_MODIFIERS} ==> group < kb.numGroups
    ensures Served(kb, id, group, desired, lang)
  {
    if id in kb.keyIDMap {
      var table := kb.keyIDMap[id];
      var list := CharacterKeys(kb, table, LanguageGroup(kb, group, lang), desired, 0);
      if list.Some? {
        GroupsExistExactly(kb, list.value, group, lang);
      }
      var key := CommandKey(kb, table, group, desired, 0);
      if key.Some? {
        assert kb.EntryReady([key.value]) && [key.value][0] == key.value;
        GroupsExistExactly(kb, [key.value], group, lang);
      }
    }
  }

  /** A character key is mapped within the groups there are exactly if the language serves
      or all keys of its list are in the current group. */
  lemma CharacterServedExactly(kb: Keyboard, id: nat, group: nat, desired: Mask, lang: string)
    requires kb.Ready() && id in kb.keyIDMap
    ensures var list := CharacterKeys(kb, kb.keyIDMap[id], LanguageGroup(kb, group, lang), desired, 0);
            CharacterServed(kb, id, group, desired, lang)
            <==> (list.None? || Serves(kb, lang) || forall i | 0 <= i < |list.value| :: list.value[i].group == group)
  {
    var list := CharacterKeys(kb, kb.keyIDMap[id], LanguageGroup(kb, group, lang), desired, 0);
    if list.Some? {
      GroupsExistExactly(kb, list.value, group, lang);
    }
  }
}
