# Verified model of the input-sharing core

A Dafny model of the parts of Deskflow in which the most can go wrong without anybody
noticing: turning a key and its modifiers into keystrokes, converting between UTF-8 and
UTF-16, queueing events and timers, carrying a clipboard from one machine to another, and
keeping the client's connection and mouse in order.  Each part is modelled with the branches,
constants and error cases of the C++ code and proved against a specification that says what
it is for.  `dafny verify dfyconfig.toml` checks everything.

## Parts

- **Keyboard** (`KeyMasks`, `KeyData`, `KeySpec`, `KeyGroups`, `KeyWiring`, `KeySteps`,
  `KeyNeutrality`, `KeyNeeds`, `KeyReplay`, `KeyReplayCalls`, `KeyLayers`, `KeyMap`,
  `KeyChoice`, `KeySearch`, `KeyStrikes`, `KeyFlips`, `KeyLimits`).  `KeyMap.dfy` has the
  mapping methods with their loops; `KeySpec.dfy` the functions they compute; the other
  files what is true of those functions.  A *wiring* says which modifier each modifier button is for and whether it
  locks.  Two questions are answered exactly.  When does mapping an ordinary key leave every
  modifier as it was?  When state and held keys agree on each modifier that is flipped on
  the way (`KeyNeutrality.MapKeyNeutralExactly`), which `KeyNeeds.MapKeyNeutralWhen` turns
  into a condition on the state before the call.  When does playing the keystrokes keep a
  physical keyboard in step with what the program believes?  When no flip is stale
  (`KeyReplayCalls.MapKeyInStepExactly`), which `KeyLayers` derives from what the modifier
  keys are sensitive to.  `KeyLimits` enters keyboards with addKeyEntry and finish on which
  the code fails; `KeyChoice.InitialisedIsWired` derives the wiring from the keys a platform
  enters; `KeyGroups` says when the groups that are passed on exist.
  `KeySearch` says which key a request finds, `KeyStrikes` that it is struck, in which group
  and under which modifiers, and `KeyFlips` what a modifier key needs before it is struck.
- **Names of keys** (`KeyNames`, `KeyNamesRoundTrip`, `KeyNamesLenient`, `KeyNameTable`) and
  **destinations of keys** (`Destinations`): when a text is read back as what was written, and what else is accepted.
- **Unicode** (`Utf8`, `Utf8Language`, `Utf8Malformed`, `Utf16`, `Utf16RoundTrip`,
  `Utf16Malformed`): the accepted language in the style of section 2 of RFC 2279, conversion
  to and from the encoding of sections 2.1 and 2.2 of RFC 2781, and what becomes of text
  that is malformed.
- **Events and timers** (`PriorityQueue`, `TimerArithmetic`, `Timers`, `TimerRuns`, `EventSpec`, `EventIds`,
  `EventRuns`, `EventQueue`): a table of events with recycled ids is a first-in-first-out
  queue, and a heap of timers counted down in place is a set of deadlines.
- **Clipboard** (`Bytes`, `ClipboardMarshal`, `ClipboardEntries`, `Clipboard`, `ClipboardLimits`,
  `ClipboardAssembly`, `ClipboardRuns`, `ClipboardSender`, `ClipboardTransfer`): marshalling,
  pacing, framing, assembling and unmarshalling, and the way from one end to the other.
- **Client** (`ClientSession`, `Client`, `ClientRuns`, `ClientTurns`, `ClientNotices`,
  `MouseMotion`, `MouseProxy`, `MouseCompression`): the connection as a machine of five phases
  which the handler table of the event queue implements, what each turn and step does to the
  alarm, the phase and the notices, and compressed mouse motion: that it does not show, and
  what it saves.

A mask of modifiers is the set of its one bits, with lemmas for the places where the code
treats it as a number.  Times are real numbers.  Streams, proxies and timers are identified
by numbers that are never used twice.

## Where the code does something else than it says

- `EventQueue::loop` sets the ready flag before it drains what was added earlier
  (`EventQueue.cpp:48-62`), so an event added during the drain overtakes older ones.
  `EventRuns.DeliveredInOrder` says exactly when the order is kept.
- `EventQueue::hasTimerExpired` reads the clock once for the elapsed time and once more to
  reset the stopwatch, so every check moves all deadlines by the time between the two;
  `TimerRuns.DeadlineKept` accounts for it.  Timers are late by that much, never early.
- `keysForModifierState` goes by the modifiers that had to change when its loop began, also
  after a recursive call has changed some of them, and then presses a held key again
  (`KeyLimits.StaleFlipPressesTwice`).  `KeyReplayCalls.MatchInSync` says exactly when.
- `KeyState::updateKeyState` polls the whole modifier mask but enters only the keys of the
  active group as held (`KeyState.cpp:764-779`).  A modifier that is on without a held key is
  switched off and not put back (`KeyLimits.UnheldModifierIsLost`).
- `KeyState` takes one name for each layout (`KeyState.cpp:651`), however many groups the
  keys have, and `getLanguageGroupID` may give a group that is not there; `keyForModifier`
  asserts that it is and reads past the end of the modifier keys otherwise
  (`KeyLimits.LanguageWithoutGroup`, `KeyGroups.LanguageGroupsExist`).
- `UTF16ToUTF8` accepts the word FFFF, as in the bytes FF FF, and FFFE where it is no mark,
  and writes UTF-8 that `isUTF8` refuses (`Utf16RoundTrip.FromUtf16Accepted`).
- `UTF8ToUTF16` replaces invalid values without reporting an error; only those too wide for
  UTF-16 are reported (`Utf16.UTF8ToUTF16`).
- A UTF-8 character cut short near the end of a text takes everything behind it with it, also
  well-formed characters (`Utf8Malformed.TextAfterCut`), and a leading UTF-16 surrogate the
  word behind it, whatever that is (`Utf16Malformed.WordsAreRead`).
- The key AltGr and the modifier AltGr have the same name, so the text of the key is read as
  the modifier (`KeyNameTable.ProgramRoundTrip`).
- The event of a one-shot timer is to have a count of 1 (`IEventQueue.h:103-104`), but a check
  that comes late enough counts more; `Timers.CountsOne` says when.
- The pacer's documentation gives each turn up to four chunks; its counter is never reset,
  so after the first turn each turn sends one (`ClipboardSender.SendClipboard`).
- `parseModifiers` takes a closing parenthesis for a separator, so a table without a name
  for that key could not read it back (`KeyNamesRoundTrip.FormatRoundTrip`); the program's
  own table names it (`KeyNameTable.ProgramRoundTrip`).
- A relative mouse motion put off is added to an absolute position that arrives later, and
  a relative motion forwarded while an absolute one waits is lost (`MouseMotion.SlipShows`).
- `IClipboard::copy` of a clipboard to itself empties it (`Clipboards.Copy`).

## Model

| member | source | states |
|---|---|---|
| `KeyMasks.WordsInjective` | src/lib/deskflow/KeyTypes.h:42-64 | A 32-bit mask is determined by the set of its one bits, so masks may be kept as sets. |
| `KeyMasks.WordOrder` | src/lib/deskflow/KeyMap.cpp:867-872 | Comparing two masks as numbers is comparing their highest differing bit. |
| `KeyMasks.SingleBitWord` | src/lib/deskflow/KeyMap.cpp:807-833 | The word `1 << n` is the set holding just position n. |
| `KeyMasks.WordAbove` | src/lib/deskflow/KeyMap.cpp:867-872 | A word is above `1 << b` as a number, beyond that bit itself, exactly when it has a bit above b. |
| `KeyMasks.NumModifiers` | src/lib/deskflow/KeyMap.cpp:1004-1013 | The shifting loop counts the one bits of the word. |
| `KeyMaps.KeyMap.AddKeyEntry` | src/lib/deskflow/KeyMap.cpp:52-94 | The item is stored at the end of its group unless it is there already, with its required modifiers cut to the sensitive ones; no other list changes; a key without id is ignored; a finished map stays ready if the group is one it has. |
| `KeyMaps.KeyMap.FindNumGroups` | src/lib/deskflow/KeyMap.cpp:427-436 | The largest number of groups of any key. |
| `KeyMaps.KeyMap.Finish` | src/lib/deskflow/KeyMap.cpp:199-210 | Every key gets the same number of groups, the modifier keys are listed, and a map built by addKeyEntry is ready for mapping, whatever the layouts. |
| `KeyMaps.KeyMap.SetModifierKeys` | src/lib/deskflow/KeyMap.cpp:438-471 | Each group and modifier lists exactly the single-key items that generate it, in the order of the ids. |
| `KeyMaps.CellsGenerate` | src/lib/deskflow/KeyMap.cpp:438-471 | Each key listed under a modifier generates it, is in the key table, and each such item of the table is listed. |
| `KeyMaps.EnteredIsReady` | src/lib/deskflow/KeyMap.cpp:52-94 | What mapping relies on (non-empty lists, groups in range) follows from how keys are entered, for any list of layouts. |
| `KeyMaps.KeyMap.FindBestKey` | src/lib/deskflow/KeyMap.cpp:640-669 | The two loops compute the specified choice. |
| `KeyChoice.ExactIffNoChange` | src/lib/deskflow/KeyMap.cpp:642-650 | An item passes the exact test exactly when it needs no modifier changed. |
| `KeyChoice.BestKeyIsFirstFewest` | src/lib/deskflow/KeyMap.cpp:640-669 | The two passes together find the first entry that needs the fewest modifier changes, and none exactly when all need 32 or more. |
| `KeyChoice.InitModifierKey` | src/lib/deskflow/KeyMap.cpp:372-425 | Which modifier each id generates, and that it locks exactly for caps, num and scroll lock; every other id generates nothing. |
| `KeyChoice.FinishedIsWired` | src/lib/deskflow/KeyMap.cpp:438-471 | If the entered keys fit the wiring, the finished table does, and each of its keys generates just the modifier it is listed under, also after later entries. |
| `KeyChoice.InitialisedKeysFit` | src/lib/deskflow/KeyMap.cpp:372-425 | Items initialised by initModifierKey fit some wiring if and only if items on one button generate the same and no two buttons lock the same modifier. |
| `KeyChoice.InitialisedIsWired` | src/lib/deskflow/KeyMap.cpp:52-210 | A keyboard whose items are all initialised and compatible is ready and wired after finish: the hypotheses of the mapping theorems. |
| `KeyMaps.LaterEntryIsReady` | src/lib/deskflow/KeyState.cpp:741-743 | Entries added after finish, as for keypad, alias and combination keys, keep a map ready and its listed modifier keys in the table. |
| `KeyMaps.KeyMap.KeyForModifier` | src/lib/deskflow/KeyMap.cpp:671-688 | The first key of the group for the modifier that is on another button. |
| `KeySteps.KeyForModifierIs` | src/lib/deskflow/KeyMap.cpp:671-688 | That key generates the modifier and is not on the given button. |
| `KeyFlips.FirstOtherIsFirst` | src/lib/deskflow/KeyMap.cpp:671-688 | It is the first in the list on another button; there is none exactly when all are on that button. |
| `KeyMaps.KeyMap.GetLanguageGroupID` | src/lib/deskflow/KeyMap.cpp:301-313 | The group of the language if it is known, else the current one. |
| `KeyMaps.KeyMap.GetKeyItemList` | src/lib/deskflow/KeyMap.cpp:555-572 | The best list of the first group, from the current one on, that has any. |
| `KeySearch.CharacterKeysAre` | src/lib/deskflow/KeyMap.cpp:555-572 | Looking from the current group on, cyclically, the first group with an entry that needs fewer than 32 modifier changes is taken, and in it the first entry that needs the fewest; none exactly when there is no such group. |
| `KeyMaps.KeyMap.AddKeystrokes` | src/lib/deskflow/KeyMap.cpp:905-1002 | The call appends the specified keystrokes and updates held keys and modifier state for each of press, release, repeat, click, modify and unmodify. |
| `KeyStrikes.KeyIsStruck` | src/lib/deskflow/KeyMap.cpp:905-961 | A key goes down, a dead key comes up again, and autorepeat is what the platform has, each stroke with the client data of the key and marked as a repeat only if it is one. |
| `KeyStrikes.LockIsStruck` | src/lib/deskflow/KeyMap.cpp:964-983 | A lock is switched by a press and a release, a half-duplex one by one of them. |
| `KeyMaps.KeyMap.KeysForModifierState` | src/lib/deskflow/KeyMap.cpp:807-903 | The recursive loops, which terminate on every keyboard, compute the specified state, keystrokes and success. |
| `KeyMaps.KeyMap.KeysForKeyItem` | src/lib/deskflow/KeyMap.cpp:690-764 | Switching group, matching modifiers and pressing the key, as specified. |
| `KeyStrikes.KeyItemStruck` | src/lib/deskflow/KeyMap.cpp:690-764 | The key is struck last, after a switch of group only if it is in another; on a keyboard whose modifier keys are not sensitive to others, under the modifiers it requires and otherwise those that are wanted. |
| `KeyMaps.KeyMap.KeysToRestoreModifiers` | src/lib/deskflow/KeyMap.cpp:766-805 | The two loops release what is not wanted and press what is missing, as specified. |
| `KeyStrikes.RestoreLiftsThenPresses` | src/lib/deskflow/KeyMap.cpp:766-805 | First what is held and was not comes up, then what was held and is not goes down; the key's own button is left alone. |
| `KeyMaps.KeyMap.MapCharacterKey` | src/lib/deskflow/KeyMap.cpp:574-624 | The whole call, working copies and commit included, as specified. |
| `KeySearch.MapCharacterKeyPresses` | src/lib/deskflow/KeyMap.cpp:574-601 | The key a character request returns is the last of the list so found, beginning with the group of the language, if known; if none is found nothing changes. |
| `KeyStrikes.CharacterKeyStrikes` | src/lib/deskflow/KeyMap.cpp:574-624 | If the request succeeds, every key of that list is struck, in order, each in the right group and with its own client data; all other strokes are of modifier keys or of keys that were held. |
| `KeyMaps.KeyMap.MapCommandKey` | src/lib/deskflow/KeyMap.cpp:473-553 | The whole call, with caps lock kept out of the wanted state, as specified. |
| `KeySearch.CommandKeyIs` | src/lib/deskflow/KeyMap.cpp:486-522 | The first entry of one item, from the current group on, that requires nothing unwanted but shift, and requires shift if it is wanted and matters; none exactly when there is none. |
| `KeySearch.MapCommandKeyPresses` | src/lib/deskflow/KeyMap.cpp:473-522 | That is the key a command returns; if there is none nothing changes. |
| `KeyStrikes.CommandKeyStrikes` | src/lib/deskflow/KeyMap.cpp:473-553 | It is struck, in the right group and with its own client data, and beside it only modifier keys and keys that were held. |
| `KeyStrikes.CommandStruckUnder` | src/lib/deskflow/KeyMap.cpp:524-553 | On a keyboard whose modifier keys are not sensitive to others it is struck with just the wanted modifiers on, but AltGr and the locks as they were. |
| `KeyMaps.KeyMap.MapKey` | src/lib/deskflow/KeyMap.cpp:227-294 | The dispatch between group switches, modifiers, command keys and characters. |
| `KeySearch.MapKeyTakes` | src/lib/deskflow/KeyMap.cpp:227-294 | A request with control, alt, AltGr, meta or super takes the search for commands, unless it is for a modifier key; all others take that for characters. |
| `KeyStrikes.ModifiersAreSet` | src/lib/deskflow/KeyMap.cpp:265-281 | Setting or clearing modifiers changes just those, and fails exactly when one that has to change has no key. |
| `KeySteps.MatchDone` | src/lib/deskflow/KeyMap.cpp:835-903 | However deep the recursion, the state afterwards is that after a list of presses and releases of keys, one for each flip, in order. |
| `KeySteps.ActsKeepAbove` | src/lib/deskflow/KeyMap.cpp:835-903 | Such flips leave every modifier above their bound alone. |
| `KeySteps.HighestFlipMatches` | src/lib/deskflow/KeyMap.cpp:807-903 | No modifier above the highest one that had to flip changes, and on success that one has the required value. |
| `KeySteps.FlatMatchExact` | src/lib/deskflow/KeyMap.cpp:807-903 | If no modifier key is sensitive to another modifier: it fails exactly when some needed modifier has no key on another button, and on success every sensitive, required bit is as required and every other bit unchanged. |
| `KeyFlips.MatchPrepares` | src/lib/deskflow/KeyMap.cpp:857-900 | On any keyboard a modifier key is struck only while the other modifiers it is sensitive to are as it requires. |
| `KeyFlips.MatchFails` | src/lib/deskflow/KeyMap.cpp:835-903 | Matching fails only if some modifier that had to be flipped, or one its key needs first, has no key, or a key that reaches above itself or is not matched by the state that is left. |
| `KeyFlips.ReleasesAtOnce` | src/lib/deskflow/KeyMap.cpp:865-900 | A modifier to be released gets no preparation: it is released at once if its key is matched, or nothing at all is done. |
| `KeyWiring.AddKeystrokesAgrees` | src/lib/deskflow/KeyMap.cpp:905-1002 | Every call keeps it true that a modifier is on exactly when a held key generates it. |
| `KeyWiring.AddKeystrokesBit` | src/lib/deskflow/KeyMap.cpp:905-1002 | For each modifier by itself, and from any state: what a call does to the bit and to the keys that hold it. |
| `KeyWiring.AddKeystrokesCounts` | src/lib/deskflow/KeyMap.cpp:905-1002 | How often each button is held after a call, from how often it was held before. |
| `KeyNeutrality.ItemsAgree` | src/lib/deskflow/KeyMap.cpp:603-610 | Pressing the items of a list keeps modifier state and held keys in agreement. |
| `KeyNeutrality.RestoreCounts` | src/lib/deskflow/KeyMap.cpp:766-805 | After restoring, a button other than the key's own is held exactly when it was wanted. |
| `KeyNeutrality.MapItemsEffect` | src/lib/deskflow/KeyMap.cpp:574-624 | A mapped key leaves every other button as it was; its own is held, or toggled if it locks. |
| `KeyNeutrality.NeutralExactly` | src/lib/deskflow/KeyMap.cpp:574-624 | On any wired keyboard, mapping an ordinary key leaves modifier state and held modifier keys as they were if and only if, for each modifier it flips on the way, the state before agreed with the held keys. |
| `KeyNeutrality.CharacterKeyExactly` | src/lib/deskflow/KeyMap.cpp:574-624 | The same for a whole character-key call, over every wired keyboard, group, mask and language. |
| `KeyNeutrality.CommandKeyExactly` | src/lib/deskflow/KeyMap.cpp:473-553 | The same for a whole command-key call. |
| `KeyNeutrality.MapKeyNeutralExactly` | src/lib/deskflow/KeyMap.cpp:227-294 | The same for mapKey: it loses or gains a modifier if and only if it flips one whose state disagreed with the held keys. |
| `KeyNeutrality.MapKeyNeutral` | src/lib/deskflow/KeyMap.cpp:227-294 | mapKey of an ordinary key is modifier-neutral when modifier state and held keys agree, whether or not it succeeds. |
| `KeyNeutrality.FailedMappingChangesNothing` | src/lib/deskflow/KeyMap.cpp:473-624 | A character or command key that cannot be mapped changes no modifier and leaves an empty keystroke list empty. |
| `KeyNeutrality.MapModifierKeyEffect` | src/lib/deskflow/KeyMap.cpp:227-294 | mapKey of a modifier key holds or toggles its own button and no other. |
| `KeyNeeds.FlatMatchTouches` | src/lib/deskflow/KeyMap.cpp:807-903 | On a keyboard whose modifier keys are not sensitive to other modifiers, a match that succeeds flips exactly the sensitive modifiers that differ from the required ones and are not excused. |
| `KeyNeeds.MapKeyNeutralWhen` | src/lib/deskflow/KeyMap.cpp:227-294 | On such a keyboard the modifiers that decide about neutrality are known before the call: those below bit 32 in which the state differs from the key where the key is sensitive, or from the request elsewhere. |
| `KeyReplay.StrokesPlayed` | src/lib/deskflow/KeyMap.cpp:905-1002 | What the keystrokes of one call do to the buttons and locks of a physical keyboard. |
| `KeyReplay.AddKeystrokesInSync` | src/lib/deskflow/KeyMap.cpp:905-1002 | A call keeps a physical keyboard, on which the keystrokes are played, in step with the held keys and the modifier state if and only if the call is allowed: no modifier key that is held is pressed again, one that is repeated is held, a lock that is to be released is on, and no lock is clicked or repeated. |
| `KeyReplayCalls.MatchInSync` | src/lib/deskflow/KeyMap.cpp:807-903 | Matching a modifier state stays in step at every keystroke if and only if no flip is stale, that is, none asks for a modifier that has the wanted value by then; and without stale flips the keyboard ends in step. |
| `KeyReplayCalls.ItemsInSync` | src/lib/deskflow/KeyMap.cpp:603-610 | The same for pressing a list of keys, groups and required modifiers included. |
| `KeyReplayCalls.RestoreInSync` | src/lib/deskflow/KeyMap.cpp:766-805 | Restoring the modifiers keeps the keyboard in step. |
| `KeyReplayCalls.MapItemsInSync` | src/lib/deskflow/KeyMap.cpp:574-624 | Pressing a list of keys without stale flips and restoring keeps the keyboard in step. |
| `KeyReplayCalls.MapKeyReplays` | src/lib/deskflow/KeyMap.cpp:227-294 | Playing what mapKey emitted takes a keyboard in the state before the call to the state after it, for every key, request and autorepeat without stale flips, on any wiring; a failed call needs no hypothesis. |
| `KeyReplayCalls.MapKeyInStepExactly` | src/lib/deskflow/KeyMap.cpp:227-294 | The keyboard is in step after every keystroke of a mapKey call if and only if no flip is stale. |
| `KeyReplayCalls.CharacterKeyReplays` | src/lib/deskflow/KeyMap.cpp:574-624 | The same for a character key. |
| `KeyReplayCalls.CommandKeyReplays` | src/lib/deskflow/KeyMap.cpp:473-553 | The same for a command key. |
| `KeyLayers.UnrelatedInSync` | src/lib/deskflow/KeyMap.cpp:807-903 | A match stays in step if no key used for a flip is sensitive, itself or through the keys its sensitivities need, to another modifier that must flip, nor is any among the modifiers that one key is sensitive to. |
| `KeyLayers.FlatKeyReplays` | src/lib/deskflow/KeyMap.cpp:227-294 | On a keyboard whose modifier keys are not sensitive to other modifiers every mapKey call replays, if the key it presses generates nothing, or is pressed anew and is a lock or not held. |
| `KeyGroups.LanguageGroupsExist` | src/lib/deskflow/KeyMap.cpp:301-313 | The group of a language exists for every current group if and only if the language is unknown or its index is below the number of groups. |
| `KeyGroups.GroupsExistExactly` | src/lib/deskflow/KeyMap.cpp:690-764 | The groups passed on for a list of keys all exist if and only if the language serves or every key is in the current group. |
| `KeyGroups.ServesEveryRequest` | src/lib/deskflow/KeyMap.cpp:227-294 | With a language that serves, no request makes mapKey ask for a group there is not. |
| `KeyGroups.CharacterServedExactly` | src/lib/deskflow/KeyMap.cpp:574-624 | Exactly which character requests do. |
| `KeyLimits.UnheldModifierIsLost` | src/lib/deskflow/KeyState.cpp:746-779 | Neutrality fails on a keyboard entered with addKeyEntry and finish: shift polled as on but not held is switched off by mapKey and not put back. |
| `KeyLimits.StaleFlipPressesTwice` | src/lib/deskflow/KeyMap.cpp:851-903 | Replay fails on such a keyboard: setting shift and control, when control is sensitive to shift, presses shift twice, and no physical keyboard is in the state that mapKey leaves. |
| `KeyLimits.LanguageWithoutGroup` | src/lib/deskflow/KeyMap.cpp:671-688 | A language with an index beyond the groups makes mapKey pass on a group that is not there, past the end of the modifier keys. |
| `KeyNames.InitKeyNameMaps` | src/lib/deskflow/KeyMap.cpp:1201-1220 | The maps built from a list of names. |
| `KeyNames.FormatKey` | src/lib/deskflow/KeyMap.cpp:1078-1106 | The loop writes the specified text. |
| `KeyNames.ParseModifiers` | src/lib/deskflow/KeyMap.cpp:1140-1199 | The loop reads the specified modifiers and leaves the specified text, error cases included. |
| `KeyNames.ParseKey` | src/lib/deskflow/KeyMap.cpp:1108-1138 | The key read from a text, names, characters and escapes, error cases included. |
| `KeyNames.BuiltConsistent` | src/lib/deskflow/KeyMap.cpp:1201-1220 | Maps built from names distinct but for case lead from each key to its name and back. |
| `KeyNamesRoundTrip.ModifiersWellNamed` | src/lib/deskflow/KeyTypes.cpp:186-194 | The six modifier names differ by more than case and hold no separator. |
| `KeyNamesRoundTrip.ReadModifiers` | src/lib/deskflow/KeyMap.cpp:1140-1199 | The formatted modifiers in front of a text are read back one by one. |
| `KeyNamesRoundTrip.ReadKey` | src/lib/deskflow/KeyMap.cpp:1108-1138 | The text of a key is read as that key, unless it has no name and more than 16 bits. |
| `KeyNamesRoundTrip.FormatRoundTrip` | src/lib/deskflow/KeyMap.cpp:1078-1199 | Format, parseModifiers and parseKey give back key and mask if and only if every modifier has a name and the key is none, or has a name that is no modifier's, or has no name and is a 16-bit value other than a closing parenthesis. |
| `KeyNamesRoundTrip.TablesFrom` | src/lib/deskflow/KeyMap.cpp:1201-1220 | Tables built from well-formed lists meet what the round trip asks. |
| `KeyNamesLenient.FoldExactly` | src/lib/base/String.h:48-62 | Names are compared without regard to the case of the letters A to Z and of nothing else. |
| `KeyNamesLenient.ModifierIs` | src/lib/deskflow/KeyMap.cpp:1150-1195 | A modifier in any case, and what follows it: refused if it comes twice or anything but a plus follows. |
| `KeyNamesLenient.LenientTextIsRead` | src/lib/deskflow/KeyMap.cpp:1140-1199 | Modifiers in any order and case, with blanks anywhere, before the text of a key: the mask is theirs, and the key's text is left without blanks. |
| `KeyNamesLenient.LenientModifiersAreRead` | src/lib/deskflow/KeyMap.cpp:1140-1199 | The same for modifiers alone. |
| `KeyNamesLenient.KeyNameIsRead` | src/lib/deskflow/KeyMap.cpp:1108-1117 | A key is read from its name in any case. |
| `KeyNamesLenient.EscapeIsRead` | src/lib/deskflow/KeyMap.cpp:1125-1131 | An escape is read with hexadecimal digits in either case. |
| `KeyNamesLenient.FormattedIsJoined` | src/lib/deskflow/KeyMap.cpp:1078-1106 | What is written is the names of the modifiers, lowest bit first, and the key, joined by plus signs. |
| `KeyNameTable.KeysListed` | src/lib/deskflow/KeyTypes.cpp:10-184 | The 172 key names of the program differ by more than case and hold no separator. |
| `KeyNameTable.ProgramRoundTrip` | src/lib/deskflow/KeyTypes.cpp:10-194 | With the program's own tables a key and a mask are read back if and only if the mask is of the six named modifiers and the key has at most 16 bits and is not AltGr, whose name is read as the modifier. |
| `Destinations.Join` | src/lib/deskflow/IKeyState.cpp:93-112 | The loop builds the joined string of the names, or "*" if that is among them. |
| `Destinations.Split` | src/lib/deskflow/IKeyState.cpp:114-131 | The pointer walk collects the names between the colons. |
| `Destinations.Contains` | src/lib/deskflow/IKeyState.cpp:66-83 | True exactly if the string starts with an asterisk or has the name between colons somewhere. |
| `Destinations.SplitUndoesJoin` | src/lib/deskflow/IKeyState.cpp:93-131 | Splitting a joined set gives the set back, or just "*" if it was in it. |
| `Destinations.SearchFindsDestinations` | src/lib/deskflow/IKeyState.cpp:66-112 | Searching a joined set for a name succeeds exactly if the name or "*" is in it. |
| `Utf8.ToUTF8` | src/lib/base/Unicode.cpp:398-445 | The bytes appended for a value, in one to six bytes, or the replacement character with the error flag. |
| `Utf8.FromUTF8` | src/lib/base/Unicode.cpp:244-396 | The value decoded and the bytes consumed, at least one and at most those there are, for every input. |
| `Utf8Malformed.StrayIsOne` | src/lib/base/Unicode.cpp:253-282 | A byte that begins no character is one invalid character. |
| `Utf8Malformed.ShortIsAll` | src/lib/base/Unicode.cpp:284-289 | If fewer bytes are left than the first announces, all are one invalid character. |
| `Utf8Malformed.EndsBeforeNext` | src/lib/base/Unicode.cpp:327-380 | Otherwise a character ends with the announced bytes or before the first that does not continue it, and then it is invalid. |
| `Utf8Malformed.ValidExactly` | src/lib/base/Unicode.cpp:244-396 | A character is read as valid exactly when the bytes start with the encoding of a valid value. |
| `Utf8Malformed.TextIsRead` | src/lib/base/Unicode.cpp:244-396 | In text with malformed characters each is one invalid value, and all between them is read as it is. |
| `Utf8Malformed.TextAfterCut` | src/lib/base/Unicode.cpp:284-289 | Well-formed text behind a character that is cut short is read exactly when it is as long as what is missing, and swallowed otherwise. |
| `Utf8.IsUTF8` | src/lib/base/Unicode.cpp:55-65 | True exactly if no decoding step fails. |
| `Utf8Language.DecodeEncoding` | src/lib/base/Unicode.cpp:244-445 | Decoding the encoding of any valid value in front of any bytes gives that value and consumes exactly the encoding. |
| `Utf8Language.EncodingDecode` | src/lib/base/Unicode.cpp:244-445 | Whatever decodes to a valid value was that value's encoding. |
| `Utf8Language.DecodeEncodeAll` | src/lib/base/Unicode.cpp:244-445 | Decoding the concatenated encodings of values gives the values back. |
| `Utf8Language.EncodeDecodeAll` | src/lib/base/Unicode.cpp:244-445 | Re-encoding what an accepted string decodes to gives the string back. |
| `Utf8Language.AcceptedLanguage` | src/lib/base/Unicode.cpp:55-65 | isUTF8 accepts exactly the concatenations of encodings of values below 0x80000000 that are neither surrogates nor U+FFFE or U+FFFF. |
| `Utf8Language.NoMoreCharactersThanBytes` | src/lib/base/Unicode.cpp:94-127 | A string never decodes to more values than it has bytes. |
| `Utf16.UTF8ToUTF16` | src/lib/base/Unicode.cpp:94-127 | The loop writes, little-endian, the specified units of the decoded values, with the replacement character for what is invalid or too wide, and reports an error exactly if a value is too wide. |
| `Utf16Malformed.ValuesAreWritten` | src/lib/base/Unicode.cpp:94-127 | Values are written as such words, and what cannot be carried as U+FFFD. |
| `Utf16.ReadUtf16` | src/lib/base/Unicode.cpp:213-242 | The values read from the words, pairs joined and everything else replaced, and whether every word was well-formed. |
| `Utf16Malformed.WordsAreRead` | src/lib/base/Unicode.cpp:213-242 | Pairs and other values are read as they are; a word without its partner is one replacement character, a leading one together with the word after it; an error is reported exactly if there is such a word. |
| `Utf16Malformed.PiecesOf` | src/lib/base/Unicode.cpp:213-242 | Every sequence of words consists of such pieces. |
| `Utf16.TakeMark` | src/lib/base/Unicode.cpp:191-209 | The byte-order mark decides whether words are swapped and is skipped. |
| `Utf16Malformed.MarkedAreRead` | src/lib/base/Unicode.cpp:191-209 | Words behind a mark are read in either byte order. |
| `Utf16Malformed.UnmarkedAreRead` | src/lib/base/Unicode.cpp:191-209 | Words without one are read with the least significant byte first. |
| `Utf16.UTF16ToUTF8` | src/lib/base/Unicode.cpp:139-147 | The whole conversion from bytes, mark and byte order included. |
| `Utf16RoundTrip.ThroughUtf16Is` | src/lib/base/Unicode.cpp:94-242 | What converting to UTF-16 and back does to every byte string. |
| `Utf16RoundTrip.ThroughUtf16Preserves` | src/lib/base/Unicode.cpp:94-242 | An accepted string comes back unchanged if and only if all its values are below 0x110000 and it does not start with U+FEFF. |
| `Utf16RoundTrip.ThroughUtf16Accepted` | src/lib/base/Unicode.cpp:94-242 | For arbitrary bytes the result is accepted UTF-8. |
| `Utf16RoundTrip.ThroughUtf16Idempotent` | src/lib/base/Unicode.cpp:94-242 | Doing it twice is doing it once, if and only if the first result does not start with U+FEFF. |
| `Utf16RoundTrip.OutputFitsReserve` | src/lib/base/Unicode.cpp:94-101 | UTF8ToUTF16 never writes more than the 2n bytes it reserves. |
| `Utf16RoundTrip.FromUtf16Accepted` | src/lib/base/Unicode.cpp:139-147 | What UTF16ToUTF8 makes of arbitrary bytes is accepted UTF-8 if and only if no value read is U+FFFE or U+FFFF. |
| `Utf16RoundTrip.ThroughUtf8Preserves` | src/lib/base/Unicode.cpp:94-242 | When the opposite trip, from UTF-16 to UTF-8 and back, preserves a string of words. |
| `PriorityQueues.FrontIsLeast` | src/lib/base/PriorityQueue.h:107-111 | The front of a heap is least. |
| `PriorityQueues.PriorityQueue.Push` | src/lib/base/PriorityQueue.h:46-50 | Adds the element and keeps the heap. |
| `PriorityQueues.PriorityQueue.Pop` | src/lib/base/PriorityQueue.h:53-57 | Removes the least element and keeps the heap. |
| `PriorityQueues.PriorityQueue.Erase` | src/lib/base/PriorityQueue.h:60-64 | Removes the given element and keeps the heap. |
| `PriorityQueues.PriorityQueue.Top` | src/lib/base/PriorityQueue.h:107-111 | An element, and no other is less. |
| `PriorityQueues.PriorityQueue.SubtractAll` | src/lib/base/EventQueue.cpp:360-363 | Counting every timer down by the same time, in place, keeps the heap. |
| `TimerArithmetic.LateBy` | src/lib/base/EventQueue.cpp:464-471 | The quotient in fillEvent is the number of periods that have begun by now, at least one. |
| `Timers.FillEvent` | src/lib/base/EventQueue.cpp:464-471 | The count of a fired timer is the number of its periods begun. |
| `Timers.CountsOne` | src/lib/base/EventQueue.cpp:464-471 | The count is 1 exactly until the next period of the timer begins, for one-shot timers too. |
| `Timers.Rearranged` | src/lib/base/PriorityQueue.h:46-64 | Rearranging the heap changes no deadline. |
| `Timers.TimerQueue.NewTimer` | src/lib/base/EventQueue.cpp:219-251 | The new timer is due its duration from now; no other deadline changes. |
| `Timers.TimerQueue.DeleteTimer` | src/lib/base/EventQueue.cpp:253-266 | The timer goes; no other deadline changes. |
| `Timers.TimerQueue.HasTimerExpired` | src/lib/base/EventQueue.cpp:347-385 | A check fires a timer with the earliest deadline if that has come, re-arms it unless it is one-shot, and otherwise only moves all deadlines by the time between its two clock readings. |
| `TimerRuns.DeadlineKept` | src/lib/base/EventQueue.cpp:219-266 | In every run, a timer created or re-armed keeps the deadline it was given, later only by what the checks since lost between their clock readings, until it fires again or is deleted. |
| `TimerRuns.FiresOnTime` | src/lib/base/EventQueue.cpp:347-385 | The n-th firing of a timer is never before its creation time plus n durations, whatever happens to the others, and comes with a count of at least one. |
| `TimerRuns.OverdueFires` | src/lib/base/EventQueue.cpp:347-385 | A check after a timer's deadline, in any of its periods, fires a timer. |
| `TimerRuns.FiringIs` | src/lib/base/EventQueue.cpp:370-385 | A timer fires when the period started last is over, with its own target and the number of its periods begun. |
| `TimerRuns.EarliestFirst` | src/lib/base/EventQueue.cpp:364-372 | Of two timers the one whose period ends first fires first. |
| `TimerRuns.OneShotFiresOnce` | src/lib/base/EventQueue.cpp:377-382 | A one-shot timer that has fired is gone. |
| `EventIds.ChosenIsFresh` | src/lib/base/EventQueue.cpp:311-327 | The id chosen for an event is not in use, and the table size is a new id when none is free. |
| `EventIds.AddToBufferIs` | src/lib/base/EventQueue.cpp:204-217 | Storing an event appends it to the queue of events and keeps ids consistent. |
| `EventIds.RemoveIs` | src/lib/base/EventQueue.cpp:329-345 | Removing the taken id yields the first event of the queue and keeps ids consistent. |
| `EventQueues.SimpleEventQueueBuffer.AddEvent` | src/lib/base/SimpleEventQueueBuffer.cpp:57-66 | The id is put behind the others. |
| `EventQueues.SimpleEventQueueBuffer.GetEvent` | src/lib/base/SimpleEventQueueBuffer.cpp:45-55 | The oldest id is taken, and none if there is none. |
| `EventQueues.SimpleEventQueueBuffer.IsEmpty` | src/lib/base/SimpleEventQueueBuffer.cpp:68-72 | The ready flag says whether there are ids. |
| `EventQueues.EventQueue.SaveEvent` | src/lib/base/EventQueue.cpp:311-327 | Stores the event under an id that is not in use. |
| `EventQueues.EventQueue.RemoveEvent` | src/lib/base/EventQueue.cpp:329-345 | Takes the event of an id out and frees the id; an unknown id changes nothing. |
| `EventQueues.EventQueue.AddEventToBuffer` | src/lib/base/EventQueue.cpp:204-217 | Table, free list and buffer change as the queue of events does. |
| `EventQueues.EventQueue.AddEvent` | src/lib/base/EventQueue.cpp:181-202 | Events of the types unknown, system and timer are dropped, immediate ones handed back, others queued or kept pending. |
| `EventQueues.EventQueue.BeginLoop` | src/lib/base/EventQueue.cpp:48-62 | Becoming ready and draining everything pending. |
| `EventQueues.EventQueue.TakeEvent` | src/lib/base/EventQueue.cpp:132-135 | The consumer's first step: an id leaves the buffer. |
| `EventQueues.EventQueue.Deliver` | src/lib/base/EventQueue.cpp:149-153 | The consumer's second step: the event of that id, which is always in the table. |
| `EventQueues.DrainAllIs` | src/lib/base/EventQueue.cpp:48-62 | The drain appends the pending events to the queue, in order. |
| `EventRuns.IdsAlwaysConsistent` | src/lib/base/EventQueue.cpp:181-345 | In every interleaving of adds, drain and the two consumer steps, live and free ids hold no number twice and are exactly the numbers from 0 up to their count. |
| `EventRuns.EachDeliveredOnce` | src/lib/base/EventQueue.cpp:132-345 | In every run the events added are those delivered and those waiting, each as often as added. |
| `EventRuns.DeliveredInOrder` | src/lib/base/EventQueue.cpp:48-217 | Delivery is in the order of the adds if, and for distinct events only if, nothing is added while pending events are being drained. |
| `EventRuns.OvertakenDuringDrain` | src/lib/base/EventQueue.cpp:48-62 | An event added during the drain overtakes the pending ones. |
| `Bytes.ReadWrite32` | src/lib/deskflow/IClipboard.cpp:155-167 | What writeUInt32 wrote, readUInt32 reads back modulo 2^32. |
| `ClipboardMarshal.MarshalRoundTrip` | src/lib/deskflow/IClipboard.cpp:19-119 | A clipboard comes back from its marshalled form unchanged if and only if the size of each format it holds is below 2^32 and at most what is left of the buffer cut to 32 bits. |
| `ClipboardMarshal.SmallIsReadable` | src/lib/deskflow/IClipboard.cpp:54-58 | That holds of every clipboard whose marshalled form is below 4 GiB. |
| `ClipboardMarshal.ReadNext` | src/lib/deskflow/IClipboard.cpp:40-67 | One turn of the reading loop on a well-formed entry. |
| `ClipboardEntries.ReadsEntries` | src/lib/deskflow/IClipboard.cpp:40-67 | Any bytes are well-formed entries up to their announced number or the first that is cut short; of each known format the last is kept, and entries of unknown formats change nothing. |
| `ClipboardEntries.ParsedKeeps` | src/lib/deskflow/IClipboard.cpp:19-72 | The same for a whole clipboard, with its number of entries. |
| `Clipboards.WriteUInt32` | src/lib/deskflow/IClipboard.cpp:161-167 | Appends the four bytes of the value, most significant first. |
| `Clipboards.Clipboard.Empty` | src/lib/deskflow/Clipboard.cpp:24-45 | An open clipboard loses all data and is owned from the time it was opened; a closed one is left alone. |
| `Clipboards.Clipboard.Add` | src/lib/deskflow/Clipboard.cpp:47-63 | The data is kept if the clipboard is open and owned. |
| `Clipboards.Clipboard.Open` | src/lib/deskflow/Clipboard.cpp:65-77 | Opening takes the time, but not when open already. |
| `Clipboards.Clipboard.Unmarshall` | src/lib/deskflow/IClipboard.cpp:19-72 | The clipboard holds what the bytes say up to the first malformed entry, is owned and closed. |
| `Clipboards.Clipboard.UnmarshallMoved` | src/lib/deskflow/Clipboard.cpp:118-137 | The fast path leaves exactly the same data, flags, ownership and time as the general one, for every byte string. |
| `Clipboards.OneEntry` | src/lib/deskflow/Clipboard.cpp:118-137 | A single known format filling the rest of the bytes is all the general reader would find. |
| `Clipboards.Clipboard.Marshall` | src/lib/deskflow/IClipboard.cpp:74-119 | The loops write the marshalled form; the clipboard is left closed. |
| `Clipboards.Copy` | src/lib/deskflow/IClipboard.cpp:129-152 | The target gets what the source holds; a clipboard copied to itself is emptied. |
| `ClipboardLimits.Allows` | src/lib/deskflow/ClipboardLimits.h:17-37 | True exactly if there is a clipboard, each format it holds is within its own limit and its marshalled form within 16 MiB; no subtraction wraps around. |
| `ClipboardLimits.AllowedExactly` | src/lib/deskflow/ClipboardLimits.h:9-37 | In numbers: text and HTML up to 256 KiB, a bitmap up to 16 MiB, and all with their headers up to 16 MiB. |
| `ClipboardLimits.AllowedRoundTrip` | src/lib/deskflow/ClipboardLimits.h:17-37 | Every allowed clipboard comes back from its marshalled form. |
| `ClipboardAssembly.Assembly.Assemble` | src/lib/deskflow/ClipboardChunk.cpp:79-182 | One message changes assembly state and cached data in place as the transition function says, and its id and sequence number are handed on. |
| `ClipboardRuns.AlwaysSafe` | src/lib/deskflow/ClipboardChunk.cpp:79-182 | Over every sequence of messages: never more received than announced, kept data exactly as long as received and within the limit, nothing kept of a skipped transfer. |
| `ClipboardRuns.FinishedExactlyWhenComplete` | src/lib/deskflow/ClipboardChunk.cpp:79-182 | Finished is returned exactly when the last messages are a start within the limit, data adding up to the announced size, and an end; and the cache is their concatenation. |
| `ClipboardRuns.SkippedExactlyWhenOversized` | src/lib/deskflow/ClipboardChunk.cpp:79-182 | Skipped is returned exactly for the same sequence above the limit when skipping is on. |
| `ClipboardRuns.CompleteEnds` | src/lib/deskflow/ClipboardChunk.cpp:79-182 | A complete transfer ends so whatever the receiver was doing before. |
| `ClipboardRuns.StartedExactlyWhenAnnounced` | src/lib/deskflow/ClipboardChunk.cpp:103-138 | A transfer starts exactly with an announcement of a size that can be read and is not refused. |
| `ClipboardRuns.InProgressExactlyWhenOpen` | src/lib/deskflow/ClipboardChunk.cpp:139-157 | It goes on exactly with data that, with all since the announcement, is no more than was announced. |
| `ClipboardRuns.ErrorExactly` | src/lib/deskflow/ClipboardChunk.cpp:79-182 | A message is refused exactly when it is neither of these nor the end of a complete transfer, and then nothing is left of the transfer. |
| `ClipboardSender.NativeRoundTrip` | src/lib/deskflow/ClipboardChunk.cpp:43-45 | The sequence number copied into a chunk is the one copied out. |
| `ClipboardSender.ClipboardChunk.Make` | src/lib/deskflow/ClipboardChunk.cpp:37-77 | The buffer of a chunk: id, sequence number, mark, data and a final zero. |
| `ClipboardSender.ClipboardChunk.Send` | src/lib/deskflow/ClipboardChunk.cpp:184-215 | Reading the buffer back gives the message that was put in. |
| `ClipboardSender.Pacer.Next` | src/lib/deskflow/ClipboardChunkPacer.h:53-67 | Slices follow each other without gap, up to 512 KiB each, until the payload is exhausted. |
| `ClipboardSender.SliceSizes` | src/lib/deskflow/ClipboardChunkPacer.h:53-67 | Every slice has 1 byte to 512 KiB and only the last less than 512 KiB. |
| `ClipboardSender.Sender.SendNext` | src/lib/deskflow/StreamChunker.cpp:80-122 | A turn sends its budget of chunks or all the rest and the end; what was sent and what is left are together what was left before; a cancelled sender sends nothing. |
| `ClipboardSender.Sender.Start` | src/lib/deskflow/StreamChunker.cpp:64-73 | The announcement and the first turn. |
| `ClipboardSender.SendClipboard` | src/lib/deskflow/StreamChunker.cpp:124-143 | A transfer nobody cancels sends the whole transmission, and every chunk after the fourth costs a turn of its own. |
| `ClipboardTransfer.DataCovers` | src/lib/deskflow/ClipboardChunkPacer.h:53-67 | The data messages carry the whole payload, in order. |
| `ClipboardTransfer.TransmissionArrives` | src/lib/deskflow/ClipboardChunk.cpp:79-182 | From any receiver state, a transmission within the limit leaves the payload; one above it is skipped, or refused and everything after it too. |
| `ClipboardTransfer.DecimalValue` | src/lib/deskflow/StreamChunker.cpp:66-70 | The decimal announcement of a size is read as that size. |
| `ClipboardTransfer.ClipboardArrives` | src/lib/deskflow/StreamChunker.cpp:64-122 | Marshalled, sliced, framed, assembled and unmarshalled, a clipboard within the receive limit arrives with the same formats and bytes exactly when each format fits 32-bit sizes. |
| `ClipboardTransfer.AllowedClipboardArrives` | src/lib/client/ServerProxy.cpp:601-639 | A client takes over every clipboard that may be sent and is within its setting, and none above it. |
| `Clients.Client.Connect` | src/lib/client/Client.cpp:98-148 | Connecting starts, fails early or late leaving nothing behind, or is put off while suspended. |
| `Clients.Client.Disconnect` | src/lib/client/Client.cpp:150-159 | Everything is torn down and the right notice sent, from every phase. |
| `Clients.Client.RefuseConnection` | src/lib/client/Client.cpp:161-174 | Everything is torn down, with a notice if there is a message. |
| `Clients.Client.Cleanup` | src/lib/client/Client.cpp:528-572 | From every phase the client becomes idle: no handler, timer, stream or proxy of the connection is left. |
| `Clients.Client.HandshakeComplete` | src/lib/client/Client.cpp:176-184 | The client is ready and the screen, which was off, is on. |
| `Clients.Client.HandleConnected` | src/lib/client/Client.cpp:589-601 | From connecting to awaiting the hello; the timer keeps running. |
| `Clients.Client.HandleConnectTimeout` | src/lib/client/Client.cpp:615-623 | Back to idle; no proxy can exist while the timer runs. |
| `Clients.Client.HandleDisconnected` | src/lib/client/Client.cpp:625-643 | Back to idle, screen off, from every phase after connecting. |
| `Clients.Client.HandleHello` | src/lib/client/Client.cpp:703-758 | A bad hello ends the connection; a good one brings the proxy, which takes the stream's input over. |
| `Clients.Client.HandleSuspend` | src/lib/client/Client.cpp:760-769 | Suspending disconnects and remembers whether there was a proxy. |
| `Clients.Client.HandleResume` | src/lib/client/Client.cpp:771-781 | Resuming connects if that was remembered. |
| `Clients.Client.SetupScreen` | src/lib/client/Client.cpp:507-519 | The new proxy and the screen's handlers are registered; the assertion that there was no proxy holds. |
| `Clients.Client.Destroy` | src/lib/client/Client.cpp:81-91 | The destructor leaves no handler and no timer. |
| `Clients.ServerProxy.constructor` | src/lib/client/ServerProxy.cpp:39-64 | The proxy replaces the handler of the stream's input and starts the keep-alive timer. |
| `Clients.ServerProxy.Destroy` | src/lib/client/ServerProxy.cpp:66-75 | All that the proxy registered is removed, its timer too. |
| `Clients.ServerProxy.ResetKeepAliveAlarm` | src/lib/client/ServerProxy.cpp:77-88 | The timer is replaced, or removed when the rate is not positive. |
| `Clients.ServerProxy.HandleData` | src/lib/client/ServerProxy.cpp:96-156 | A turn over any messages, bad clipboard data included, changes the session as the transition function says. |
| `ClientTurns.TurnAlarm` | src/lib/client/ServerProxy.cpp:77-156 | After a turn the alarm runs as the last rate set says; it is the one from before exactly if no rate was set and, while it ran, no keep-alive came, and otherwise one that did not exist before. |
| `ClientTurns.KeepAliveDefers` | src/lib/client/ServerProxy.cpp:298-302 | After a keep-alive the alarm that ran then changes nothing ever again when its time runs out, and nobody is asked to disconnect. |
| `ClientTurns.KeepAliveDoesNotStart` | src/lib/client/ServerProxy.cpp:77-88 | Keep-alives do not start an alarm that is off. |
| `ClientTurns.AlarmAsksOnce` | src/lib/client/ServerProxy.cpp:373-385 | The present alarm asks to disconnect, exactly once. |
| `ClientTurns.TurnPhase` | src/lib/client/ServerProxy.cpp:96-156 | The client is ready after a turn exactly if it was or options were set; stream and proxy stay. |
| `ClientNotices.TurnPosts` | src/lib/client/ServerProxy.cpp:96-156 | A turn asks to disconnect for the hangup that ends it and for each bad clipboard when ready, and for another turn exactly when more is left and nothing ended it. |
| `Clients.Client.Dispatch` | src/lib/base/EventQueue.cpp:167-179 | Any event for any target, dispatched by the handler table, does what the phase says; handlers and timers are exactly those of the phase and every handler's assumptions hold. |
| `Clients.Client.Take` | src/lib/client/Client.cpp:98-781 | Every call and every event is one step of the phase machine. |
| `ClientNotices.StepTells` | src/lib/client/Client.cpp:98-781 | In every run each step gives at most one notice: that an attempt failed, the server refused, the connection ended or it is complete, each exactly in the cases listed. |
| `ClientNotices.StepLeads` | src/lib/client/Client.cpp:98-781 | In every run, where each step leads: idle from whatever breaks the connection, one phase on from what completes the last, and the same phase otherwise. |
| `Clients.EventIsHandled` | src/lib/base/EventQueue.cpp:167-179 | Events without a handler do nothing, and a registered handler fits the phase. |
| `ClientRuns.AlwaysConsistent` | src/lib/client/Client.cpp:98-781 | Over every run: one of the five phases; suspended only when idle; waiting to reconnect only when suspended; screen enabling and disabling alternate, and the screen is on exactly when ready. |
| `ClientRuns.GoneForEver` | src/lib/client/Client.cpp:528-587 | Events for a stream, proxy or timer that is gone never change anything again. |
| `ClientRuns.ResumeReconnects` | src/lib/client/Client.cpp:760-781 | After suspending, whatever happens, resuming connects exactly when the last call in between asked for it or, without a call, there was a proxy before. |
| `MouseProxies.MouseProxy.FlushCompressedMouse` | src/lib/client/ServerProxy.cpp:435-447 | What was put off is done, absolute first, and forgotten. |
| `MouseProxies.MouseProxy.MouseMove` | src/lib/client/ServerProxy.cpp:791-822 | An absolute motion is forwarded, put off or ignored, and replaces what was put off. |
| `MouseProxies.MouseProxy.MouseRelativeMove` | src/lib/client/ServerProxy.cpp:824-852 | A relative motion is forwarded, added to what was put off, or ignored. |
| `MouseProxies.MouseProxy.EnterScreen` | src/lib/client/ServerProxy.cpp:560-581 | Entering forgets what was put off. |
| `MouseProxies.MouseProxy.HandleData` | src/lib/client/ServerProxy.cpp:96-156 | A turn handles its messages and flushes, unless a message stops it; a malformed gesture flushes first. |
| `MouseProxies.MouseProxy.Perform` | src/lib/client/ServerProxy.cpp:96-156 | A whole run makes the specified calls; with unmixed motion the user sees what would be seen without compression. |
| `MouseMotion.StepKeepsSame` | src/lib/client/ServerProxy.cpp:791-852 | A message keeps the screen the same but for the motion put off if and only if it does not slip past that motion. |
| `MouseMotion.SlipShows` | src/lib/client/ServerProxy.cpp:791-852 | A slip at the end of a turn is seen at once. |
| `MouseMotion.CompressionDoesNotShow` | src/lib/client/ServerProxy.cpp:435-447 | In every run without slips the cursor is, at every key, button, wheel, gesture, enter, leave and end of turn, where it would be had each motion been forwarded at once. |
| `MouseMotion.UnmixedMotionDoesNotShow` | src/lib/client/ServerProxy.cpp:791-852 | Motion that is all absolute or all relative between two flushes never slips, whatever follows on the stream. |
| `MouseMotion.MixedMotionShows` | src/lib/client/ServerProxy.cpp:791-852 | A relative motion put off is added to an absolute position that came after it. |
| `MouseCompression.MotionWaits` | src/lib/client/ServerProxy.cpp:791-852 | Motion that is not ignored and has more input behind it makes no call. |
| `MouseCompression.AbsoluteBurstIsOneCall` | src/lib/client/ServerProxy.cpp:791-822 | Any number of absolute motions up to a flush, all but the last with more input behind them, make one call, to the last position. |
| `MouseCompression.RelativeBurstIsOneCall` | src/lib/client/ServerProxy.cpp:824-852 | Any number of relative ones make one call, by their sum. |
| `MouseCompression.IgnoredMotionIsDropped` | src/lib/client/ServerProxy.cpp:791-852 | Ignored motion makes no call and is not put off. |
| `MouseCompression.EnterDropsMotion` | src/lib/client/ServerProxy.cpp:560-581 | Entering drops the motion put off without a call. |
| `MouseCompression.EndedTurn` | src/lib/client/ServerProxy.cpp:96-156 | A message that ends the turn leaves motion put off; a malformed gesture has it done first. |

## Left out

- KeyMaps.KeyMap.AddKeyEntry: how alias, keypad and combination entries are chosen (addKeyAliasEntry, addKeyCombinationEntry) is not modelled; KeyMaps.LaterEntryIsReady covers adding any ready entry, of one item or several, after finish.
- KeyReplay.AddKeystrokesInSync: keyboards with half-duplex locks are excluded from the replay theorems, as what one does to the lock depends on the platform; the keystrokes themselves are modelled.
- KeyMaps.KeyMap.MapKey: a platform without a name for the wanted language is the only use of layouts; the screens that press the keys are not modelled.
- Utf16.UTF8ToUTF16: the UCS-2 functions of Unicode.cpp are not modelled; words are read and written as on a little-endian host.
- PriorityQueues.PriorityQueue.Push: the heap functions of the C++ library are modelled by the usual sifting; the theorems use only that the result is a heap of the same elements.
- Timers.FillEvent: the count is not cut to 32 bits.
- Timers.TimerQueue.HasTimerExpired: the stopwatch is modelled by the clock reading at its last reset; stopping and triggering it are not used by the queue.
- EventIds.ChosenIsFresh: ids do not wrap around at 2^32.
- EventQueues.EventQueue.AddEvent: mutexes make adds and the consumer's steps atomic; an add interrupted between its ready check and its push, adoptBuffer, a buffer that refuses an id, and waiting with timeouts are not modelled.
- Clipboards.Clipboard.Unmarshall: format ids are unsigned, and the header is read after its length is checked.
- ClipboardAssembly.Assembly.Assemble: how text becomes a number is a parameter; the end-to-end theorems need only that it reads plain decimal numbers of 64 bits.
- ClipboardTransfer.ClipboardArrives: the stream carries messages unchanged and in order; transfers of the two clipboards that interleave are not told apart by the code and are not covered.
- ClipboardSender.Sender.SendNext: progress reports.
- Clients.Client.HandleHello: the hello is either acceptable or not; version negotiation and the text of messages are not modelled.
- Clients.Client.HandleDisconnected: reports of an interrupted transfer.
- MouseMotion.CompressionDoesNotShow: the screen adds up motion without stopping the cursor at its edges, and coordinates do not overflow; the position sent with queryInfo and the saving of the restore position outside of leave are not observed.
- Sockets, TLS, name resolution and message formatting: input to the model.
- The server's side, the platform screens, configuration, settings, logging, GUI and process control.
