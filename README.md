# Theatre of Blood mistake tracker: the raid-session controller

This project models the controller of the Theatre of Blood mistake tracker, a
game-client plugin. The controller:

- follows the raid phase published in a varbit (0 no party, 1 in a party,
  2 in the raid);
- resolves the roster of raiders from the five party-slot client strings and
  the players present in the scene;
- once per game tick, asks the detectors for each raider's mistakes, records
  them in a per-player ledger under a tracking policy, and takes each raider's
  two-phase location and death snapshot;
- marks deaths, and clears death flags after a loading screen or a story-mode
  failure message;
- clears the ledger on a configuration request.

A second, tiny part is the charge label of the equipment blowpipe overlay
(`formatNumber`). It is a pure formatter with a "K" suffix from 1000 on.

Layout, one module per file:

- `host.dfy` (`Host`): the client's values, plus the story-mode failure pattern
  as a substring search.
- `ledger.dfy` (`Mistakes`): mistake kinds, the ledger, and the ledger object.
- `raiders.dfy` (`Raiders`): the raider object and its end-of-tick, death and
  revive updates as functions on its state.
- `detectors.dfy` (`Detectors`): the detector manager as a call log, and the
  counting of one detection round.
- `raid.dfy` (`Raid`): the phase flags as a pure transition function with its
  invariant.
- `roster.dfy` (`Roster`): slot names, present names, and the commit rule.
- `plugin.dfy` (`Plugin`): the controller class.
- `blowpipe.dfy` (`Blowpipe`): `formatNumber`.

The controller is imperative, so it is a class. It has the source's fields and
one method per handler. Each raider is an object whose location and death fields
are updated in place. `RosterState()` is the value of all raiders' fields by name,
and every handler's postcondition gives the new roster state as a function of the
old one. The detectors' verdicts for a tick are a parameter: name to the mistakes
all detectors report, in registration order.

Host inputs are parameters:

- the new varbit value;
- `varcStr`, the client strings by index;
- `sanitize`, the name sanitising function, left uninterpreted;
- the present players;
- the spectating option;
- the game state, and the chat message type and text;
- the configuration group and key.

Some consequences of the source that are easy to get wrong, all modelled as the
source has them:

- A death is recorded in the ledger only while mistakes are tracked, the same as
  any other mistake (`onActorDeath` goes through `addMistakeForPlayer`).
- Detection runs on every in-raid tick over whatever roster exists. Before the
  roster loads it is empty, so such a tick makes no detection call but still
  ends with `afterDetect`.
- Clearing death flags touches `isDead` only. `previousIsDead` takes the cleared
  value at the end of the next tick.
- An ignored entry into phase 2 (not from phase 1, spectating off) stores the new
  phase and leaves `isRaider` as it was.
- After a change to phase 0 or 1 the stored phase is the new value, not the 0
  that `resetRaidState` writes, because the handler stores the value after the reset.

## Model

| member | source | states |
|---|---|---|
| Raid.UnchangedPhase | src/main/java/com/tobmistaketracker/TobMistakeTrackerPlugin.java:237-239 | delivering the stored phase again changes no flag |
| Raid.OnVarbit | src/main/java/com/tobmistaketracker/TobMistakeTrackerPlugin.java:236-249 | the new value is always stored; the roster flag is never set by a phase change; the raid is entered only on a change into phase 2, and one becomes a raider only by following the party from phase 1 |
| Raid.IsNewRaiderInRaid | src/main/java/com/tobmistaketracker/TobMistakeTrackerPlugin.java:295-297 | a new raider is always a change from phase 1 into phase 2, never a reset |
| Raid.IsNewAllowedSpectator | src/main/java/com/tobmistaketracker/TobMistakeTrackerPlugin.java:299-301 | an allowed spectator enters phase 2, and on such an entry is allowed exactly when mistakes would be tracked for a non-raider |
| Raid.ShouldTrackMistakes | src/main/java/com/tobmistaketracker/TobMistakeTrackerPlugin.java:202-205 | a raider is always tracked; with spectating off exactly the raiders are, and with it on everyone is |
| Raid.ResetOnPartyPhases | src/main/java/com/tobmistaketracker/TobMistakeTrackerPlugin.java:115-123 | a change to phase 0 or 1 clears `inTob`, `isRaider` and `allRaidersLoaded` and stores the new phase rather than the reset's 0 |
| Raid.EntryIntoRaid | src/main/java/com/tobmistaketracker/TobMistakeTrackerPlugin.java:243-246 | entering phase 2 sets `inTob` exactly when coming from phase 1 or spectating; then `isRaider` is exactly "came from phase 1", otherwise the flags keep their values; the roster flag never moves |
| Raid.EntryFromPartyPhase | src/main/java/com/tobmistaketracker/TobMistakeTrackerPlugin.java:295-301 | from phase 0 or 1 in a reachable state, entering the raid makes one a raider iff the phase was 1, and puts one in the raid iff that or spectating holds |
| Raid.ResetFlagsValid | src/main/java/com/tobmistaketracker/TobMistakeTrackerPlugin.java:115-119 | the reset flags are reachable: no raider or roster outside the raid, and no raid in phase 0 or 1 |
| Raid.OnVarbitPreservesInv | src/main/java/com/tobmistaketracker/TobMistakeTrackerPlugin.java:236-249 | every varbit change keeps the flag invariant |
| Raid.OnVarbitIdempotent | src/main/java/com/tobmistaketracker/TobMistakeTrackerPlugin.java:237-248 | delivering the same value twice has the effect of delivering it once |
| Raid.ReplayPreservesInv | src/main/java/com/tobmistaketracker/TobMistakeTrackerPlugin.java:236-249 | the flag invariant holds after any sequence of varbit values |
| Raid.PartyThenRaid | src/main/java/com/tobmistaketracker/TobMistakeTrackerPlugin.java:239-247 | the phases 0, 1, 2 without spectating leave one a raider inside the raid, from any state |
| Raid.SkippedPartyIgnored | src/main/java/com/tobmistaketracker/TobMistakeTrackerPlugin.java:239-247 | the phases 0, 2 without spectating leave one outside the raid and not a raider |
| Plugin.TobMistakeTrackerPlugin.OnVarbitChanged | src/main/java/com/tobmistaketracker/TobMistakeTrackerPlugin.java:236-249 | the new flags are `Raid.OnVarbit` of the old ones; a reset empties the roster and calls `reset` once, otherwise the roster and the calls stay; the roster invariant is kept |
| Plugin.TobMistakeTrackerPlugin.ResetRaidState | src/main/java/com/tobmistaketracker/TobMistakeTrackerPlugin.java:115-123 | all flags cleared, stored phase 0, an empty roster, and exactly one `reset` call |
| Plugin.TobMistakeTrackerPlugin.StartUp | src/main/java/com/tobmistaketracker/TobMistakeTrackerPlugin.java:96-98 | start-up leaves the reset state with the roster invariant established |
| Plugin.TobMistakeTrackerPlugin.ShutDown | src/main/java/com/tobmistaketracker/TobMistakeTrackerPlugin.java:105-108 | shut-down empties the roster, keeps the flags, and calls `shutdown` once |
| Plugin.TobMistakeTrackerPlugin.constructor | src/main/java/com/tobmistaketracker/TobMistakeTrackerPlugin.java:81-94 | a new controller holds fresh ledger and detector objects, an empty roster and the reset flags |
| Plugin.TobMistakeTrackerPlugin.OnGameTick | src/main/java/com/tobmistaketracker/TobMistakeTrackerPlugin.java:125-141 | outside the raid nothing changes; inside, the roster is loaded only while unloaded and commits as `Roster.Commits` says, a loaded roster keeps its raiders; each raider gets one detection call that sees its state as the tick found it (after loading), then its snapshot; the ledger becomes exactly `RoundLedger` of the old one (each raider's verdict recorded in turn when tracking, untouched otherwise); `afterDetect` closes the tick |
| Plugin.TobMistakeTrackerPlugin.LoadAndDetect | src/main/java/com/tobmistaketracker/TobMistakeTrackerPlugin.java:132-140 | an in-raid tick with the roster unloaded: load, and run the round over the loaded outcome, whose detection calls see the raiders as loading left them |
| Plugin.TobMistakeTrackerPlugin.DetectLoaded | src/main/java/com/tobmistaketracker/TobMistakeTrackerPlugin.java:136-140 | an in-raid tick with the roster loaded: nothing commits, the raiders and the loaded flag stay, and the round runs over the existing raiders as the tick found them |
| Plugin.TobMistakeTrackerPlugin.DetectAndFinish | src/main/java/com/tobmistaketracker/TobMistakeTrackerPlugin.java:136-140 | one detection call per raider, in some enumeration of the roster, each seeing the raider's state before the round, then one `afterDetect`; the ledger becomes `RoundLedger` over that enumeration; every raider's snapshot is taken |
| Plugin.TobMistakeTrackerPlugin.DetectAll | src/main/java/com/tobmistaketracker/TobMistakeTrackerPlugin.java:143-149 | visits each raider exactly once in some order; its detection calls follow that order, each seeing the raider's state before the round; the ledger becomes exactly `RoundLedger` over that order; every raider's snapshot is taken |
| Plugin.TobMistakeTrackerPlugin.DetectRound | src/main/java/com/tobmistaketracker/TobMistakeTrackerPlugin.java:144-148 | detecting for the raiders in a given enumeration completes the round `RoundSoFar` describes: the calls, the exact ledger and the snapshots for all of them |
| Plugin.TobMistakeTrackerPlugin.DetectInRound | src/main/java/com/tobmistaketracker/TobMistakeTrackerPlugin.java:144-148 | detecting for the next raider of the enumeration extends the completed part of the round by exactly that raider |
| Plugin.TobMistakeTrackerPlugin.RaiderNames | src/main/java/com/tobmistaketracker/TobMistakeTrackerPlugin.java:144 | the iteration over `raiders.values()` visits every roster name exactly once |
| Plugin.TobMistakeTrackerPlugin.Detect | src/main/java/com/tobmistaketracker/TobMistakeTrackerPlugin.java:151-163 | one detection call for this raider, seeing its state before the snapshot; when tracking the ledger becomes `Record` of the old one with the verdict (each mistake added individually, duplicates count twice), otherwise it is untouched; only this raider's snapshot changes |
| Plugin.TobMistakeTrackerPlugin.RecordMistakes | src/main/java/com/tobmistaketracker/TobMistakeTrackerPlugin.java:156-159 | adding the reported mistakes one by one leaves `Record` of the old ledger when tracking, and the old ledger otherwise |
| Plugin.TobMistakeTrackerPlugin.AfterDetect | src/main/java/com/tobmistaketracker/TobMistakeTrackerPlugin.java:165-169 | the raider's state becomes `EndOfTick` of the old state (overlay takes old previous, previous takes current, previous death takes death) |
| Plugin.TobMistakeTrackerPlugin.AfterDetectAll | src/main/java/com/tobmistaketracker/TobMistakeTrackerPlugin.java:171-173 | exactly one `afterDetect` call |
| Plugin.TobMistakeTrackerPlugin.LoadRaiders | src/main/java/com/tobmistaketracker/TobMistakeTrackerPlugin.java:175-195 | commits exactly when some slot name was read and every slot name belongs to a present player; the committed keys are the slot names, each a fresh raider standing where its player stands, with `startup` called once; otherwise roster, flags and calls stay |
| Plugin.TobMistakeTrackerPlugin.Commit | src/main/java/com/tobmistaketracker/TobMistakeTrackerPlugin.java:191-194 | installs the resolved roster, sets the loaded flag, calls `startup` once, and keeps the invariant (a non-empty roster exactly when loaded) |
| Plugin.TobMistakeTrackerPlugin.ReadRaiderNames | src/main/java/com/tobmistaketracker/TobMistakeTrackerPlugin.java:176-182 | the result is the set of non-empty sanitised names of client strings 330 to 334 |
| Plugin.TobMistakeTrackerPlugin.RaidersForPlayers | src/main/java/com/tobmistaketracker/TobMistakeTrackerPlugin.java:184-189 | the keys are the slot names carried by present players; each value is a fresh raider filed under its own name, made at a present player's location |
| Plugin.TobMistakeTrackerPlugin.AllRaidersLoaded | src/main/java/com/tobmistaketracker/TobMistakeTrackerPlugin.java:197-200 | sets the loaded flag and calls `startup` once |
| Plugin.TobMistakeTrackerPlugin.AddMistakeForPlayer | src/main/java/com/tobmistaketracker/TobMistakeTrackerPlugin.java:202-213 | when tracking (raider or spectating), one more occurrence and the new count come back; otherwise the ledger is untouched and 0 comes back |
| Plugin.TobMistakeTrackerPlugin.OnActorDeath | src/main/java/com/tobmistaketracker/TobMistakeTrackerPlugin.java:215-231 | a named player on the roster is marked dead, and `DEATH` is added when tracking; any other actor changes neither the roster state nor the ledger |
| Plugin.TobMistakeTrackerPlugin.IsRaiderDeath | src/main/java/com/tobmistaketracker/TobMistakeTrackerPlugin.java:218-224 | a non-player actor or a nameless player is never a raider death, nobody is before the roster loads, and a raider death names a roster raider filed under that name |
| Plugin.TobMistakeTrackerPlugin.OnConfigChanged | src/main/java/com/tobmistaketracker/TobMistakeTrackerPlugin.java:251-260 | the ledger is cleared exactly for group "tobMistakeTracker" with key "clearMistakes", and is unchanged otherwise |
| Plugin.TobMistakeTrackerPlugin.OnGameStateChanged | src/main/java/com/tobmistaketracker/TobMistakeTrackerPlugin.java:273-281 | a loading state revives every raider and changes nothing else; any other state changes nothing |
| Plugin.TobMistakeTrackerPlugin.OnChatMessage | src/main/java/com/tobmistaketracker/TobMistakeTrackerPlugin.java:283-293 | a game message in which the failure pattern is found revives every raider; any other message changes nothing |
| Plugin.TobMistakeTrackerPlugin.ClearDeathFlags | src/main/java/com/tobmistaketracker/TobMistakeTrackerPlugin.java:277-279 | the loop over all raiders leaves `ReviveAll` of the old roster state |
| Plugin.TobMistakeTrackerPlugin.IsPlayerInRaid | src/main/java/com/tobmistaketracker/TobMistakeTrackerPlugin.java:307-309 | a player in the raid has a raider filed under its own name; before the roster loads nobody is in the raid |
| Roster.SlotNamesMembers | src/main/java/com/tobmistaketracker/TobMistakeTrackerPlugin.java:176-182 | a name is a candidate iff it is non-empty and the sanitised value of one of the five slots |
| Roster.SlotNames | src/main/java/com/tobmistaketracker/TobMistakeTrackerPlugin.java:176-182 | at most five candidates, and never the empty name |
| Roster.SlotNamesUpTo | src/main/java/com/tobmistaketracker/TobMistakeTrackerPlugin.java:177-181 | the names read so far never include the empty name |
| Roster.SlotNamesUpToSize | src/main/java/com/tobmistaketracker/TobMistakeTrackerPlugin.java:177-181 | at most one name per slot read |
| Roster.SlotNamesReadOnlySlots | src/main/java/com/tobmistaketracker/TobMistakeTrackerPlugin.java:57-59 | only client strings 330 to 334 influence the candidates |
| Roster.PresentNamesMembers | src/main/java/com/tobmistaketracker/TobMistakeTrackerPlugin.java:184-189 | a name is a key of the new roster iff it is a candidate and some present player carries it |
| Roster.PresentNames | src/main/java/com/tobmistaketracker/TobMistakeTrackerPlugin.java:184-189 | the new roster's keys are all read slot names |
| Roster.SizesMatch | src/main/java/com/tobmistaketracker/TobMistakeTrackerPlugin.java:191 | when the raiders made carry read names only, the size comparison passes exactly when some name was read and the raiders made are all of them |
| Roster.SubsetSameSize | src/main/java/com/tobmistaketracker/TobMistakeTrackerPlugin.java:191 | a subset of the same size is the whole set |
| Roster.CommitIff | src/main/java/com/tobmistaketracker/TobMistakeTrackerPlugin.java:191 | the size comparison passes iff some name was read and every read name is present, and then the keys are exactly the read names |
| Raiders.OverlayLagsOneTick | src/main/java/com/tobmistaketracker/TobMistakeTrackerPlugin.java:165-169 | the overlay location is the previous location one tick late; previous becomes current and the death flag is copied |
| Raiders.EndOfTick | src/main/java/com/tobmistaketracker/TobMistakeTrackerPlugin.java:165-169 | the current location and the death flag stay; the overlay takes the old previous location, previous takes the current location, and the previous death flag takes the death flag |
| Raiders.TwoPhaseSnapshotMatters | src/main/java/com/tobmistaketracker/TobMistakeTrackerPlugin.java:166-167 | the overlay keeps the old previous location, which differs from the new previous location when the player moved |
| Raiders.StationarySettles | src/main/java/com/tobmistaketracker/TobMistakeTrackerPlugin.java:165-169 | with no movement and no death change, the snapshot is stable from the second tick on |
| Raiders.ReviveKeepsSnapshot | src/main/java/com/tobmistaketracker/TobMistakeTrackerPlugin.java:278 | reviving, as at lines 278 and 289, keeps the death snapshot, and reviving after the death of line 229 is reviving |
| Raiders.TickJoined | src/main/java/com/tobmistaketracker/TobMistakeTrackerPlugin.java:187-188 | after its first tick a new raider has its join location as previous location, no overlay location, and is alive |
| Raiders.ReviveAllProperties | src/main/java/com/tobmistaketracker/TobMistakeTrackerPlugin.java:277-279 | clearing death flags keeps every raider, makes every raider alive, changes no other field, and is idempotent |
| Raiders.TobRaider.constructor | src/main/java/com/tobmistaketracker/TobMistakeTrackerPlugin.java:187-188 | a raider for a player carries the player's name and location, no earlier locations, and is alive |
| Mistakes.AddOne | src/main/java/com/tobmistaketracker/TobMistakeTrackerPlugin.java:209 | one more occurrence for that player and kind only; every other count and every other player's entry stays |
| Mistakes.Clear | src/main/java/com/tobmistaketracker/TobMistakeTrackerPlugin.java:258 | every count is zero and no player or kind disappears |
| Mistakes.RecordCount | src/main/java/com/tobmistaketracker/TobMistakeTrackerPlugin.java:156-159 | recording a list raises the player's count of each kind by its number of occurrences in the list, duplicates included |
| Mistakes.RecordOnlyTouches | src/main/java/com/tobmistaketracker/TobMistakeTrackerPlugin.java:156-159 | recording for one player leaves every other player's entry as it was |
| Mistakes.RecordLocal | src/main/java/com/tobmistaketracker/TobMistakeTrackerPlugin.java:156-159 | what recording does to an entry depends on that entry alone |
| Mistakes.RecordMonotone | src/main/java/com/tobmistaketracker/TobMistakeTrackerPlugin.java:156-159 | recording never lowers a count |
| Mistakes.RecordKeys | src/main/java/com/tobmistaketracker/TobMistakeTrackerPlugin.java:156-159 | recording adds the player's entry exactly when something is reported, and drops none |
| Mistakes.MistakeManager.AddMistakeForPlayer | src/main/java/com/tobmistaketracker/TobMistakeTrackerPlugin.java:209 | the ledger gets one more occurrence, and the returned count is the new count, one above the old |
| Mistakes.MistakeManager.ClearAllMistakes | src/main/java/com/tobmistaketracker/TobMistakeTrackerPlugin.java:258 | the ledger becomes its cleared form |
| Detectors.DetectCallsMembers | src/main/java/com/tobmistaketracker/TobMistakeTrackerPlugin.java:143-152 | a round makes exactly one detection call per visit, for the visited raider, in visiting order, each carrying the raider's state as the round found it |
| Detectors.RoundLedgerStep | src/main/java/com/tobmistaketracker/TobMistakeTrackerPlugin.java:144-148 | recording one more raider's verdict extends the round's ledger by exactly that raider's `Record` |
| Detectors.RoundLedgerCounts | src/main/java/com/tobmistaketracker/TobMistakeTrackerPlugin.java:143-159 | after a round over distinct raiders, each count grows by the occurrences in that raider's verdict when tracking (duplicates included), and by nothing for anyone not visited |
| Detectors.RoundLedgerRosterCounts | src/main/java/com/tobmistaketracker/TobMistakeTrackerPlugin.java:143-159 | the same growth for a round over an enumeration of the roster, with the roster in place of the visiting order |
| Detectors.RoundLedgerEntries | src/main/java/com/tobmistaketracker/TobMistakeTrackerPlugin.java:143-159 | a round never drops a ledger entry, creates one only for a visited raider with something reported while tracking, and leaves every unvisited player's entry exactly as it was |
| Detectors.MistakeDetectorManager.DetectMistakes | src/main/java/com/tobmistaketracker/TobMistakeTrackerPlugin.java:152 | the answer is the detectors' verdict for the raider, and the call is logged |
| Detectors.MistakeDetectorManager.Reset | src/main/java/com/tobmistaketracker/TobMistakeTrackerPlugin.java:122 | logs one `reset` |
| Detectors.MistakeDetectorManager.Startup | src/main/java/com/tobmistaketracker/TobMistakeTrackerPlugin.java:199 | logs one `startup` |
| Detectors.MistakeDetectorManager.Shutdown | src/main/java/com/tobmistaketracker/TobMistakeTrackerPlugin.java:108 | logs one `shutdown` |
| Detectors.MistakeDetectorManager.AfterDetect | src/main/java/com/tobmistaketracker/TobMistakeTrackerPlugin.java:172 | logs one `afterDetect` |
| Detectors.MistakeDetectorManager.constructor | src/main/java/com/tobmistaketracker/TobMistakeTrackerPlugin.java:85 | a new manager has received no calls |
| Host.FailureMessageFound | src/main/java/com/tobmistaketracker/TobMistakeTrackerPlugin.java:61 | the game's message "You have failed." matches the pattern |
| Host.ShortMessagesNotFound | src/main/java/com/tobmistaketracker/TobMistakeTrackerPlugin.java:61 | the wildcard needs one more character: the bare text, or anything shorter, never matches |
| Host.FoundInContext | src/main/java/com/tobmistaketracker/TobMistakeTrackerPlugin.java:286 | `find()` is a substring search: text around a match does not hide it |
| Host.FoundNeedsText | src/main/java/com/tobmistaketracker/TobMistakeTrackerPlugin.java:61 | a message that never contains the literal text does not match |
| Host.StoryModeFailedFound | src/main/java/com/tobmistaketracker/TobMistakeTrackerPlugin.java:286 | a match needs the literal text and one more character after it; `FailureMessageFound`, `ShortMessagesNotFound`, `FoundInContext` and `FoundNeedsText` pin it down as a substring search |
| Blowpipe.FormatNumber | src/main/java/bbp/equipmentscreenshot/EquipmentBlowpipeOverlay.java:127-130 | the label ends in "K" iff the amount is at least 1000; below that it reads back as the amount, sign included; from 1000 on the digits before "K" are the truncated thousands |
| Blowpipe.Truncation | src/main/java/bbp/equipmentscreenshot/EquipmentBlowpipeOverlay.java:129 | every amount from 1000 to 1999 shows "1K", and 999 shows "999" |
| Blowpipe.MaxChargesLabel | src/main/java/bbp/equipmentscreenshot/EquipmentBlowpipeOverlay.java:46 | a full blowpipe (16383 charges) shows "16K" |
| Blowpipe.IntRoundTrip | src/main/java/bbp/equipmentscreenshot/EquipmentBlowpipeOverlay.java:129 | `String.valueOf(int)` is well formed and reads back as the number |
| Blowpipe.IntToString | src/main/java/bbp/equipmentscreenshot/EquipmentBlowpipeOverlay.java:129 | `String.valueOf(int)` starts with a minus sign exactly for a negative number, which the digits of the magnitude follow; a non-negative number is its digits alone |
| Blowpipe.NatToString | src/main/java/bbp/equipmentscreenshot/EquipmentBlowpipeOverlay.java:129 | the decimal digits of a natural: at least one digit, only digits, no superfluous leading zero, and one digit exactly below 10 |
| Blowpipe.IntStringRoundTrip | src/main/java/bbp/equipmentscreenshot/EquipmentBlowpipeOverlay.java:129 | every well-formed decimal is the `String.valueOf` of its value, so the spelling is unique |

## Left out

- Host plumbing is left out: the client object, event-bus registration and
  dispatch priority, dependency injection, the configuration manager, and
  logging. Each handler is a method called directly.
- Overhead-text writes are left out (the tick count, the blood count and the
  death message). They are debug output with no effect on the tracked state.
- `onOverheadTextChanged` is left out. It is a test-only hook that injects a
  blood mistake for a fabricated player.
- `getRaiders` is left out. It only exposes an unmodifiable view of the roster.
- The detectors' internals are not part of this model. Their answers for a tick
  are the `verdicts` parameter, and the manager records only the calls it receives.
- `MistakeManager` is not part of this model beyond the two operations the
  controller uses. Its ledger is a map from player to kind to count.
- The `TobRaider` source is not part of this model. Its constructor is taken to
  copy the player's name and location and to start alive with no earlier locations.
  Location updates that the host makes between ticks are outside the model.
- `Text.sanitize` and `client.getVarcStrValue` are uninterpreted function
  parameters. A null string from the client is treated as an empty name.
- The order in which `raiders.values()` is iterated is left open: the round runs in
  some enumeration of the roster. No raider value is null in the model, so the
  null check in `detectAll` always passes.
- `isPlayerInRaid(Player)` is folded into `IsRaiderDeath` and
  `IsPlayerInRaid(string)`. The null-name test comes first, as in the source.
- `renderBlowpipeOverlay` (drawing, images, fonts) and `Sound.java` (an enum of
  resource paths) are left out.
- Interleaving with other events is not modelled. Each handler, the tick
  included, is one atomic call, as on the host's single dispatch thread.
