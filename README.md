# Character auto-history log

A Dafny model of Angband's character auto-history (`src/player-history.c`).
The log records milestones of one character's life (birth, level gains,
artifacts found, identified, lost, death). It has three parts:

- **The record store.** A slot array that is unallocated until the first
  append. The first append allocates 10 slots. A full store grows by 10
  slots, up to 5000. At that ceiling an append fails and changes nothing.
  Clearing the store releases the slots.
- **The tag set of each entry.** The `HIST_*` flags are modelled as a
  `set<HistTag>` over a closed enumeration.
- **The artifact reconciler.** It records an artifact as found or missed
  and as unknown or known, marks it lost, and at the end of the game reveals
  every unknown entry. It scans the entries from newest to oldest and either
  rewrites an entry's tags in place or appends a new entry.

Files:

- `history_model.dfy` (module `HistoryModel`) holds the values: tags,
  `Entry`, the text truncation, and the reconciler's transitions as pure
  functions over the sequence of populated entries (`Know`, `Record`, `Lose`,
  `UnmaskAll`). It also holds the invariant `ActiveIsNewest`.
- `player_history.dfy` (module `PlayerHistory`) holds the class
  `HistoryLog`. Its fields `entries: array?<Entry>`, `next` and `length`
  are the store. Each method works in place with the source's backward
  `while` loops. Each state-changing method is proved to leave `Contents()`
  equal to the matching function of `HistoryModel` applied to the old
  contents. `HasRoom()` says whether an append would succeed.
- `history_facts.dfy` (module `HistoryFacts`) proves what those functions
  promise: the effect of each reconciler path, the final reveal, the
  invariant the reconciler keeps, and three scenarios.

Ambient inputs are parameters. The character's depth, level and elapsed
energy come in an `Ambient` value, and the turn stamp is the energy divided
by 100. The artifact's description, which the game obtains from its object
description service, is the string parameter `desc`.

An artifact id can have more than one entry. An artifact that is found,
lost and found again gets a second entry, because a lost entry does not count
as logged (lines 197-213). `HistoryFacts.RefoundArtifactIsLoggedTwice` proves
this. The property that does hold is `ActiveIsNewest`: an entry with a
newer entry for the same artifact is tagged lost. The reconciler keeps it
(`RecordKeepsActiveIsNewest`, `LoseKeepsActiveIsNewest`,
`UnmaskKeepsActiveIsNewest`, `PlainAppendKeepsActiveIsNewest`). Under it,
identification rewrites exactly the active entry that the guard found
(`KnowTargetsActiveEntry`).

## Model

| member | source | states |
|---|---|---|
| PlayerHistory.HistoryLog.Init | src/player-history.c:38-43 | the log is emptied and gets exactly `size` fresh, zero-filled slots |
| PlayerHistory.HistoryLog.Clear | src/player-history.c:48-56 | count and capacity become 0 and the slots are released; on an unallocated log nothing changes |
| PlayerHistory.HistoryLog.SetNum | src/player-history.c:61-74 | succeeds iff the target capped at 5000 exceeds the capacity; then the capacity is that capped target and the existing slots keep their contents; on failure nothing changes; the count and entries never change |
| PlayerHistory.HistoryLog.GetNum | src/player-history.c:79-82 | the result is the number of populated entries |
| PlayerHistory.HistoryLog.AddFull | src/player-history.c:133-156 | succeeds iff the log is unallocated, has a free slot or is below 5000 slots; on success exactly one entry with the given tags, levels, turn, artifact id (0 for none) and truncated text is appended and earlier entries are unchanged; on failure nothing changes; the first append allocates 10 slots, a full log grows by 10 capped at 5000; the capacity policy (0, or a multiple of 10 in 10..5000) is preserved |
| PlayerHistory.HistoryLog.Add | src/player-history.c:165-172 | as `AddFull` (success condition, appended entry, count, capacity growth, nothing changed on failure, capacity policy kept), with exactly the single tag given and the ambient depth, level and energy/100 as stamps |
| PlayerHistory.HistoryLog.KnowArtifact | src/player-history.c:87-101 | returns whether any entry, lost or not, has the id; the newest such entry's tags become exactly {known}; nothing else changes |
| PlayerHistory.HistoryLog.LoseArtifact | src/player-history.c:107-124 | the new contents and the result are those of `Lose`: lost tag added to the newest entry with the id and true, else a missed record and false; capacity and array are unchanged unless an entry was appended, and then the capacity is what an append gives |
| PlayerHistory.HistoryLog.IsArtifactKnown | src/player-history.c:177-189 | true iff some populated entry has the id and carries the known tag |
| PlayerHistory.HistoryLog.IsArtifactLogged | src/player-history.c:197-213 | true iff some populated entry has the id and is not tagged lost |
| PlayerHistory.HistoryLog.AddArtifact | src/player-history.c:221-263 | the new contents and the result are those of `Record` for the given known/found flags, with the append succeeding iff the log had room; capacity and array are unchanged unless an entry was appended, and then the capacity is what an append gives |
| PlayerHistory.HistoryLog.UnmaskUnknown | src/player-history.c:269-279 | the new contents are `UnmaskAll` of the old ones; the count is unchanged |
| PlayerHistory.HistoryLog.GetList | src/player-history.c:284-288 | returns a snapshot equal to the populated entries, paired with their number |
| HistoryModel.Truncate | src/player-history.c:150-151 | copying into a buffer of `size` bytes keeps the longest prefix of at most `size - 1` characters, and the whole input when it fits |
| HistoryModel.ArtifactText | src/player-history.c:226-239 | the text starts with "Found " or "Missed " as the artifact was found or missed, is a prefix of that verb plus the description, and is exactly the first min(length, 79) characters of the verb plus the description (cut by the 80-byte buffers) |
| HistoryModel.NewestOf | src/player-history.c:92-97 | the newest index whose entry has the id, whatever its tags; none exactly when no entry has the id |
| HistoryFacts.ArtifactEntryFits | src/player-history.c:150-151 | an artifact text already fits the event buffer, so the appended entry keeps it whole |
| HistoryFacts.RecordKnownIdentifies | src/player-history.c:242-245 | with an active entry, recording as known reports true, keeps the count, and leaves the newest entry for the id with exactly {known} (a lost tag included is erased) and every other entry unchanged |
| HistoryFacts.RecordKnownAppends | src/player-history.c:246-247 | with no active entry, recording as known reports true and appends one {known} entry with the "Found"/"Missed" text, room permitting |
| HistoryFacts.RecordKnownMakesKnown | src/player-history.c:242-247 | after recording as known, the artifact is known in the log, unless the append it needed had no room |
| HistoryFacts.RecordUnknown | src/player-history.c:248-259 | recording as unknown reports true iff no active entry exists; with one, nothing changes; without, one entry tagged {unknown}, plus lost when missed, is appended, room permitting |
| HistoryFacts.UnknownTagsExact | src/player-history.c:250-254 | a new unknown entry carries unknown, carries lost exactly when the artifact was missed, and nothing else |
| HistoryFacts.LoseExisting | src/player-history.c:107-116 | when any entry has the id, losing reports true, keeps the count, adds lost to the newest such entry keeping its other tags, and changes no other entry |
| HistoryFacts.LoseMissing | src/player-history.c:119-123 | when no entry has the id, losing reports false and appends one {unknown, lost} entry whose text starts with "Missed ", room permitting |
| HistoryFacts.UnmaskAllReveals | src/player-history.c:269-279 | after the reveal no entry is unknown, every formerly unknown entry is known, every other tag and field is kept, and entries that were not unknown are unchanged |
| HistoryFacts.UnmaskAllIdempotent | src/player-history.c:269-279 | revealing twice gives the same entries as revealing once |
| HistoryFacts.KnowTargetsActiveEntry | src/player-history.c:87-101 | under the reconciler's invariant, the entry identification rewrites is not lost, i.e. it is the active entry the guard found |
| HistoryFacts.RecordKeepsActiveIsNewest | src/player-history.c:221-263 | recording an artifact keeps "an entry with a newer entry for the same artifact is lost" |
| HistoryFacts.LoseKeepsActiveIsNewest | src/player-history.c:107-124 | losing an artifact keeps the same invariant |
| HistoryFacts.UnmaskKeepsActiveIsNewest | src/player-history.c:269-279 | the final reveal keeps the same invariant |
| HistoryFacts.PlainAppendKeepsActiveIsNewest | src/player-history.c:143-155 | appending an entry that concerns no artifact (id 0) keeps the same invariant |
| HistoryFacts.FoundThenIdentified | src/player-history.c:221-263 | an artifact found unknown and then identified keeps one entry, which ends with exactly {known}, the "Found" text, and is known |
| HistoryFacts.RefoundArtifactIsLoggedTwice | src/player-history.c:191-213 | found, lost and found again, an artifact has two entries: the older {unknown, lost}, the newer {unknown} |
| HistoryFacts.KnowRewritesNewestEvenIfLost | src/player-history.c:87-101 | when the newest entry for the id is lost but an older one is active, identification erases the newest entry's tags to {known} and leaves the active one unknown |

## Left out

- The object description machinery (`make_fake_artifact`, `object_copy`, `object_desc`, `object_wipe`) is not part of this model. Its output is the parameter `desc`. It is cut to its 80-byte buffer before formatting.
- The global `player` structure is not modelled as a global. Its `depth`, `lev` and `total_energy` fields are passed in as an `Ambient` value.
- `mem_zalloc`, `mem_realloc` and `mem_free` become allocation of a fresh array, a copy of the existing slots and dropping the reference. `mem_realloc` leaves new slots uninitialised. The model fills them with the blank entry. No populated entry depends on this.
- `history_get_list` hands out a live pointer into the array. The model returns a snapshot sequence instead, so aliasing is not modelled.
- The `hist_*` macros and the flag byte layout are in `player-history.h`, which is not part of this model. They are modelled as set operations. The tags other than the three artifact tags stand in for the header's remaining kinds.
- C integer widths (`s16b` levels, `s32b` turn, `size_t` counts) are not modelled. All are unbounded integers. The energy counter is taken as non-negative, so its division by 100 agrees with C's.
- Texts are sequences of characters. NUL termination and byte encoding are not modelled.
- `assert(artifact)` becomes the precondition that the artifact id is positive.
- Rendering the history into the character dump and saving it to the save file are done outside this file and are not part of this model.
