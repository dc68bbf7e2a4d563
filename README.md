# Mixer list engine of the model-mixes page

This project models the mixer list of an OpenTX radio model (480x272 screens), as found in
`radio/src/gui/480x272/model_mixes.cpp`. A model has a fixed array of `MAX_MIXERS`
mix records. A slot is in use when its source `srcRaw` is not 0. The rest of the code
expects two things of the array. The slots in use form a prefix. Within that prefix the
records are grouped by output channel `destCh`, in non-decreasing channel order.

The engine has three queries and four in-place operations:

- `getMixesCount` counts the used slots. The model has it twice: as written, reading each source id through an 8-bit variable, and corrected, reading it whole (see "## Findings").
- `reachMixesLimit` reports a full list, also as written and corrected.
- `getMixesLinesCount` counts the lines of the list screen.
- `insertMix`, `deleteMix` and `copyMix` move whole records one slot to the right or left (`memmove`) and clear a record (`memclear`).
- `swapMixes` moves one record up or down. At the edge of its channel group it changes the record's channel. Inside the group it exchanges the record with its neighbour.

Files:

- `mix_spec.dfy` (module `MixSpec`): the `Mix` record, the list invariant (`Contiguous`, `ChannelSorted`, `ChannelsInRange`, `WellFormed`) and the meaning of every operation as a function on the sequence of slots (`CountUsed`, `LinesCount`, `Inserted`, `Deleted`, `Copied`, `Swapped`). It also holds the lemmas proved about them.
- `model_mixes.dfy` (module `ModelMixes`): class `MixList` over an `array<Mix>` of length `MAX_MIXERS`. Each method runs the operation in place and is proved against the `MixSpec` function.

Modelling choices:

- `MAX_MIXERS` = 64 and `MAX_OUTPUT_CHANNELS` = 32 are the 480x272 values. The header that defines them is not part of this model.
- `memmove` is a Dafny `forall` statement. All of its right-hand sides are read before any slot is written, so overlapping moves are safe, like the library call.
- `pauseMixerCalculations` and `resumeMixerCalculations` set and clear a ghost flag, `paused`. The shift helpers require the flag, so every block move is proved to happen while the mixer is paused. `MixList.Valid()` requires the flag to be clear between operations.
- `storageDirty(EE_MODEL)` sets a ghost flag, `dirty`. `SwapMixes` leaves it alone, as the source does: its callers mark the model dirty.
- The source's `isSourceAvailable`, `MIXSRC_Rud` and `channel_order` are parameters `avail`, `rud` and `channelOrder`. The probe loop of `insertMix` ends because a ghost `bound` names an available source at or above the fallback. That is the availability policy's guarantee.
- The by-reference `idx` of `swapMixes` is the out-parameter `newIdx`.
- The rest of the model uses the corrected `GetMixesCount` and `ReachMixesLimit`. `InsertOnEmptyChannel` is the empty-channel button of the page builder with the missing `reachMixesLimit` check added.

## Model

| member | source | states |
|---|---|---|
| `ModelMixes.MixList.GetMixesCountAsWritten` | radio/src/gui/480x272/model_mixes.cpp:26-38 | as written: the downward scan reads each source id through `uint8_t ch` and returns the number of slots whose low byte is not 0; that is at most the number of used slots, and equal to it when every source id is below 256 |
| `MixSpec.LowByte` | radio/src/gui/480x272/model_mixes.cpp:29-32 | the 8-bit variable keeps a value below 256, keeps any value below 256 unchanged, and is 0 for a source id of 0 |
| `MixSpec.CountLowByte` | radio/src/gui/480x272/model_mixes.cpp:31-36 | the count read through the 8-bit variable never exceeds the number of used slots |
| `MixSpec.CountLowByteNarrow` | radio/src/gui/480x272/model_mixes.cpp:29-36 | when every source id is below 256, the 8-bit count equals the number of used slots |
| `MixSpec.FullListMiscounted` | radio/src/gui/480x272/model_mixes.cpp:29-47 | a full, well-formed list whose first mix has source id 256 has an 8-bit count below MAX_MIXERS, so reachMixesLimit reports it as not full although its last slot is in use |
| `ModelMixes.MixList.ReachMixesLimitAsWritten` | radio/src/gui/480x272/model_mixes.cpp:40-47 | as written: true exactly when the 8-bit count reaches MAX_MIXERS; a true result means no slot is free; when every source id is below 256, true exactly when no slot is free |
| `ModelMixes.MixList.GetMixesCount` | radio/src/gui/480x272/model_mixes.cpp:26-38 | corrected: the downward scan reads each source id at full width and returns the number of slots whose source is not 0, at most MAX_MIXERS |
| `MixSpec.CountUsed` | radio/src/gui/480x272/model_mixes.cpp:31-36 | the number of used slots never exceeds the number of slots |
| `MixSpec.CountIsPrefixLen` | radio/src/gui/480x272/model_mixes.cpp:26-38 | on a contiguous list the count equals the index of the first empty slot |
| `MixSpec.CountFull` | radio/src/gui/480x272/model_mixes.cpp:40-47 | the count equals the capacity exactly when every slot is in use |
| `ModelMixes.MixList.ReachMixesLimit` | radio/src/gui/480x272/model_mixes.cpp:40-47 | corrected, on the full-width count: returns true exactly when the count equals MAX_MIXERS, which is exactly when no slot is free |
| `MixSpec.CapacityGuard` | radio/src/gui/480x272/model_mixes.cpp:363-373 | on a contiguous list that is not full, the last slot is empty, so an insertion guarded by the corrected reachMixesLimit loses no record |
| `MixSpec.Repeats` | radio/src/gui/480x272/model_mixes.cpp:414-425 | the number of used slots, up to the first empty one, whose channel equals that of the slot before them, the first slot being compared with `last` |
| `MixSpec.LinesCount` | radio/src/gui/480x272/model_mixes.cpp:410-427 | the line count: MAX_OUTPUT_CHANNELS plus the repeats counted from `lastch` = -1 |
| `ModelMixes.MixList.GetMixesLinesCount` | radio/src/gui/480x272/model_mixes.cpp:410-427 | the scan stops at the first empty slot and returns MAX_OUTPUT_CHANNELS plus the number of slots on the same channel as the slot before them; the result is at least MAX_OUTPUT_CHANNELS |
| `MixSpec.LinesCountChannels` | radio/src/gui/480x272/model_mixes.cpp:410-427 | on a channel-sorted list the line count is MAX_OUTPUT_CHANNELS plus the mixes minus the channels that have mixes; on a well-formed list that is one line per channel without mixes plus one line per mix, as the list screen draws them |
| `MixSpec.NewMix` | radio/src/gui/480x272/model_mixes.cpp:300-309 | the record insertMix builds: a zero record with the given channel and source, and weight 100 |
| `MixSpec.Fallback` | radio/src/gui/480x272/model_mixes.cpp:304 | the first source probed: for a channel above 3, `MIXSRC_Rud - 1 + channel`; for the first four, `MIXSRC_Rud - 1` plus the stick that `channel_order` gives |
| `MixSpec.DefaultSource` | radio/src/gui/480x272/model_mixes.cpp:302-308 | a new mix's source is `channel + 1` when that is available, otherwise an available source at or above the fallback with none available between them |
| `MixSpec.DefaultSourceUnique` | radio/src/gui/480x272/model_mixes.cpp:302-308 | the default source is unique for a channel and an availability policy, and it is available |
| `ModelMixes.FirstAvailableFrom` | radio/src/gui/480x272/model_mixes.cpp:304-307 | the probe returns the first available source at or above its start |
| `ModelMixes.MixList.InsertMix` | radio/src/gui/480x272/model_mixes.cpp:295-312 | slots before idx are unchanged, slots from idx move one place right and the old last slot is dropped; slot idx is a zero record with the given channel, weight 100 and source channel+1 when available, else the first available source from the fallback up; the count rises by one on a contiguous list that is not full; a fitting channel keeps the list well formed |
| `MixSpec.Inserted` | radio/src/gui/480x272/model_mixes.cpp:298-309 | the array after insertMix: slots before idx kept, the new record at idx, the slots from idx one place right, the old last slot dropped; the length is kept |
| `MixSpec.FitsAt` | radio/src/gui/480x272/model_mixes.cpp:363-400 | the places where the page builder inserts a mix on a channel: before or after a mix of that channel, or where the group of a channel without mixes would start; the channel is in range, the slot before is used on a channel not above it, and a used slot at idx is on a channel not below it |
| `ModelMixes.MixList.ShiftRight` | radio/src/gui/480x272/model_mixes.cpp:299 | the memmove of insertMix and copyMix (:299, :448), run while the mixer is paused: the slots from idx move one place right, slot idx keeps its record and the old last slot is overwritten |
| `MixSpec.InsertedIsShift` | radio/src/gui/480x272/model_mixes.cpp:298-300 | insertion is the old slots before idx, the new record, then the old slots from idx without the last one |
| `MixSpec.InsertCount` | radio/src/gui/480x272/model_mixes.cpp:295-309 | the new count plus the dropped last slot equals the old count plus the new record; a used record over an empty last slot adds exactly one |
| `MixSpec.InsertKeepsWellFormed` | radio/src/gui/480x272/model_mixes.cpp:348-392 | inserting a used record where its channel fits between its neighbours, as the page builder does, keeps the list contiguous, channel-sorted and in range |
| `ModelMixes.MixList.DeleteMix` | radio/src/gui/480x272/model_mixes.cpp:429-437 | slots before idx are unchanged, slots after idx move one place left and the last slot becomes a zero record; the count drops by one exactly when slot idx was in use; a well-formed list stays well formed |
| `MixSpec.Deleted` | radio/src/gui/480x272/model_mixes.cpp:433-434 | the array after deleteMix: slots before idx kept, the slots after idx one place left, a zero record in the last slot; the length is kept |
| `ModelMixes.MixList.ShiftLeft` | radio/src/gui/480x272/model_mixes.cpp:433 | the memmove of deleteMix, run while the mixer is paused: slots before idx are unchanged, the slots after idx move one place left and the last slot keeps its record |
| `MixSpec.DeletedIsShift` | radio/src/gui/480x272/model_mixes.cpp:432-434 | deletion is the old slots before idx, then those after idx, then a zero record |
| `MixSpec.DeletedIsMoveAndClear` | radio/src/gui/480x272/model_mixes.cpp:433-434 | the left block move followed by clearing the last slot, as deleteMix does them, is exactly deletion |
| `MixSpec.DeleteCount` | radio/src/gui/480x272/model_mixes.cpp:429-437 | the count drops by exactly one when slot idx was in use and is unchanged otherwise |
| `MixSpec.DeleteKeepsWellFormed` | radio/src/gui/480x272/model_mixes.cpp:429-437 | deleting any slot keeps the list well formed |
| `MixSpec.UnguardedInsertLosesLast` | radio/src/gui/480x272/model_mixes.cpp:394-400 | as written, the empty-channel button inserts without a reachMixesLimit check: on a full list the count stays at MAX_MIXERS and the old last record is gone, the others being the old list without its last slot |
| `MixSpec.InsertedWithoutNew` | radio/src/gui/480x272/model_mixes.cpp:298-300 | leaving out the inserted record gives the old list without its last slot |
| `MixSpec.FullListNoSlotForNewChannel` | radio/src/gui/480x272/model_mixes.cpp:394-400 | on a full list whose mixes are all on lower channels, no slot inside the array fits a mix on the new channel, so a slot the builder could use for it lies past the end |
| `ModelMixes.MixList.InsertOnEmptyChannel` | radio/src/gui/480x272/model_mixes.cpp:394-400 | corrected with the check of :363: on a full list nothing changes; otherwise the mix is inserted at the builder's slot with the default source of insertMix, which is available and in use; the dropped last slot was empty, the count rises by one and a fitting channel keeps the list well formed |
| `MixSpec.GuardedInsertKeepsRecords` | radio/src/gui/480x272/model_mixes.cpp:363-373 | on a contiguous list that is not full, the slot that falls off the end is empty, every other record is at the same or the next slot, and a used record raises the count by one |
| `MixSpec.InsertDeleteRoundTrip` | radio/src/gui/480x272/model_mixes.cpp:295-312 | deleting the slot just inserted gives back the array with its last slot cleared, so exactly the old array when its last slot was a zero record |
| `MixSpec.Copied` | radio/src/gui/480x272/model_mixes.cpp:448 | the array after copyMix: insertion of the record at idx at idx itself, so it appears at idx and idx+1 and the old last slot is dropped; the length is kept |
| `ModelMixes.MixList.CopyMix` | radio/src/gui/480x272/model_mixes.cpp:444-451 | the slots from idx move one place right and slot idx keeps its record, so slots idx and idx+1 hold the old slot idx; the count rises by one when that slot was in use on a contiguous list that is not full; a well-formed list stays well formed |
| `MixSpec.CopyCount` | radio/src/gui/480x272/model_mixes.cpp:444-451 | the new count plus the dropped last slot equals the old count plus the copied slot, and both slots idx and idx+1 hold the old slot idx |
| `MixSpec.CopyKeepsWellFormed` | radio/src/gui/480x272/model_mixes.cpp:444-451 | copying any slot keeps the list well formed |
| `MixSpec.Swapped` | radio/src/gui/480x272/model_mixes.cpp:453-494 | the move on values, branch by branch as in swapMixes: up from slot 0 or down from the last slot changes the channel unless it is at the end of the range; a neighbour that is empty or on another channel means a channel change; otherwise the two records swap and the index follows; the array keeps its length |
| `ModelMixes.MixList.SwapMixes` | radio/src/gui/480x272/model_mixes.cpp:453-494 | the new array, result and index are those of the move; a false result changes nothing; the count never changes; moving a used record keeps a well-formed list well formed |
| `MixSpec.SwapFailureUnchanged` | radio/src/gui/480x272/model_mixes.cpp:460-484 | a failed move leaves the array and the index as they were |
| `MixSpec.SwapAtEdge` | radio/src/gui/480x272/model_mixes.cpp:460-485 | when the neighbour is outside the array, empty or on another channel, the index stays; the move succeeds exactly when the channel is above 0 (up) or below MAX_OUTPUT_CHANNELS-1 (down); on success only this slot's channel changes, by one, and stays in range |
| `MixSpec.SwapInterior` | radio/src/gui/480x272/model_mixes.cpp:488-493 | with a used neighbour on the same channel, exactly those two slots are exchanged and the index becomes the neighbour's |
| `MixSpec.SwapEdgeShape` | radio/src/gui/480x272/model_mixes.cpp:460-485 | at the edge of its channel group a move changes at most the channel of the record at idx |
| `MixSpec.EdgeRechannelKeepsWellFormed` | radio/src/gui/480x272/model_mixes.cpp:474-485 | at the edge of its group, moving a used record to the neighbouring channel in the direction of the edge keeps the list well formed |
| `MixSpec.SwapKeepsCount` | radio/src/gui/480x272/model_mixes.cpp:453-494 | no outcome of a move changes the number of used slots |
| `MixSpec.SwapKeepsWellFormed` | radio/src/gui/480x272/model_mixes.cpp:474-494 | moving a used record of a well-formed list keeps the slots contiguous, channel-sorted and in range |
| `MixSpec.InsertDeleteExample` | radio/src/gui/480x272/model_mixes.cpp:295-312 | on four slots with two mixes on channel 0, one on channel 1 and one free slot, inserting at slot 1 on channel 0 fills the list in the expected order, and deleting slot 1 gives the list back |
| `MixSpec.WrapperChannelAsWritten` | radio/src/gui/480x272/model_mixes.cpp:441 | the channel the one-argument insertMix passes, as written: `s_currCh+1` |
| `MixSpec.CursorSlot` | radio/src/gui/480x272/model_mixes.cpp:842-898 | where the list screen's cursor stands when it sets `s_currCh` (counted from 1): on the line of a channel without mixes, where its group would start, on one of that channel's mixes, or right after one |
| `MixSpec.WrapperChannel` | radio/src/gui/480x272/model_mixes.cpp:441 | the channel the wrapper evidently means: `s_currCh-1`, the 0-based index of the cursor's channel |
| `ModelMixes.MixList.InsertMixAtCurrentAsWritten` | radio/src/gui/480x272/model_mixes.cpp:439-442 | the one-argument insertMix, as written, inserts a mix on channel s_currCh+1 whose source is the default source of insertMix for that channel, available and in use |
| `MixSpec.WrapperAsWrittenBreaksOrder` | radio/src/gui/480x272/model_mixes.cpp:439-442 | as written, the cursor on the empty first channel line of a list whose first mix is on the second channel produces a list that is not channel-sorted |
| `MixSpec.WrapperAsWrittenLeavesRange` | radio/src/gui/480x272/model_mixes.cpp:439-442 | as written, the cursor on the line of channel number 31 or 32 passes channel index 32 or 33, and the inserted mix is outside the output channels |
| `ModelMixes.MixList.InsertMixAtCurrent` | radio/src/gui/480x272/model_mixes.cpp:439-442 | the one-argument insertMix with the intended channel s_currCh-1 inserts a mix whose source is the default source for that channel, available and in use, and keeps a well-formed list well formed wherever the list screen's cursor can stand |
| `MixSpec.WrapperInsertKeepsWellFormed` | radio/src/gui/480x272/model_mixes.cpp:439-442 | with the intended channel, the new mix fits at every cursor slot and keeps the list well formed |

## Left out

- Presentation code is left out: `MixEditWindow`, `MixLineButton`, the page's build, rebuild and editMix, `menuModelMixOne`, `menuModelMixAll`, `onMixesMenu`, `displayMixStatus`, `lineMixSurround`, `gvarWeightItem` and the GVAR encoding macros. These are widgets, drawing and event dispatch. The list screen's cursor appears only as the `CursorSlot` predicate.
- `pauseMixerCalculations` and `resumeMixerCalculations` are left out as synchronisation with the real-time mixer task. Only the ghost `paused` flag records when they are called. Concurrency is not modelled.
- `storageDirty(EE_MODEL)` is not modelled as persistence. Only the ghost `dirty` flag remains.
- `POPUP_WARNING` in `reachMixesLimit` is a user-interface side effect and is left out. Only the boolean result is modelled.
- `isSourceAvailable`, `channel_order` and `MIXSRC_Rud` are foreign to this file, so the model takes them as parameters. `InsertMix` requires the fallback source id to be at least 1, as it is for the real stick sources. It also requires a ghost witness of an available source at or above the fallback, so that the probe loop ends.
- The record holds the fields this file reads or writes. The header that declares the record is not part of this model, so any other field it has is missing. Fields other than `destCh`, `srcRaw` and `weight` have no meaning in the model: they are moved verbatim. The GVAR encoding of `weight` and `offset` is not modelled.
- Bit-field widths are not modelled: `destCh` and `srcRaw` are unbounded. Their widths are set in the record header, which is not part of this model.
- GetMixesCount: the 8-bit cut of the source id is modelled only in `GetMixesCountAsWritten`. It is a real difference only when `srcRaw` can hold 256 or more.
- The 8-bit `idx`, `channel` and counts do not overflow with 64 slots and 32 channels. The probe `srcRaw += 1` never passes the witnessed available source.
- InsertMixAtCurrentAsWritten: can put a mix on channel index 32 or 33, outside the output channels, when the cursor is on the line of channel number 31 or 32 (`WrapperAsWrittenLeavesRange`). In the source that value goes into the `destCh` bit-field, and the model does not cut it to that field's width.
- InsertMix requires `idx < MAX_MIXERS`. The source's empty-channel button can call it with `idx == MAX_MIXERS` on a full list (see "## Findings"). The out-of-bounds `memmove` that follows is not modelled.
- `SwapAtEdge`: states its result only for records whose channel is below MAX_OUTPUT_CHANNELS. The source's two "down" tests differ for an out-of-range channel (`==` at :468, `<` at :482), and `Swapped` models both exactly.

## Findings

| source | as written | input that shows it | evidently intended | confidence | as-written member | corrected member |
|---|---|---|---|---|---|---|
| radio/src/gui/480x272/model_mixes.cpp:439-442 | `insertMix(idx, s_currCh+1)`, but the list screen sets `s_currCh` to a channel number counted from 1 (:657, :898) | cursor on the empty line of channel 1 (`s_currCh` = 1, slot 0) while the first mix is on channel 2: the new mix gets `destCh` 2 and goes ahead of the mix with `destCh` 1, breaking the channel order. With the cursor on channel 31 or 32 the new mix gets `destCh` 32 or 33, outside the output channels (`MixSpec.WrapperAsWrittenLeavesRange`) | `insertMix(idx, s_currCh-1)` | not executed; high | `MixSpec.WrapperAsWrittenBreaksOrder` | `MixSpec.WrapperInsertKeepsWellFormed` |
| radio/src/gui/480x272/model_mixes.cpp:29-32 | `uint8_t ch; ch = mixAddress(i)->srcRaw;` keeps only the low 8 bits of the source id | a full list of 64 mixes, one of them with source id 256: `getMixesCount` returns 63 and `reachMixesLimit` returns false, so a guarded insert or copy drops the last mix | the count reads the whole source id (`if (mixAddress(i)->srcRaw != 0)`) | not executed; medium, because it depends on `srcRaw` being wider than 8 bits, which the record header decides | `MixSpec.FullListMiscounted` | `ModelMixes.MixList.ReachMixesLimit` |
| radio/src/gui/480x272/model_mixes.cpp:394-400 | the button of a channel without mixes calls `insertMix(mixIndex, ch)` without the `reachMixesLimit` check that the mix menu makes at :363 | a list with all 64 slots used: the button drops the last mix (`MixSpec.UnguardedInsertLosesLast`). When all 64 mixes are on channels below the button's channel, no slot inside the array fits the new mix (`MixSpec.FullListNoSlotForNewChannel`), so a slot the builder could use for it lies past the end; there the `memmove` length `MAX_MIXERS-(idx+1)` is negative | `if (!reachMixesLimit()) insertMix(mixIndex, ch);` | not executed; high | `MixSpec.UnguardedInsertLosesLast` | `ModelMixes.MixList.InsertOnEmptyChannel` |
