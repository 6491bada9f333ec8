# AkiraOS: models and proofs of the stateful core

A Dafny model of the parts of the AkiraOS firmware that keep state, with proofs of what they
promise. Each part has a model on values that follows the code, a class that updates buffers and
tables in place as the C code does, with loops proved against the model, and theorems over whole
runs. Most of these say that every call is answered as by a simpler machine that shares no code
with the model: one without buffers for updates, a map for settings and files, a map of regions for
the pool, a ledger for quotas, a state diagram for tasks.

| files | what they model |
|---|---|
| `OtaModel`, `OtaTheorems`, `OtaContract`, `OtaManager` | the update worker: chunks of any size through a 4096-byte buffer into an erased flash slot |
| `SettingsText`, `SdSettings`, `SdCard` | settings on the SD card: text files of `key-escapedvalue` lines |
| `FlashRegistry`, `FlashSettings`, `FlashMap`, `FlashCuts`, `FlashLives`, `FlashStore` | settings in flash: numbered NVS cells, power cuts, boots with changing limits |
| `SchedulerModel`, `SchedulerTheorems`, `SchedulerTable`, `SchedulerFairness`, `SchedulerWaiting`, `Scheduler` | the task table and its ready queue |
| `Paths`, `PathBuffers` | path normalising, sanitizing and building |
| `Resources`, `ResourceLedger`, `ResourceManager` | per-app quotas in 32-bit and 16-bit counters, and the system totals |
| `SharedMemory`, `SharedRegions`, `SharedPool` | named regions in one pool of bytes |
| `RamFiles`, `RamStore` | the RAM file store |
| `AppRegistry`, `AppCalls`, `AppManager` | the table of installed apps and its file |
| `Basics` | options, bytes, error codes, shared by the rest |

`dafny verify dfyconfig.toml` checks everything.

## How the outside world appears

Hardware and other services are parameters of a step. For the OTA worker a message comes with the
number of flash writes that succeed before one fails, and with the outcomes of opening, erasing,
reading and the boot request; a failed erase may leave anything in the slot. The flash settings
store accepts some number of cell updates and none after that, which also stands for a power cut.
File writes, memory, container starts and expired time slices are flags. Each message or public
call is one step.

## Where the code departs from what it is meant to do

The model follows the code. These are theorems, with the exact conditions:

- A failed OTA chunk may be partly accepted. Sending it again repeats those bytes, unless none
  was accepted (`OtaTheorems.RetryKeepsImageIff`).
- On the SD card a key and the same key with a leading slash are one setting
  (`SdSettings.SameSlotIff`); a key hides another that continues it with a dash
  (`SettingsText.CoexistIffSeparable`); long values are cut before they are unescaped
  (`SdSettings.GetAfterSetIff`). A delete does not check the length of its key and copies it past
  the end of its buffers if a part is as long as the limit (`SdSettings.CopiesStayInsideIff`).
- In flash a delete moves the later names down but not their values, so it is a removal only if
  no later key has a value (`FlashRegistry.DeleteIsRemovalIff`), and a value it leaves behind shows
  under a new key if a set is cut short (`FlashRegistry.CutSetShowsNoOtherIff`). The empty key is
  the one that cannot be read back (`FlashMap.SetCanBeReadIff`). A larger `max_keys` is not stored,
  so the counter may exceed the limit after a boot (`FlashMap.BootKeepsCounterWithinLimitIff`). A
  power cut in the first boot can leave a store that never comes up (`FlashMap.FirstBootCut`); so
  can one in the boot of a clear, and no other (`FlashLives.LifeWithCuts`).
- A task that is ready at the end of its own slice is queued a second time
  (`SchedulerFairness.StepKeepsCleanIff`), and may then be dispatched without being ready
  (`SchedulerFairness.RunsUnreadyIff`). Destroying it then leaves a stale entry
  (`SchedulerWaiting.DestroyKeepsSortedIff`).
- Where the compiler makes the enumeration of priorities unsigned, its comparison with -1 lets no
  task be selected (`SchedulerFairness.UnsignedSelectsIff`).
- A resource request that wraps lowers the usage (`Resources.AvailableIffGranted`), and the totals
  lose their balance in two cases (`Resources.StepBalancedIff`); those of file handles and sockets
  have 16 bits and wrap early (`Resources.SocketTotalWraps`).
- A RAM file write that finds no memory loses the old file (`RamFiles.WriteFailsIff`). An append
  that does not fit cuts the end of the old contents (`RamFiles.AppendKeepsAllIff`), and one larger
  than the scratch buffer may copy more into it than it holds, the old bytes
  (`RamFiles.CopyStaysInsideIff`) or, where the sum of the sizes wraps, the new ones
  (`RamFiles.NoSpaceIff`).
- An install whose binary cannot be saved still counts, so the next registry written may be
  rejected at the following boot (`AppRegistry.RebootFinds`).

## Model

| member | source | states |
|---|---|---|
| `OtaTheorems.FlushKeepsInv` | src/OTA/ota_manager.c:216-255 | A flush either reports the hardware's failure and changes nothing, or moves the whole buffer into flash and empties it; it never fails for another reason, because a buffer that starts on a page boundary always fits the slot. |
| `OtaTheorems.FeedKeepsInv` | src/OTA/ota_manager.c:353-403 | Accepting a chunk keeps flash followed by the buffer equal to the accepted bytes; on success all of the chunk was accepted and the buffer has room, on failure exactly a prefix was and the buffer is full. |
| `OtaTheorems.FeedSplits` | src/OTA/ota_manager.c:353-403 | Two chunks in a row do what one chunk of both does. |
| `OtaTheorems.FeedBlock` | src/OTA/ota_manager.c:364-393 | Copying a block and flushing once if it filled the buffer does what taking its bytes one at a time does. |
| `OtaTheorems.FeedResumes` | src/OTA/ota_manager.c:333-403 | After a chunk failed half-way, sending only the bytes that were not accepted ends in the state one untroubled call would have reached. |
| `OtaTheorems.MagicIsInLog` | src/OTA/ota_manager.c:433-446 | When the slot shows the image magic, at least four bytes were accepted and the first four are the magic; erased cells cannot pass for it. |
| `OtaTheorems.WriteCases` | src/OTA/ota_manager.c:319-351 | The size checks, done in 32 bits, never wrap: a chunk is refused exactly when it is empty, not expected, or beyond the slot or the announced size. |
| `OtaTheorems.StepKeepsInv` | src/OTA/ota_manager.c:491-552 | No message keeps the worker from its invariant, whatever the hardware does meanwhile. |
| `OtaTheorems.RunKeepsInv` | src/OTA/ota_manager.c:491-552 | The invariant holds after every sequence of messages. |
| `OtaTheorems.NoCellProgrammedTwice` | src/OTA/ota_manager.c:216-255 | In every run, between two erases the programming operations cover disjoint cells, start on multiples of 4096 and stay inside the slot, retries, the last partial flush and the flush of an abort included. |
| `OtaTheorems.BoundaryStates` | src/OTA/ota_manager.c:261-317 | At every message boundary receiving means the slot is open, idle and complete mean it is closed, validating and installing are never left behind, and complete means that at least four bytes, beginning with the magic, were accepted and are in flash. |
| `OtaTheorems.ChunksAppend` | src/OTA/ota_manager.c:319-404 | Successful chunks after a start add up to their concatenation, and nothing else is accepted. |
| `OtaTheorems.ImageInFlash` | src/OTA/ota_manager.c:406-459 | After a start, any successful chunks and a successful finalize, the slot holds the concatenation of the chunks followed by erased cells. |
| `OtaTheorems.ChunkingIsInvisible` | src/OTA/ota_manager.c:319-459 | Two updates with the same image leave identical flash, whatever the chunk sizes, the earlier contents and the announced sizes. |
| `OtaTheorems.FeedSucceeds` | src/OTA/ota_manager.c:353-403 | A chunk is accepted whole once the hardware grants enough flash writes for it. |
| `OtaTheorems.UpdateSucceedsIff` | src/OTA/ota_manager.c:261-459 | On working hardware an update completes exactly when no chunk is empty, the image fits the slot and the announced size, and it begins with the magic. |
| `OtaTheorems.RetryKeepsImageIff` | src/OTA/ota_manager.c:333-403 | Repeating a failed chunk yields the intended bytes exactly when nothing of it had been accepted, that is when the buffer was full before the call and its flush failed again. |
| `OtaTheorems.RetriedChunkIsTwiceInImage` | src/OTA/ota_manager.c:333-403 | A run from power-up in which the repeated chunk is in the accepted bytes twice. |
| `OtaContract.FeedExactly` | src/OTA/ota_manager.c:353-403 | The chunk loop in closed form: how many bytes of a chunk are accepted, how many stay in the buffer and what is answered, for any fill of the buffer and any number of flash writes that succeed. |
| `OtaContract.AbortAnswers` | src/OTA/ota_manager.c:461-482 | An abort answers Ok and leaves the worker idle with the slot closed; the slot holds all accepted bytes if a flash write was to be had or none was needed, and is left alone otherwise. |
| `OtaContract.StepAnswers` | src/OTA/ota_manager.c:491-552 | Every message, under any behaviour of the hardware, is answered and changes status, accepted bytes and cells as a machine without buffer and loop says. |
| `OtaContract.WorkerKeepsPromise` | src/OTA/ota_manager.c:491-552 | From power-up, every run of messages is answered as that machine answers it, and leaves its status and its cells. |
| `OtaManager.PercentInRange` | src/OTA/ota_manager.c:144-150 | The percentage stays within 0 to 100 and does not wrap in its byte while the bytes written do not exceed the total. |
| `OtaManager.FlashArea.Write` | src/OTA/ota_manager.c:238-246 | Programs the given cells, which can only clear bits, or fails and leaves the area unchanged. |
| `OtaManager.Manager.FlushWriteBuffer` | src/OTA/ota_manager.c:216-255 | Does to buffer, counters and flash what the flush of the state machine does. |
| `OtaManager.Manager.CopyChunk` | src/OTA/ota_manager.c:353-403 | The copy loop ends although a turn may copy nothing and only repeat a flush (bytes left, then buffer full, is its measure), and accepts exactly the bytes the byte-by-byte specification accepts. |
| `OtaManager.Manager.DoWriteChunk` | src/OTA/ota_manager.c:319-404 | A write message in the status record, buffer and flash is the write step of the state machine. |
| `OtaManager.Manager.DoStartUpdate` | src/OTA/ota_manager.c:261-317 | A start message is the start step: an update in progress is aborted with a flush, the slot is opened and erased, the counters are reset. |
| `OtaManager.Manager.DoFinalizeUpdate` | src/OTA/ota_manager.c:406-459 | A finalize message is the finalize step, with every exit closing the slot or leaving it as the source does. |
| `OtaManager.Manager.DoAbortUpdate` | src/OTA/ota_manager.c:461-482 | An abort flushes what it can, closes the slot and returns to idle. |
| `OtaManager.Manager.Serve` | src/OTA/ota_manager.c:491-552 | One turn of the worker thread is one step of the state machine, error latching included, and leaves the percentage at most 100 and at most one report interval behind. |
| `SettingsText.UnescapeUndoesEscape` | src/.akira_settings/akira_settings.c:976-1025 | Unescaping an escaped value gives the value back, for every value. |
| `SettingsText.EscapedIsOneLine` | src/.akira_settings/akira_settings.c:976-1002 | An escaped value contains neither a newline nor a carriage return. |
| `SettingsText.CutUnescapeIff` | src/.akira_settings/akira_settings.c:1082-1090 | A value whose escaped form is cut comes back whole exactly when nothing was cut, or only the second half of a final escaped backslash. |
| `SettingsText.EscapeIsByCharacter` | src/.akira_settings/akira_settings.c:976-1002 | Escaping goes character by character: the two line breaks and the backslash get a backslash before their letter, everything else stays. |
| `SettingsText.CutReadsBack` | src/.akira_settings/akira_settings.c:1082-1095 | A value cut in its escaped form reads back as the characters whose escaped forms fit, and a lone backslash where one is cut in half. |
| `SettingsText.ReadBackIsLongest` | src/.akira_settings/akira_settings.c:1082-1095 | That is the longest beginning of the value whose escaped form fits. |
| `SettingsText.SetTextPrints` | src/.akira_settings/akira_settings.c:1178-1235 | On the text of a list of settings, the rewriting of a set gives the text of the updated list. |
| `SettingsText.GetTextFinds` | src/.akira_settings/akira_settings.c:1073-1107 | On the text of a list of settings, the scan of a get finds the key's value and nothing else. |
| `SettingsText.DeleteTextPrints` | src/.akira_settings/akira_settings.c:1322-1352 | On the text of a list of settings, the rewriting of a delete gives the text of the list without the key. |
| `SettingsText.SetEntriesSets` | src/.akira_settings/akira_settings.c:1178-1235 | Setting a key in the list changes what is looked up under that key only, and keeps at most one entry a key. |
| `SettingsText.DeleteEntriesDeletes` | src/.akira_settings/akira_settings.c:1322-1352 | Deleting a key from the list removes that key only, and keeps at most one entry a key. |
| `SettingsText.DashlessKeysAreADomain` | src/.akira_settings/akira_settings.c:1077-1077 | Keys without a dash or newline never match another key's line. |
| `SettingsText.CoexistIffSeparable` | src/.akira_settings/akira_settings.c:1077-1077 | Two keys keep out of each other's way, for all values and both orders, exactly when neither is the other followed by a dash. |
| `SdSettings.SameSlotIff` | src/.akira_settings/akira_settings.c:926-945 | Two full keys name the same setting only if they are equal or differ by a leading slash before a key without any. |
| `SdSettings.SplitsAtLastSlash` | src/.akira_settings/akira_settings.c:926-945 | A full key is split at its last slash; one without a slash has no namespace. |
| `SdSettings.FileOfNamespace` | src/.akira_settings/akira_settings.c:947-956 | The file of a namespace is in a directory of its name and is named after the part behind its last slash. |
| `SdSettings.PathsAreDistinct` | src/.akira_settings/akira_settings.c:947-956 | The paths of different namespaces are different texts. |
| `SdSettings.SharedFileIff` | src/.akira_settings/akira_settings.c:947-956 | On a card that ignores the case of letters two namespaces share a file exactly if they differ in nothing but case. |
| `SdSettings.CopiesStayInsideIff` | src/.akira_settings/akira_settings.c:926-945 | A call copies the parts of its key past the end of their buffers exactly if it is a delete whose key, before or behind the last slash, is as long as the limit; sets and gets check the length first. |
| `SdSettings.LongDeleteOverruns` | src/.akira_settings/akira_settings.c:1834-1872 | A run that reaches such a copy: with a limit of 32, the delete of a key of 40 characters. |
| `SdSettings.StepRefines` | src/.akira_settings/akira_settings.c:1027-1372 | One call on the files returns what it returns on a finite map, an overrun included, and leaves the files of the updated map. |
| `SdSettings.RunRefines` | src/.akira_settings/akira_settings.c:1027-1372 | The same for every run of calls, with file writes failing at will. |
| `SdSettings.CardIsAMap` | src/.akira_settings/akira_settings.c:1027-1372 | From an empty card and over separable keys, every run of sets, gets and deletes returns what it returns on a finite map (a delete reports a missing key exactly when there is none, and a key too long for its buffers is an overrun), and every file stays a list of lines with at most one a key. |
| `SdSettings.ShownWholeIff` | src/.akira_settings/akira_settings.c:1082-1095 | The caller's buffer holds the whole value exactly when its escaped form fits the limit, short of a final backslash, and the value fits the buffer. |
| `SdSettings.GetAfterSetIff` | src/.akira_settings/akira_settings.c:1027-1266 | A get right after a set returns the stored value exactly under that condition. |
| `SdSettings.GetShowsStored` | src/.akira_settings/akira_settings.c:1027-1266 | In every run from an empty card over separable keys, a get answers with the value last stored and not deleted since, cut as little as the store's limit and the caller's buffer demand: whole characters, a lone backslash at most, and exactly the first characters that fit the buffer if the escaped value fits the limit. |
| `SdCard.EscapeValue` | src/.akira_settings/akira_settings.c:976-1002 | Fills a buffer of twice the length plus one with the escaped value, within bounds. |
| `SdCard.UnescapeValue` | src/.akira_settings/akira_settings.c:1004-1025 | Fills a buffer no longer than the text plus one with the unescaped value, within bounds. |
| `SdCard.RewriteForSet` | src/.akira_settings/akira_settings.c:1178-1235 | The rewriting loop writes the updated text and never past old size plus new line plus one. |
| `SdCard.RewriteForDelete` | src/.akira_settings/akira_settings.c:1322-1352 | The rewriting loop writes the text without the key's lines and says whether there was one. |
| `SdCard.FindRaw` | src/.akira_settings/akira_settings.c:1073-1107 | The scanning loop finds the escaped value of the key's first line, or nothing. |
| `SdCard.ParseInto` | src/.akira_settings/akira_settings.c:926-945 | Copies the two parts of a key into buffers of the limit, or reports that one of them does not fit with its terminator. |
| `SdCard.Card.SetValue` | src/.akira_settings/akira_settings.c:1110-1266 | Replaces the namespace's file by the updated text, or changes nothing when the write fails. |
| `SdCard.Card.GetValue` | src/.akira_settings/akira_settings.c:1027-1108 | Returns the value as the limits of store and caller's buffer leave it, or that there is none. |
| `SdCard.Card.DeleteValue` | src/.akira_settings/akira_settings.c:1268-1372 | Removes the key's line, and the file with its last line; reports a missing key, and a key that leaves the buffers it is parsed into. |
| `FlashRegistry.IdsNeverCollide` | src/.akira_settings/akira_settings.c:695-762 | Name cells, value cells and the three control cells of up to 100 keys are all different. |
| `FlashRegistry.SetRepresents` | src/.akira_settings/akira_settings.c:1376-1398 | A set cut after any of its cell updates leaves cells that represent the old registry, the old one with the name added, or the finished one. |
| `FlashRegistry.CutSetIsHarmless` | src/.akira_settings/akira_settings.c:1376-1398 | In a store without left-over values, a set cut short leaves a sound registry, every other key its value, and the key itself its old value or none or the new one; run to its end it has stored the new one. |
| `FlashRegistry.HeldAfterSet` | src/.akira_settings/akira_settings.c:1376-1398 | After any of the updates of a set every other key has its old value; the key itself has its old value, after the last update the new one, and in between, if it is new, whatever value a delete has left at its position. |
| `FlashRegistry.CutSetShowsNoOtherIff` | src/.akira_settings/akira_settings.c:1376-1398 | Wherever it is cut, a set leaves its key with the old value, none or the new one exactly when the key was registered or no delete has left another value at its position. |
| `FlashRegistry.DeleteRepresents` | src/.akira_settings/akira_settings.c:812-872 | A delete drops the name and empties the value cell at its old position: later names move down, their values do not. |
| `FlashRegistry.HeldAfterDrop` | src/.akira_settings/akira_settings.c:1509-1523 | After a delete the deleted key is gone, earlier keys keep their values, the next key has lost its value, and each later key shows its predecessor's. |
| `FlashRegistry.DeleteIsRemovalIff` | src/.akira_settings/akira_settings.c:1509-1523 | A delete removes one key and does nothing else exactly when no key registered later has a value. |
| `FlashSettings.ResizeKeepsValid` | src/.akira_settings/akira_settings.c:276-335 | A resize never puts the length limit under a stored text, and leaves names and values alone. |
| `FlashSettings.BootKeepsValid` | src/.akira_settings/akira_settings.c:337-410 | A boot over an existing store, with any configured limits, never lowers the length limit under stored texts. |
| `FlashSettings.GetReadsWhole` | src/.akira_settings/akira_settings.c:1424-1507 | A get returns the whole stored value if the caller's buffer is large enough; no cell read is cut short. |
| `FlashSettings.StepKeepsValid` | src/.akira_settings/akira_settings.c:1733-1905 | Every boot and every public call, a set cut short included, keeps the cells a sound registry under the limit in use, unless it sets the empty key or is cut where a value too long for the limit was left behind. |
| `FlashSettings.LifeKeepsNames` | src/.akira_settings/akira_settings.c:461-512 | Over every life of whole calls and boots and of sets cut short, whatever the configured limits and the keys, the empty key included: the device comes up, the counter is at most 100, the stored length limit is the one in use, and every registered name is in its cell and read whole. |
| `FlashSettings.LifeKeepsCellsReadable` | src/.akira_settings/akira_settings.c:461-512 | Over every such life without a set of the empty key, and without a set cut short where too long a value was left behind, moreover every registered name is found in its own cell and every value is shorter than the limit. The empty key costs that: its name cannot be found, its value lies in a name cell, and its own value cell keeps what was left there. |
| `FlashMap.StepIsIdeal` | src/.akira_settings/akira_settings.c:1376-1585 | One call, boot or cut set returns what it returns on a bounded map and leaves the updated map, unless it sets the empty key or deletes a key behind which another has a value. |
| `FlashMap.FlashIsAMap` | src/.akira_settings/akira_settings.c:1376-1585 | From a first boot, every run of sets, gets, resizes, clears, boots with any limits, sets cut short, and deletes of keys behind which no other has a value returns what it returns on a bounded map; so settings persist. |
| `FlashMap.OnlyLastDeleteIsRemoval` | src/.akira_settings/akira_settings.c:812-872 | With a value behind every key, a delete is a map removal exactly for the key registered last. |
| `FlashMap.SetCanBeReadIff` | src/.akira_settings/akira_settings.c:1376-1398 | What a set has stored can be read back exactly if the key is not empty. |
| `FlashMap.EmptyKeyIsLost` | src/.akira_settings/akira_settings.c:695-762 | Setting the empty key reports success, uses up a position, and puts the value into the cell of the hundredth name. |
| `FlashMap.BootKeepsCounterWithinLimitIff` | src/.akira_settings/akira_settings.c:372-387 | After a boot the counter is within the key limit exactly when it was within the stored one, or is within a configured one that was adopted. |
| `FlashMap.CounterExceedsLimit` | src/.akira_settings/akira_settings.c:372-387 | A run from the first boot after which the counter exceeds the limit in use. |
| `FlashMap.LeftValueShows` | src/.akira_settings/akira_settings.c:812-872 | A run from the first boot in which a new key shows the value another key's delete has left behind. |
| `FlashMap.FirstBootCut` | src/.akira_settings/akira_settings.c:461-512 | A power cut in the first boot leaves a device that boots again exactly when it fell before the first cell or after the last. |
| `FlashCuts.CutDeleteShows` | src/.akira_settings/akira_settings.c:812-872 | Wherever a delete is cut short, earlier keys show their values, the deleted one nothing, and each later one its own value or, once its name has moved, what its predecessor's cell holds. |
| `FlashCuts.CutBootRecovers` | src/.akira_settings/akira_settings.c:337-410 | However early a boot over a sound store is cut, whatever limits it was to adopt, the registry stays and the next whole boot comes up with it. |
| `FlashCuts.EnoughUpdates` | src/.akira_settings/akira_settings.c:276-335 | The step-by-step descriptions of a resize and a boot agree with the whole ones once two and three updates are accepted. |
| `FlashCuts.CutResizeShows` | src/.akira_settings/akira_settings.c:276-335 | A resize that is cut fails, leaves the limits in use as they were and may have changed the stored length limit only; one that is refused changes nothing. |
| `FlashLives.FirstBootLives` | src/.akira_settings/akira_settings.c:461-512 | A boot over an empty store, cut anywhere, leaves it empty, marked but without limits, or complete, as it was cut before the first, before the third or after the third update. |
| `FlashLives.BootLives` | src/.akira_settings/akira_settings.c:337-410 | A boot cut anywhere keeps every store that can come up so, unless the store was empty; and a boot that makes all its updates comes up exactly over a store that is not marked without its limits. |
| `FlashLives.CutLives` | src/.akira_settings/akira_settings.c:1376-1585 | A call or boot cut after any number of updates leaves a store marked without its limits exactly if it was one, or if the boot over an empty store was cut between its first and third update; any other store stays empty or keeps a counter of at most 100, its limits and names short enough for them. |
| `FlashLives.RunLives` | src/.akira_settings/akira_settings.c:461-512 | Over every life in which the power may be cut in any call or boot, the store is marked without its limits exactly if a boot over an empty store was cut between its first and third update. |
| `FlashLives.LifeWithCuts` | src/.akira_settings/akira_settings.c:442-512 | Over every such life the next boot comes up exactly if that has never happened; and while the device is up the counter is at most 100, the stored length limit is the one in use, and every registered name is in its cell and read whole, or its cell is erased. |
| `FlashLives.DownUntilBoot` | src/.akira_settings/akira_settings.c:1733-1740 | A device that is down refuses every call and leaves its cells alone until it is booted. |
| `FlashStore.Store.RegistryGetIndex` | src/.akira_settings/akira_settings.c:695-726 | The loop over the name cells returns the first index that carries the key. |
| `FlashStore.Store.RegistryAddKey` | src/.akira_settings/akira_settings.c:729-762 | Writes the name cell and then the counter, as far as the store accepts updates. |
| `FlashStore.Store.SettingsSet` | src/.akira_settings/akira_settings.c:1376-1398 | Makes exactly the first updates of a set that the store accepts, and succeeds exactly if it accepts all. |
| `FlashStore.Store.SettingsDelete` | src/.akira_settings/akira_settings.c:1509-1523 | Does, cell by cell, the delete of the specification while the store accepts updates. |
| `FlashStore.Store.SettingsGet` | src/.akira_settings/akira_settings.c:1424-1507 | Returns what the specification reads. |
| `FlashStore.Store.Resize` | src/.akira_settings/akira_settings.c:276-335 | Is the resize of the specification for any number of accepted updates: with fewer than two it fails, and the limits in memory stay. |
| `FlashStore.Store.Init` | src/.akira_settings/akira_settings.c:442-512 | Is the boot of the specification for any number of accepted updates. |
| `FlashStore.Store.Clear` | src/.akira_settings/akira_settings.c:1549-1560 | Wipes the cells, takes the configured limits and is a boot of the specification. |
| `SchedulerTheorems.RemoveTakesOne` | src/resource/scheduler.c:122-134 | Removing a task takes one of its entries out of the queue and no other. |
| `SchedulerTheorems.AddPutsAtMostOne` | src/resource/scheduler.c:91-117 | Adding a task puts in one entry, or none when the queue is full or the task is gone. |
| `SchedulerTheorems.StepKeeps` | src/resource/scheduler.c:273-611 | No call, in any order, leaves a handle queued more often than its state allows. |
| `SchedulerTheorems.NeverQueuedMoreThanTwice` | src/resource/scheduler.c:91-134 | In every run as written no handle is queued more than twice; it is queued at most once unless it is a ready task outside its own slice, never while blocked; and the queue never outgrows its array. |
| `SchedulerTable.StepMovesTasks` | src/resource/scheduler.c:229-606 | Every step does to every slot of the table what the state diagram of a task says, and to slots it does not concern nothing. |
| `SchedulerTable.StepMovesTurn` | src/resource/scheduler.c:273-606 | Whose turn it is and whose slice is running after every step; an expired tick and the end of a slice leave nobody's turn. |
| `SchedulerTable.PriorityIsSet` | src/resource/scheduler.c:365-385 | A change of priority gives a task that priority in whatever state it is, and changes nothing else in the table. |
| `SchedulerTable.TableAfterRun` | src/resource/scheduler.c:229-385 | In every run a slot is in use exactly if a task was created in it and not destroyed since, and its priority is the one it was given last. |
| `SchedulerTable.QueueSortedByLastPriority` | src/resource/scheduler.c:91-134 | So the queue is sorted by the priorities given last, in all runs whose queue stays sorted. |
| `SchedulerTable.StartsWithLastPriority` | src/resource/scheduler.c:229-385 | A task that is created, given another priority and started is queued behind all tasks with that priority or a higher one and in front of all others. |
| `SchedulerFairness.InsertIntoOrdered` | src/resource/scheduler.c:100-116 | Insertion keeps the queue sorted by falling priority and, within a priority, by the time of queueing. |
| `SchedulerFairness.RoomForOneMore` | src/resource/scheduler.c:93-95 | A duplicate-free queue that misses one task has room for it. |
| `SchedulerFairness.StepKeepsCleanIff` | src/resource/scheduler.c:273-611 | A step keeps the queue exact, duplicate-free and sorted exactly when it is not the end of a slice whose task is ready and finds room. |
| `SchedulerFairness.RunIsCleanIff` | src/resource/scheduler.c:546-611 | A run from power-up has such a queue throughout exactly when no step of it is of that kind. |
| `SchedulerFairness.CleanRunsQueueExactlyTheReady` | src/resource/scheduler.c:91-134 | In such runs the queue holds exactly the ready tasks, each once, by falling priority; so the full-queue guard never drops one. |
| `SchedulerFairness.SelectIsFirstOfBest` | src/resource/scheduler.c:139-200 | If priorities compare as signed numbers: between cycles the scans return the first queued task of the highest priority, or nothing exactly when no queued task exists any more. |
| `SchedulerFairness.UnsignedSelectsIff` | src/resource/scheduler.c:152-200 | If they compare as unsigned numbers, the search starts above all of them: something is selected only if a queued task has the largest 32-bit number for its priority. |
| `SchedulerFairness.UnsignedNeverDispatches` | src/resource/scheduler.c:546-576 | Then no run whose priorities are below that number, as the constants 0 to 4 are, ever dispatches a task. |
| `SchedulerFairness.DispatchesLongestWaiting` | src/resource/scheduler.c:546-576 | With the signed comparison, in a clean state the cycle runs the head of the queue, which has the highest priority and, in it, has waited longest. |
| `SchedulerFairness.AheadIsInFront` | src/resource/scheduler.c:100-116 | The tasks that go before a queued task are those in front of it in the queue. |
| `SchedulerFairness.WaitShrinks` | src/resource/scheduler.c:546-606 | With the signed comparison, while a task waits, and no strictly higher priority is queued, nobody gets in front of it and each cycle takes one task away from there. |
| `SchedulerFairness.WaitIsBounded` | src/resource/scheduler.c:546-606 | No starvation, with the signed comparison: over a whole run, a task with n tasks ahead waits through at most n cycles under that condition. |
| `SchedulerFairness.YieldQueuesTwice` | src/resource/scheduler.c:418-442 | A task that yields is queued twice when its slice ends. |
| `SchedulerFairness.RunsUnreadyIff` | src/resource/scheduler.c:572-606 | From a clean state a step queues a task a second time exactly when, without another such step, the run can be continued to the dispatch of a task that is not ready. |
| `SchedulerFairness.OwedIsPaid` | src/resource/scheduler.c:546-606 | The continuation needs no caller: running cycles to their end is enough. |
| `SchedulerFairness.YieldedTaskRunsAfterItsEnd` | src/resource/scheduler.c:594-598 | A run from power-up in which a task that yielded once is dispatched again after it has been terminated. |
| `SchedulerWaiting.StepIsRemoveThenAdd` | src/resource/scheduler.c:273-611 | Every step takes the first entry of one task at most out of the queue and then puts one in at most. |
| `SchedulerWaiting.StepKeepsSorted` | src/resource/scheduler.c:273-611 | Every step, yields and slices that end ready included, keeps the queue sorted by falling priority, unless it destroys a task or changes the priority of one that has another entry in the queue. |
| `SchedulerWaiting.DestroyKeepsSortedIff` | src/resource/scheduler.c:273-295 | After a task is destroyed the queue is still sorted and free of stale entries exactly if the task had one entry at most. |
| `SchedulerWaiting.QueueStaysSorted` | src/resource/scheduler.c:91-134 | So in every run as written without those two steps the queue is sorted and holds only tasks in use, queued twice or not. |
| `SchedulerWaiting.CleanRunIsMild` | src/resource/scheduler.c:91-134 | Every run whose queue stays free of duplicates is one of these. |
| `SchedulerWaiting.AddStaysBehind` | src/resource/scheduler.c:100-116 | A task that does not outrank another is inserted behind the other's first entry. |
| `SchedulerWaiting.FrontShrinks` | src/resource/scheduler.c:546-606 | With the signed comparison, while an entry waits nothing gets in front of it, and each cycle takes one entry away from there. |
| `SchedulerWaiting.WaitAsWrittenIsBounded` | src/resource/scheduler.c:546-606 | No starvation in the runs as written, with the signed comparison: after any run with tasks that yield or are preempted and are queued twice, a task with n entries in front of it waits through at most n cycles, unless a task of a strictly higher priority is queued. |
| `Scheduler.SchedState.AddToReadyQueue` | src/resource/scheduler.c:91-117 | Searching and shifting in the array give the model's insertion. |
| `Scheduler.SchedState.RemoveFromReadyQueue` | src/resource/scheduler.c:122-134 | Shifting down gives the model's removal. |
| `Scheduler.SchedState.SelectNextTask` | src/resource/scheduler.c:139-200 | The three scans give the model's selection, for either comparison; the last finds nothing the second pass missed. |
| `Scheduler.SchedState.CreateTask` | src/resource/scheduler.c:229-271 | Takes the first free slot, or fails exactly when every slot is in use. |
| `Scheduler.SchedState.DestroyTask` | src/resource/scheduler.c:273-295 | Is the model's step on the tables, with the source's return code. |
| `Scheduler.SchedState.StartTask` | src/resource/scheduler.c:297-320 | Is the model's step on the tables, with the source's return code. |
| `Scheduler.SchedState.SuspendTask` | src/resource/scheduler.c:322-339 | Is the model's step on the tables, with the source's return code. |
| `Scheduler.SchedState.ResumeTask` | src/resource/scheduler.c:341-363 | Is the model's step on the tables, with the source's return code. |
| `Scheduler.SchedState.ChangeTaskPriority` | src/resource/scheduler.c:365-385 | Is the model's step on the tables, with the source's return code. |
| `Scheduler.SchedState.YieldTask` | src/resource/scheduler.c:418-442 | Is the model's step on the tables. |
| `Scheduler.SchedState.BlockTask` | src/resource/scheduler.c:444-459 | Is the model's step on the tables. |
| `Scheduler.SchedState.UnblockTask` | src/resource/scheduler.c:461-484 | Is the model's step on the tables, with the source's return code. |
| `Scheduler.SchedState.TickTimer` | src/resource/scheduler.c:486-531 | Is the model's step on the tables. |
| `Scheduler.SchedState.BeginCycle` | src/resource/scheduler.c:533-576 | Up to the call of the entry function, is the model's first half of a cycle, for either comparison. |
| `Scheduler.SchedState.EndCycle` | src/resource/scheduler.c:585-611 | After the entry function has returned, is the model's second half of a cycle. |
| `Paths.NormalizeIsCanonical` | src/lib/path_utils.c:123-160 | Normalising is splitting at the slashes and joining again, with one slash in front if there was one. |
| `Paths.NormalizeKeepsMeaning` | src/lib/path_utils.c:123-160 | The list of non-empty segments and whether the path is absolute survive. |
| `Paths.NormalizeIff` | src/lib/path_utils.c:123-160 | Two paths have the same normal form exactly when segments and absoluteness are the same. |
| `Paths.NormalizeIsIdempotent` | src/lib/path_utils.c:123-160 | Normalising twice is normalising once. |
| `Paths.NormalizeLeavesNoExtraSlash` | src/lib/path_utils.c:134-157 | No slash follows another, and none ends a path other than the root. |
| `Paths.SegmentsOfJoin` | src/lib/path_utils.c:123-160 | Splitting undoes joining. |
| `Paths.SegmentsOfJoined` | src/lib/path_utils.c:59-119 | The built path has the segments of base, app and file, in that order. |
| `Paths.BuiltIsNormal` | src/lib/path_utils.c:59-119 | A path that is built of normal parts is normal: building adds no slash that normalising would take away. |
| `Paths.SafeIff` | src/lib/path_utils.c:18-50 | Refused are exactly the empty path, an absolute one, one with two dots in a row inside any of its segments, and one that does not fit its buffer; each with its own answer. |
| `Paths.SafeStaysBelow` | src/lib/path_utils.c:18-50 | A sanitized file resolves to a place below base and app, reached by the file's own names. |
| `Paths.SafeStaysBelowIff` | src/lib/path_utils.c:18-119 | For an app name of one segment, it stays in the app's directory exactly when the app is not called `.` or `..`. |
| `PathBuffers.NormalizePath` | src/lib/path_utils.c:123-160 | Normalises in place, terminates the result, and touches nothing behind the old terminator. |
| `PathBuffers.BuildPath` | src/lib/path_utils.c:59-119 | Writes the joined path and succeeds exactly when it fits with its terminator; otherwise leaves a terminated beginning of it. |
| `Resources.StepBalancedIff` | src/resource/resource_manager.c:168-438 | The system total stays the sum over the registered apps plus what was dropped, exactly unless a granted request makes the total, with the app's new usage in place of its old, too large for its counter (16 bits for file handles and sockets, 32 bits otherwise), or a release exceeds the app's usage. |
| `Resources.RequestBalancedIff` | src/resource/resource_manager.c:256-304 | The same for a request: the sums are 32-bit, and the stored ones are cut to the width of their fields. |
| `Resources.ReleaseBalancedIff` | src/resource/resource_manager.c:306-340 | The same for a release. |
| `Resources.TotalIsSumPlusDropped` | src/resource/resource_manager.c:205-225 | Conservation over every run without those two kinds of step, with what unregistering and single resets drop accounted for. |
| `Resources.SocketTotalWraps` | src/resource/resource_manager.c:117-138 | A run from power-up in which two apps are granted 40000 sockets each within their quotas, and the total says 14464. |
| `Resources.StepStaysWithinIff` | src/resource/resource_manager.c:234-340 | No app exceeds its quota, wrap-around or not, exactly until a quota is set below what is used. |
| `Resources.RunStaysWithinIff` | src/resource/resource_manager.c:234-340 | The same over every run. |
| `Resources.AvailableIffGranted` | src/resource/resource_manager.c:382-403 | The availability query answers yes exactly when the request would be granted; but a granted request whose sum reaches 2^32 lowers the usage. |
| `ResourceLedger.StepServes` | src/resource/resource_manager.c:168-438 | One call on the table answers and does what it would on a ledger of accounts by app id: quotas as given or by default, usages and totals in the width of their fields. |
| `ResourceLedger.TableKeepsPromise` | src/resource/resource_manager.c:168-438 | Every run of calls from power-up returns what it returns on the ledger, and leaves its quotas, usages and totals. |
| `ResourceManager.Table.RegisterApp` | src/resource/resource_manager.c:168-203 | Takes a free slot with zero usage, or reports the duplicate or the full table. |
| `ResourceManager.Table.UnregisterApp` | src/resource/resource_manager.c:205-225 | Frees the slot and leaves the system total alone. |
| `ResourceManager.Table.UpdateAppQuota` | src/resource/resource_manager.c:234-254 | Sets the quota of a registered app, lower than its usage or not. |
| `ResourceManager.Table.RequestAmount` | src/resource/resource_manager.c:256-304 | Is the model's request on the tables, 16-bit fields included, with its return code. |
| `ResourceManager.Table.ReleaseAmount` | src/resource/resource_manager.c:306-340 | Is the model's release on the tables, with its return code. |
| `ResourceManager.Table.ResourceAvailable` | src/resource/resource_manager.c:382-403 | Answers as the model's query does. |
| `ResourceManager.Table.ResetAppUsage` | src/resource/resource_manager.c:405-438 | Clears one app, or for id 0 all apps and the system total. |
| `SharedMemory.StepKeepsSeparate` | src/ipc/shared_memory.c:116-134 | Every call keeps the live regions 8-aligned, inside the used part of the pool and pairwise apart. |
| `SharedMemory.StepIsPrivate` | src/ipc/shared_memory.c:173-465 | One call on the pool is the same call on private memories, with the same reply. |
| `SharedMemory.PoolIsPrivateMemories` | src/ipc/shared_memory.c:173-465 | Every run on the pool gives the replies of the same run on a private memory for each region. |
| `SharedMemory.LiveRegionsShareNothing` | src/ipc/shared_memory.c:116-134 | In every run two live regions share no byte. |
| `SharedMemory.ReadAfterWrite` | src/ipc/shared_memory.c:421-465 | After a write its region holds the data, clipped to the region's end, and every other region is as before. |
| `SharedMemory.RefsAreOpensMinusCloses` | src/ipc/shared_memory.c:236-290 | In every run of fewer than 2^32 calls a live region's count is 1 plus its opens minus its closes, and never 0. |
| `SharedMemory.SpaceIsNeverReused` | src/ipc/shared_memory.c:136-149 | The used part of the pool is the space of all regions ever created. |
| `SharedMemory.CreatedIff` | src/ipc/shared_memory.c:173-213 | A region is created exactly if its size is not 0, no live region has the name, a slot is free, and the space of all regions ever created leaves room. |
| `SharedMemory.SetPermissionTakesEffect` | src/ipc/shared_memory.c:359-388 | A permission that is set decides for its app and changes nothing for others. |
| `SharedRegions.StepServes` | src/ipc/shared_memory.c:86-465 | One call answers and does what it would on a map from handles to regions, each with bytes, permissions and a count of its own. |
| `SharedRegions.PoolKeepsPromise` | src/ipc/shared_memory.c:173-465 | Every run of calls on the pool returns what it returns on that map. |
| `SharedRegions.DestroyFrees` | src/ipc/shared_memory.c:292-313 | A region is destroyed exactly if its owner asks for it; then every use of its handle fails, and every other region is as it was, bytes included. |
| `SharedRegions.DestroyedNameIsFree` | src/ipc/shared_memory.c:292-313 | The name of a destroyed region can be created again while there is space, and not be opened. |
| `SharedRegions.LiveIffAlive` | src/ipc/shared_memory.c:173-313 | In every run of fewer than 2^32 calls a handle is good exactly if a region was created in it and since then neither destroyed nor closed as often as created and opened. |
| `SharedPool.ShmemState.CreateRegion` | src/ipc/shared_memory.c:173-234 | Is the model's create on tables and pool, cleared bytes included. |
| `SharedPool.ShmemState.OpenRegion` | src/ipc/shared_memory.c:236-266 | Is the model's open, permission check included. |
| `SharedPool.ShmemState.CloseRegion` | src/ipc/shared_memory.c:268-290 | Is the model's close: the last one frees the slot. |
| `SharedPool.ShmemState.DestroyRegion` | src/ipc/shared_memory.c:292-313 | Is the model's destroy, for the owner only. |
| `SharedPool.ShmemState.SetRegionPermission` | src/ipc/shared_memory.c:359-388 | Is the model's permission change: replace, append, or report a full list. |
| `SharedPool.ShmemState.ReadRegion` | src/ipc/shared_memory.c:421-442 | Returns the bytes of the region's private memory, clipped, or the error. |
| `SharedPool.ShmemState.WriteRegion` | src/ipc/shared_memory.c:444-465 | Changes the region's private memory as the model does, and no other's. |
| `RamFiles.WriteRefines` | src/storage/fs_manager.c:86-117 | A write returns what it returns on the map of contents and buffer sizes, and leaves the updated map. |
| `RamFiles.WriteFailsIff` | src/storage/fs_manager.c:86-117 | A write fails exactly when a new path finds no slot, or when there is no memory and the data do not fit the path's buffer; and a failed write leaves the files as they were exactly when the path was not among them. |
| `RamFiles.ReadIsLookup` | src/storage/fs_manager.c:119-133 | A read is a lookup, clipped to the caller's buffer. |
| `RamFiles.DeleteIsRemovalIff` | src/storage/fs_manager.c:135-151 | A delete is a map removal, and succeeds exactly when the path is there. |
| `RamFiles.AppendRefines` | src/storage/fs_manager.c:457-483 | An append does what it does on the map: it keeps as many old bytes as fit before the new ones, or finds no space, or overruns the scratch buffer. |
| `RamFiles.CopyStaysInsideIff` | src/storage/fs_manager.c:464-472 | The copy of the old contents stays inside the scratch buffer exactly when the new bytes are at most its size, so that the unsigned difference does not wrap, or the old contents are. |
| `RamFiles.OversizedAppendOverruns` | src/storage/fs_manager.c:464-472 | A run from power-up that reaches the other case. |
| `RamFiles.NoSpaceIff` | src/storage/fs_manager.c:474-482 | For new bytes beyond the scratch buffer: no space is reported exactly if the old contents are within it and the sum of the sizes does not wrap; otherwise one of the two copies leaves the buffer. |
| `RamFiles.AppendKeepsAllIff` | src/storage/fs_manager.c:464-483 | A granted append leaves the beginning of the old contents that fits the scratch buffer with the new bytes behind it, all of it exactly if both fit. |
| `RamFiles.StoreIsAMap` | src/storage/fs_manager.c:55-151 | In every run each call returns what it returns on the map, with paths once each and sizes within capacities. |
| `RamStore.Table.CreateFile` | src/storage/fs_manager.c:64-84 | Returns the slot of the path, or takes the first free one for it. |
| `RamStore.Table.WriteFile` | src/storage/fs_manager.c:86-117 | Is the model's write on the table. |
| `RamStore.Table.ReadFile` | src/storage/fs_manager.c:119-133 | Is the model's read. |
| `RamStore.Table.DeleteFile` | src/storage/fs_manager.c:135-151 | Is the model's delete on the table. |
| `RamStore.Table.AppendFile` | src/storage/fs_manager.c:456-483 | Is the model's append, copying through a scratch buffer within its bounds. |
| `AppRegistry.StepKeepsSound` | src/services/app_manager.c:172-596 | Every call and every reboot keeps app names unique, in the table and in the file, and at most two apps running. |
| `AppRegistry.BootIsSound` | src/services/app_manager.c:1088-1139 | A boot, from any file the manager can have written or any with another header, leaves unique names, nothing running, and a count that equals the number of apps. |
| `AppRegistry.CountIsAppsPlusFailures` | src/services/app_manager.c:220-271 | In every run the count is the number of apps plus the number of installs since the last boot whose binary could not be saved, in a byte. |
| `AppRegistry.RebootRestoresIff` | src/services/app_manager.c:1088-1179 | After a save the boot finds, in slot order, without containers and with running turned to installed, as many apps as the count says, cut to eight, and none if there are fewer; so all exactly if there are none or that count is right. |
| `AppRegistry.RebootFinds` | src/services/app_manager.c:256-271 | Over a run that has just saved: what the following boot finds depends on the number of apps plus the installs that failed since the last boot, in a byte; all apps, a beginning of them, or none, as that number says. |
| `AppRegistry.OneFailureLosesAllApps` | src/services/app_manager.c:256-271 | With fewer than 248 failed installs: all apps survive if none has failed or the table is full, and none survives otherwise. |
| `AppRegistry.FailedInstallLosesTheNextApp` | src/services/app_manager.c:256-271 | A run of two installs from power-up after which the boot finds no app. |
| `AppRegistry.SaveAndLoadAgain` | src/services/app_manager.c:1088-1179 | A second save and load changes nothing. |
| `AppCalls.UninstallRemoves` | src/services/app_manager.c:401-445 | An uninstall succeeds exactly if an app of that name is there and is not preloaded; then it clears that entry and no other, counts one app less and saves what is left. |
| `AppCalls.UninstalledStaysGone` | src/services/app_manager.c:401-445 | After an uninstall whose registry was saved, the name is neither in the table nor in the file in any later run, boots included, until it is installed again. |
| `AppCalls.InstallPuts` | src/services/app_manager.c:170-310 | An install is refused exactly for a bad or too large binary or a new name without a free slot; otherwise the app is in its old slot or the first free one with every field as demanded, or gone from there if its binary cannot be saved, and no other slot changes. |
| `AppCalls.StartRuns` | src/services/app_manager.c:449-550 | A start succeeds exactly if the app runs already, or fewer than two run and the runtime makes its container and starts it; every way to fail leaves the entry, the crash count included, as the source does. |
| `AppCalls.StopHalts` | src/services/app_manager.c:552-596 | A stop succeeds exactly if the app does not run, or has a container and the runtime stops it; then it is stopped and nothing else changes. |
| `AppCalls.TwoRunAtMost` | src/services/app_manager.c:449-550 | In every run two apps run at most. |
| `AppCalls.SavesInOrder` | src/services/app_manager.c:1141-1179 | The file holds the entries with a name in slot order behind a header the loader accepts. |
| `AppCalls.BootTakes` | src/services/app_manager.c:1088-1139 | A boot takes as many records as the header counts, eight at most, with no container and nothing running, and nothing from a file that is missing, foreign or too short. |
| `AppManager.Table.SaveRegistry` | src/services/app_manager.c:1141-1179 | The loop packs the named entries, in slot order, behind the count. |
| `AppManager.Table.LoadRegistry` | src/services/app_manager.c:1088-1139 | Fills the table from the file, or leaves it blank with the source's error for a missing, foreign or truncated one. |
| `AppManager.Table.InstallApp` | src/services/app_manager.c:170-310 | Is the model's install on the table: image checks, choice of name, slot, count and every field of the entry. |
| `AppManager.Table.UninstallApp` | src/services/app_manager.c:401-445 | Is the model's uninstall on the table, preloaded apps refused. |
| `AppManager.Table.ValidateWasm` | src/services/app_manager.c:1206-1220 | Accepts exactly the images that begin with the four magic bytes. |
| `AppManager.Table.StartApp` | src/services/app_manager.c:449-550 | Is the model's start on the table, with the limit of running apps and the errors of file system and runtime passed on. |
| `AppManager.Table.StopApp` | src/services/app_manager.c:552-596 | Is the model's stop on the table, with the runtime's error passed on. |

## Left out

OTA:
- The write alignment is assumed to divide 4096 and the slot size, and slot size plus the largest chunk to stay below 2^32; a failed flash write is assumed to leave flash unchanged.
- Message queue, semaphores, timeouts, transports, callbacks, status texts, confirming, rollback and reboot.

Settings:
- SettingsText.SetTextPrints: for keys of a separable domain only; what other pairs of keys do is stated by SettingsText.CoexistIffSeparable.
- SettingsText.GetTextFinds: the same.
- SettingsText.DeleteTextPrints: the same.
- SdSettings.CardIsAMap: the same.
- SdSettings.GetShowsStored: the same.
- SD card: read errors, failed allocations, the registry file and the listing, clear and migration, and directories.
- SdSettings.PathsAreDistinct: paths are compared as texts; the FAT file system also takes two for one that differ in case (SdSettings.SharedFileIff), in repeated slashes, or in dots and spaces at the end of a name. The runs of SdSettings.CardIsAMap are those whose namespaces do not meet that way.
- SdSettings.StepRefines: what memory and card hold after an overrun is not described.
- SdSettings.RunRefines: the same.
- SdCard.Card.DeleteValue: the same.
- FlashMap.FlashIsAMap: for non-empty keys, configured limits of 1 to 65535, and deletes of keys behind which no other has a value; the other cases are stated by FlashMap.SetCanBeReadIff and FlashRegistry.DeleteIsRemovalIff. NVS refuses an entry beyond about 4 KB (a sector), so with a larger limit the set of a longer value fails there, as a set cut short at its value cell; a set that is not cut short is assumed to stay below that. What single deletes and boots cut short leave is stated by FlashCuts.CutDeleteShows and FlashCuts.CutBootRecovers.
- FlashLives.LifeWithCuts: which of the names that were set a cell holds after many cut deletes is not stated; FlashCuts.CutDeleteShows states it for one. Wiping the store is one update.
- FlashRegistry.CutSetIsHarmless: for stores in which no delete has left a value behind the last name; with such a value, FlashRegistry.HeldAfterSet and FlashRegistry.CutSetShowsNoOtherIff say what a cut set shows.
- FlashSettings.LifeKeepsCellsReadable: not for lives in which the empty key is set; FlashSettings.LifeKeepsNames is for all. Lives in which deletes, resizes and boots are cut short are those of FlashLives.LifeWithCuts.
- FlashSettings.LifeKeepsNames: the same.
- Encryption, base64, NVS internals (each cell update is atomic), the work queue and asynchronous calls.

Scheduler:
- SchedulerFairness.SelectIsFirstOfBest: assumes that the enumeration of priorities compares as a signed type, which the C language leaves to the compiler.
- SchedulerFairness.DispatchesLongestWaiting: the same assumption.
- SchedulerFairness.WaitShrinks: the same assumption.
- SchedulerFairness.WaitIsBounded: the same assumption.
- SchedulerFairness.RunsUnreadyIff: the same assumption.
- SchedulerWaiting.FrontShrinks: the same assumption.
- SchedulerWaiting.WaitAsWrittenIsBounded: the same assumption; and not for runs that destroy a task, or change the priority of one, whose other entry stays in the queue.
- SchedulerWaiting.StepKeepsSorted: a priority that is changed while another entry stays may or may not keep the order; no exact condition is given.
- A cycle started from within a task's entry function, time (an expired slice is a flag of the tick), statistics, names and the power-aware switch.

Paths:
- The file name, directory and extension helpers, which would only add easy members; null arguments.
- Paths.SafeStaysBelowIff: for app names of one segment, which the builder does not check.

Resources:
- Callbacks and warning thresholds, the CPU sampling field, and the report.

Shared memory:
- Locks, mapping and the information query. The caller's identity, constant in the code, is a parameter.
- Sizes near the machine limit, where rounding up would wrap. A region's bytes behind a freed handle are not described.

RAM files:
- The limits are those of boards other than the ESP32 ones: 8 files and a scratch buffer of 32 KB instead of 4 files and 12 or 16 KB. Sizes are below 2^32.
- RamFiles.StoreIsAMap: paths are assumed shorter than the 128 characters of the name field.
- RamFiles.AppendRefines: what memory holds after the copy has left the scratch buffer is not described.
- A file's buffer is a value in its slot: reuse of freed memory is not described.
- The persistent file systems and the fall-back to and from them.

App registry:
- AppCalls.UninstalledStaysGone: only if the registry could be written; otherwise the file keeps the app, and the next boot brings it back.
- The records of the file are values, not bytes; the cutting of version texts to their field, and the reserved and CRC fields of the header.
- Shutdown, chunked install sessions, restart work, directory scans and the parsing of manifests.

Elsewhere:
- Web server, shell, display, sensors, radio, Bluetooth, message bus, drivers, capabilities and the WASM runtime.
