# To-do list persistence and task-list rules, modelled in Dafny

This project models the core of a small React to-do application.

- **`TaskMemory`** (`src/memory.js`) keeps the task list in the browser's
  `localStorage`. It validates and sanitizes task records on load and save,
  writes backup snapshots under `todo-backup-<ms>`, lists them newest-first,
  keeps at most five, and restores one after taking a `pre-restore` safety
  backup. It also stamps or migrates the stored schema version, and wipes
  exactly the keys it owns. When `localStorage` is unusable, the instance
  works over an in-memory `fallbackStorage` map, and backups are disabled.
- **The task-list rules of `App`** (`src/App.js`) are the case-insensitive
  duplicate check, adding a trimmed task, deleting by id, the add-button
  rule and the counter label.

## Modules

- `Wrappers` is the `Option` type, standing for `undefined`/`null`.
- `JsText` covers `trim` with the JavaScript whitespace set, `startsWith`,
  and decimal rendering of numbers.
- `JsonModel` holds parsed JSON values, truthiness, property access and `String(x)`.
- `Storage` is the store: `map<string, Value>`. A value is either JSON text
  (`Doc`) or text `JSON.parse` rejects (`Plain`). It also enumerates keys.
- `TaskRecords` holds `validateTask`, `sanitizeTask` and the written form of a sanitized record.
- `TaskPipeline` is the `filter(validateTask).map(sanitizeTask)` pipeline of
  `loadTasks`/`saveTasks`, and what a save followed by a load gives.
- `StoreLayout` holds the keys and constants, and what `loadTasks` reads back.
- `Backups` covers backup keys, records and summaries, the newest-first sort,
  and the rotation relation `Rotated`.
- `Memory` is the class `TaskMemory`. Its fields are `store` (localStorage)
  and `fallback` (`fallbackStorage`), plus the mode and platform oracles. It
  also holds the relations `BackedUp`, `Saved` and `VersionChecked`, and the
  lemmas derived from them.
- `TaskList` covers the App rules as functions on the component state.
- `LoadRecursion` and `AutoBackup` model two places where the code as written
  misbehaves (see Findings).

Calls the model cannot see are parameters:

- `dates`: the time value of `new Date(x)`, `None` for an Invalid Date.
- `iso`: `toISOString()` of a clock reading.
- `fits`: whether a `setItem` stays within the quota. When it does not, the
  call throws and the surrounding `try` returns `false`.
- `now`: one clock reading per call, used for both `Date.now()` and
  `new Date()`.
- `lower`: `toLowerCase`.
- The App's fresh id and creation time.

## Model

| member | source | states |
|---|---|---|
| JsText.Trim | src/memory.js:134-135 | the result is a contiguous slice of the input, everything cut off before and after it is whitespace or line terminators, and it neither starts nor ends with one |
| JsText.TrimIdempotent | src/memory.js:134-135 | trimming a trimmed string changes nothing |
| JsText.TrimEmptyIff | src/App.js:17-18 | the trimmed input is empty exactly when every character of the input is whitespace |
| JsText.StartsWith | src/memory.js:204 | `key.startsWith(prefix)`: the prefix is no longer than the key and equals its first characters |
| JsText.NatToString | src/memory.js:161 | the decimal rendering is a non-empty string of digits, one digit exactly for numbers below ten |
| JsText.DigitsValueOfNatToString | src/memory.js:161 | reading back the rendered digits gives the number |
| JsText.NatToStringInjective | src/memory.js:161 | different numbers render differently |
| JsonModel.Truthy | src/memory.js:123-126 | JavaScript truthiness: `null`, `false`, `0` and the empty string are falsy, everything else is truthy |
| JsonModel.Get | src/memory.js:124-126 | a field read gives a value exactly when the value is an object with that field, and then the field's value |
| JsonModel.ToJsString | src/memory.js:134-135 | `String(x)` of a string is that string |
| Storage.Blank | src/memory.js:61 | `!localStorage.getItem(key)`: the key is absent or holds the empty string |
| Storage.Lookup | src/memory.js:60 | `getItem` finds a value exactly for stored keys, and it is the stored value |
| Storage.Keys | src/memory.js:202-203 | enumerating the store yields every key exactly once |
| TaskRecords.IsValidDate | src/memory.js:142-146 | a date is valid when it is present and `new Date(x)` has a time value |
| TaskRecords.ValidateTask | src/memory.js:122-129 | a record is valid when it is an object with non-empty string `id` and `text` and a valid `createdAt`; `dueDate` is not looked at |
| TaskRecords.ToJson | src/memory.js:133-138 | a sanitized record is stored as the object `{id, text, createdAt, dueDate}` |
| TaskRecords.ToJsonFields | src/memory.js:133-138 | reading the written record's id, text, createdAt and dueDate gives back the record's fields |
| TaskRecords.ValidateWritten | src/memory.js:122-129 | a written record passes `validateTask` exactly when its id and text are non-empty and its createdAt is a valid date |
| TaskRecords.TrimmedField | src/memory.js:134-135 | the field text is trimmed, and for a non-empty string field it is that string trimmed |
| TaskRecords.SanitizeTask | src/memory.js:132-139 | the result has trimmed id and text; a valid dueDate is kept as given and any other becomes null; a valid createdAt is kept and an invalid one becomes the current time |
| TaskRecords.SanitizeIdempotent | src/memory.js:132-139 | sanitizing the written form of a sanitized record gives the same record |
| TaskRecords.ValidateSanitized | src/memory.js:122-139 | a valid record still validates after sanitizing exactly when its trimmed id and text are non-empty |
| TaskPipeline.ValidTasks | src/memory.js:72 | the filter keeps exactly the valid records and never grows the list |
| TaskPipeline.SanitizeAll | src/memory.js:73 | the map sanitizes each record in place, keeping the length |
| TaskPipeline.CleanTasks | src/memory.js:72-73 | every record the pipeline returns is sanitized and has a valid creation date |
| TaskPipeline.Encode | src/memory.js:95 | `JSON.stringify` writes each record in its place |
| TaskPipeline.DropBlank | src/memory.js:72-73 | keeps exactly the records whose id and text are non-empty |
| TaskPipeline.ValidTasksAppend | src/memory.js:72 | the filter distributes over concatenation, so relative order is kept |
| TaskPipeline.SanitizeAllAppend | src/memory.js:73 | the map distributes over concatenation |
| TaskPipeline.CleanTasksAppend | src/memory.js:72-73 | the whole pipeline distributes over concatenation: valid elements come back in their original order |
| TaskPipeline.CleanTasksSingle | src/memory.js:72-73 | on one record the pipeline gives the sanitized record if it is valid, and nothing otherwise |
| TaskPipeline.ReloadSanitized | src/memory.js:72-73 | loading written sanitized records gives them back minus those with an empty id or text |
| TaskPipeline.CleanTasksTwice | src/memory.js:92-95 | running the pipeline over its own written output drops only the records whose trimmed id or text is empty |
| StoreLayout.IsFixedKey | src/memory.js:341-345 | the keys removed one by one by `clearAllData`: the four `STORAGE_KEYS` values and `todo-last-saved` |
| StoreLayout.IsBackupKey | src/memory.js:204 | a key is a backup key when it starts with `todo-backup-` |
| StoreLayout.Owned | src/memory.js:341-353 | the keys `clearAllData` removes: the fixed keys and every backup key |
| StoreLayout.LayoutKeysDistinct | src/memory.js:4-9 | the five fixed keys (the four `STORAGE_KEYS` values and `todo-last-saved`) differ pairwise, none starts with the backup prefix, and the probe key is not owned |
| StoreLayout.TasksCorrupt | src/memory.js:60-63 | `todo-tasks` holds non-empty text that `JSON.parse` rejects, the case that reaches `loadTasks`'s `catch` |
| StoreLayout.PersistedTasks | src/memory.js:60-75 | an absent, empty, unparsable or non-array task key loads as the empty list; loaded records are sanitized and have valid dates |
| StoreLayout.SavedThenLoaded | src/memory.js:92-108 | after the sanitized list is written, loading gives it back minus blank records, whatever the clock reads |
| Backups.BackupKey | src/memory.js:161 | a backup key starts with `todo-backup-` followed by the decimal clock reading |
| Backups.BackupKeyInjective | src/memory.js:161 | two backups share a key exactly when stamped in the same millisecond |
| Backups.BackupRecord | src/memory.js:154-159 | the object `createBackup` writes: `{tasks, timestamp, reason, version: '1.0.0'}` |
| Backups.BackupRecordFields | src/memory.js:154-159 | the written backup record holds the tasks, the timestamp, the reason and version `1.0.0` |
| Backups.IsListed | src/memory.js:204-206 | a key is listed when it starts with `todo-backup-` and its value parses to something other than `null` |
| Backups.LengthOrZero | src/memory.js:211 | `x ? x.length : 0`: zero for a missing or falsy field, the length of an array or string, the `length` field of an object, undefined otherwise |
| Backups.ListedKeys | src/memory.js:202-206 | the listed keys are exactly the prefixed keys whose text parses to something other than null |
| Backups.Summarize | src/memory.js:207-212 | a summary carries the key it was read from |
| Backups.SummaryOfRecord | src/memory.js:207-212 | listing a written backup shows its timestamp, reason and number of tasks |
| Backups.AtLeastAsNew | src/memory.js:219 | `new Date(b.timestamp) - new Date(a.timestamp)` does not put `a` after `b`: `b` has no valid time, or both do and `a`'s is not earlier |
| Backups.StrictlyNewer | src/memory.js:219 | `a` has a valid time, and `b` has none or an earlier one |
| Backups.NewestFirst | src/memory.js:219 | each entry of the listing is at least as new as every later one |
| Backups.Insert | src/memory.js:219 | one insertion step of the newest-first sort: the new entry goes after every entry at least as new, so equal times keep their order |
| Backups.InsertElements | src/memory.js:219 | insertion adds exactly the new entry |
| Backups.InsertMembers | src/memory.js:219 | every entry after insertion was there before or is the new one |
| Backups.InsertSorted | src/memory.js:219 | insertion keeps a newest-first list newest-first |
| Backups.InsertDistinct | src/memory.js:219 | insertion of a new key keeps keys distinct |
| Backups.SortNewestFirst | src/memory.js:219 | the sorted list is newest-first (invalid times last) and a permutation of the input |
| Backups.SortKeepsDistinct | src/memory.js:219 | sorting keeps keys distinct |
| Backups.KeySetSize | src/memory.js:232 | a list with distinct keys has as many keys as entries |
| Backups.PermutationKeys | src/memory.js:219 | a permutation has the same entries and the same keys |
| Backups.ListingSize | src/memory.js:231-232 | a listing has exactly one entry per listed backup |
| Backups.Collect | src/memory.js:201-217 | the summaries of the listed keys among the enumerated keys, in enumeration order |
| Backups.CollectListing | src/memory.js:201-217 | collecting over every key once gives distinct keys, exactly the listed ones, each summarized from the store |
| Backups.Rotated | src/memory.js:227-241 | a rotation removes only listed backups, keeps `min(n, 5)` of the `n` listed, and every kept backup is at least as new as every removed one |
| Backups.RotationKeepsFew | src/memory.js:232 | rotation removes nothing while at most five backups are listed |
| Backups.RotationKeepsNewest | src/memory.js:231-237 | a backup strictly newer than all others survives rotation unchanged |
| Backups.DroppedAreListed | src/memory.js:233 | the entries past the fifth are listed backups |
| Backups.KeptAreListed | src/memory.js:232-236 | after removing the tail, the listed backups are exactly the first five entries |
| Backups.DropTailRotates | src/memory.js:231-237 | removing the tail of a newest-first listing removes only listed backups, leaves five, and keeps backups at least as new as those removed |
| Memory.Snapshot | src/memory.js:153-159 | the backup written is an object record |
| Memory.SavedTasks | src/memory.js:92-95 | the saved value is a JSON array |
| Memory.BackedUp | src/memory.js:149-173 | `createBackup`: the snapshot is written under `todo-backup-<now>`, `todo-last-backup` is pointed at it and the backups are rotated; a write that does not fit ends the call with `false` and no further change |
| Memory.SavedVia | src/memory.js:85-119 | `saveTasks` after the space probe: a probe that fits is removed, one that does not triggers a rotation; then `todo-tasks` and `todo-last-saved` are written, and a write that does not fit returns `false` |
| Memory.Saved | src/memory.js:85-119 | `saveTasks` for some outcome of the space probe |
| Memory.VersionChecked | src/memory.js:258-277 | `checkVersionAndMigrate`: an empty version is stamped, the current one is left alone, any other is backed up (`version-migration`) and then stamped |
| Memory.Restorable | src/memory.js:180-184 | `restoreFromBackup` goes ahead only when the key holds JSON whose `tasks` field is an array |
| Memory.TaskMemory.constructor | src/memory.js:15-38 | in fallback mode the store is untouched and the map is empty; otherwise the version check has run |
| Memory.TaskMemory.SetItem | src/memory.js:108 | a write that fits stores the value; one that does not changes nothing |
| Memory.TaskMemory.RemoveItem | src/memory.js:235 | `removeItem` deletes exactly the given key |
| Memory.TaskMemory.LoadTasks | src/memory.js:54-82 | fallback mode returns the map entry or nothing; otherwise returns the persisted list, leaves a readable store unchanged, and on corrupt text takes an `error-recovery` backup |
| Memory.TaskMemory.SaveTasks | src/memory.js:85-119 | a non-array returns false and writes nothing; fallback mode stores the sanitized list in the map; otherwise the store changes as `Saved` (probe, rotation if short of space, tasks, last-saved) |
| Memory.TaskMemory.CreateBackup | src/memory.js:149-173 | returns false in fallback mode; otherwise the store changes as `BackedUp` (record from the persisted tasks, `todo-last-backup` updated, rotation) |
| Memory.TaskMemory.RestoreFromBackup | src/memory.js:176-194 | a missing, unparsable or tasks-less backup returns false with no change; otherwise a `pre-restore` backup of the old store is followed by a save of the backup's tasks, whose result is returned |
| Memory.TaskMemory.GetAvailableBackups | src/memory.js:197-224 | returns nothing in fallback mode; otherwise one summary per listed backup, newest first |
| Memory.TaskMemory.CleanOldBackups | src/memory.js:227-241 | the store after is a rotation of the store before |
| Memory.TaskMemory.RemoveEach | src/memory.js:233-236 | removes exactly the keys of the given entries |
| Memory.TaskMemory.CheckStorageSpace | src/memory.js:244-255 | the probe fits exactly when the oracle says so; a fitting probe leaves the store without the probe key |
| Memory.TaskMemory.CheckVersionAndMigrate | src/memory.js:258-277 | the store changes as `VersionChecked`: stamp if absent, nothing if current, backup then stamp otherwise |
| Memory.TaskMemory.GetMemoryStats | src/memory.js:293-327 | reports the number of loaded tasks, the number of listed backups, last-saved and version; in localStorage mode the store is unchanged unless the task text is corrupt, in which case the `error-recovery` backup is taken, with its rotation; fallback reports the map's count and no backups |
| Memory.TaskMemory.RemoveFixedKeys | src/memory.js:341-345 | exactly the five fixed keys are removed |
| Memory.TaskMemory.RemoveBackupKeys | src/memory.js:348-353 | exactly the keys with the backup prefix are removed |
| Memory.TaskMemory.ClearAllData | src/memory.js:330-360 | returns true; fallback mode empties the map; otherwise the store ends as the old store minus every owned key, the `clear-all` backup included |
| Memory.BackupTouchesOwnedOnly | src/memory.js:149-168 | a backup changes no key outside the owned namespace |
| Memory.ClearedLeavesUnowned | src/memory.js:337-355 | removing all owned keys after a backup leaves exactly the old unowned entries |
| Memory.BackupOutcome | src/memory.js:161-166 | a successful backup points `todo-last-backup` at its key and leaves at most five listed backups; with room it always succeeds |
| Memory.BackupKeepsSnapshot | src/memory.js:153-166 | a successful backup that is the newest survives its rotation, holding the tasks persisted before the call |
| Memory.PointedListing | src/memory.js:161-163 | writing a listed record and `todo-last-backup` adds exactly that key to the listed backups |
| Memory.BackupKeepsEarlier | src/memory.js:161-166 | a successful backup under a fresh key, newer than every listed backup, leaves every earlier backup unchanged when fewer than five were listed, and four of them otherwise: its rotation evicts only the oldest earlier backups, keeping four (all of them when fewer than five were listed) |
| Memory.SaveThenLoad | src/memory.js:92-113 | after a successful save, the tasks and last-saved keys hold the new values, and loading returns the sanitized list minus blank records |
| Memory.SaveTouches | src/memory.js:102-113 | a save changes only the task, last-saved and probe keys and listed backups; with room it succeeds and removes no backup |
| Memory.VersionStamped | src/memory.js:258-273 | with room, the version check leaves `1.0.0` stored |
| Memory.VersionCheckIdempotent | src/memory.js:258-273 | with room, a second version check makes no writes |
| Memory.MigrationBacksUp | src/memory.js:268-273 | migrating from another version points `todo-last-backup` at the `version-migration` backup |
| Memory.RestoreKeepsSafetyCopy | src/memory.js:186-189 | with room and a newest timestamp, after a restore the safety backup holds the pre-restore tasks and the task key holds the restored list |
| Memory.RestoreDespiteFailedSafetyCopy | src/memory.js:186-189 | when the safety record does not fit, nothing is backed up, yet a successful save still replaces `todo-tasks` |
| TaskList.IsDuplicate | src/App.js:11-14 | holds exactly when some task's lowercased text equals the lowercased trimmed input |
| TaskList.AddDisabled | src/App.js:58 | the add button is disabled when the trimmed input is empty or a duplicate |
| TaskList.AddTask | src/App.js:16-25 | a disabled add changes nothing; otherwise one task with the trimmed text is appended, earlier tasks are kept in order, and the input is cleared |
| TaskList.AddEnabledIffEffective | src/App.js:58 | the button is enabled exactly when pressing it changes the list |
| TaskList.AddTaskPreservesUnique | src/App.js:16-25 | adding keeps the texts pairwise different once lowercased |
| TaskList.AddSameTextTwiceRejected | src/App.js:17-18 | submitting the same text again right after adding it is rejected |
| TaskList.RemoveId | src/App.js:28 | keeps exactly the tasks whose id differs |
| TaskList.DeleteTask | src/App.js:27-29 | keeps exactly the tasks whose id differs and leaves the input alone |
| TaskList.RemoveIdAppend | src/App.js:28 | the filter distributes over concatenation, so order is kept |
| TaskList.RemoveIdPreservesUnique | src/App.js:27-29 | deleting keeps the texts pairwise different once lowercased |
| TaskList.CountLabel | src/App.js:37 | the label is a string of decimal digits whose value is the count, followed by " tarea" for one task and " tareas" otherwise |
| TaskList.CountLabelInjective | src/App.js:37 | different counts give different labels |
| LoadRecursion.WroteBackup | src/memory.js:154-172 | the rest of `createBackup` once `loadTasks` has returned: write, point, rotate, or `false` on a write that does not fit |
| LoadRecursion.LoadAsWritten | src/memory.js:54-82 | `loadTasks` as written, with room for `depth` frames: no room throws, readable text returns the persisted list, corrupt text calls `createBackup('error-recovery')` one level down and returns `[]` |
| LoadRecursion.BackupAsWritten | src/memory.js:149-173 | `createBackup` as written: it calls `loadTasks` at the same depth; a `RangeError` from it is caught and returns `false`, otherwise the backup is written |
| LoadRecursion.RotationCountsNewer | src/memory.js:231-237 | a rotation keeps every backup newer than a given time, or leaves five backups that are all newer |
| LoadRecursion.PointedEntries | src/memory.js:153-163 | the recovery record written by `createBackup` is listed under its stamp, holds no tasks, and leaves other backups and `todo-tasks` alone |
| LoadRecursion.PointedRecoveryOnly | src/memory.js:153-163 | after the write, every backup newer than the given time is still an empty recovery backup under the key of its own stamp |
| LoadRecursion.FreshKey | src/memory.js:161 | a backup key stamped later than every listed backup does not already hold a newer backup |
| LoadRecursion.PointedKeepsNewer | src/memory.js:161-163 | the write keeps every newer backup and adds its own |
| LoadRecursion.PointedCount | src/memory.js:161-163 | the write adds exactly one more backup newer than the given time |
| LoadRecursion.PointedNoneNewer | src/memory.js:161-163 | after the write, no listed backup is newer than its stamp |
| LoadRecursion.RotateStep | src/memory.js:166 | the rotation after the write keeps both invariants, leaves at most five listed, and does not touch `todo-tasks` |
| LoadRecursion.WriteStep | src/memory.js:153-166 | one frame's recovery backup and rotation add one newer empty backup (up to five) and leave `todo-tasks` unchanged |
| LoadRecursion.AsWrittenUnwinds | src/memory.js:149-172 | as written, corrupt task text makes `loadTasks` return `[]` with the text still in place; each level below the top writes one empty recovery backup, and at most five backups stay listed |
| LoadRecursion.AsWrittenLosesBackups | src/memory.js:149-172 | with room for six or more frames, every listed backup afterwards is empty, and no backup from before the call survives unchanged |
| LoadRecursion.CorruptTasksExample | src/memory.js:60-80 | `todo-tasks` holding `x` next to an earlier backup of real tasks: `loadTasks` returns `[]`, `x` stays, and the earlier backup is lost |
| AutoBackup.AutoBackupDueAsWritten | src/memory.js:286 | the guard as written: a save time exists, and no backup is recorded or the save time parses later than the recorded backup key |
| AutoBackup.AutoBackupStopsAsWritten | src/memory.js:283-288 | once `todo-last-backup` names a backup, the guard as written is never true |
| AutoBackup.AutoBackupDue | src/memory.js:283-288 | the corrected guard: a save time exists, and no backup is recorded, it is no longer listed, or the save is later than that backup's timestamp |
| AutoBackup.DueAfterLaterSave | src/memory.js:283-288 | under the corrected guard, a save later than the recorded backup makes a backup due |
| AutoBackup.NotDueAfterBackup | src/memory.js:283-288 | under the corrected guard, no backup is due right after a backup until a later save |

## Left out

- Timer: the `setInterval` timer of `setupAutoBackup` is not modelled, only its guard (`AutoBackup`).
- Storage detection: detection by exception in `initializeStorage` and
  `isLocalStorageAvailable` is replaced by the constructor's `mode` parameter.
- Version check in fallback mode: it never runs there; the model treats it as a no-op.
- Space probe: `checkStorageSpace` keeps only the quota oracle `fits` and the probe key's removal.
- Size estimate: the `space` string of `getMemoryStats` is not modelled. It
  relies on `for..in` over `localStorage` and `Math.round`.
- Logging: console logging is not modelled.
- Singleton: the module's singleton instance is not modelled.
- `src/TaskItem.js` is not part of this model. It holds date formatting,
  `window.confirm` and JSX.
- React: rendering and hooks are not modelled. The App's id generation from
  `Date.now()`/`Math.random()` is a parameter.
- `JSON.parse`/`JSON.stringify` are abstracted. A stored value is the value
  its text parses to (`Doc`), or text that does not parse (`Plain`).
  JSON numbers are integers.
- Backups.SortNewestFirst: the source comparator returns `NaN` for a missing
  or invalid timestamp, and the engine's order is then unspecified. The model
  sorts such entries last.
- String lengths and lowercasing: lengths count code points, not UTF-16
  units. `toLowerCase` is the parameter `lower`.
- Clock: one clock reading per call serves both `Date.now()` and `new Date()`.
  Backup keys are unique only when readings differ (`BackupKeyInjective`).
- `localStorage.key(i)`: its order is the store's choice (`Storage.Keys`).
  `clearAllData`'s downward index walk is modelled as a walk over that
  enumeration, assuming a removal does not reorder the remaining keys.
- Memory.VersionStamped, Memory.VersionCheckIdempotent,
  Memory.RestoreKeepsSafetyCopy and Memory.MigrationBacksUp assume every write
  fits (`Roomy`). Without room the source gives no such promise; the exact
  behaviour is in `VersionChecked`, `BackedUp` and `Saved`.
- Memory.BackupKeepsSnapshot and Memory.RestoreKeepsSafetyCopy need the new
  backup to be strictly the newest. Otherwise rotation may remove it,
  exactly as in the source.
- Memory.TaskMemory.GetMemoryStats: `tasks` counts the loaded list. On
  corrupt task text, `backups` counts the listing taken after the recovery
  backup.
- Memory.TaskMemory.CreateBackup: takes its snapshot from the persisted
  tasks (`PersistedTasks`) instead of calling `loadTasks`. So no caller of
  the model's `createBackup` recurses: not `loadTasks`, `clearAllData`,
  `checkVersionAndMigrate` or `restoreFromBackup`. The recursion the code
  has is modelled separately in `LoadRecursion` (see Findings).
- Three behaviours of the code a caller may not expect:
  - Unparsable task text triggers a recovery backup (`loadTasks`'s `catch`),
    and the text stays in place, so every later load meets it again.
  - A save followed by a load does not return every valid saved record.
    Records whose id or text is only whitespace pass validation, are saved
    trimmed to the empty string, and are dropped on the next load
    (`TaskPipeline.CleanTasksTwice`).
  - `restoreFromBackup` ignores the result of its `pre-restore` backup.
    When that record does not fit, the restore still replaces `todo-tasks`
    (`Memory.RestoreDespiteFailedSafetyCopy`).

## Findings

| source | as written | input that shows it | evidently intended | confidence | as-written member | corrected member |
|---|---|---|---|---|---|---|
| src/memory.js:77-80, src/memory.js:153, src/memory.js:169-171 | on a parse failure `loadTasks` calls `createBackup('error-recovery')`, which starts by calling `loadTasks()` on the same unchanged store; the two recurse until the stack overflows. `createBackup`'s `catch` absorbs the `RangeError`, and while the stack unwinds, every `createBackup` frame writes an empty `error-recovery` backup under its own clock reading and rotates. With six or more frames and a clock that moves, only empty recovery backups remain: every earlier backup is evicted | `todo-tasks` holding the text `x`, next to earlier backups of real tasks | take one `error-recovery` backup of what can be read (an empty list) and return `[]`; its rotation evicts only the oldest earlier backups, keeping four (all of them when fewer than five were listed) | not executed | LoadRecursion.AsWrittenLosesBackups | Memory.TaskMemory.LoadTasks, Memory.BackupKeepsEarlier |
| src/memory.js:283-288 | the auto-backup guard compares `new Date(lastSaved)` with `new Date(lastBackup)`, but `todo-last-backup` holds a backup key such as `todo-backup-1700000000000`, not a time; the second date is invalid and the comparison is always false | any store after the first backup, given a date parser that rejects the key | compare the last save with the timestamp of the backup named by `todo-last-backup` | not executed | AutoBackup.AutoBackupStopsAsWritten | AutoBackup.NotDueAfterBackup |
