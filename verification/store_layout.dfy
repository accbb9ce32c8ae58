/**
 * The keys memory.js owns in the store and what `loadTasks` reads back from
 * the task key. `PersistedTasks` is the value `loadTasks` returns in
 * localStorage mode, without the recovery backup it takes on corrupt text.
 */
module StoreLayout {
  import opened Wrappers
  import opened JsText
  import opened JsonModel
  import opened Storage
  import opened TaskRecords
  import opened TaskPipeline

  const TasksKey: string := "todo-tasks"
  const AppVersionKey: string := "todo-app-version"
  const LastBackupKey: string := "todo-last-backup"
  const UserSettingsKey: string := "todo-user-settings"
  const LastSavedKey: string := "todo-last-saved"
  const SpaceTestKey: string := "__space_test__"
  const BackupPrefix: string := "todo-backup-"
  const CurrentVersion: string := "1.0.0"
  const MaxBackupItems: nat := 5

  /** The four `STORAGE_KEYS` values and `todo-last-saved`. */
  predicate IsFixedKey(k: string) {
    k == TasksKey || k == AppVersionKey || k == LastBackupKey || k == UserSettingsKey || k == LastSavedKey
  }

  /** A key under the backup prefix. */
  predicate IsBackupKey(k: string) {
    StartsWith(k, BackupPrefix)
  }

  /** The keys `clearAllData` removes. */
  predicate Owned(k: string) {
    IsFixedKey(k) || IsBackupKey(k)
  }

  /** The fixed keys are pairwise different, none of them is a backup key, and the probe key is not owned. */
  lemma LayoutKeysDistinct()
    ensures !IsBackupKey(TasksKey) && !IsBackupKey(AppVersionKey) && !IsBackupKey(LastBackupKey)
    ensures !IsBackupKey(UserSettingsKey) && !IsBackupKey(LastSavedKey)
    ensures !Owned(SpaceTestKey)
    ensures TasksKey != LastSavedKey && TasksKey != AppVersionKey && TasksKey != LastBackupKey
    ensures LastSavedKey != AppVersionKey && LastSavedKey != LastBackupKey && AppVersionKey != LastBackupKey
    ensures UserSettingsKey != TasksKey && UserSettingsKey != AppVersionKey
    ensures UserSettingsKey != LastBackupKey && UserSettingsKey != LastSavedKey
  {
    assert BackupPrefix[5] == 'b';
    assert TasksKey[5] == 't' && AppVersionKey[5] == 'a' && LastBackupKey[5] == 'l';
    assert UserSettingsKey[5] == 'u' && LastSavedKey[5] == 'l' && SpaceTestKey[0] == '_';
    assert LastBackupKey[10] == 'b' && LastSavedKey[10] == 's';
  }

  /** `todo-tasks` holds text `JSON.parse` rejects, which makes `loadTasks` throw. */
  predicate TasksCorrupt(store: Store) {
    TasksKey in store && store[TasksKey].Plain? && store[TasksKey].text != []
  }

  /**
   * The list `loadTasks` returns in localStorage mode: nothing for an absent
   * or empty key, for corrupt text or for a value that is not an array;
   * otherwise the valid records, sanitized, in their stored order.
   */
  function PersistedTasks(dates: Json -> Option<int>, store: Store, nowIso: string): (r: seq<TaskRec>)
    ensures Blank(store, TasksKey) || TasksCorrupt(store) ==> r == []
    ensures TasksKey in store && store[TasksKey].Doc? && !store[TasksKey].doc.JArr? ==> r == []
    ensures forall t :: t in r ==> IsSanitized(dates, t) && IsValidDate(dates, Some(t.createdAt))
  {
    match Lookup(store, TasksKey)
    case Some(Doc(JArr(e))) => CleanTasks(dates, e, nowIso)
    case _ => []
  }

  /**
   * After `saveTasks` writes the pipeline's output for `xs`, loading gives
   * that output back, minus the records whose trimmed id or text is empty,
   * whatever the clock reads at load time.
   */
  lemma SavedThenLoaded(dates: Json -> Option<int>, store: Store, xs: seq<Json>, saveIso: string, loadIso: string)
    ensures var saved := CleanTasks(dates, xs, saveIso);
      PersistedTasks(dates, store[TasksKey := Doc(JArr(Encode(saved)))], loadIso) == DropBlank(saved)
  {
    var saved := CleanTasks(dates, xs, saveIso);
    ReloadSanitized(dates, saved, loadIso);
  }
}
