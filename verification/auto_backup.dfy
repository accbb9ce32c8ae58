/**
 * The guard of the hourly timer in `setupAutoBackup`: back up when a save
 * happened after the last backup. As written it compares the last-saved
 * time with the text of `todo-last-backup`, which holds a backup key, not a
 * time. The corrected guard compares with the timestamp of the backup that
 * key names. The timer itself is not modelled.
 */
module AutoBackup {
  import opened Wrappers
  import opened JsonModel
  import opened Storage
  import opened StoreLayout
  import opened Backups
  import opened Memory

  /** `new Date(a) > new Date(b)`: false when either is an Invalid Date. */
  predicate Later(a: Option<int>, b: Option<int>) {
    a.Some? && b.Some? && a.value > b.value
  }

  /** The text `getItem` returns for a key written as plain text; `None` for a missing key. */
  function TextAt(store: Store, key: string): Option<string> {
    if key in store && store[key].Plain? then Some(store[key].text) else None
  }

  /** `lastSaved && (!lastBackup || new Date(lastSaved) > new Date(lastBackup))`, as written. */
  predicate AutoBackupDueAsWritten(dates: Json -> Option<int>, lastSaved: Option<string>, lastBackup: Option<string>) {
    && lastSaved.Some? && lastSaved.value != []
    && (lastBackup.None? || lastBackup.value == [] || Later(dates(JStr(lastSaved.value)), dates(JStr(lastBackup.value))))
  }

  /**
   * Once `todo-last-backup` names a backup, and the date parser rejects a
   * backup key, the guard as written is never true again, however recent the
   * last save.
   */
  lemma AutoBackupStopsAsWritten(dates: Json -> Option<int>, store: Store, stamp: nat)
    requires LastBackupKey in store && store[LastBackupKey] == Plain(BackupKey(stamp))
    requires dates(JStr(BackupKey(stamp))) == None
    ensures forall lastSaved :: !AutoBackupDueAsWritten(dates, lastSaved, TextAt(store, LastBackupKey))
  {
  }

  /**
   * The corrected guard: a save time exists, and either no backup is
   * recorded, the recorded backup is no longer listed, or the save is later
   * than that backup's timestamp.
   */
  predicate AutoBackupDue(dates: Json -> Option<int>, store: Store) {
    var lastSaved := TextAt(store, LastSavedKey);
    var lastBackup := TextAt(store, LastBackupKey);
    && lastSaved.Some? && lastSaved.value != []
    && (|| lastBackup.None? || lastBackup.value == []
        || !IsListed(store, lastBackup.value)
        || Later(dates(JStr(lastSaved.value)), BackupTime(dates, store, lastBackup.value)))
  }

  /** A save later than the recorded backup makes the corrected guard true. */
  lemma DueAfterLaterSave(dates: Json -> Option<int>, store: Store, savedIso: string, stamp: nat, saved: int, backedUp: int)
    requires LastSavedKey in store && store[LastSavedKey] == Plain(savedIso) && savedIso != []
    requires LastBackupKey in store && store[LastBackupKey] == Plain(BackupKey(stamp))
    requires IsListed(store, BackupKey(stamp))
    requires dates(JStr(savedIso)) == Some(saved) && BackupTime(dates, store, BackupKey(stamp)) == Some(backedUp)
    requires saved > backedUp
    ensures AutoBackupDue(dates, store)
  {
  }

  /**
   * Right after a backup that survives its rotation, the corrected guard is
   * false until a save later than the backup's timestamp.
   */
  lemma NotDueAfterBackup(env: Platform, before: Store, after: Store, reason: string, now: nat)
    requires BackedUp(env, before, after, reason, now, true)
    requires forall d :: IsListed(before, d) && d != BackupKey(now) ==>
      StrictlyNewer(env.dates(JStr(env.iso(now))), BackupTime(env.dates, before, d))
    requires env.dates(JStr(env.iso(now))) == Some(now)
    requires LastSavedKey in before && before[LastSavedKey].Plain?
    requires env.dates(JStr(before[LastSavedKey].text)).Some? && env.dates(JStr(before[LastSavedKey].text)).value <= now
    ensures !AutoBackupDue(env.dates, after)
  {
    LayoutKeysDistinct();
    var key := BackupKey(now);
    var tasks := PersistedTasks(env.dates, before, env.iso(now));
    BackupOutcome(env, before, after, reason, now, true);
    BackupKeepsSnapshot(env, before, after, reason, now);
    assert after[key] == Doc(BackupRecord(tasks, reason, env.iso(now)));
    SummaryOfRecord(after, key, tasks, reason, env.iso(now));
    var full := before[key := Snapshot(env, before, reason, now)][LastBackupKey := Plain(key)];
    assert !IsListed(full, LastSavedKey);
    assert after[LastSavedKey] == before[LastSavedKey];
  }
}
