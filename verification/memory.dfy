/**
 * `TaskMemory`, the persistence and backup manager of memory.js, as a class
 * over the store it writes. The instance is built in one of two modes: over
 * `localStorage` (`store`) or, when that is unusable, over the in-memory
 * `fallbackStorage` map, where backups are disabled. Every `try`/`catch` of
 * the source ends in a defined result here: `[]`, `false` or no change.
 *
 * The state changes of `createBackup`, `saveTasks` and
 * `checkVersionAndMigrate` are stated as relations between the store before
 * and after (`BackedUp`, `Saved`, `VersionChecked`); the lemmas below the
 * class derive what the source promises from them.
 */
module Memory {
  import opened Wrappers
  import opened JsText
  import opened JsonModel
  import opened Storage
  import opened TaskRecords
  import opened TaskPipeline
  import opened StoreLayout
  import opened Backups

  /** `localStorage` is in use, or `fallbackStorage` is set. */
  datatype Mode = LocalStorage | Fallback

  /**
   * What the instance calls but cannot see: `dates` is the time value of
   * `new Date(x)` (`None` for an Invalid Date), `iso` is `toISOString()` of a
   * clock reading in milliseconds, and `fits` says whether
   * `localStorage.setItem(key, value)` on a store stays within the quota;
   * when it does not, `setItem` throws.
   */
  datatype Platform = Platform(dates: Json -> Option<int>, iso: nat -> string, fits: (Store, string, Value) -> bool)

  /** Every write stays within the quota. */
  ghost predicate Roomy(env: Platform) {
    forall s, k, v :: env.fits(s, k, v)
  }

  /** The record `createBackup(reason)` writes at clock reading `now`: the tasks `loadTasks` reads from `before`. */
  function Snapshot(env: Platform, before: Store, reason: string, now: nat): (v: Value)
    ensures v.Doc? && v.doc.JObj?
  {
    Doc(BackupRecord(PersistedTasks(env.dates, before, env.iso(now)), reason, env.iso(now)))
  }

  /**
   * `createBackup(reason)` in localStorage mode: it writes the snapshot under
   * `todo-backup-<now>`, points `todo-last-backup` at that key, then rotates.
   * A write that does not fit throws, which ends the call with `false`.
   */
  ghost predicate BackedUp(env: Platform, before: Store, after: Store, reason: string, now: nat, ok: bool) {
    var key := BackupKey(now);
    var rec := Snapshot(env, before, reason, now);
    var written := before[key := rec];
    if !env.fits(before, key, rec) then !ok && after == before
    else if !env.fits(written, LastBackupKey, Plain(key)) then !ok && after == written
    else ok && Rotated(env.dates, written[LastBackupKey := Plain(key)], after)
  }

  /** The text `saveTasks` writes under `todo-tasks`: the valid records of `elems`, sanitized. */
  function SavedTasks(env: Platform, elems: seq<Json>, now: nat): (v: Value)
    ensures v.Doc? && v.doc.JArr?
  {
    Doc(JArr(Encode(CleanTasks(env.dates, elems, env.iso(now)))))
  }

  /**
   * `saveTasks(elems)` in localStorage mode, given the store `probed` after
   * the space check: a probe that fits leaves the store without the probe
   * key, one that does not leads to a rotation; then the tasks and the
   * last-saved time are written, and a write that does not fit ends the
   * call with `false`.
   */
  ghost predicate SavedVia(env: Platform, before: Store, probed: Store, after: Store, elems: seq<Json>, now: nat, ok: bool) {
    var json := SavedTasks(env, elems, now);
    var stamp := Plain(env.iso(now));
    && (if env.fits(before, SpaceTestKey, json) then probed == before - {SpaceTestKey}
        else Rotated(env.dates, before, probed))
    && (if !env.fits(probed, TasksKey, json) then !ok && after == probed
        else if !env.fits(probed[TasksKey := json], LastSavedKey, stamp) then !ok && after == probed[TasksKey := json]
        else ok && after == probed[TasksKey := json][LastSavedKey := stamp])
  }

  ghost predicate Saved(env: Platform, before: Store, after: Store, elems: seq<Json>, now: nat, ok: bool) {
    exists probed :: SavedVia(env, before, probed, after, elems, now, ok)
  }

  /**
   * `checkVersionAndMigrate` in localStorage mode: an empty or absent version
   * is stamped, the current version is left alone, and any other version is
   * backed up (`version-migration`) before it is stamped.
   */
  ghost predicate VersionChecked(env: Platform, before: Store, after: Store, now: nat) {
    var stamp := Plain(CurrentVersion);
    if Blank(before, AppVersionKey) then
      after == (if env.fits(before, AppVersionKey, stamp) then before[AppVersionKey := stamp] else before)
    else if before[AppVersionKey] == stamp then
      after == before
    else
      exists mid, b :: BackedUp(env, before, mid, "version-migration", now, b) &&
        after == (if env.fits(mid, AppVersionKey, stamp) then mid[AppVersionKey := stamp] else mid)
  }

  /** `restoreFromBackup(key)` goes ahead: the key holds JSON whose `tasks` field is an array. */
  predicate Restorable(store: Store, key: string) {
    key in store && store[key].Doc? && Get(store[key].doc, "tasks").Some? && Get(store[key].doc, "tasks").value.JArr?
  }

  /** Which store `getMemoryStats` reports on. */
  datatype StoreKind = FallbackKind | LocalStorageKind

  /** The counts of `getMemoryStats`; each `None` is `null` or `undefined`. */
  datatype MemoryStats = MemoryStats(kind: StoreKind, tasks: nat, backups: nat, lastSaved: Option<Value>, version: Option<Value>)

  class TaskMemory {
    const mode: Mode
    const env: Platform
    /** `localStorage`. */
    var store: Store
    /** `fallbackStorage`; only the `todo-tasks` entry is ever set. */
    var fallback: map<string, seq<TaskRec>>

    /** `new TaskMemory()`: the version check runs only over localStorage. */
    constructor (mode: Mode, env: Platform, initial: Store, now: nat)
      ensures this.mode == mode && this.env == env && fallback == map[]
      ensures mode == Fallback ==> store == initial
      ensures mode == LocalStorage ==> VersionChecked(env, initial, store, now)
    {
      this.mode := mode;
      this.env := env;
      store := initial;
      fallback := map[];
      new;
      CheckVersionAndMigrate(now);
    }

    /** `localStorage.setItem(key, v)`; `false` when it throws for lack of space. */
    method SetItem(key: string, v: Value) returns (ok: bool)
      modifies this`store
      ensures ok == env.fits(old(store), key, v)
      ensures store == if ok then old(store)[key := v] else old(store)
    {
      ok := env.fits(store, key, v);
      if ok {
        store := store[key := v];
      }
    }

    /** `localStorage.removeItem(key)`. */
    method RemoveItem(key: string)
      modifies this`store
      ensures store == old(store) - {key}
    {
      store := store - {key};
    }

    /** `loadTasks()`, with the recovery backup taken by the non-recursive `createBackup`. */
    method LoadTasks(now: nat) returns (r: seq<TaskRec>)
      modifies this`store
      ensures mode == Fallback ==> store == old(store) && r == if TasksKey in fallback then fallback[TasksKey] else []
      ensures mode == LocalStorage ==> r == PersistedTasks(env.dates, old(store), env.iso(now))
      ensures mode == LocalStorage && !TasksCorrupt(old(store)) ==> store == old(store)
      ensures mode == LocalStorage && TasksCorrupt(old(store)) ==>
        BackedUp(env, old(store), store, "error-recovery", now, true) || BackedUp(env, old(store), store, "error-recovery", now, false)
    {
      if mode == Fallback {
        return if TasksKey in fallback then fallback[TasksKey] else [];
      }
      var tasksJson := Lookup(store, TasksKey);
      if tasksJson.None? || tasksJson.value == Plain("") {
        return [];
      }
      match tasksJson.value
      case Plain(_) =>
        var recovered := CreateBackup(now, "error-recovery");
        r := [];
      case Doc(tasks) =>
        if !tasks.JArr? {
          return [];
        }
        r := CleanTasks(env.dates, tasks.elems, env.iso(now));
    }

    /** `saveTasks(tasks)`. */
    method SaveTasks(tasks: Json, now: nat) returns (ok: bool)
      modifies this
      ensures !tasks.JArr? ==> !ok && store == old(store) && fallback == old(fallback)
      ensures tasks.JArr? && mode == Fallback ==>
        ok && store == old(store) && fallback == old(fallback)[TasksKey := CleanTasks(env.dates, tasks.elems, env.iso(now))]
      ensures tasks.JArr? && mode == LocalStorage ==>
        fallback == old(fallback) && Saved(env, old(store), store, tasks.elems, now, ok)
    {
      if !tasks.JArr? {
        return false;
      }
      var validTasks := CleanTasks(env.dates, tasks.elems, env.iso(now));
      var tasksJson := Doc(JArr(Encode(validTasks)));
      if mode == Fallback {
        fallback := fallback[TasksKey := validTasks];
        return true;
      }
      ghost var before := store;
      var fits := CheckStorageSpace(tasksJson);
      if !fits {
        CleanOldBackups();
      }
      ghost var probed := store;
      ok := SetItem(TasksKey, tasksJson);
      if ok {
        ok := SetItem(LastSavedKey, Plain(env.iso(now)));
      }
      assert SavedVia(env, before, probed, store, tasks.elems, now, ok);
    }

    /** `createBackup(reason = 'manual')`. */
    method CreateBackup(now: nat, reason: string := "manual") returns (ok: bool)
      modifies this`store
      ensures mode == Fallback ==> !ok && store == old(store)
      ensures mode == LocalStorage ==> BackedUp(env, old(store), store, reason, now, ok)
    {
      if mode == Fallback {
        return false;
      }
      var currentTasks := PersistedTasks(env.dates, store, env.iso(now));
      var backup := BackupRecord(currentTasks, reason, env.iso(now));
      var backupKey := BackupKey(now);
      ok := SetItem(backupKey, Doc(backup));
      if !ok {
        return;
      }
      ok := SetItem(LastBackupKey, Plain(backupKey));
      if !ok {
        return;
      }
      CleanOldBackups();
    }

    /** `restoreFromBackup(key)`: a `pre-restore` backup of the current tasks, then `saveTasks(backup.tasks)`. */
    method RestoreFromBackup(key: string, now: nat) returns (ok: bool)
      modifies this
      ensures fallback == old(fallback)
      ensures mode == Fallback || !Restorable(old(store), key) ==> !ok && store == old(store)
      ensures mode == LocalStorage && Restorable(old(store), key) ==>
        exists mid, b :: BackedUp(env, old(store), mid, "pre-restore", now, b) &&
          Saved(env, mid, store, Get(old(store)[key].doc, "tasks").value.elems, now, ok)
    {
      if mode == Fallback {
        return false;
      }
      var backupJson := Lookup(store, key);
      if backupJson.None? || backupJson.value == Plain("") {
        return false;
      }
      match backupJson.value
      case Plain(_) =>
        ok := false;
      case Doc(backup) =>
        var tasks := Get(backup, "tasks");
        if !Present(tasks) || !tasks.value.JArr? {
          return false;
        }
        ghost var before := store;
        var backedUp := CreateBackup(now, "pre-restore");
        ghost var mid := store;
        ok := SaveTasks(tasks.value, now);
        assert BackedUp(env, before, mid, "pre-restore", now, backedUp) && Saved(env, mid, store, tasks.value.elems, now, ok);
    }

    /** `getAvailableBackups()`: one summary per listed backup, newest first. */
    method GetAvailableBackups() returns (r: seq<Summary>)
      ensures mode == Fallback ==> r == []
      ensures mode == LocalStorage ==> ListingOf(store, r) && NewestFirst(env.dates, r)
    {
      if mode == Fallback {
        return [];
      }
      var keys := Keys(store);
      var backups: seq<Summary> := [];
      var i := 0;
      while i < |keys|
        invariant 0 <= i <= |keys|
        invariant backups == Collect(store, keys[..i])
      {
        var key := keys[i];
        assert keys[..i + 1][..i] == keys[..i];
        if IsBackupKey(key) {
          match store[key]
          case Plain(_) =>
          case Doc(backupData) =>
            if backupData != JNull {
              backups := backups + [Summarize(store, key)];
            }
        }
        i := i + 1;
      }
      assert keys[..i] == keys;
      CollectListing(store, keys);
      r := SortNewestFirst(env.dates, backups);
      SortKeepsDistinct(env.dates, backups);
      PermutationKeys(backups, r);
      forall j | 0 <= j < |r| ensures IsListed(store, r[j].key) && r[j] == Summarize(store, r[j].key) {
        assert r[j] in backups;
      }
    }

    /** `cleanOldBackups()`: removes every listed backup past the five newest. */
    method CleanOldBackups()
      modifies this`store
      ensures mode == Fallback ==> store == old(store)
      ensures mode == LocalStorage ==> Rotated(env.dates, old(store), store)
    {
      if mode == Fallback {
        return;
      }
      var backups := GetAvailableBackups();
      DropTailRotates(env.dates, store, backups);
      if |backups| > MaxBackupItems {
        RemoveEach(backups[MaxBackupItems..]);
      }
    }

    /** `toDelete.forEach(backup => localStorage.removeItem(backup.key))`. */
    method RemoveEach(toDelete: seq<Summary>)
      modifies this`store
      ensures store == old(store) - KeySet(toDelete)
    {
      ghost var gone: set<string> := {};
      var i := 0;
      while i < |toDelete|
        invariant 0 <= i <= |toDelete|
        invariant gone == KeySet(toDelete[..i])
        invariant store == old(store) - gone
      {
        assert toDelete[..i + 1] == toDelete[..i] + [toDelete[i]];
        KeySetAppend(toDelete[..i], toDelete[i]);
        RemoveItem(toDelete[i].key);
        gone := gone + {toDelete[i].key};
        i := i + 1;
      }
      assert toDelete[..i] == toDelete;
    }

    /** `checkStorageSpace(data)`: writes and removes the probe key; `false` when the write does not fit. */
    method CheckStorageSpace(data: Value) returns (ok: bool)
      modifies this`store
      ensures mode == Fallback ==> ok && store == old(store)
      ensures mode == LocalStorage ==> ok == env.fits(old(store), SpaceTestKey, data)
      ensures mode == LocalStorage ==> store == if ok then old(store) - {SpaceTestKey} else old(store)
    {
      if mode == Fallback {
        return true;
      }
      ok := SetItem(SpaceTestKey, data);
      if ok {
        RemoveItem(SpaceTestKey);
      }
    }

    /** `checkVersionAndMigrate()`; over the fallback map `localStorage` throws and nothing happens. */
    method CheckVersionAndMigrate(now: nat)
      modifies this`store
      ensures mode == Fallback ==> store == old(store)
      ensures mode == LocalStorage ==> VersionChecked(env, old(store), store, now)
    {
      if mode == Fallback {
        return;
      }
      var savedVersion := Lookup(store, AppVersionKey);
      if savedVersion.None? || savedVersion.value == Plain("") {
        var stamped := SetItem(AppVersionKey, Plain(CurrentVersion));
        return;
      }
      if savedVersion.value != Plain(CurrentVersion) {
        ghost var before := store;
        var backedUp := CreateBackup(now, "version-migration");
        ghost var mid := store;
        var stamped := SetItem(AppVersionKey, Plain(CurrentVersion));
        assert BackedUp(env, before, mid, "version-migration", now, backedUp);
      }
    }

    /** The counts of `getMemoryStats()`; the size estimate is not modelled. */
    method GetMemoryStats(now: nat) returns (stats: MemoryStats)
      modifies this`store
      ensures mode == Fallback ==>
        store == old(store) && stats == MemoryStats(FallbackKind, if TasksKey in fallback then |fallback[TasksKey]| else 0, 0, None, None)
      ensures mode == LocalStorage ==>
        && stats.kind == LocalStorageKind
        && stats.tasks == |PersistedTasks(env.dates, old(store), env.iso(now))|
        && stats.backups == |ListedKeys(store)|
        && stats.lastSaved == Lookup(store, LastSavedKey)
        && stats.version == Lookup(store, AppVersionKey)
      ensures mode == LocalStorage && !TasksCorrupt(old(store)) ==> store == old(store)
      ensures mode == LocalStorage && TasksCorrupt(old(store)) ==>
        BackedUp(env, old(store), store, "error-recovery", now, true) || BackedUp(env, old(store), store, "error-recovery", now, false)
    {
      if mode == Fallback {
        return MemoryStats(FallbackKind, if TasksKey in fallback then |fallback[TasksKey]| else 0, 0, None, None);
      }
      var tasks := LoadTasks(now);
      var backups := GetAvailableBackups();
      ListingSize(store, backups);
      stats := MemoryStats(LocalStorageKind, |tasks|, |backups|, Lookup(store, LastSavedKey), Lookup(store, AppVersionKey));
    }

    /** Removes the `STORAGE_KEYS` values and `todo-last-saved`. */
    method RemoveFixedKeys()
      modifies this`store
      ensures forall k :: k in store <==> k in old(store) && !IsFixedKey(k)
      ensures forall k :: k in store ==> store[k] == old(store)[k]
    {
      RemoveItem(TasksKey);
      RemoveItem(AppVersionKey);
      RemoveItem(LastBackupKey);
      RemoveItem(UserSettingsKey);
      RemoveItem(LastSavedKey);
    }

    /**
     * Walks the keys from the last index down and removes each backup key;
     * walking downwards, a removal never moves a key not yet visited.
     */
    method RemoveBackupKeys()
      modifies this`store
      ensures forall k :: k in store <==> k in old(store) && !IsBackupKey(k)
      ensures forall k :: k in store ==> store[k] == old(store)[k]
    {
      var keys := Keys(store);
      var i := |keys|;
      while i > 0
        invariant 0 <= i <= |keys|
        invariant forall k :: k in store <==> k in old(store) && !(k in keys[i..] && IsBackupKey(k))
        invariant forall k :: k in store ==> store[k] == old(store)[k]
      {
        i := i - 1;
        var key := keys[i];
        assert keys[i..] == [key] + keys[i + 1..];
        if IsBackupKey(key) {
          RemoveItem(key);
        }
      }
    }

    /** `clearAllData()`: a `clear-all` backup, then every owned key goes, that backup included. */
    method ClearAllData(now: nat) returns (ok: bool)
      modifies this
      ensures ok
      ensures mode == Fallback ==> fallback == map[] && store == old(store)
      ensures mode == LocalStorage ==>
        fallback == old(fallback) && store == map k | k in old(store) && !Owned(k) :: old(store)[k]
    {
      if mode == Fallback {
        fallback := map[];
        return true;
      }
      var backedUp := CreateBackup(now, "clear-all");
      BackupTouchesOwnedOnly(env, old(store), store, "clear-all", now, backedUp);
      ghost var afterBackup := store;
      RemoveFixedKeys();
      RemoveBackupKeys();
      assert forall k :: k in store <==> k in afterBackup && !Owned(k);
      ClearedLeavesUnowned(old(store), afterBackup, store);
      return true;
    }
  }

  /** A store that keeps exactly the unowned keys of a store agreeing with `before` on them is `before` without its owned keys. */
  lemma ClearedLeavesUnowned(before: Store, mid: Store, after: Store)
    requires forall k :: !Owned(k) ==> Agree(before, mid, k)
    requires forall k :: k in after <==> k in mid && !Owned(k)
    requires forall k :: k in after ==> after[k] == mid[k]
    ensures after == map k | k in before && !Owned(k) :: before[k]
  {
  }

  /** A backup only changes owned keys: its own key, `todo-last-backup` and rotated backups. */
  lemma BackupTouchesOwnedOnly(env: Platform, before: Store, after: Store, reason: string, now: nat, ok: bool)
    requires BackedUp(env, before, after, reason, now, ok)
    ensures forall k :: !Owned(k) ==> Agree(before, after, k)
  {
    var key := BackupKey(now);
    var rec := Snapshot(env, before, reason, now);
    LayoutKeysDistinct();
    if ok {
      var full := before[key := rec][LastBackupKey := Plain(key)];
      forall k | !Owned(k) ensures Agree(before, after, k) {
        assert Agree(before, full, k);
        assert !IsListed(full, k);
      }
    }
  }

  /**
   * A backup that returns `true` leaves `todo-last-backup` pointing at its
   * key and at most `MAX_BACKUP_ITEMS` listed backups; with room for every
   * write it returns `true`.
   */
  lemma BackupOutcome(env: Platform, before: Store, after: Store, reason: string, now: nat, ok: bool)
    requires BackedUp(env, before, after, reason, now, ok)
    ensures Roomy(env) ==> ok
    ensures ok ==> LastBackupKey in after && after[LastBackupKey] == Plain(BackupKey(now))
    ensures ok ==> |ListedKeys(after)| <= MaxBackupItems
  {
    if ok {
      LayoutKeysDistinct();
      var key := BackupKey(now);
      var full := before[key := Snapshot(env, before, reason, now)][LastBackupKey := Plain(key)];
      assert !IsListed(full, LastBackupKey);
    }
  }

  /**
   * A successful backup whose timestamp is strictly newer than every other
   * listed backup survives its own rotation, holding the tasks as they were
   * before the call.
   */
  lemma BackupKeepsSnapshot(env: Platform, before: Store, after: Store, reason: string, now: nat)
    requires BackedUp(env, before, after, reason, now, true)
    requires forall d :: IsListed(before, d) && d != BackupKey(now) ==>
      StrictlyNewer(env.dates(JStr(env.iso(now))), BackupTime(env.dates, before, d))
    ensures BackupKey(now) in after && after[BackupKey(now)] == Snapshot(env, before, reason, now)
  {
    LayoutKeysDistinct();
    var key := BackupKey(now);
    var tasks := PersistedTasks(env.dates, before, env.iso(now));
    var rec := Snapshot(env, before, reason, now);
    var full := before[key := rec][LastBackupKey := Plain(key)];
    assert full[key] == Doc(BackupRecord(tasks, reason, env.iso(now)));
    SummaryOfRecord(full, key, tasks, reason, env.iso(now));
    assert BackupTime(env.dates, full, key) == env.dates(JStr(env.iso(now)));
    forall d | IsListed(full, d) && d != key
      ensures StrictlyNewer(BackupTime(env.dates, full, key), BackupTime(env.dates, full, d))
    {
      assert d != LastBackupKey;
      assert full[d] == before[d];
      assert IsListed(before, d);
      assert Summarize(full, d) == Summarize(before, d);
    }
    RotationKeepsNewest(env.dates, full, after, key);
  }

  /** Writing a listed record and `todo-last-backup` adds exactly that key to the listing. */
  lemma PointedListing(before: Store, key: string, rec: Value)
    requires IsBackupKey(key) && rec.Doc? && rec.doc != JNull
    ensures ListedKeys(before[key := rec][LastBackupKey := Plain(key)]) == ListedKeys(before) + {key}
  {
    LayoutKeysDistinct();
    var full := before[key := rec][LastBackupKey := Plain(key)];
    forall k ensures IsListed(full, k) <==> IsListed(before, k) || k == key {
      if k != key && k != LastBackupKey {
        assert Agree(before, full, k);
      }
    }
  }

  /**
   * A successful backup under a fresh key that is strictly newer than every
   * listed backup costs at most the oldest of them: rotation keeps the new
   * backup, so every earlier backup stays unchanged when fewer than five were
   * listed, and four of them stay otherwise.
   */
  lemma BackupKeepsEarlier(env: Platform, before: Store, after: Store, reason: string, now: nat)
    requires BackedUp(env, before, after, reason, now, true)
    requires BackupKey(now) !in before
    requires forall d :: IsListed(before, d) ==>
      StrictlyNewer(env.dates(JStr(env.iso(now))), BackupTime(env.dates, before, d))
    ensures |set k | k in before && IsListed(before, k) && k in after && after[k] == before[k]|
      >= if |ListedKeys(before)| < MaxBackupItems then |ListedKeys(before)| else MaxBackupItems - 1
  {
    LayoutKeysDistinct();
    var key := BackupKey(now);
    var rec := Snapshot(env, before, reason, now);
    var full := before[key := rec][LastBackupKey := Plain(key)];
    assert Rotated(env.dates, full, after);
    var kept := set k | k in before && IsListed(before, k) && k in after && after[k] == before[k];
    BackupKeepsSnapshot(env, before, after, reason, now);
    PointedListing(before, key, rec);
    assert |ListedKeys(full)| == |ListedKeys(before)| + 1;
    assert IsListed(after, key) by { assert after[key] == full[key]; }
    var rest := ListedKeys(after) - {key};
    forall k | k in rest ensures k in kept {
      assert k != LastBackupKey && k != key;
      assert after[k] == full[k];
    }
    SubsetSize(rest, kept);
  }

  /**
   * A successful save leaves the sanitized list under `todo-tasks` and the
   * save time under `todo-last-saved`, and a later load returns that list
   * minus its records with an empty id or text, whatever the clock reads.
   */
  lemma SaveThenLoad(env: Platform, before: Store, after: Store, elems: seq<Json>, now: nat)
    requires Saved(env, before, after, elems, now, true)
    ensures TasksKey in after && after[TasksKey] == SavedTasks(env, elems, now)
    ensures LastSavedKey in after && after[LastSavedKey] == Plain(env.iso(now))
    ensures forall loadIso :: PersistedTasks(env.dates, after, loadIso) == DropBlank(CleanTasks(env.dates, elems, env.iso(now)))
  {
    LayoutKeysDistinct();
    var probed :| SavedVia(env, before, probed, after, elems, now, true);
    forall loadIso ensures PersistedTasks(env.dates, after, loadIso) == DropBlank(CleanTasks(env.dates, elems, env.iso(now))) {
      SavedThenLoaded(env.dates, after, elems, env.iso(now), loadIso);
      assert after[TasksKey := SavedTasks(env, elems, now)] == after;
    }
  }

  /**
   * A save writes only `todo-tasks` and `todo-last-saved`, removes the probe
   * key, and removes backups only when the probe did not fit; with room for
   * every write it succeeds and touches nothing else.
   */
  lemma SaveTouches(env: Platform, before: Store, after: Store, elems: seq<Json>, now: nat, ok: bool)
    requires Saved(env, before, after, elems, now, ok)
    ensures forall k :: k != TasksKey && k != LastSavedKey && k != SpaceTestKey && !IsListed(before, k) ==> Agree(before, after, k)
    ensures Roomy(env) ==> ok && after == (before - {SpaceTestKey})[TasksKey := SavedTasks(env, elems, now)][LastSavedKey := Plain(env.iso(now))]
  {
    var probed :| SavedVia(env, before, probed, after, elems, now, ok);
  }

  /** With room for every write, the version check leaves the current version stamped. */
  lemma VersionStamped(env: Platform, before: Store, after: Store, now: nat)
    requires VersionChecked(env, before, after, now) && Roomy(env)
    ensures AppVersionKey in after && after[AppVersionKey] == Plain(CurrentVersion)
  {
    if !Blank(before, AppVersionKey) && before[AppVersionKey] != Plain(CurrentVersion) {
      var mid, b :| BackedUp(env, before, mid, "version-migration", now, b) &&
        after == (if env.fits(mid, AppVersionKey, Plain(CurrentVersion)) then mid[AppVersionKey := Plain(CurrentVersion)] else mid);
    }
  }

  /** With room for every write, a second version check makes no writes. */
  lemma VersionCheckIdempotent(env: Platform, s0: Store, s1: Store, s2: Store, now: nat, later: nat)
    requires Roomy(env)
    requires VersionChecked(env, s0, s1, now) && VersionChecked(env, s1, s2, later)
    ensures s2 == s1
  {
    VersionStamped(env, s0, s1, now);
  }

  /**
   * Migrating from another version takes a `version-migration` backup first:
   * with room for every write, `todo-last-backup` then names that backup.
   */
  lemma MigrationBacksUp(env: Platform, before: Store, after: Store, now: nat)
    requires VersionChecked(env, before, after, now) && Roomy(env)
    requires !Blank(before, AppVersionKey) && before[AppVersionKey] != Plain(CurrentVersion)
    ensures LastBackupKey in after && after[LastBackupKey] == Plain(BackupKey(now))
  {
    LayoutKeysDistinct();
    var mid, b :| BackedUp(env, before, mid, "version-migration", now, b) &&
      after == (if env.fits(mid, AppVersionKey, Plain(CurrentVersion)) then mid[AppVersionKey := Plain(CurrentVersion)] else mid);
    BackupOutcome(env, before, mid, "version-migration", now, b);
  }

  /**
   * With room for every write, a restore whose safety backup is the newest
   * keeps that backup, holding the tasks from before the restore, next to the
   * restored list.
   */
  lemma RestoreKeepsSafetyCopy(env: Platform, before: Store, mid: Store, after: Store, elems: seq<Json>, now: nat, b: bool, ok: bool)
    requires Roomy(env)
    requires BackedUp(env, before, mid, "pre-restore", now, b) && Saved(env, mid, after, elems, now, ok)
    requires forall d :: IsListed(before, d) && d != BackupKey(now) ==>
      StrictlyNewer(env.dates(JStr(env.iso(now))), BackupTime(env.dates, before, d))
    ensures ok
    ensures BackupKey(now) in after && after[BackupKey(now)] == Snapshot(env, before, "pre-restore", now)
    ensures TasksKey in after && after[TasksKey] == SavedTasks(env, elems, now)
  {
    LayoutKeysDistinct();
    BackupOutcome(env, before, mid, "pre-restore", now, b);
    BackupKeepsSnapshot(env, before, mid, "pre-restore", now);
    SaveTouches(env, mid, after, elems, now, ok);
    assert BackupKey(now) != TasksKey && BackupKey(now) != LastSavedKey && BackupKey(now) != SpaceTestKey;
  }

  /**
   * `restoreFromBackup` goes on when its safety backup fails: if the record
   * does not fit, nothing is backed up, and a save that succeeds still
   * replaces `todo-tasks`, so this call keeps no copy of the tasks it replaces.
   */
  lemma RestoreDespiteFailedSafetyCopy(env: Platform, before: Store, mid: Store, after: Store, elems: seq<Json>, now: nat, b: bool)
    requires BackedUp(env, before, mid, "pre-restore", now, b) && Saved(env, mid, after, elems, now, true)
    requires !env.fits(before, BackupKey(now), Snapshot(env, before, "pre-restore", now))
    ensures !b && mid == before
    ensures TasksKey in after && after[TasksKey] == SavedTasks(env, elems, now)
  {
    SaveThenLoad(env, mid, after, elems, now);
  }
}
