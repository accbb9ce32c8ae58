/**
 * `loadTasks` and `createBackup` as memory.js writes them call each other.
 * When `todo-tasks` holds text `JSON.parse` rejects, `loadTasks` recovers by
 * calling `createBackup('error-recovery')`, and the first thing
 * `createBackup` does is call `loadTasks()` on the same, still unchanged
 * store. The recursion ends only when the engine's stack runs out: the
 * `RangeError` is thrown by the innermost `loadTasks`, and the `catch` of
 * the `createBackup` around it turns it into `false`. Every frame still on
 * the stack then carries on: each `loadTasks` returns `[]`, and each
 * `createBackup` writes an `error-recovery` backup of that empty list under
 * its own clock reading and rotates.
 *
 * `depth` is the number of `loadTasks` frames the stack still has room for,
 * and `clock(d)` the clock reading taken by the frames at level `d`. The
 * store changes are relations, as in `Memory`: a rotation depends on the
 * order the store enumerates its keys in.
 */
module LoadRecursion {
  import opened Wrappers
  import opened JsonModel
  import opened Storage
  import opened TaskRecords
  import opened TaskPipeline
  import opened StoreLayout
  import opened Backups
  import opened Memory

  /**
   * The body of `createBackup` after `loadTasks()` returned `tasks`: the
   * record is written, `todo-last-backup` is pointed at it, and the backups
   * are rotated; a write that does not fit ends the call with `false`.
   */
  ghost predicate WroteBackup(env: Platform, before: Store, after: Store, tasks: seq<TaskRec>, reason: string, now: nat, ok: bool) {
    var key := BackupKey(now);
    var rec := Doc(BackupRecord(tasks, reason, env.iso(now)));
    var written := before[key := rec];
    if !env.fits(before, key, rec) then !ok && after == before
    else if !env.fits(written, LastBackupKey, Plain(key)) then !ok && after == written
    else ok && Rotated(env.dates, written[LastBackupKey := Plain(key)], after)
  }

  /**
   * `loadTasks()` as written, in localStorage mode; `r == None` is the
   * `RangeError` of a call the stack has no room for.
   */
  ghost predicate LoadAsWritten(env: Platform, before: Store, after: Store, r: Option<seq<TaskRec>>, clock: nat -> nat, depth: nat)
    decreases depth, 0
  {
    if depth == 0 then r.None? && after == before
    else if !TasksCorrupt(before) then r == Some(PersistedTasks(env.dates, before, env.iso(clock(depth)))) && after == before
    else
      && r == Some([])
      && (|| BackupAsWritten(env, before, after, "error-recovery", clock, depth - 1, true)
          || BackupAsWritten(env, before, after, "error-recovery", clock, depth - 1, false))
  }

  /** `createBackup(reason)` as written: it starts with `this.loadTasks()`, inside its own `try`. */
  ghost predicate BackupAsWritten(env: Platform, before: Store, after: Store, reason: string, clock: nat -> nat, depth: nat, ok: bool)
    decreases depth, 1
  {
    exists mid, r :: LoadAsWritten(env, before, mid, r, clock, depth) &&
      if r.None? then !ok && after == mid
      else WroteBackup(env, mid, after, r.value, reason, clock(depth), ok)
  }

  /** Every listed backup is undated or no newer than `t`. */
  ghost predicate NoneNewer(dates: Json -> Option<int>, store: Store, t: int) {
    forall k :: IsListed(store, k) ==> AtLeastAsNew(Some(t), BackupTime(dates, store, k))
  }

  /** The listed backups strictly newer than `t`. */
  function NewerThan(dates: Json -> Option<int>, store: Store, t: int): (ks: set<string>)
    ensures forall k :: k in ks <==> IsListed(store, k) && StrictlyNewer(BackupTime(dates, store, k), Some(t))
  {
    set k | k in store && IsListed(store, k) && StrictlyNewer(BackupTime(dates, store, k), Some(t))
  }

  /**
   * Every listed backup newer than `t` is a recovery backup: its key is the
   * backup key of its own time, and it holds no tasks.
   */
  ghost predicate RecoveryOnly(dates: Json -> Option<int>, store: Store, t: int) {
    forall k :: IsListed(store, k) && StrictlyNewer(BackupTime(dates, store, k), Some(t)) ==>
      && BackupTime(dates, store, k).value >= 0
      && k == BackupKey(BackupTime(dates, store, k).value as nat)
      && Get(store[k].doc, "tasks") == Some(JArr([]))
  }

  function Min(a: int, b: int): int {
    if a <= b then a else b
  }

  /** Two stores that hold the same value under `k` give `k` the same listing and time. */
  lemma SameEntry(dates: Json -> Option<int>, a: Store, b: Store, k: string)
    requires k in a && k in b && a[k] == b[k]
    ensures IsListed(a, k) == IsListed(b, k)
    ensures IsListed(a, k) ==> BackupTime(dates, a, k) == BackupTime(dates, b, k)
  {
  }

  /** After a rotation, every listed backup is one of those listed before, with the same time. */
  lemma RotatedListed(dates: Json -> Option<int>, before: Store, after: Store, k: string)
    requires Rotated(dates, before, after) && IsListed(after, k)
    ensures IsListed(before, k) && BackupTime(dates, after, k) == BackupTime(dates, before, k)
  {
    SameEntry(dates, after, before, k);
  }

  /**
   * A rotation keeps the backups newer than `t`, or, when it has to drop one
   * of them, leaves only backups newer than `t`, five of them.
   */
  lemma RotationCountsNewer(dates: Json -> Option<int>, before: Store, after: Store, t: int)
    requires Rotated(dates, before, after)
    ensures |NewerThan(dates, after, t)| >= Min(|NewerThan(dates, before, t)|, MaxBackupItems)
  {
    var nb := NewerThan(dates, before, t);
    var na := NewerThan(dates, after, t);
    if d :| d in nb && d !in after {
      if |ListedKeys(before)| <= MaxBackupItems {
        RotationKeepsFew(dates, before, after);
      }
      assert ListedKeys(after) <= na by {
        forall k | k in ListedKeys(after) ensures k in na {
          RotatedListed(dates, before, after, k);
          assert d in ListedKeys(before);
        }
      }
      SubsetSize(ListedKeys(after), na);
    } else {
      forall k | k in nb ensures k in na {
        SameEntry(dates, before, after, k);
      }
      SubsetSize(nb, na);
    }
  }

  /** The store after `createBackup` wrote an empty recovery record at `now` and pointed `todo-last-backup` at it. */
  function Pointed(env: Platform, before: Store, now: nat): (full: Store)
    ensures BackupKey(now) in full && LastBackupKey in full
  {
    var key := BackupKey(now);
    before[key := Doc(BackupRecord([], "error-recovery", env.iso(now)))][LastBackupKey := Plain(key)]
  }

  /** The new record is listed, with the time of its stamp, and every other listed backup is unchanged. */
  lemma PointedEntries(env: Platform, before: Store, now: nat)
    requires env.dates(JStr(env.iso(now))) == Some(now)
    ensures var full := Pointed(env, before, now);
      && IsListed(full, BackupKey(now))
      && BackupTime(env.dates, full, BackupKey(now)) == Some(now)
      && Get(full[BackupKey(now)].doc, "tasks") == Some(JArr([]))
      && (forall d :: IsListed(full, d) && d != BackupKey(now) ==>
            d in before && full[d] == before[d] && IsListed(before, d) && BackupTime(env.dates, full, d) == BackupTime(env.dates, before, d))
      && Agree(before, full, TasksKey)
  {
    LayoutKeysDistinct();
    var key := BackupKey(now);
    var full := Pointed(env, before, now);
    assert Encode([]) == [];
    BackupRecordFields([], "error-recovery", env.iso(now));
    SummaryOfRecord(full, key, [], "error-recovery", env.iso(now));
    forall d | IsListed(full, d) && d != key
      ensures d in before && full[d] == before[d] && IsListed(before, d)
      ensures BackupTime(env.dates, full, d) == BackupTime(env.dates, before, d)
    {
      assert d != LastBackupKey;
      SameEntry(env.dates, full, before, d);
    }
  }

  /** Writing a recovery record stamped later than every listed backup keeps every backup newer than `t` a recovery backup. */
  lemma PointedRecoveryOnly(env: Platform, before: Store, now: nat, t: int)
    requires env.dates(JStr(env.iso(now))) == Some(now)
    requires RecoveryOnly(env.dates, before, t)
    ensures RecoveryOnly(env.dates, Pointed(env, before, now), t)
  {
    var dates := env.dates;
    var key := BackupKey(now);
    var full := Pointed(env, before, now);
    PointedEntries(env, before, now);
    forall k | IsListed(full, k) && StrictlyNewer(BackupTime(dates, full, k), Some(t))
      ensures BackupTime(dates, full, k).value >= 0
      ensures k == BackupKey(BackupTime(dates, full, k).value as nat)
      ensures Get(full[k].doc, "tasks") == Some(JArr([]))
    {
      if k != key {
        assert IsListed(before, k) && full[k] == before[k];
      }
    }
  }

  /** Before the write, no backup newer than `t` sits under the new key: it would carry the new stamp. */
  lemma FreshKey(dates: Json -> Option<int>, before: Store, now: nat, prev: int, t: int)
    requires prev < now
    requires NoneNewer(dates, before, prev)
    requires RecoveryOnly(dates, before, t)
    ensures BackupKey(now) !in NewerThan(dates, before, t)
  {
    var key := BackupKey(now);
    if key in NewerThan(dates, before, t) {
      assert IsListed(before, key);
      var v := BackupTime(dates, before, key).value;
      BackupKeyInjective(v as nat, now);
    }
  }

  /** The backups newer than `t` before the write are still there after it. */
  lemma PointedKeepsNewer(env: Platform, before: Store, now: nat, t: int)
    requires env.dates(JStr(env.iso(now))) == Some(now) && t < now
    ensures NewerThan(env.dates, before, t) + {BackupKey(now)} <= NewerThan(env.dates, Pointed(env, before, now), t)
  {
    LayoutKeysDistinct();
    var full := Pointed(env, before, now);
    PointedEntries(env, before, now);
    forall k | k in NewerThan(env.dates, before, t) ensures k in NewerThan(env.dates, full, t) {
      if k != BackupKey(now) {
        assert k != LastBackupKey;
        SameEntry(env.dates, before, full, k);
      }
    }
  }

  /** Writing a recovery record stamped later than every listed backup adds one backup newer than `t`. */
  lemma PointedCount(env: Platform, before: Store, now: nat, prev: int, t: int)
    requires env.dates(JStr(env.iso(now))) == Some(now)
    requires prev < now && t < now
    requires NoneNewer(env.dates, before, prev)
    requires RecoveryOnly(env.dates, before, t)
    ensures |NewerThan(env.dates, Pointed(env, before, now), t)| >= |NewerThan(env.dates, before, t)| + 1
  {
    var nb := NewerThan(env.dates, before, t);
    FreshKey(env.dates, before, now, prev, t);
    PointedKeepsNewer(env, before, now, t);
    SubsetSize(nb + {BackupKey(now)}, NewerThan(env.dates, Pointed(env, before, now), t));
  }

  /** After the write, no listed backup is newer than the stamp. */
  lemma PointedNoneNewer(env: Platform, before: Store, now: nat, prev: int)
    requires env.dates(JStr(env.iso(now))) == Some(now)
    requires prev < now
    requires NoneNewer(env.dates, before, prev)
    ensures NoneNewer(env.dates, Pointed(env, before, now), now)
  {
    PointedEntries(env, before, now);
  }

  /** A rotation keeps both invariants, leaves at most five listed, and does not touch `todo-tasks`. */
  lemma RotateStep(dates: Json -> Option<int>, full: Store, after: Store, now: nat, t: int)
    requires Rotated(dates, full, after)
    requires NoneNewer(dates, full, now) && RecoveryOnly(dates, full, t)
    ensures |NewerThan(dates, after, t)| >= Min(|NewerThan(dates, full, t)|, MaxBackupItems)
    ensures |ListedKeys(after)| <= MaxBackupItems
    ensures NoneNewer(dates, after, now) && RecoveryOnly(dates, after, t)
    ensures Agree(full, after, TasksKey)
  {
    LayoutKeysDistinct();
    RotationCountsNewer(dates, full, after, t);
    forall k | IsListed(after, k)
      ensures IsListed(full, k) && BackupTime(dates, after, k) == BackupTime(dates, full, k) && after[k] == full[k]
    {
      RotatedListed(dates, full, after, k);
    }
  }

  /**
   * One `error-recovery` backup of an empty list, stamped later than every
   * listed backup, with room for every write: afterwards one more backup is
   * newer than `t` (up to five), at most five are listed, none is newer than
   * the stamp, and `todo-tasks` is as it was.
   */
  lemma WriteStep(env: Platform, before: Store, after: Store, now: nat, prev: int, t: int)
    requires Roomy(env)
    requires WroteBackup(env, before, after, [], "error-recovery", now, true)
    requires env.dates(JStr(env.iso(now))) == Some(now)
    requires prev < now && t < now
    requires NoneNewer(env.dates, before, prev)
    requires RecoveryOnly(env.dates, before, t)
    ensures |NewerThan(env.dates, after, t)| >= Min(|NewerThan(env.dates, before, t)| + 1, MaxBackupItems)
    ensures |ListedKeys(after)| <= MaxBackupItems
    ensures NoneNewer(env.dates, after, now)
    ensures RecoveryOnly(env.dates, after, t)
    ensures Agree(before, after, TasksKey)
  {
    var full := Pointed(env, before, now);
    assert Rotated(env.dates, full, after);
    PointedEntries(env, before, now);
    PointedRecoveryOnly(env, before, now, t);
    PointedCount(env, before, now, prev, t);
    PointedNoneNewer(env, before, now, prev);
    RotateStep(env.dates, full, after, now, t);
  }

  /**
   * On corrupt task text, with room for every write and a clock that moves
   * forward from level to level, the as-written load returns `[]`, leaves
   * the text in place, and has written one recovery backup per level below
   * the top, keeping only the newest five of all backups.
   */
  lemma {:induction false} AsWrittenUnwinds(env: Platform, before: Store, after: Store, r: Option<seq<TaskRec>>, clock: nat -> nat, depth: nat)
    requires Roomy(env) && TasksCorrupt(before)
    requires forall j :: env.dates(JStr(env.iso(clock(j)))) == Some(clock(j))
    requires forall i, j :: i < j ==> clock(i) < clock(j)
    requires NoneNewer(env.dates, before, clock(0))
    requires LoadAsWritten(env, before, after, r, clock, depth)
    ensures r == if depth == 0 then None else Some([])
    ensures TasksKey in after && after[TasksKey] == before[TasksKey]
    ensures RecoveryOnly(env.dates, after, clock(0))
    ensures depth <= 1 ==> after == before
    ensures depth >= 2 ==> NoneNewer(env.dates, after, clock(depth - 1)) && |ListedKeys(after)| <= MaxBackupItems
    ensures |NewerThan(env.dates, after, clock(0))| >= if depth <= 1 then 0 else Min(depth - 1, MaxBackupItems)
    decreases depth
  {
    if depth >= 2 {
      var ok := BackupAsWritten(env, before, after, "error-recovery", clock, depth - 1, true);
      var mid, r' :| LoadAsWritten(env, before, mid, r', clock, depth - 1) &&
        if r'.None? then !ok && after == mid
        else WroteBackup(env, mid, after, r'.value, "error-recovery", clock(depth - 1), ok);
      AsWrittenUnwinds(env, before, mid, r', clock, depth - 1);
      assert ok && r' == Some([]);
      WriteStep(env, mid, after, clock(depth - 1), clock(depth - 2), clock(0));
    } else if depth == 1 {
      var ok := BackupAsWritten(env, before, after, "error-recovery", clock, 0, true);
      var mid, r' :| LoadAsWritten(env, before, mid, r', clock, 0) &&
        if r'.None? then !ok && after == mid
        else WroteBackup(env, mid, after, r'.value, "error-recovery", clock(0), ok);
    }
  }

  /**
   * With room for at least six `loadTasks` frames, the as-written load on
   * corrupt task text leaves only empty recovery backups listed: no backup
   * listed before the call survives unchanged.
   */
  lemma AsWrittenLosesBackups(env: Platform, before: Store, after: Store, r: Option<seq<TaskRec>>, clock: nat -> nat, depth: nat)
    requires Roomy(env) && TasksCorrupt(before)
    requires forall j :: env.dates(JStr(env.iso(clock(j)))) == Some(clock(j))
    requires forall i, j :: i < j ==> clock(i) < clock(j)
    requires NoneNewer(env.dates, before, clock(0))
    requires LoadAsWritten(env, before, after, r, clock, depth)
    requires depth >= MaxBackupItems + 1
    ensures r == Some([])
    ensures forall k :: IsListed(after, k) ==> Get(after[k].doc, "tasks") == Some(JArr([]))
    ensures forall k :: IsListed(before, k) ==> k !in after || after[k] != before[k]
  {
    var t := clock(0);
    AsWrittenUnwinds(env, before, after, r, clock, depth);
    var na := NewerThan(env.dates, after, t);
    SubsetSize(na, ListedKeys(after));
    SubsetSameSize(na, ListedKeys(after));
    forall k | IsListed(before, k) && k in after ensures after[k] != before[k] {
      if after[k] == before[k] {
        SameEntry(env.dates, before, after, k);
      }
    }
  }

  /**
   * The text `x` under `todo-tasks` next to one earlier backup of real
   * tasks: the as-written load returns `[]`, the text stays, and the earlier
   * backup is gone or overwritten.
   */
  lemma CorruptTasksExample(env: Platform, after: Store, r: Option<seq<TaskRec>>, clock: nat -> nat, depth: nat,
                            saved: seq<TaskRec>, stamp: nat)
    requires Roomy(env)
    requires forall j :: env.dates(JStr(env.iso(clock(j)))) == Some(clock(j))
    requires forall i, j :: i < j ==> clock(i) < clock(j)
    requires env.dates(JStr(env.iso(stamp))) == Some(stamp) && stamp <= clock(0)
    requires LoadAsWritten(env, map[TasksKey := Plain("x"), BackupKey(stamp) := Doc(BackupRecord(saved, "manual", env.iso(stamp)))],
                           after, r, clock, depth)
    requires depth >= MaxBackupItems + 1
    ensures r == Some([])
    ensures TasksKey in after && after[TasksKey] == Plain("x")
    ensures BackupKey(stamp) !in after || after[BackupKey(stamp)] != Doc(BackupRecord(saved, "manual", env.iso(stamp)))
  {
    LayoutKeysDistinct();
    var earlier := BackupKey(stamp);
    var before := map[TasksKey := Plain("x"), earlier := Doc(BackupRecord(saved, "manual", env.iso(stamp)))];
    assert earlier != TasksKey;
    SummaryOfRecord(before, earlier, saved, "manual", env.iso(stamp));
    assert NoneNewer(env.dates, before, clock(0)) by {
      forall k | IsListed(before, k) ensures AtLeastAsNew(Some(clock(0)), BackupTime(env.dates, before, k)) {
        assert k == earlier;
      }
    }
    AsWrittenUnwinds(env, before, after, r, clock, depth);
    AsWrittenLosesBackups(env, before, after, r, clock, depth);
  }
}
