/**
 * Backup snapshots as memory.js writes and lists them: the key
 * `todo-backup-<ms>`, the record `{ tasks, timestamp, reason, version }`,
 * the summary `getAvailableBackups` builds for each listed key, its
 * newest-first order, and the rotation `cleanOldBackups` performs. `dates`
 * gives the time value of `new Date(x)`, `None` for an Invalid Date; an
 * invalid time sorts as the oldest.
 */
module Backups {
  import opened Wrappers
  import opened JsText
  import opened JsonModel
  import opened Storage
  import opened TaskRecords
  import opened TaskPipeline
  import opened StoreLayout

  /** `` `todo-backup-${Date.now()}` ``. */
  function BackupKey(stamp: nat): (k: string)
    ensures IsBackupKey(k)
    ensures k[|BackupPrefix|..] == NatToString(stamp)
  {
    BackupPrefix + NatToString(stamp)
  }

  /** Two backups share a key exactly when they were stamped in the same millisecond. */
  lemma BackupKeyInjective(a: nat, b: nat)
    ensures BackupKey(a) == BackupKey(b) <==> a == b
  {
    if BackupKey(a) == BackupKey(b) {
      NatToStringInjective(a, b);
    }
  }

  /** The object `createBackup` writes. */
  function BackupRecord(tasks: seq<TaskRec>, reason: string, timestamp: string): (j: Json)
    ensures j.JObj?
  {
    JObj(map["tasks" := JArr(Encode(tasks)), "timestamp" := JStr(timestamp),
             "reason" := JStr(reason), "version" := JStr(CurrentVersion)])
  }

  /** Reading a written backup record's fields gives back what was written. */
  lemma BackupRecordFields(tasks: seq<TaskRec>, reason: string, timestamp: string)
    ensures var j := BackupRecord(tasks, reason, timestamp);
      && Get(j, "tasks") == Some(JArr(Encode(tasks)))
      && Get(j, "timestamp") == Some(JStr(timestamp))
      && Get(j, "reason") == Some(JStr(reason))
      && Get(j, "version") == Some(JStr(CurrentVersion))
  {
    assert "tasks"[0] != "timestamp"[1] && "tasks"[0] != "reason"[0] && "tasks"[0] != "version"[0];
    assert "timestamp"[1] != "reason"[1] && "timestamp"[0] != "version"[0] && "reason"[0] != "version"[0];
    assert "tasks"[1] != "timestamp"[1];
  }

  /**
   * A key `getAvailableBackups` lists: it starts with the prefix and its text
   * parses to something other than `null` (reading a field of `null` throws
   * and the entry is skipped; unparsable text is skipped too).
   */
  predicate IsListed(store: Store, k: string) {
    k in store && IsBackupKey(k) && store[k].Doc? && store[k].doc != JNull
  }

  /** All listed backup keys of a store. */
  function ListedKeys(store: Store): (ks: set<string>)
    ensures forall k :: k in ks <==> IsListed(store, k)
  {
    set k | k in store && IsListed(store, k)
  }

  /** One entry of `getAvailableBackups`; each `None` is `undefined`. */
  datatype Summary = Summary(key: string, timestamp: Option<Json>, reason: Option<Json>, taskCount: Option<Json>)

  /** `x ? x.length : 0`. */
  function LengthOrZero(v: Option<Json>): Option<Json> {
    if !Present(v) then Some(JNum(0))
    else match v.value
      case JArr(e) => Some(JNum(|e|))
      case JStr(s) => Some(JNum(|s|))
      case JObj(_) => Get(v.value, "length")
      case _ => None
  }

  /** The summary of the backup stored under `k`. */
  function Summarize(store: Store, k: string): (s: Summary)
    requires IsListed(store, k)
    ensures s.key == k
  {
    var doc := store[k].doc;
    Summary(k, Get(doc, "timestamp"), Get(doc, "reason"), LengthOrZero(Get(doc, "tasks")))
  }

  /** Listing a written backup record shows its timestamp, its reason and its number of tasks. */
  lemma SummaryOfRecord(store: Store, k: string, tasks: seq<TaskRec>, reason: string, timestamp: string)
    requires IsBackupKey(k)
    requires k in store && store[k] == Doc(BackupRecord(tasks, reason, timestamp))
    ensures IsListed(store, k)
    ensures Summarize(store, k) == Summary(k, Some(JStr(timestamp)), Some(JStr(reason)), Some(JNum(|tasks|)))
  {
    BackupRecordFields(tasks, reason, timestamp);
  }

  /** `new Date(entry.timestamp)` as a time value. */
  function SummaryTime(dates: Json -> Option<int>, s: Summary): Option<int> {
    if s.timestamp.Some? then dates(s.timestamp.value) else None
  }

  /** The time of the backup under a listed key. */
  function BackupTime(dates: Json -> Option<int>, store: Store, k: string): Option<int>
    requires IsListed(store, k)
  {
    SummaryTime(dates, Summarize(store, k))
  }

  /** `a` sorts no later than `b` newest-first; an invalid time is the oldest. */
  predicate AtLeastAsNew(a: Option<int>, b: Option<int>) {
    b.None? || (a.Some? && a.value >= b.value)
  }

  predicate StrictlyNewer(a: Option<int>, b: Option<int>) {
    a.Some? && (b.None? || a.value > b.value)
  }

  /** Sorted by `(a, b) => new Date(b.timestamp) - new Date(a.timestamp)`. */
  predicate NewestFirst(dates: Json -> Option<int>, r: seq<Summary>) {
    forall i, j :: 0 <= i < j < |r| ==> AtLeastAsNew(SummaryTime(dates, r[i]), SummaryTime(dates, r[j]))
  }

  /** No key appears twice. */
  predicate DistinctKeys(r: seq<Summary>) {
    forall i, j :: 0 <= i < j < |r| ==> r[i].key != r[j].key
  }

  /** The keys of a list of summaries. */
  function KeySet(r: seq<Summary>): (ks: set<string>)
    ensures forall k :: k in ks <==> exists i :: 0 <= i < |r| && r[i].key == k
  {
    set i | 0 <= i < |r| :: r[i].key
  }

  /** Inserts `x` after every entry at least as new, so equal times keep their order. */
  function Insert(dates: Json -> Option<int>, x: Summary, r: seq<Summary>): seq<Summary> {
    if r == [] then [x]
    else if AtLeastAsNew(SummaryTime(dates, r[0]), SummaryTime(dates, x)) then [r[0]] + Insert(dates, x, r[1..])
    else [x] + r
  }

  /** Insertion adds exactly `x`. */
  lemma {:induction false} InsertElements(dates: Json -> Option<int>, x: Summary, r: seq<Summary>)
    ensures multiset(Insert(dates, x, r)) == multiset(r) + multiset{x}
  {
    if r != [] && AtLeastAsNew(SummaryTime(dates, r[0]), SummaryTime(dates, x)) {
      InsertElements(dates, x, r[1..]);
      assert r == [r[0]] + r[1..];
    }
  }

  /** Everything in the inserted list was in `r` or is `x`. */
  lemma InsertMembers(dates: Json -> Option<int>, x: Summary, r: seq<Summary>)
    ensures forall y :: y in Insert(dates, x, r) ==> y in r || y == x
  {
    InsertElements(dates, x, r);
    forall y | y in Insert(dates, x, r) ensures y in r || y == x {
      assert y in multiset(Insert(dates, x, r));
    }
  }

  /** Insertion keeps the list newest-first. */
  lemma {:induction false} InsertSorted(dates: Json -> Option<int>, x: Summary, r: seq<Summary>)
    requires NewestFirst(dates, r)
    ensures NewestFirst(dates, Insert(dates, x, r))
  {
    if r != [] && AtLeastAsNew(SummaryTime(dates, r[0]), SummaryTime(dates, x)) {
      var rest := Insert(dates, x, r[1..]);
      InsertSorted(dates, x, r[1..]);
      InsertMembers(dates, x, r[1..]);
      var o := [r[0]] + rest;
      forall i, j | 0 <= i < j < |o|
        ensures AtLeastAsNew(SummaryTime(dates, o[i]), SummaryTime(dates, o[j]))
      {
        if i == 0 {
          assert o[j] in rest;
          if o[j] != x {
            var m :| 0 <= m < |r[1..]| && r[1..][m] == o[j];
            assert r[m + 1] == o[j];
          }
        } else {
          assert o[i] == rest[i - 1] && o[j] == rest[j - 1];
        }
      }
    }
  }

  /** Insertion keeps keys distinct when `x`'s key is new. */
  lemma {:induction false} InsertDistinct(dates: Json -> Option<int>, x: Summary, r: seq<Summary>)
    requires DistinctKeys(r) && forall y :: y in r ==> y.key != x.key
    ensures DistinctKeys(Insert(dates, x, r))
  {
    if r != [] && AtLeastAsNew(SummaryTime(dates, r[0]), SummaryTime(dates, x)) {
      var rest := Insert(dates, x, r[1..]);
      InsertDistinct(dates, x, r[1..]);
      InsertMembers(dates, x, r[1..]);
      var o := [r[0]] + rest;
      forall i, j | 0 <= i < j < |o| ensures o[i].key != o[j].key {
        if i == 0 {
          assert o[j] in rest;
          if o[j] != x {
            var m :| 0 <= m < |r[1..]| && r[1..][m] == o[j];
            assert r[m + 1] == o[j];
          }
        } else {
          assert o[i] == rest[i - 1] && o[j] == rest[j - 1];
        }
      }
    }
  }

  /** `Array.prototype.sort` with the newest-first comparator (stable insertion sort). */
  function SortNewestFirst(dates: Json -> Option<int>, xs: seq<Summary>): (r: seq<Summary>)
    ensures NewestFirst(dates, r)
    ensures multiset(r) == multiset(xs)
  {
    if xs == [] then []
    else
      var init := xs[..|xs| - 1];
      var last := xs[|xs| - 1];
      assert xs == init + [last];
      var sorted := SortNewestFirst(dates, init);
      InsertSorted(dates, last, sorted);
      InsertElements(dates, last, sorted);
      Insert(dates, last, sorted)
  }

  /** Sorting keeps keys distinct. */
  lemma {:induction false} SortKeepsDistinct(dates: Json -> Option<int>, xs: seq<Summary>)
    requires DistinctKeys(xs)
    ensures DistinctKeys(SortNewestFirst(dates, xs))
  {
    if xs != [] {
      var init := xs[..|xs| - 1];
      var last := xs[|xs| - 1];
      var sorted := SortNewestFirst(dates, init);
      SortKeepsDistinct(dates, init);
      forall y | y in sorted ensures y.key != last.key {
        assert y in multiset(sorted);
        var m :| 0 <= m < |init| && init[m] == y;
        assert xs[m] == y;
      }
      InsertDistinct(dates, last, sorted);
    }
  }

  /** Distinct keys are as many as the entries. */
  lemma {:induction false} KeySetSize(r: seq<Summary>)
    requires DistinctKeys(r)
    ensures |KeySet(r)| == |r|
  {
    if r != [] {
      var init := r[..|r| - 1];
      KeySetSize(init);
      assert KeySet(r) == KeySet(init) + {r[|r| - 1].key};
      assert r[|r| - 1].key !in KeySet(init);
    }
  }

  /**
   * What `cleanOldBackups` does to the store: it only removes keys, only
   * listed backups, leaves at most `MAX_BACKUP_ITEMS` listed, removes none
   * while there are at most that many, and every backup it keeps is at
   * least as new as every backup it removes.
   */
  ghost predicate Rotated(dates: Json -> Option<int>, before: Store, after: Store) {
    && (forall k :: k in after ==> k in before && after[k] == before[k])
    && (forall k :: k in before && !IsListed(before, k) ==> k in after)
    && |ListedKeys(after)| == (if |ListedKeys(before)| <= MaxBackupItems then |ListedKeys(before)| else MaxBackupItems)
    && (forall k, d :: k in ListedKeys(after) && d in ListedKeys(before) && d !in after ==>
          AtLeastAsNew(BackupTime(dates, before, k), BackupTime(dates, before, d)))
  }

  /** A subset is no larger than its superset. */
  lemma {:induction false} SubsetSize(a: set<string>, b: set<string>)
    requires a <= b
    ensures |a| <= |b|
    decreases |a|
  {
    if a != {} {
      var y :| y in a;
      SubsetSize(a - {y}, b - {y});
    }
  }

  /** A subset as large as its superset is the whole superset. */
  lemma SubsetSameSize(a: set<string>, b: set<string>)
    requires a <= b && |a| == |b|
    ensures a == b
  {
    if a != b {
      var x :| x in b && x !in a;
      SubsetSize(a, b - {x});
    }
  }

  /** Rotation never removes a listed backup while there are at most five. */
  lemma RotationKeepsFew(dates: Json -> Option<int>, before: Store, after: Store)
    requires Rotated(dates, before, after)
    requires |ListedKeys(before)| <= MaxBackupItems
    ensures after == before
  {
    SubsetSameSize(ListedKeys(after), ListedKeys(before));
    forall k | k in before ensures k in after {
      if IsListed(before, k) {
        assert k in ListedKeys(before);
      }
    }
  }

  /** A backup strictly newer than every other listed backup survives the rotation. */
  lemma RotationKeepsNewest(dates: Json -> Option<int>, before: Store, after: Store, k: string)
    requires Rotated(dates, before, after)
    requires IsListed(before, k)
    requires forall d :: IsListed(before, d) && d != k ==> StrictlyNewer(BackupTime(dates, before, k), BackupTime(dates, before, d))
    ensures k in after && after[k] == before[k]
  {
    if k !in after {
      assert k in ListedKeys(before);
      assert |ListedKeys(after)| > 0;
      var kept :| kept in ListedKeys(after);
      assert false;
    }
  }

  /** Two lists with the same entries have the same keys. */
  lemma PermutationKeys(a: seq<Summary>, b: seq<Summary>)
    requires multiset(a) == multiset(b)
    ensures forall y :: y in a <==> y in b
    ensures KeySet(a) == KeySet(b)
  {
    forall y ensures y in a <==> y in b {
      assert y in a <==> y in multiset(a);
      assert y in b <==> y in multiset(b);
    }
    forall k | k in KeySet(a) ensures k in KeySet(b) {
      var i :| 0 <= i < |a| && a[i].key == k;
      assert a[i] in b;
      var j :| 0 <= j < |b| && b[j] == a[i];
    }
    forall k | k in KeySet(b) ensures k in KeySet(a) {
      var i :| 0 <= i < |b| && b[i].key == k;
      assert b[i] in a;
      var j :| 0 <= j < |a| && a[j] == b[i];
    }
  }

  /** `r` lists the backups of `store`: one summary per listed key, each read from the store. */
  predicate ListingOf(store: Store, r: seq<Summary>) {
    && DistinctKeys(r)
    && KeySet(r) == ListedKeys(store)
    && forall i :: 0 <= i < |r| ==> IsListed(store, r[i].key) && r[i] == Summarize(store, r[i].key)
  }

  /** A listing has one entry per listed backup. */
  lemma ListingSize(store: Store, r: seq<Summary>)
    requires ListingOf(store, r)
    ensures |r| == |ListedKeys(store)|
  {
    KeySetSize(r);
  }

  /** The entries past the first `MAX_BACKUP_ITEMS` are listed backups. */
  lemma DroppedAreListed(before: Store, r: seq<Summary>)
    requires ListingOf(before, r) && |r| > MaxBackupItems
    ensures KeySet(r[MaxBackupItems..]) <= ListedKeys(before)
  {
    var dropped := r[MaxBackupItems..];
    forall k | k in KeySet(dropped) ensures k in KeySet(r) {
      var j :| 0 <= j < |dropped| && dropped[j].key == k;
      assert r[MaxBackupItems + j] == dropped[j];
    }
  }

  /** After removing the tail, the listed backups are exactly the first `MAX_BACKUP_ITEMS` entries. */
  lemma KeptAreListed(before: Store, r: seq<Summary>)
    requires ListingOf(before, r) && |r| > MaxBackupItems
    ensures ListedKeys(before - KeySet(r[MaxBackupItems..])) == KeySet(r[..MaxBackupItems])
    ensures |KeySet(r[..MaxBackupItems])| == MaxBackupItems
  {
    var kept := r[..MaxBackupItems];
    var dropped := r[MaxBackupItems..];
    var after := before - KeySet(dropped);
    forall k | k in KeySet(kept) ensures k in ListedKeys(after) {
      var i :| 0 <= i < |kept| && kept[i].key == k;
      assert r[i] == kept[i];
    }
    forall k | k in ListedKeys(after) ensures k in KeySet(kept) {
      assert k in KeySet(r);
      var i :| 0 <= i < |r| && r[i].key == k;
      assert kept[i] == r[i];
    }
    assert DistinctKeys(kept) by {
      forall i, j | 0 <= i < j < |kept| ensures kept[i].key != kept[j].key {
        assert kept[i] == r[i] && kept[j] == r[j];
      }
    }
    KeySetSize(kept);
  }

  /**
   * Removing every entry past the first `MAX_BACKUP_ITEMS` of a newest-first
   * listing, as `cleanOldBackups` does, is a rotation.
   */
  lemma DropTailRotates(dates: Json -> Option<int>, before: Store, r: seq<Summary>)
    requires ListingOf(before, r) && NewestFirst(dates, r)
    ensures Rotated(dates, before, if |r| > MaxBackupItems then before - KeySet(r[MaxBackupItems..]) else before)
  {
    ListingSize(before, r);
    if |r| > MaxBackupItems {
      var kept := r[..MaxBackupItems];
      var dropped := r[MaxBackupItems..];
      var after := before - KeySet(dropped);
      DroppedAreListed(before, r);
      KeptAreListed(before, r);
      forall k, d | k in ListedKeys(after) && d in ListedKeys(before) && d !in after
        ensures AtLeastAsNew(BackupTime(dates, before, k), BackupTime(dates, before, d))
      {
        var i :| 0 <= i < |kept| && kept[i].key == k;
        assert r[i] == kept[i];
        var j :| 0 <= j < |dropped| && dropped[j].key == d;
        assert r[MaxBackupItems + j] == dropped[j];
      }
    }
  }

  /** The keys of a list grown by one entry. */
  lemma KeySetAppend(a: seq<Summary>, x: Summary)
    ensures KeySet(a + [x]) == KeySet(a) + {x.key}
  {
    var b := a + [x];
    forall k | k in KeySet(a) ensures k in KeySet(b) {
      var i :| 0 <= i < |a| && a[i].key == k;
      assert b[i] == a[i];
    }
    assert b[|a|] == x;
  }

  /** The summaries of the listed keys among `ks`, in the order of `ks`. */
  function Collect(store: Store, ks: seq<string>): seq<Summary> {
    if ks == [] then []
    else
      var k := ks[|ks| - 1];
      Collect(store, ks[..|ks| - 1]) + if IsListed(store, k) then [Summarize(store, k)] else []
  }

  /** Collecting over every key of the store, each once, gives a listing. */
  lemma {:induction false} CollectListing(store: Store, ks: seq<string>)
    requires NoRepeats(ks)
    ensures DistinctKeys(Collect(store, ks))
    ensures KeySet(Collect(store, ks)) == set k | k in ks && IsListed(store, k)
    ensures forall j :: 0 <= j < |Collect(store, ks)| ==>
      IsListed(store, Collect(store, ks)[j].key) && Collect(store, ks)[j] == Summarize(store, Collect(store, ks)[j].key)
  {
    if ks != [] {
      var init := ks[..|ks| - 1];
      var k := ks[|ks| - 1];
      assert ks == init + [k];
      CollectListing(store, init);
      var c := Collect(store, init);
      assert (set x | x in ks && IsListed(store, x)) ==
        (set x | x in init && IsListed(store, x)) + if IsListed(store, k) then {k} else {};
      if !IsListed(store, k) {
        assert Collect(store, ks) == c;
      } else {
        assert Collect(store, ks) == c + [Summarize(store, k)];
        KeySetAppend(c, Summarize(store, k));
        assert k !in init;
        var c' := c + [Summarize(store, k)];
        forall i, j | 0 <= i < j < |c'| ensures c'[i].key != c'[j].key {
          if j == |c| {
            assert c'[i] == c[i];
            assert c[i].key in KeySet(c);
          }
        }
      }
    }
  }
}
