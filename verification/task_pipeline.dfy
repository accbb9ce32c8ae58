/**
 * The `.filter(task => this.validateTask(task)).map(task => this.sanitizeTask(task))`
 * pipeline that `loadTasks` and `saveTasks` in memory.js both run, and what
 * running it twice (a save followed by a load) does.
 */
module TaskPipeline {
  import opened Wrappers
  import opened JsonModel
  import opened TaskRecords

  /** `tasks.filter(task => this.validateTask(task))`. */
  function ValidTasks(dates: Json -> Option<int>, xs: seq<Json>): (r: seq<Json>)
    ensures |r| <= |xs|
    ensures forall x :: x in r <==> x in xs && ValidateTask(dates, x)
  {
    if xs == [] then []
    else (if ValidateTask(dates, xs[0]) then [xs[0]] else []) + ValidTasks(dates, xs[1..])
  }

  /** `.map(task => this.sanitizeTask(task))` over object records. */
  function SanitizeAll(dates: Json -> Option<int>, xs: seq<Json>, nowIso: string): (r: seq<TaskRec>)
    requires forall x :: x in xs ==> x.JObj?
    ensures |r| == |xs|
    ensures forall i :: 0 <= i < |xs| ==> r[i] == SanitizeTask(dates, xs[i], nowIso)
  {
    if xs == [] then [] else [SanitizeTask(dates, xs[0], nowIso)] + SanitizeAll(dates, xs[1..], nowIso)
  }

  /** The pipeline: keep the valid records, sanitized, in their order. */
  function CleanTasks(dates: Json -> Option<int>, xs: seq<Json>, nowIso: string): (r: seq<TaskRec>)
    ensures |r| <= |xs|
    ensures forall t :: t in r ==> IsSanitized(dates, t) && IsValidDate(dates, Some(t.createdAt))
  {
    var v := ValidTasks(dates, xs);
    var r := SanitizeAll(dates, v, nowIso);
    forall i | 0 <= i < |r| ensures IsValidDate(dates, Some(r[i].createdAt)) {
      assert v[i] in v;
    }
    r
  }

  /** `JSON.stringify` of a list of records, element by element. */
  function Encode(ts: seq<TaskRec>): (r: seq<Json>)
    ensures |r| == |ts|
    ensures forall i :: 0 <= i < |ts| ==> r[i] == ToJson(ts[i])
  {
    if ts == [] then [] else [ToJson(ts[0])] + Encode(ts[1..])
  }

  /** The records whose id and text are both non-empty, in order. */
  function DropBlank(ts: seq<TaskRec>): (r: seq<TaskRec>)
    ensures |r| <= |ts|
    ensures forall t :: t in r <==> t in ts && t.id != [] && t.text != []
  {
    if ts == [] then []
    else (if ts[0].id != [] && ts[0].text != [] then [ts[0]] else []) + DropBlank(ts[1..])
  }

  lemma {:induction false} ValidTasksAppend(dates: Json -> Option<int>, a: seq<Json>, b: seq<Json>)
    ensures ValidTasks(dates, a + b) == ValidTasks(dates, a) + ValidTasks(dates, b)
  {
    if a == [] {
      assert a + b == b;
    } else {
      assert (a + b)[0] == a[0] && (a + b)[1..] == a[1..] + b;
      ValidTasksAppend(dates, a[1..], b);
    }
  }

  lemma {:induction false} SanitizeAllAppend(dates: Json -> Option<int>, a: seq<Json>, b: seq<Json>, nowIso: string)
    requires forall x :: x in a ==> x.JObj?
    requires forall x :: x in b ==> x.JObj?
    ensures forall x :: x in a + b ==> x.JObj?
    ensures SanitizeAll(dates, a + b, nowIso) == SanitizeAll(dates, a, nowIso) + SanitizeAll(dates, b, nowIso)
  {
    if a == [] {
      assert a + b == b;
    } else {
      assert (a + b)[0] == a[0] && (a + b)[1..] == a[1..] + b;
      SanitizeAllAppend(dates, a[1..], b, nowIso);
    }
  }

  /** The pipeline treats each record on its own: it distributes over concatenation. */
  lemma CleanTasksAppend(dates: Json -> Option<int>, a: seq<Json>, b: seq<Json>, nowIso: string)
    ensures CleanTasks(dates, a + b, nowIso) == CleanTasks(dates, a, nowIso) + CleanTasks(dates, b, nowIso)
  {
    ValidTasksAppend(dates, a, b);
    SanitizeAllAppend(dates, ValidTasks(dates, a), ValidTasks(dates, b), nowIso);
  }

  /** On one record the pipeline gives `[sanitizeTask(x)]` when `x` is valid and `[]` otherwise. */
  lemma CleanTasksSingle(dates: Json -> Option<int>, x: Json, nowIso: string)
    ensures CleanTasks(dates, [x], nowIso) == if ValidateTask(dates, x) then [SanitizeTask(dates, x, nowIso)] else []
  {
    assert [x][1..] == [];
  }

  /**
   * Running the pipeline over the written form of its own output (a save
   * followed by a load) gives back that output minus the records whose
   * trimmed id or text is empty.
   */
  lemma CleanTasksTwice(dates: Json -> Option<int>, xs: seq<Json>, nowIso: string)
    ensures CleanTasks(dates, Encode(CleanTasks(dates, xs, nowIso)), nowIso) == DropBlank(CleanTasks(dates, xs, nowIso))
  {
    ReloadSanitized(dates, CleanTasks(dates, xs, nowIso), nowIso);
  }

  lemma {:induction false} ReloadSanitized(dates: Json -> Option<int>, ts: seq<TaskRec>, nowIso: string)
    requires forall t :: t in ts ==> IsSanitized(dates, t) && IsValidDate(dates, Some(t.createdAt))
    ensures CleanTasks(dates, Encode(ts), nowIso) == DropBlank(ts)
  {
    if ts != [] {
      var t := ts[0];
      assert Encode(ts) == [ToJson(t)] + Encode(ts[1..]);
      CleanTasksAppend(dates, [ToJson(t)], Encode(ts[1..]), nowIso);
      CleanTasksSingle(dates, ToJson(t), nowIso);
      ReloadSanitized(dates, ts[1..], nowIso);
      ValidateWritten(dates, t);
      ToJsonFields(t);
    }
  }
}
