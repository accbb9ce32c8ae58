/**
 * The task-list rules of the App component: the case-insensitive duplicate
 * check, adding a task from the text box, deleting a task by id, the add
 * button's enabled state and the counter label. React state updates are
 * modelled as functions from the old state to the new one. The fresh id and
 * the creation time come in as parameters, and `toLowerCase` is the
 * parameter `lower`.
 */
module TaskList {
  import opened JsText

  /** A task as the component keeps it: `{ id, text, createdAt }`. */
  datatype Task = Task(id: string, text: string, createdAt: string)

  /** The component's state: the text box contents and the list of tasks. */
  datatype AppState = AppState(input: string, tasks: seq<Task>)

  /** `tasks.some(t => t.text.toLowerCase() === trimmed.toLowerCase())`. */
  function IsDuplicate(lower: string -> string, tasks: seq<Task>, input: string): (dup: bool)
    ensures dup <==> exists i :: 0 <= i < |tasks| && lower(tasks[i].text) == lower(Trim(input))
  {
    if tasks == [] then false
    else lower(tasks[0].text) == lower(Trim(input)) || IsDuplicate(lower, tasks[1..], input)
  }

  /** `disabled={!trimmed || isDuplicate}` on the add button. */
  predicate AddDisabled(lower: string -> string, s: AppState) {
    Trim(s.input) == [] || IsDuplicate(lower, s.tasks, s.input)
  }

  /**
   * `addTask`: ignores empty or duplicate input; otherwise appends a task
   * holding the trimmed text and clears the text box.
   */
  function AddTask(lower: string -> string, s: AppState, id: string, createdAt: string): (r: AppState)
    ensures AddDisabled(lower, s) ==> r == s
    ensures !AddDisabled(lower, s) ==>
      && |r.tasks| == |s.tasks| + 1
      && r.tasks[..|s.tasks|] == s.tasks
      && r.tasks[|s.tasks|] == Task(id, Trim(s.input), createdAt)
      && r.input == []
  {
    var t := Trim(s.input);
    if t == [] || IsDuplicate(lower, s.tasks, s.input) then s
    else AppState([], s.tasks + [Task(id, t, createdAt)])
  }

  /** `prev.filter(task => task.id !== id)`. */
  function RemoveId(tasks: seq<Task>, id: string): (r: seq<Task>)
    ensures |r| <= |tasks|
    ensures forall t :: t in r <==> t in tasks && t.id != id
  {
    if tasks == [] then []
    else (if tasks[0].id == id then [] else [tasks[0]]) + RemoveId(tasks[1..], id)
  }

  /** `deleteTask`: drops the tasks with the given id; the text box is untouched. */
  function DeleteTask(s: AppState, id: string): (r: AppState)
    ensures r.input == s.input
    ensures forall t :: t in r.tasks <==> t in s.tasks && t.id != id
  {
    AppState(s.input, RemoveId(s.tasks, id))
  }

  /** `countLabel`: "1 tarea" for one task, "N tareas" otherwise. */
  function CountLabel(n: nat): (r: string)
    ensures var suffix := if n == 1 then " tarea" else " tareas";
      && |r| > |suffix|
      && r[|r| - |suffix|..] == suffix
      && AllDigits(r[..|r| - |suffix|])
      && DigitsValue(r[..|r| - |suffix|]) == n
  {
    var r := if n == 1 then "1 tarea" else NatToString(n) + " tareas";
    var digits := NatToString(n);
    assert n == 1 ==> digits == "1";
    assert r == digits + (if n == 1 then " tarea" else " tareas");
    assert r[..|digits|] == digits;
    DigitsValueOfNatToString(n);
    r
  }

  /** No two tasks whose texts are equal once lowercased. */
  ghost predicate UniqueTexts(lower: string -> string, tasks: seq<Task>) {
    forall i, j :: 0 <= i < j < |tasks| ==> lower(tasks[i].text) != lower(tasks[j].text)
  }

  /** The button is enabled exactly when pressing it changes the list. */
  lemma AddEnabledIffEffective(lower: string -> string, s: AppState, id: string, createdAt: string)
    ensures !AddDisabled(lower, s) <==> AddTask(lower, s, id, createdAt).tasks != s.tasks
  {
    if !AddDisabled(lower, s) {
      assert |AddTask(lower, s, id, createdAt).tasks| == |s.tasks| + 1;
    }
  }

  /** Adding keeps the texts case-insensitively unique. */
  lemma AddTaskPreservesUnique(lower: string -> string, s: AppState, id: string, createdAt: string)
    requires UniqueTexts(lower, s.tasks)
    ensures UniqueTexts(lower, AddTask(lower, s, id, createdAt).tasks)
  {
    var r := AddTask(lower, s, id, createdAt);
    if !AddDisabled(lower, s) {
      var n := |s.tasks|;
      forall i, j | 0 <= i < j < |r.tasks|
        ensures lower(r.tasks[i].text) != lower(r.tasks[j].text)
      {
        assert r.tasks[i] == s.tasks[i];
        if j < n {
          assert r.tasks[j] == s.tasks[j];
        } else {
          assert r.tasks[j].text == Trim(s.input);
        }
      }
    }
  }

  /** Once a text has been added, the same input is rejected as a duplicate. */
  lemma AddSameTextTwiceRejected(lower: string -> string, s: AppState, id: string, createdAt: string, id2: string, createdAt2: string)
    requires !AddDisabled(lower, s)
    ensures var r := AddTask(lower, s, id, createdAt);
            var again := AppState(s.input, r.tasks);
            AddDisabled(lower, again) && AddTask(lower, again, id2, createdAt2) == again
  {
    var r := AddTask(lower, s, id, createdAt);
    TrimIdempotent(s.input);
    assert lower(r.tasks[|s.tasks|].text) == lower(Trim(s.input));
  }

  /** Filtering by id distributes over concatenation: the kept tasks stay in their order. */
  lemma {:induction false} RemoveIdAppend(a: seq<Task>, b: seq<Task>, id: string)
    ensures RemoveId(a + b, id) == RemoveId(a, id) + RemoveId(b, id)
  {
    if a == [] {
      assert a + b == b;
    } else {
      assert (a + b)[0] == a[0] && (a + b)[1..] == a[1..] + b;
      RemoveIdAppend(a[1..], b, id);
    }
  }

  /** In a list with unique texts, the first task's text differs from every later one. */
  lemma HeadTextDiffers(lower: string -> string, tasks: seq<Task>)
    requires tasks != [] && UniqueTexts(lower, tasks)
    ensures forall t :: t in tasks[1..] ==> lower(t.text) != lower(tasks[0].text)
    ensures UniqueTexts(lower, tasks[1..])
  {
    forall t | t in tasks[1..] ensures lower(t.text) != lower(tasks[0].text) {
      var k :| 0 <= k < |tasks[1..]| && tasks[1..][k] == t;
      assert tasks[k + 1] == t;
    }
    forall i, j | 0 <= i < j < |tasks[1..]| ensures lower(tasks[1..][i].text) != lower(tasks[1..][j].text) {
      assert tasks[1..][i] == tasks[i + 1] && tasks[1..][j] == tasks[j + 1];
    }
  }

  /** Putting a task in front of a unique list keeps it unique when no later text matches. */
  lemma ConsKeepsUnique(lower: string -> string, t: Task, rest: seq<Task>)
    requires UniqueTexts(lower, rest)
    requires forall u :: u in rest ==> lower(u.text) != lower(t.text)
    ensures UniqueTexts(lower, [t] + rest)
  {
    var r := [t] + rest;
    forall i, j | 0 <= i < j < |r| ensures lower(r[i].text) != lower(r[j].text) {
      assert r[j] == rest[j - 1];
      if i == 0 {
        assert rest[j - 1] in rest;
      } else {
        assert r[i] == rest[i - 1];
      }
    }
  }

  /** Deleting keeps the texts case-insensitively unique. */
  lemma {:induction false} RemoveIdPreservesUnique(lower: string -> string, tasks: seq<Task>, id: string)
    requires UniqueTexts(lower, tasks)
    ensures UniqueTexts(lower, RemoveId(tasks, id))
  {
    if tasks != [] {
      HeadTextDiffers(lower, tasks);
      var rest := RemoveId(tasks[1..], id);
      RemoveIdPreservesUnique(lower, tasks[1..], id);
      if tasks[0].id != id {
        assert RemoveId(tasks, id) == [tasks[0]] + rest;
        ConsKeepsUnique(lower, tasks[0], rest);
      }
    }
  }

  /** A space after a run of digits lies past that run. */
  lemma DigitsEndBefore(d: string, rest: string, k: nat)
    requires AllDigits(d) && k < |d + rest| && (d + rest)[k] == ' '
    ensures |d| <= k
  {
  }

  /** A label starts with the count's digits followed by a space. */
  lemma LabelDigitsPrefix(a: string, x: string, b: string, y: string)
    requires a != [] && b != [] && AllDigits(a) && AllDigits(b)
    requires x != [] && y != [] && x[0] == ' ' && y[0] == ' '
    requires a + x == b + y
    ensures a == b
  {
    assert (a + x)[|a|] == ' ' && (b + y)[|b|] == ' ';
    DigitsEndBefore(b, y, |a|);
    DigitsEndBefore(a, x, |b|);
    assert a == (a + x)[..|a|];
  }

  /** Distinct counts give distinct labels, so the label always names the count. */
  lemma CountLabelInjective(m: nat, n: nat)
    ensures CountLabel(m) == CountLabel(n) ==> m == n
  {
    if CountLabel(m) == CountLabel(n) {
      LabelDigitsPrefix(NatToString(m), if m == 1 then " tarea" else " tareas",
                        NatToString(n), if n == 1 then " tarea" else " tareas");
      NatToStringInjective(m, n);
    }
  }
}
