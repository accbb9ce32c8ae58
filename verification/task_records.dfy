/**
 * Task records as the persistence layer in memory.js sees them: the
 * validation predicate and the sanitizer. Input records are arbitrary parsed
 * JSON values; `sanitizeTask` builds the four-field object `TaskRec`, which
 * `JSON.stringify` writes as `ToJson`. `dates` gives the time value of
 * `new Date(x)`, `None` for an Invalid Date.
 */
module TaskRecords {
  import opened Wrappers
  import opened JsText
  import opened JsonModel

  /** The object `sanitizeTask` returns: `{ id, text, createdAt, dueDate }`. */
  datatype TaskRec = TaskRec(id: string, text: string, createdAt: Json, dueDate: Json)

  /** The JSON object a `TaskRec` is written as. */
  function ToJson(t: TaskRec): (j: Json)
    ensures j.JObj?
  {
    JObj(map["id" := JStr(t.id), "text" := JStr(t.text), "createdAt" := t.createdAt, "dueDate" := t.dueDate])
  }

  /** Reading a written record's fields gives back the record's fields. */
  lemma ToJsonFields(t: TaskRec)
    ensures Get(ToJson(t), "id") == Some(JStr(t.id))
    ensures Get(ToJson(t), "text") == Some(JStr(t.text))
    ensures Get(ToJson(t), "createdAt") == Some(t.createdAt)
    ensures Get(ToJson(t), "dueDate") == Some(t.dueDate)
  {
    assert "id"[0] != "text"[0] && "id"[0] != "createdAt"[0] && "id"[0] != "dueDate"[0];
    assert "text"[0] != "createdAt"[0] && "text"[0] != "dueDate"[0] && "createdAt"[0] != "dueDate"[0];
  }

  /** `isValidDate`: truthy, and `new Date(x)` is not an Invalid Date. */
  predicate IsValidDate(dates: Json -> Option<int>, v: Option<Json>) {
    Present(v) && dates(v.value).Some?
  }

  /** A non-empty string field (`!x || typeof x !== 'string'` rejects everything else). */
  predicate NonEmptyString(v: Option<Json>) {
    v.Some? && v.value.JStr? && v.value.s != []
  }

  /** `validateTask`. The due date is not looked at. */
  predicate ValidateTask(dates: Json -> Option<int>, j: Json) {
    && Truthy(j) && (j.JArr? || j.JObj?)
    && NonEmptyString(Get(j, "id"))
    && NonEmptyString(Get(j, "text"))
    && IsValidDate(dates, Get(j, "createdAt"))
  }

  /** A written record passes validation exactly when its id and text are non-empty and its creation date is valid. */
  lemma ValidateWritten(dates: Json -> Option<int>, t: TaskRec)
    ensures ValidateTask(dates, ToJson(t)) <==> t.id != [] && t.text != [] && IsValidDate(dates, Some(t.createdAt))
  {
    ToJsonFields(t);
  }

  /** A record whose text fields are trimmed and whose due date is valid or `null`. */
  predicate IsSanitized(dates: Json -> Option<int>, t: TaskRec) {
    && Trim(t.id) == t.id
    && Trim(t.text) == t.text
    && (t.dueDate == JNull || IsValidDate(dates, Some(t.dueDate)))
  }

  /** `String(task[name]).trim()`. */
  function TrimmedField(j: Json, name: string): (s: string)
    ensures Trim(s) == s
    ensures NonEmptyString(Get(j, name)) ==> s == Trim(Get(j, name).value.s)
  {
    TrimIdempotent(ToJsString(Get(j, name)));
    Trim(ToJsString(Get(j, name)))
  }

  /**
   * `sanitizeTask`: trimmed `String(id)` and `String(text)`; `createdAt` kept
   * when it is a valid date, else the current time `nowIso`; `dueDate` kept
   * when it is a valid date, else `null`. Every other field is dropped.
   */
  function SanitizeTask(dates: Json -> Option<int>, j: Json, nowIso: string): (r: TaskRec)
    requires j.JObj?
    ensures IsSanitized(dates, r)
    ensures IsValidDate(dates, Get(j, "createdAt")) ==> r.createdAt == j.fields["createdAt"]
    ensures !IsValidDate(dates, Get(j, "createdAt")) ==> r.createdAt == JStr(nowIso)
    ensures NonEmptyString(Get(j, "id")) ==> r.id == Trim(j.fields["id"].s)
    ensures NonEmptyString(Get(j, "text")) ==> r.text == Trim(j.fields["text"].s)
    ensures IsValidDate(dates, Get(j, "dueDate")) ==> r.dueDate == j.fields["dueDate"]
    ensures !IsValidDate(dates, Get(j, "dueDate")) ==> r.dueDate == JNull
  {
    var createdAt := Get(j, "createdAt");
    var dueDate := Get(j, "dueDate");
    TaskRec(TrimmedField(j, "id"), TrimmedField(j, "text"),
            if IsValidDate(dates, createdAt) then createdAt.value else JStr(nowIso),
            if Present(dueDate) && IsValidDate(dates, dueDate) then dueDate.value else JNull)
  }

  /** Sanitizing a written sanitized record gives the same record. */
  lemma SanitizeIdempotent(dates: Json -> Option<int>, j: Json, nowIso: string)
    requires j.JObj?
    ensures SanitizeTask(dates, ToJson(SanitizeTask(dates, j, nowIso)), nowIso) == SanitizeTask(dates, j, nowIso)
  {
    var r := SanitizeTask(dates, j, nowIso);
    ToJsonFields(r);
  }

  /** A valid record survives a second validation after sanitizing exactly when its trimmed id and text are non-empty. */
  lemma ValidateSanitized(dates: Json -> Option<int>, j: Json, nowIso: string)
    requires ValidateTask(dates, j)
    ensures var r := SanitizeTask(dates, j, nowIso);
      ValidateTask(dates, ToJson(r)) <==> Trim(j.fields["id"].s) != [] && Trim(j.fields["text"].s) != []
  {
    ValidateWritten(dates, SanitizeTask(dates, j, nowIso));
  }
}
