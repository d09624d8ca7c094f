/**
 * The mapping from a row of the `tasks` table to the task object the API
 * returns. The row's `attachments` column is untyped JSON, so it is modelled
 * as a JSON-like value; `null` columns are None.
 */
module TaskRows {
  import opened Wrappers
  import opened JsArray
  import opened JsString

  /** The JavaScript values an untyped JSON column can hold once read. */
  datatype Value =
    | Undefined
    | Null
    | Bool(b: bool)
    | Number(n: int)
    | NaN
    | Text(s: string)
    | List(items: seq<Value>)
    | Object(entries: seq<(string, Value)>)

  /** `Boolean(v)`: false for undefined, null, false, 0, NaN and "", true otherwise. */
  predicate Truthy(v: Value) {
    match v
    case Undefined => false
    case Null => false
    case Bool(b) => b
    case Number(n) => n != 0
    case NaN => false
    case Text(s) => s != ""
    case List(_) => true
    case Object(_) => true
  }

  /** `coerceAttachments(raw)`: anything but an array gives no attachments; an array keeps its
      truthy entries, in order. */
  function CoerceAttachments(raw: Value): (r: seq<Value>)
    ensures !raw.List? ==> r == []
    ensures raw.List? ==> |r| <= |raw.items| && IsSubsequence(r, raw.items)
    ensures raw.List? ==> forall v :: v in r <==> v in raw.items && Truthy(v)
  {
    if raw.List? then
      FilterSpec(raw.items, Truthy);
      Filter(raw.items, Truthy)
    else []
  }

  /** An array of truthy entries passes through unchanged. */
  lemma CoerceKeepsTruthyList(items: seq<Value>)
    requires forall v :: v in items ==> Truthy(v)
    ensures CoerceAttachments(List(items)) == items
  {
    FilterAll(items, Truthy);
  }

  /** Coercing what coercion produced changes nothing. */
  lemma CoerceIdempotent(raw: Value)
    ensures CoerceAttachments(List(CoerceAttachments(raw))) == CoerceAttachments(raw)
  {
    CoerceKeepsTruthyList(CoerceAttachments(raw));
  }

  /** A row of the `tasks` table. */
  datatype DbTaskRow = DbTaskRow(
    id: string, userId: string, title: string, description: Option<string>,
    dueAt: string, completed: bool, inProgress: bool, attachments: Value)

  /** The task object returned to the client; an absent description is None. */
  datatype Task = Task(
    id: string, title: string, description: Option<string>,
    completed: bool, dueAt: string, attachments: seq<Value>)

  /** `fromDbTask(row)`: the row's task fields, a null description becoming absent, the
      attachments coerced; the owner and the in-progress mark are not part of the task. */
  function FromDbTask(row: DbTaskRow): (t: Task)
    ensures t.id == row.id && t.title == row.title && t.dueAt == row.dueAt
    ensures t.completed == row.completed && t.description == row.description
    ensures |t.attachments| <= (if row.attachments.List? then |row.attachments.items| else 0)
    ensures forall v :: v in t.attachments ==> Truthy(v)
    ensures t.attachments == CoerceAttachments(row.attachments)
  {
    Task(row.id, row.title, row.description, row.completed, row.dueAt, CoerceAttachments(row.attachments))
  }

  /** The row the create handler inserts: the title and description trimmed, a description
      that trims to nothing stored as null, not completed, not in progress, no attachments.
      The id is the one the database assigns. */
  function NewTaskRow(id: string, userId: string, title: string, description: Option<string>, dueAt: string): (row: DbTaskRow)
    ensures row.id == id && row.userId == userId && row.dueAt == dueAt
    ensures row.title == Trim(title)
    ensures row.description.None? <==> description.None? || Trim(description.value) == ""
    ensures row.description.Some? ==> row.description.value == Trim(description.value) != ""
    ensures !row.completed && !row.inProgress && row.attachments == List([])
  {
    var desc := Trim(if description.Some? then description.value else "");
    DbTaskRow(id, userId, Trim(title), if desc == "" then None else Some(desc), dueAt, false, false, List([]))
  }

  /** A freshly created task reads back open, with no attachments and the trimmed text. */
  lemma CreatedTaskReadsBack(id: string, userId: string, title: string, description: Option<string>, dueAt: string)
    ensures var t := FromDbTask(NewTaskRow(id, userId, title, description, dueAt));
      && t.id == id && t.title == Trim(title) && t.dueAt == dueAt
      && !t.completed && t.attachments == []
      && (t.description.None? <==> description.None? || Trim(description.value) == "")
  {
  }

  /** The inverse of `fromDbTask` on the model side: the row that reads back as the task, an
      absent description stored as null and the attachments as a JSON array. */
  function ToDbRow(t: Task, userId: string, inProgress: bool): (row: DbTaskRow)
    ensures row.userId == userId && row.inProgress == inProgress && row.attachments.List?
  {
    DbTaskRow(t.id, userId, t.title, t.description, t.dueAt, t.completed, inProgress, List(t.attachments))
  }

  /** Storing a task whose attachments are all truthy and reading the row back gives the task. */
  lemma TaskRoundTrip(t: Task, userId: string, inProgress: bool)
    requires forall v :: v in t.attachments ==> Truthy(v)
    ensures FromDbTask(ToDbRow(t, userId, inProgress)) == t
  {
    CoerceKeepsTruthyList(t.attachments);
  }

  /** Reading a row back does not depend on who owns it or whether it is marked in progress. */
  lemma FromDbTaskIgnoresOwnerAndMark(row: DbTaskRow, userId: string, inProgress: bool)
    ensures FromDbTask(row.(userId := userId, inProgress := inProgress)) == FromDbTask(row)
  {
  }

  /** Reading a row, storing the task and reading again gives the same task. */
  lemma FromDbTaskStable(row: DbTaskRow)
    ensures FromDbTask(ToDbRow(FromDbTask(row), row.userId, row.inProgress)) == FromDbTask(row)
  {
    TaskRoundTrip(FromDbTask(row), row.userId, row.inProgress);
  }
}
