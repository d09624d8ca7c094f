/**
 * The state of the to-do screen and the handlers that change it: the cached
 * task list, the in-progress marker, the conflict tag, focus mode, the clock
 * reading, the dismissed reminder, the filter inputs and the paging position.
 * Server replies are parameters: a handler receives what the request
 * returned, or None when it failed.
 */
module TodoAppState {
  import opened Wrappers
  import opened JsMath
  import opened JsArray
  import opened TodoTypes
  import opened Utils
  import opened TodoView

  /** Every field of the screen state, for stating what a handler leaves alone. */
  datatype AppState = AppState(
    todos: seq<Todo>,
    inProgressTaskId: Option<string>,
    conflictDueAt: Option<string>,
    focusMode: bool,
    nowMs: int,
    dismissedReminderTaskId: Option<string>,
    filterMode: FilterMode,
    filter: FilterFields,
    pageSize: int,
    page: int)

  const DefaultPageSize: int := 5

  // ---------------------------------------------------------------- list helpers

  /** `todos.map((t) => (t.id === id ? { ...t, completed } : t))`: only the completion flag of
      the tasks with that id changes, and it becomes `completed`. */
  function SetCompleted(todos: seq<Todo>, id: string, completed: bool): (r: seq<Todo>)
    ensures |r| == |todos|
    ensures forall i :: 0 <= i < |todos| ==> r[i].(completed := todos[i].completed) == todos[i]
    ensures forall i :: 0 <= i < |todos| ==> r[i].completed == (if todos[i].id == id then completed else todos[i].completed)
  {
    seq(|todos|, i requires 0 <= i < |todos| => if todos[i].id == id then todos[i].(completed := completed) else todos[i])
  }

  /** The index of the first task with the id, or -1. */
  function FindIdIndex(todos: seq<Todo>, id: string): (i: int)
    ensures -1 <= i < |todos|
    ensures i == -1 <==> forall k :: 0 <= k < |todos| ==> todos[k].id != id
    ensures i >= 0 ==> todos[i].id == id && forall k :: 0 <= k < i ==> todos[k].id != id
    decreases |todos|
  {
    if todos == [] then -1
    else if todos[0].id == id then 0
    else
      var j := FindIdIndex(todos[1..], id);
      if j == -1 then -1 else j + 1
  }

  /** `todos.find((x) => x.id === id)`. */
  function FindById(todos: seq<Todo>, id: string): (r: Option<Todo>)
    ensures r.None? <==> forall t :: t in todos ==> t.id != id
    ensures r.Some? ==> r.value in todos && r.value.id == id
    ensures r.Some? ==> exists i :: 0 <= i < |todos| && todos[i] == r.value && forall k :: 0 <= k < i ==> todos[k].id != id
  {
    var i := FindIdIndex(todos, id);
    if i == -1 then None else Some(todos[i])
  }

  function IdIsNot(id: string): Todo -> bool {
    (t: Todo) => t.id != id
  }

  function DueAtIs(dueAt: string): Todo -> bool {
    (t: Todo) => t.dueAt == dueAt
  }

  /** `todos.filter((t) => t.dueAt === dueAt).length`: how many tasks are due at exactly that
      string; positive exactly when one is. */
  function ConflictCount(todos: seq<Todo>, dueAt: string): (n: nat)
    ensures n <= |todos|
    ensures n > 0 <==> exists t :: t in todos && t.dueAt == dueAt
  {
    var conflicts := Filter(todos, DueAtIs(dueAt));
    FilterSpec(todos, DueAtIs(dueAt));
    if conflicts != [] then
      assert conflicts[0] in conflicts;
      |conflicts|
    else
      assert forall t :: t in todos ==> !DueAtIs(dueAt)(t);
      |conflicts|
  }

  /** The ids of the completed tasks. */
  function CompletedIds(todos: seq<Todo>): set<string> {
    set t | t in todos && t.completed :: t.id
  }

  function IdNotIn(ids: set<string>): Todo -> bool {
    (t: Todo) => t.id !in ids
  }

  predicate IsOpen(t: Todo) {
    !t.completed
  }

  /** No two tasks share an id. */
  ghost predicate UniqueIds(todos: seq<Todo>) {
    forall i, j :: 0 <= i < j < |todos| ==> todos[i].id != todos[j].id
  }

  /** `clearCompleted`'s list: drop every task whose id is among the completed ids. */
  function WithoutCompleted(todos: seq<Todo>): (r: seq<Todo>)
    ensures IsSubsequence(r, todos)
    ensures forall t :: t in r <==> t in todos && t.id !in CompletedIds(todos)
    ensures forall t :: t in r ==> !t.completed
  {
    FilterSpec(todos, IdNotIn(CompletedIds(todos)));
    Filter(todos, IdNotIn(CompletedIds(todos)))
  }

  /** With unique ids, dropping by completed id is dropping exactly the completed tasks. */
  lemma WithoutCompletedUnique(todos: seq<Todo>)
    requires UniqueIds(todos)
    ensures WithoutCompleted(todos) == Filter(todos, IsOpen)
  {
    forall i | 0 <= i < |todos| ensures IdNotIn(CompletedIds(todos))(todos[i]) == IsOpen(todos[i]) {
      if todos[i].id in CompletedIds(todos) {
        var t :| t in todos && t.completed && t.id == todos[i].id;
        var j :| 0 <= j < |todos| && todos[j] == t;
        assert i == j;
      }
    }
    FilterCongruent(todos, IdNotIn(CompletedIds(todos)), IsOpen);
  }

  // ---------------------------------------------------------------- the screen

  class TodoApp {
    var todos: seq<Todo>
    var inProgressTaskId: Option<string>
    var conflictDueAt: Option<string>
    var focusMode: bool
    var nowMs: int
    var dismissedReminderTaskId: Option<string>
    var filterMode: FilterMode
    var filter: FilterFields
    var pageSize: int
    var page: int

    /** Pages are counted from 1 and the page size is positive. */
    ghost predicate Valid()
      reads this
    {
      pageSize > 0 && page >= 1
    }

    function State(): AppState
      reads this
    {
      AppState(todos, inProgressTaskId, conflictDueAt, focusMode, nowMs, dismissedReminderTaskId,
               filterMode, filter, pageSize, page)
    }

    /** The screen as first rendered at time nowMs: no tasks, between mode with empty inputs,
        five tasks a page, page 1. */
    constructor (nowMs: int)
      ensures Valid()
      ensures State() == AppState([], None, None, false, nowMs, None, Between, EmptyFields, DefaultPageSize, 1)
    {
      todos := [];
      inProgressTaskId := None;
      conflictDueAt := None;
      focusMode := false;
      this.nowMs := nowMs;
      dismissedReminderTaskId := None;
      filterMode := Between;
      filter := EmptyFields;
      pageSize := DefaultPageSize;
      page := 1;
    }

    function Filtered(): seq<Todo>
      reads this
    {
      FilteredTodos(todos, focusMode, nowMs, filterMode, filter)
    }

    function Sorted(): seq<Todo>
      reads this
    {
      SortByDue(Filtered())
    }

    function PageCount(): int
      requires Valid()
      reads this
    {
      TotalPages(|Sorted()|, pageSize)
    }

    function CurrentPage(): seq<Todo>
      requires Valid()
      reads this
    {
      PageItems(Sorted(), page, pageSize)
    }

    function CurrentReminder(): Option<Reminder>
      reads this
    {
      GetReminder(NextUpcoming(todos, nowMs), dismissedReminderTaskId, nowMs)
    }

    /** `completedCount`: the completed tasks among those listed. */
    function CompletedCount(): (n: nat)
      reads this
      ensures n == |Filter(Filtered(), IsCompleted)|
      ensures n <= |Filtered()|
      ensures n == 0 <==> forall t :: t in Filtered() ==> !t.completed
    {
      var shown := Filtered();
      var done := Filter(shown, IsCompleted);
      FilterSpec(shown, IsCompleted);
      assert done != [] ==> done[0] in done;
      |done|
    }

    /** `addTodo(values)`: a task already due at the same string raises a conflict, which tags
        the slot, switches the filter to exact mode on the string's date and time halves and
        goes back to page 1; the created task, when the server returns one, goes first. */
    method AddTodo(dueAt: string, created: Option<Todo>) returns (conflict: bool)
      requires Valid()
      modifies this
      ensures Valid()
      ensures conflict <==> exists t :: t in old(todos) && t.dueAt == dueAt
      ensures var newTodos := if created.Some? then [created.value] + old(todos) else old(todos);
        if conflict then
          State() == old(State()).(todos := newTodos, conflictDueAt := Some(dueAt), filterMode := Exact,
            filter := old(filter).(exactDate := GetDatePart(dueAt), exactTime := GetTimePart(dueAt)), page := 1)
        else State() == old(State()).(todos := newTodos)
    {
      conflict := ConflictCount(todos, dueAt) > 0;
      if conflict {
        conflictDueAt := Some(dueAt);
        filterMode := Exact;
        filter := filter.(exactDate := GetDatePart(dueAt), exactTime := GetTimePart(dueAt));
        page := 1;
      }
      if created.Some? {
        todos := [created.value] + todos;
      }
    }

    /** `toggleTodo(id, completed)`: sets the flag on the task; completing the task that holds the
        in-progress marker clears it. Asks for attachments when an open task gets completed. */
    method ToggleTodo(id: string, completed: bool) returns (askForAttachments: bool)
      requires Valid()
      modifies this
      ensures Valid()
      ensures State() == old(State()).(
        todos := SetCompleted(old(todos), id, completed),
        inProgressTaskId := if completed && old(inProgressTaskId) == Some(id) then None else old(inProgressTaskId))
      ensures askForAttachments <==>
        completed && FindById(old(todos), id).Some? && !FindById(old(todos), id).value.completed
    {
      var before := FindById(todos, id);
      todos := SetCompleted(todos, id, completed);
      if completed && inProgressTaskId == Some(id) {
        inProgressTaskId := None;
      }
      askForAttachments := completed && before.Some? && !before.value.completed;
    }

    /** `deleteTodo(id)`: removes the tasks with the id and clears the marker if it was theirs. */
    method DeleteTodo(id: string)
      requires Valid()
      modifies this
      ensures Valid()
      ensures State() == old(State()).(
        todos := Filter(old(todos), IdIsNot(id)),
        inProgressTaskId := if old(inProgressTaskId) == Some(id) then None else old(inProgressTaskId))
      ensures forall t :: t in todos <==> t in old(todos) && t.id != id
      ensures IsSubsequence(todos, old(todos))
    {
      FilterSpec(todos, IdIsNot(id));
      todos := Filter(todos, IdIsNot(id));
      if inProgressTaskId == Some(id) {
        inProgressTaskId := None;
      }
    }

    /** `clearCompleted()`: with no completed task nothing happens; otherwise every task whose
        id belongs to a completed task goes. */
    method ClearCompleted()
      requires Valid()
      modifies this
      ensures Valid()
      ensures State() == old(State()).(todos := todos)
      ensures (forall t :: t in old(todos) ==> !t.completed) ==> todos == old(todos)
      ensures todos == if CompletedIds(old(todos)) == {} then old(todos) else WithoutCompleted(old(todos))
      ensures forall t :: t in todos ==> !t.completed
      ensures UniqueIds(old(todos)) ==> todos == Filter(old(todos), IsOpen)
    {
      var completedIds := CompletedIds(todos);
      if completedIds == {} {
        assert forall t :: t in todos ==> !t.completed by {
          forall t | t in todos ensures !t.completed {
            assert t.completed ==> t.id in completedIds;
          }
        }
        if UniqueIds(todos) {
          FilterAll(todos, IsOpen);
        }
        return;
      }
      assert exists t :: t in todos && t.completed && t.id in completedIds;
      if UniqueIds(todos) {
        WithoutCompletedUnique(todos);
      }
      todos := WithoutCompleted(todos);
    }

    /** `setInProgress(taskId)`: the marker is set at once, then replaced by the server's
        answer when the request succeeds. */
    method SetInProgress(taskId: Option<string>, reply: Option<Option<string>>)
      requires Valid()
      modifies this
      ensures Valid()
      ensures State() == old(State()).(inProgressTaskId := if reply.Some? then reply.value else taskId)
    {
      inProgressTaskId := taskId;
      if reply.Some? {
        inProgressTaskId := reply.value;
      }
    }

    /** The effect that drops the marker when the first task with its id is missing or
        completed; an empty id counts as no marker. */
    method CleanupInProgress()
      requires Valid()
      modifies this
      ensures Valid()
      ensures State() == old(State()).(inProgressTaskId := inProgressTaskId)
      ensures old(inProgressTaskId).None? || old(inProgressTaskId) == Some("") ==> inProgressTaskId == old(inProgressTaskId)
      ensures inProgressTaskId.Some? ==> inProgressTaskId == old(inProgressTaskId)
      ensures inProgressTaskId.Some? && inProgressTaskId.value != "" ==>
        FindById(todos, inProgressTaskId.value).Some? && !FindById(todos, inProgressTaskId.value).value.completed
      ensures (old(inProgressTaskId).Some? && old(inProgressTaskId).value != ""
        && FindById(todos, old(inProgressTaskId).value).Some?
        && !FindById(todos, old(inProgressTaskId).value).value.completed) ==> inProgressTaskId == old(inProgressTaskId)
    {
      if inProgressTaskId.None? || inProgressTaskId.value == "" {
        return;
      }
      var t := FindById(todos, inProgressTaskId.value);
      if t.None? || t.value.completed {
        inProgressTaskId := None;
      }
    }

    /** The page clamp effect: the page is brought into [1, totalPages]. */
    method ClampPage()
      requires Valid()
      modifies this
      ensures Valid()
      ensures State() == old(State()).(page := page)
      ensures 1 <= page <= PageCount()
      ensures 1 <= old(page) <= PageCount() ==> page == old(page)
      ensures |Sorted()| > 0 ==> CurrentPage() != []
    {
      page := TodoView.ClampPage(page, PageCount());
      if |Sorted()| > 0 {
        ClampedPageNotEmpty(Sorted(), page, pageSize);
      }
    }

    /** The Prev button: one page back, not below 1. */
    method PrevPage()
      requires Valid()
      modifies this
      ensures Valid()
      ensures State() == old(State()).(page := Max(1, old(page) - 1))
      ensures old(page) <= PageCount() + 1 ==> page <= PageCount()
    {
      page := Max(1, page - 1);
    }

    /** The Next button: one page on, not past the last page. */
    method NextPage()
      requires Valid()
      modifies this
      ensures Valid()
      ensures State() == old(State()).(page := Min(PageCount(), old(page) + 1))
      ensures 1 <= page <= PageCount()
    {
      page := Min(PageCount(), page + 1);
    }

    /** Choosing a page size goes back to page 1. */
    method ChangePageSize(size: int)
      requires size > 0
      requires Valid()
      modifies this
      ensures Valid()
      ensures State() == old(State()).(pageSize := size, page := 1)
    {
      pageSize := size;
      page := 1;
    }

    /** The Focus Mode button flips focus mode and goes back to page 1. */
    method ToggleFocusMode()
      requires Valid()
      modifies this
      ensures Valid()
      ensures State() == old(State()).(focusMode := !old(focusMode), page := 1)
    {
      focusMode := !focusMode;
      page := 1;
    }

    /** The effect that forgets the dismissed reminder once no task is upcoming. */
    method SyncDismissedReminder()
      requires Valid()
      modifies this
      ensures Valid()
      ensures State() == old(State()).(dismissedReminderTaskId :=
        if NextUpcoming(old(todos), old(nowMs)).None? then None else old(dismissedReminderTaskId))
    {
      if NextUpcoming(todos, nowMs).None? {
        dismissedReminderTaskId := None;
      }
    }

    /** Dismissing the shown reminder hides it. */
    method DismissReminder()
      requires Valid() && CurrentReminder().Some?
      modifies this
      ensures Valid()
      ensures State() == old(State()).(dismissedReminderTaskId := Some(old(CurrentReminder()).value.todo.id))
      ensures CurrentReminder().None?
    {
      dismissedReminderTaskId := Some(CurrentReminder().value.todo.id);
    }

    /** The Exit button of the focus banner turns focus mode off. */
    method ExitFocusMode()
      requires Valid()
      modifies this
      ensures Valid()
      ensures State() == old(State()).(focusMode := false)
    {
      focusMode := false;
    }

    /** The Between and Exact buttons choose the filter mode. */
    method SetFilterMode(mode: FilterMode)
      requires Valid()
      modifies this
      ensures Valid()
      ensures State() == old(State()).(filterMode := mode)
    {
      filterMode := mode;
    }

    /** Typing into one of the six date and time inputs. */
    method SetFilterFields(fields: FilterFields)
      requires Valid()
      modifies this
      ensures Valid()
      ensures State() == old(State()).(filter := fields)
    {
      filter := fields;
    }

    /** The Clear button empties the six inputs; outside focus mode every task is then listed,
        whichever mode is selected. */
    method ClearFilters()
      requires Valid()
      modifies this
      ensures Valid()
      ensures State() == old(State()).(filter := EmptyFields)
      ensures !focusMode ==> Filtered() == todos
    {
      filter := EmptyFields;
      BetweenAllEmpty(todos, filter);
    }

    /** The 30-second clock tick. */
    method Tick(now: int)
      requires Valid()
      modifies this
      ensures Valid()
      ensures State() == old(State()).(nowMs := now)
    {
      nowMs := now;
    }
  }
}
