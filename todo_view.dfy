/**
 * The derived views of the to-do screen: the three-mode filter, the stable
 * sort by due instant, paging, grouping by date, the next upcoming task and
 * its reminder, the day shown on the load card and the summary counts.
 * Every view is a function of the task list, the current instant and the
 * view parameters.
 */
module TodoView {
  import opened Wrappers
  import opened JsMath
  import opened JsString
  import opened JsArray
  import opened JsDate
  import opened TodoTypes
  import opened Utils
  import Schemas

  datatype FilterMode = Between | Exact

  /** The six filter inputs; "" means the input is empty. */
  datatype FilterFields = FilterFields(
    fromDate: string, fromTime: string, toDate: string, toTime: string,
    exactDate: string, exactTime: string)

  const EmptyFields: FilterFields := FilterFields("", "", "", "", "", "")

  /** Focus mode shows the next four hours. */
  const FocusWindowMs: int := 4 * MsPerHour

  /** The minute of the day the time filter's upper bound defaults to (23:59). */
  const LastMinuteOfDay: int := 24 * 60 - 1

  /** A task's due instant; None when its due string does not parse. */
  function DueMs(t: Todo): Option<int> {
    ParseLocalDateTime(t.dueAt)
  }

  /** `a === b` on two instants: NaN equals nothing. */
  predicate SameInstant(a: Option<int>, b: Option<int>) {
    a.Some? && b.Some? && a.value == b.value
  }

  // ---------------------------------------------------------------- focus mode

  predicate InFocusWindow(nowMs: int, t: Todo) {
    var ms := DueMs(t);
    ms.Some? && nowMs <= ms.value <= nowMs + FocusWindowMs
  }

  function FocusKeep(nowMs: int): Todo -> bool {
    (t: Todo) => InFocusWindow(nowMs, t)
  }

  /** Focus mode: the tasks due between now and four hours from now, in list order. */
  function FocusFiltered(todos: seq<Todo>, nowMs: int): (r: seq<Todo>)
    ensures IsSubsequence(r, todos)
    ensures forall t :: t in r <==> t in todos && DueMs(t).Some? && nowMs <= DueMs(t).value <= nowMs + FocusWindowMs
  {
    FilterSpec(todos, FocusKeep(nowMs));
    Filter(todos, FocusKeep(nowMs))
  }

  // ---------------------------------------------------------------- exact mode

  function DateIs(date: string): Todo -> bool {
    (t: Todo) => GetDatePart(t.dueAt) == date
  }

  function TimeIs(time: string): Todo -> bool {
    (t: Todo) => GetTimePart(t.dueAt) == time
  }

  function InstantIs(ms: Option<int>): Todo -> bool {
    (t: Todo) => SameInstant(DueMs(t), ms)
  }

  /** Exact mode: by nothing, by date part, by instant of date and time together, or by time
      part, depending on which of the two inputs are filled in. */
  function ExactFiltered(todos: seq<Todo>, f: FilterFields): (r: seq<Todo>)
    ensures IsSubsequence(r, todos)
    ensures f.exactDate == "" && f.exactTime == "" ==> r == todos
    ensures f.exactDate != "" && f.exactTime == "" ==>
      forall t :: t in r <==> t in todos && GetDatePart(t.dueAt) == f.exactDate
    ensures f.exactDate != "" && f.exactTime != "" ==>
      forall t :: t in r <==>
        (t in todos && DueMs(t).Some? && DueMs(t) == ParseLocalDateTime(f.exactDate + "T" + f.exactTime))
    ensures f.exactDate == "" && f.exactTime != "" ==>
      forall t :: t in r <==> t in todos && GetTimePart(t.dueAt) == f.exactTime
  {
    if f.exactDate == "" && f.exactTime == "" then
      SubsequenceOfSelf(todos);
      todos
    else if f.exactTime == "" then
      FilterSpec(todos, DateIs(f.exactDate));
      Filter(todos, DateIs(f.exactDate))
    else if f.exactDate != "" then
      var exactMs := ParseLocalDateTime(f.exactDate + "T" + f.exactTime);
      FilterSpec(todos, InstantIs(exactMs));
      Filter(todos, InstantIs(exactMs))
    else
      FilterSpec(todos, TimeIs(f.exactTime));
      Filter(todos, TimeIs(f.exactTime))
  }

  lemma {:induction false} SubsequenceOfSelf<T>(s: seq<T>)
    ensures IsSubsequence(s, s)
    decreases |s|
  {
    if s != [] {
      SubsequenceOfSelf(s[1..]);
    }
  }

  // ---------------------------------------------------------------- between mode

  /** The lower date bound: the start of the from-day; None (no bound) when the input is empty
      or does not parse, since every comparison with -Infinity or NaN is false. */
  function FromDateMs(f: FilterFields): Option<int> {
    if f.fromDate == "" then None
    else
      match ParseLocalDateOnly(f.fromDate)
      case None => None
      case Some(d) => Some(StartOfDay(d))
  }

  /** The upper date bound: the end of the to-day. */
  function ToDateMs(f: FilterFields): Option<int> {
    if f.toDate == "" then None
    else
      match ParseLocalDateOnly(f.toDate)
      case None => None
      case Some(d) => Some(EndOfDay(d))
  }

  function FromTimeMin(f: FilterFields): Option<int> {
    if f.fromTime == "" then Some(0) else ParseLocalTimeToMinutes(f.fromTime)
  }

  function ToTimeMin(f: FilterFields): Option<int> {
    if f.toTime == "" then Some(LastMinuteOfDay) else ParseLocalTimeToMinutes(f.toTime)
  }

  /** With a date input filled in, the due instant must not lie before the from-day or after
      the to-day. */
  predicate PassesDateCheck(f: FilterFields, t: Todo) {
    var ms := DueMs(t);
    (f.fromDate == "" && f.toDate == "") || (!KeyLess(ms, FromDateMs(f)) && !KeyLess(ToDateMs(f), ms))
  }

  /** With a time input filled in, the task needs a time part, and its minutes since midnight
      must not lie outside [from, to]. */
  predicate PassesTimeCheck(f: FilterFields, t: Todo) {
    (f.fromTime == "" && f.toTime == "")
    || (var time := GetTimePart(t.dueAt);
        time != ""
        && var mins := ParseLocalTimeToMinutes(time);
        !KeyLess(mins, FromTimeMin(f)) && !KeyLess(ToTimeMin(f), mins))
  }

  function BetweenKeep(f: FilterFields): Todo -> bool {
    (t: Todo) => PassesDateCheck(f, t) && PassesTimeCheck(f, t)
  }

  /** Between mode: the tasks that pass both the date check and the time check, in list order. */
  function BetweenFiltered(todos: seq<Todo>, f: FilterFields): (r: seq<Todo>)
    ensures IsSubsequence(r, todos)
    ensures forall t :: t in r <==> t in todos && PassesDateCheck(f, t) && PassesTimeCheck(f, t)
  {
    FilterSpec(todos, BetweenKeep(f));
    Filter(todos, BetweenKeep(f))
  }

  /** With the four between inputs empty, nothing is filtered out. */
  lemma BetweenAllEmpty(todos: seq<Todo>, f: FilterFields)
    requires f.fromDate == "" && f.fromTime == "" && f.toDate == "" && f.toTime == ""
    ensures BetweenFiltered(todos, f) == todos
  {
    FilterAll(todos, BetweenKeep(f));
  }

  /** A due instant is at or after the start of t's day exactly when its day is not earlier. */
  lemma StartOfDayBound(t: int, u: int)
    ensures StartOfDay(t) <= u <==> DayNumber(t) <= DayNumber(u)
  {
    var d, e := DayNumber(t), DayNumber(u);
    DivOfSum(e, MsPerDay, u % MsPerDay);
    assert u == e * MsPerDay + u % MsPerDay;
    MulMonotone(d, e, MsPerDay);
    MulMonotone(e + 1, d, MsPerDay);
  }

  /** A due instant is at or before the end of t's day exactly when its day is not later. */
  lemma EndOfDayBound(t: int, u: int)
    ensures u <= EndOfDay(t) <==> DayNumber(u) <= DayNumber(t)
  {
    var d, e := DayNumber(t), DayNumber(u);
    assert u == e * MsPerDay + u % MsPerDay;
    MulMonotone(e, d, MsPerDay);
    MulMonotone(d + 1, e, MsPerDay);
  }

  /** With both dates given and parsed, the date check keeps a parsed task exactly when its
      day lies from the from-day through the to-day. */
  lemma DateCheckByDay(f: FilterFields, t: Todo)
    requires f.fromDate != "" && f.toDate != ""
    requires ParseLocalDateOnly(f.fromDate).Some? && ParseLocalDateOnly(f.toDate).Some?
    requires DueMs(t).Some?
    ensures var from, to, ms := ParseLocalDateOnly(f.fromDate).value, ParseLocalDateOnly(f.toDate).value, DueMs(t).value;
      PassesDateCheck(f, t) <==> DayNumber(from) <= DayNumber(ms) <= DayNumber(to)
  {
    var from, to, ms := ParseLocalDateOnly(f.fromDate).value, ParseLocalDateOnly(f.toDate).value, DueMs(t).value;
    StartOfDayBound(from, ms);
    EndOfDayBound(to, ms);
  }

  /** A task whose due string does not parse passes the date check whatever the bounds. */
  lemma UnparsedPassesDateCheck(f: FilterFields, t: Todo)
    requires DueMs(t).None?
    ensures PassesDateCheck(f, t)
  {
  }

  // ---------------------------------------------------------------- all modes

  /** `filteredTodos`: focus mode wins over the filter inputs; otherwise the selected mode. */
  function FilteredTodos(todos: seq<Todo>, focusMode: bool, nowMs: int, mode: FilterMode, f: FilterFields): (r: seq<Todo>)
    ensures IsSubsequence(r, todos) && |r| <= |todos|
    ensures focusMode ==> r == FocusFiltered(todos, nowMs)
    ensures !focusMode && mode == Exact ==> r == ExactFiltered(todos, f)
    ensures !focusMode && mode == Between ==> r == BetweenFiltered(todos, f)
  {
    var r := if focusMode then FocusFiltered(todos, nowMs)
      else if mode == Exact then ExactFiltered(todos, f)
      else BetweenFiltered(todos, f);
    SubsequenceLength(r, todos);
    r
  }

  lemma {:induction false} SubsequenceLength<T>(r: seq<T>, s: seq<T>)
    requires IsSubsequence(r, s)
    ensures |r| <= |s|
    decreases |s|
  {
    if r != [] {
      if r[0] == s[0] && IsSubsequence(r[1..], s[1..]) {
        SubsequenceLength(r[1..], s[1..]);
      } else {
        SubsequenceLength(r, s[1..]);
      }
    }
  }

  /** After a conflicting add the exact inputs hold the two halves of the clashing due string;
      when that string is well formed, every task already due at it is shown. */
  lemma ConflictSlotShown(todos: seq<Todo>, nowMs: int, f: FilterFields, dueAt: string)
    requires Schemas.MatchesDueAtPattern(dueAt)
    ensures var f' := f.(exactDate := GetDatePart(dueAt), exactTime := GetTimePart(dueAt));
      forall t :: t in todos && t.dueAt == dueAt ==> t in FilteredTodos(todos, false, nowMs, Exact, f')
  {
    Schemas.AcceptedDueAtShape(dueAt);
    Schemas.AcceptedDueAtParses(dueAt);
  }

  // ---------------------------------------------------------------- sorting

  /** `sortedFilteredTodos`: the filtered tasks by ascending due instant. */
  function SortByDue(todos: seq<Todo>): seq<Todo> {
    SortBy(todos, DueMs)
  }

  /** The sorted list is a permutation of its input in which no task is due before one ahead
      of it, and tasks with the same due instant (or both unparsed) keep their order. */
  lemma SortByDueSpec(todos: seq<Todo>)
    ensures multiset(SortByDue(todos)) == multiset(todos)
    ensures SortedBy(SortByDue(todos), DueMs)
    ensures forall k :: KeyRun(SortByDue(todos), DueMs, k) == KeyRun(todos, DueMs, k)
  {
    forall k ensures KeyRun(SortBy(todos, DueMs), DueMs, k) == KeyRun(todos, DueMs, k) {
      SortByStable(todos, DueMs, k);
    }
  }

  /** With every due string parsed, the sorted due instants ascend. */
  lemma SortByDueAscending(todos: seq<Todo>)
    requires forall i :: 0 <= i < |todos| ==> DueMs(todos[i]).Some?
    ensures forall i :: 0 <= i < |SortByDue(todos)| ==> DueMs(SortByDue(todos)[i]).Some?
    ensures forall i, j :: 0 <= i < j < |SortByDue(todos)| ==> DueMs(SortByDue(todos)[i]).value <= DueMs(SortByDue(todos)[j]).value
  {
    SortByAscending(todos, DueMs);
  }

  // ---------------------------------------------------------------- paging

  /** `Math.max(1, Math.ceil(n / pageSize))`. */
  function TotalPages(n: nat, pageSize: int): (r: int)
    requires pageSize > 0
    ensures r >= 1
    ensures n == 0 ==> r == 1
    ensures n > 0 ==> (r - 1) * pageSize < n <= r * pageSize
  {
    Max(1, CeilDiv(n, pageSize))
  }

  /** The page clamp: `Math.min(Math.max(1, p), totalPages)`. */
  function ClampPage(p: int, totalPages: int): (r: int)
    requires totalPages >= 1
    ensures 1 <= r <= totalPages
    ensures 1 <= p <= totalPages ==> r == p
    ensures p < 1 ==> r == 1
    ensures p > totalPages ==> r == totalPages
  {
    Min(Max(1, p), totalPages)
  }

  /** `pageItems`: the slice of the sorted list that page `page` shows. */
  function PageItems(sorted: seq<Todo>, page: int, pageSize: int): (r: seq<Todo>)
    requires page >= 1 && pageSize > 0
    ensures |r| <= pageSize
    ensures (page - 1) * pageSize <= |sorted| ==>
      r == sorted[(page - 1) * pageSize..Min((page - 1) * pageSize + pageSize, |sorted|)]
    ensures (page - 1) * pageSize >= |sorted| ==> r == []
  {
    MulMonotone(0, page - 1, pageSize);
    Window(sorted, (page - 1) * pageSize, pageSize)
  }

  /** `sorted.slice(start, start + size)`: up to `size` tasks from `start`, none past the end. */
  function Window(sorted: seq<Todo>, start: nat, size: int): (r: seq<Todo>)
    requires size > 0
    ensures |r| <= size
    ensures start <= |sorted| ==> r == sorted[start..Min(start + size, |sorted|)]
    ensures start >= |sorted| ==> r == []
  {
    Slice(sorted, start, start + size)
  }

  /** Item i of the sorted list is shown on page i / pageSize + 1, at position i % pageSize. */
  lemma PageOfItem(sorted: seq<Todo>, pageSize: int, i: int)
    requires pageSize > 0 && 0 <= i < |sorted|
    ensures var page := i / pageSize + 1;
      var items := PageItems(sorted, page, pageSize);
      i % pageSize < |items| && items[i % pageSize] == sorted[i]
  {
    var q, m := i / pageSize, i % pageSize;
    DivModParts(i, pageSize);
    var start := q * pageSize;
    assert (q + 1 - 1) * pageSize == start;
    var items := PageItems(sorted, q + 1, pageSize);
    assert start <= i < start + pageSize;
    assert items == sorted[start..Min(start + pageSize, |sorted|)];
    assert items[m] == sorted[start + m];
  }

  lemma DivModParts(i: int, b: int)
    requires b > 0
    ensures i == (i / b) * b + i % b && 0 <= i % b < b
  {
  }

  /** A page within the clamped range of a non-empty list shows at least one task. */
  lemma ClampedPageNotEmpty(sorted: seq<Todo>, page: int, pageSize: int)
    requires pageSize > 0 && |sorted| > 0
    requires 1 <= page <= TotalPages(|sorted|, pageSize)
    ensures PageItems(sorted, page, pageSize) != []
  {
    PageStartWithin(|sorted|, page, pageSize);
    PageFromStartNotEmpty(sorted, page, pageSize);
  }

  /** A page no later than the last one starts before the end of the list. */
  lemma PageStartWithin(n: nat, page: int, pageSize: int)
    requires pageSize > 0 && n > 0 && 1 <= page <= TotalPages(n, pageSize)
    ensures (page - 1) * pageSize < n
  {
    MulMonotone(page - 1, TotalPages(n, pageSize) - 1, pageSize);
  }

  /** A page that starts before the end of the list shows at least one task. */
  lemma PageFromStartNotEmpty(sorted: seq<Todo>, page: int, pageSize: int)
    requires page >= 1 && pageSize > 0 && (page - 1) * pageSize < |sorted|
    ensures PageItems(sorted, page, pageSize) != []
  {
    var start := (page - 1) * pageSize;
    assert start < Min(start + pageSize, |sorted|);
  }

  // ---------------------------------------------------------------- grouping

  datatype DateGroup = DateGroup(date: string, items: seq<Todo>)

  /** The groups' items one after another. */
  function Flatten(groups: seq<DateGroup>): seq<Todo>
    decreases |groups|
  {
    if groups == [] then [] else Flatten(groups[..|groups| - 1]) + groups[|groups| - 1].items
  }

  /** A group is non-empty and holds only tasks with the group's date part. */
  ghost predicate SameDateGroup(g: DateGroup) {
    g.items != [] && forall j :: 0 <= j < |g.items| ==> GetDatePart(g.items[j].dueAt) == g.date
  }

  /** Every group is a non-empty run of tasks sharing the group's date part. */
  ghost predicate WellFormedGroups(groups: seq<DateGroup>) {
    forall i :: 0 <= i < |groups| ==> SameDateGroup(groups[i])
  }

  /** Neighbouring groups have different dates. */
  ghost predicate AdjacentDatesDiffer(groups: seq<DateGroup>) {
    forall i :: 0 <= i < |groups| - 1 ==> groups[i].date != groups[i + 1].date
  }

  /** `groupedTodos`: runs of consecutive tasks sharing a date part, one group per run. */
  method GroupByDate(items: seq<Todo>) returns (groups: seq<DateGroup>)
    ensures Flatten(groups) == items
    ensures WellFormedGroups(groups)
    ensures AdjacentDatesDiffer(groups)
  {
    groups := [];
    for k := 0 to |items|
      invariant Flatten(groups) == items[..k]
      invariant WellFormedGroups(groups)
      invariant AdjacentDatesDiffer(groups)
    {
      var t := items[k];
      var date := GetDatePart(t.dueAt);
      if groups == [] || groups[|groups| - 1].date != date {
        AppendGroup(groups, DateGroup(date, [t]));
        groups := groups + [DateGroup(date, [t])];
      } else {
        ExtendLastGroup(groups, t);
        groups := groups[..|groups| - 1] + [DateGroup(date, groups[|groups| - 1].items + [t])];
      }
      assert items[..k + 1] == items[..k] + [t];
    }
    assert items[..|items|] == items;
  }

  /** A well-formed group whose date differs from the last group's may follow it. */
  lemma AppendGroup(groups: seq<DateGroup>, g: DateGroup)
    requires WellFormedGroups(groups) && AdjacentDatesDiffer(groups) && SameDateGroup(g)
    requires groups != [] ==> groups[|groups| - 1].date != g.date
    ensures Flatten(groups + [g]) == Flatten(groups) + g.items
    ensures WellFormedGroups(groups + [g]) && AdjacentDatesDiffer(groups + [g])
  {
    assert (groups + [g])[..|groups|] == groups;
  }

  /** A task sharing the last group's date joins that group. */
  lemma ExtendLastGroup(groups: seq<DateGroup>, t: Todo)
    requires WellFormedGroups(groups) && AdjacentDatesDiffer(groups)
    requires groups != [] && groups[|groups| - 1].date == GetDatePart(t.dueAt)
    ensures var init, last := groups[..|groups| - 1], groups[|groups| - 1];
      var groups' := init + [DateGroup(last.date, last.items + [t])];
      Flatten(groups') == Flatten(groups) + [t]
      && WellFormedGroups(groups') && AdjacentDatesDiffer(groups')
  {
    var init, last := groups[..|groups| - 1], groups[|groups| - 1];
    var groups' := init + [DateGroup(last.date, last.items + [t])];
    assert groups'[..|groups'| - 1] == init;
    assert Flatten(groups) == Flatten(init) + last.items;
    assert forall i :: 0 <= i < |init| ==> groups'[i] == groups[i];
  }

  // ---------------------------------------------------------------- next upcoming task

  datatype Upcoming = Upcoming(todo: Todo, dueMs: int)

  /** Not completed, and due now or later. */
  predicate IsUpcoming(t: Todo, nowMs: int) {
    !t.completed && DueMs(t).Some? && DueMs(t).value >= nowMs
  }

  function UpcomingKey(u: Upcoming): Option<int> {
    Some(u.dueMs)
  }

  /** The open tasks due now or later, paired with their due instants, in list order. */
  function Candidates(todos: seq<Todo>, nowMs: int): seq<Upcoming>
    decreases |todos|
  {
    if todos == [] then []
    else
      var last := todos[|todos| - 1];
      Candidates(todos[..|todos| - 1], nowMs)
        + (if IsUpcoming(last, nowMs) then [Upcoming(last, DueMs(last).value)] else [])
  }

  /** `nextUpcoming`: the head of the candidates sorted by due instant. */
  function NextUpcoming(todos: seq<Todo>, nowMs: int): Option<Upcoming> {
    var c := Candidates(todos, nowMs);
    if c == [] then None else Some(SortBy(c, UpcomingKey)[0])
  }

  /** A task's due instant when it is upcoming, None otherwise. */
  function UpcomingDue(nowMs: int): Todo -> Option<int> {
    (t: Todo) => if IsUpcoming(t, nowMs) then DueMs(t) else None
  }

  /** Reference definition: the index of the first upcoming task with the least due instant,
      scanning the list left to right; -1 when there is none. */
  function NearestIndex(todos: seq<Todo>, nowMs: int): (i: int)
    ensures -1 <= i < |todos|
    ensures i >= 0 ==> IsUpcoming(todos[i], nowMs)
  {
    LeastKeyIndex(todos, UpcomingDue(nowMs))
  }

  /** NearestIndex is -1 exactly when no task is upcoming; otherwise it names an upcoming task
      due no later than any other, and no earlier upcoming task is due at the same instant. */
  lemma NearestIndexSpec(todos: seq<Todo>, nowMs: int)
    ensures var i := NearestIndex(todos, nowMs);
      (i == -1 <==> forall k :: 0 <= k < |todos| ==> !IsUpcoming(todos[k], nowMs))
      && (i >= 0 ==>
        (forall k :: 0 <= k < |todos| && IsUpcoming(todos[k], nowMs) ==> DueMs(todos[i]).value <= DueMs(todos[k]).value)
        && (forall k :: 0 <= k < i && IsUpcoming(todos[k], nowMs) ==> DueMs(todos[k]).value != DueMs(todos[i]).value))
  {
    var key := UpcomingDue(nowMs);
    LeastKeyIndexSpec(todos, key);
    assert forall k :: 0 <= k < |todos| ==> (key(todos[k]).Some? <==> IsUpcoming(todos[k], nowMs));
  }

  lemma {:induction false} CandidatesHead(todos: seq<Todo>, nowMs: int)
    ensures var c, i := Candidates(todos, nowMs), NearestIndex(todos, nowMs);
      (c == [] <==> i == -1)
      && (c != [] ==> FirstMin(c, UpcomingKey) == Upcoming(todos[i], DueMs(todos[i]).value))
    decreases |todos|
  {
    if todos != [] {
      var n := |todos|;
      var init, last := todos[..n - 1], todos[n - 1];
      CandidatesHead(init, nowMs);
      var ci := Candidates(init, nowMs);
      var c := Candidates(todos, nowMs);
      var j := NearestIndex(init, nowMs);
      var i := NearestIndex(todos, nowMs);
      if IsUpcoming(last, nowMs) {
        var u := Upcoming(last, DueMs(last).value);
        assert c == ci + [u];
        assert c[..|c| - 1] == ci;
        if ci == [] {
          assert c == [u];
          assert i == n - 1;
        } else {
          assert FirstMin(ci, UpcomingKey) == Upcoming(init[j], DueMs(init[j]).value);
          assert init[j] == todos[j];
          assert FirstMin(c, UpcomingKey) == if KeyLess(UpcomingKey(u), UpcomingKey(FirstMin(ci, UpcomingKey))) then u else FirstMin(ci, UpcomingKey);
        }
      } else {
        assert c == ci;
        assert i == j;
        assert j >= 0 ==> init[j] == todos[j];
      }
    }
  }

  /** The next upcoming task is the reference one: the first, in list order, of the open tasks
      due now or later with the least due instant; there is none exactly when no such task exists. */
  lemma NextUpcomingIsNearest(todos: seq<Todo>, nowMs: int)
    ensures var i := NearestIndex(todos, nowMs);
      NextUpcoming(todos, nowMs) == if i == -1 then None else Some(Upcoming(todos[i], DueMs(todos[i]).value))
  {
    var c := Candidates(todos, nowMs);
    CandidatesHead(todos, nowMs);
    if c != [] {
      SortByHead(c, UpcomingKey);
    }
  }

  // ---------------------------------------------------------------- reminder

  const ReminderWindowMin: int := 15

  datatype Reminder = Reminder(todo: Todo, dueMs: int, mins: int)

  /** `reminder`: the next upcoming task, unless dismissed, when it starts within 15 minutes. */
  function GetReminder(next: Option<Upcoming>, dismissed: Option<string>, nowMs: int): (r: Option<Reminder>)
    ensures r.Some? ==> next.Some? && r.value.todo == next.value.todo && r.value.dueMs == next.value.dueMs
    ensures r.Some? ==> 0 <= r.value.mins <= ReminderWindowMin
    ensures r.Some? ==> (r.value.mins - 1) * MsPerMinute < r.value.dueMs - nowMs <= r.value.mins * MsPerMinute
  {
    if next.None? then None
    else if dismissed == Some(next.value.todo.id) then None
    else
      var mins := MinutesUntil(next.value.dueMs, nowMs);
      if mins < 0 || mins > ReminderWindowMin then None
      else Some(Reminder(next.value.todo, next.value.dueMs, mins))
  }

  /** For the next upcoming task, a reminder shows exactly when that task has not been
      dismissed and is due within the next 15 minutes. */
  lemma ReminderWindow(todos: seq<Todo>, nowMs: int, dismissed: Option<string>)
    ensures var next := NextUpcoming(todos, nowMs);
      GetReminder(next, dismissed, nowMs).Some? <==>
        next.Some? && dismissed != Some(next.value.todo.id) && next.value.dueMs <= nowMs + ReminderWindowMin * MsPerMinute
  {
    var next := NextUpcoming(todos, nowMs);
    NextUpcomingIsNearest(todos, nowMs);
    if next.Some? {
      var due := next.value.dueMs;
      assert due >= nowMs;
      MinutesUntilNonNegative(due, nowMs);
      MinutesUntilAtMost(due, nowMs, ReminderWindowMin);
    }
  }

  /** A task due in ten minutes triggers the reminder; one due in twenty does not. */
  lemma ReminderExamples(t: Todo, nowMs: int)
    ensures GetReminder(Some(Upcoming(t, nowMs + 10 * MsPerMinute)), None, nowMs).Some?
    ensures GetReminder(Some(Upcoming(t, nowMs + 20 * MsPerMinute)), None, nowMs).None?
  {
    MinutesUntilExact(nowMs, 10);
    MinutesUntilExact(nowMs, 20);
  }

  // ---------------------------------------------------------------- daily load card

  /** `loadDayKey`: the day the load card analyses. */
  function LoadDayKey(mode: FilterMode, f: FilterFields, todayKey: string): (k: string)
    ensures k == f.exactDate || k == f.fromDate || k == f.toDate || k == todayKey
    ensures k == "" ==> todayKey == ""
    ensures mode == Exact && f.exactDate != "" ==> k == f.exactDate
    ensures !(mode == Exact && f.exactDate != "") && f.fromDate != "" && f.toDate == "" ==> k == f.fromDate
    ensures !(mode == Exact && f.exactDate != "") && f.fromDate != "" && f.fromDate == f.toDate ==> k == f.fromDate
    ensures !(mode == Exact && f.exactDate != "") && f.fromDate == "" && f.toDate != "" ==> k == f.toDate
    ensures !(mode == Exact && f.exactDate != "") && f.fromDate != "" && f.toDate != "" && f.fromDate != f.toDate ==> k == todayKey
    ensures f.exactDate == "" && f.fromDate == "" && f.toDate == "" ==> k == todayKey
  {
    if mode == Exact && f.exactDate != "" then f.exactDate
    else if f.fromDate != "" && f.toDate == "" then f.fromDate
    else if f.fromDate != "" && f.toDate != "" && f.fromDate == f.toDate then f.fromDate
    else if f.fromDate == "" && f.toDate != "" then f.toDate
    else todayKey
  }

  /** `dailyLoad`: the load report of the tasks whose date part is the day key. */
  method DailyLoadForDay(todos: seq<Todo>, dayKey: string) returns (r: DailyLoadReport)
    ensures IsDailyLoadOf(r, Filter(todos, DateIs(dayKey)))
    ensures r.total == |Filter(todos, DateIs(dayKey))|
    ensures forall t :: t in todos ==> (GetDatePart(t.dueAt) == dayKey <==> t in Filter(todos, DateIs(dayKey)))
    ensures IsSubsequence(Filter(todos, DateIs(dayKey)), todos)
  {
    FilterSpec(todos, DateIs(dayKey));
    r := GetDailyLoad(Filter(todos, DateIs(dayKey)));
  }

  // ---------------------------------------------------------------- summary card

  datatype WindowCount = WindowCount(window: string, count: nat)

  datatype Summary = Summary(
    todayCompleted: nat, todayPending: nat,
    tomorrowTotal: nat, tomorrowBuckets: seq<WindowCount>,
    upcomingTotal: nat, upcomingBuckets: seq<WindowCount>)

  function DueStartsWith(key: string): Todo -> bool {
    (t: Todo) => StartsWith(t.dueAt, key)
  }

  predicate IsCompleted(t: Todo) {
    t.completed
  }

  /** Due in [start, end). */
  function DueInRange(start: int, end: int): Todo -> bool {
    (t: Todo) => DueMs(t).Some? && start <= DueMs(t).value < end
  }

  /** `labels.map((label, i) => ({ label, count: buckets[i] ?? 0 }))`. */
  function Labelled(buckets: seq<nat>): (r: seq<WindowCount>)
    requires |buckets| == 6
    ensures |r| == 6 && forall w :: 0 <= w < 6 ==> r[w] == WindowCount(WindowLabels[w], buckets[w])
  {
    seq(6, w requires 0 <= w < 6 => WindowCount(WindowLabels[w], buckets[w]))
  }

  /** The first instant of tomorrow and the first instant seven days after it. */
  function UpcomingRange(nowMs: int): (r: (int, int))
    ensures DayNumber(r.0) == DayNumber(nowMs) + 1 && r.0 % MsPerDay == 0
    ensures r.1 == r.0 + 7 * MsPerDay && DayNumber(r.1) == DayNumber(nowMs) + 8
  {
    var start := StartOfDay(AddDays(nowMs, 1));
    (start, AddDays(start, 7))
  }

  /** `summary`: today's completed and pending counts (tasks whose due string starts with the
      today key), tomorrow's total and per-window counts, and the next seven days' total and
      per-window counts from the start of tomorrow. */
  method GetSummary(todos: seq<Todo>, nowMs: int, todayKey: string, tomorrowKey: string) returns (s: Summary)
    ensures var todays := Filter(todos, DueStartsWith(todayKey));
      s.todayCompleted == |Filter(todays, IsCompleted)| && s.todayCompleted + s.todayPending == |todays|
    ensures var tomorrows := Filter(todos, DueStartsWith(tomorrowKey));
      s.tomorrowTotal == |tomorrows| && |s.tomorrowBuckets| == 6
      && forall w :: 0 <= w < 6 ==> s.tomorrowBuckets[w] == WindowCount(WindowLabels[w], CountInWindow(tomorrows, w))
    ensures var range := UpcomingRange(nowMs); var upcoming := Filter(todos, DueInRange(range.0, range.1));
      s.upcomingTotal == |upcoming| && |s.upcomingBuckets| == 6
      && (forall w :: 0 <= w < 6 ==> s.upcomingBuckets[w] == WindowCount(WindowLabels[w], CountInWindow(upcoming, w)))
    ensures s.upcomingBuckets[0].count + s.upcomingBuckets[1].count + s.upcomingBuckets[2].count
      + s.upcomingBuckets[3].count + s.upcomingBuckets[4].count + s.upcomingBuckets[5].count == s.upcomingTotal
  {
    var todays := Filter(todos, DueStartsWith(todayKey));
    var todayCompleted := |Filter(todays, IsCompleted)|;
    var tomorrows := Filter(todos, DueStartsWith(tomorrowKey));
    var tomorrowBuckets := CountByWindow(tomorrows);
    var range := UpcomingRange(nowMs);
    var upcoming := Filter(todos, DueInRange(range.0, range.1));
    var buckets := CountByWindow(upcoming);
    UpcomingAllParsed(todos, range.0, range.1);
    WindowsCoverParsed(upcoming);
    s := Summary(todayCompleted, |todays| - todayCompleted,
                 |tomorrows|, Labelled(tomorrowBuckets),
                 |upcoming|, Labelled(buckets));
  }

  /** Every task counted for the next seven days has a parsed due time, so each lands in one
      window. */
  lemma UpcomingAllParsed(todos: seq<Todo>, start: int, end: int)
    ensures CountParsed(Filter(todos, DueInRange(start, end))) == |Filter(todos, DueInRange(start, end))|
  {
    var up := Filter(todos, DueInRange(start, end));
    FilterSpec(todos, DueInRange(start, end));
    AllParsedCount(up);
  }
}
