/**
 * The form validation schemas of the to-do client: the task form (title,
 * optional description, due date-time) and the sign-in form's password rule.
 * Every failing check contributes an issue, in field order, as the schema
 * library does; a successful parse yields the trimmed values.
 */
module Schemas {
  import opened Wrappers
  import opened JsString
  import opened JsDate
  import opened Utils

  const TitleMax: nat := 80
  const DescriptionMax: nat := 500
  const PasswordMin: nat := 6

  datatype Issue =
    | TitleRequired
    | TitleTooLong
    | DescriptionTooLong
    | DueAtRequired
    | DueAtInvalid
    | PasswordTooShort

  /** The message shown under the field for each issue. */
  function Message(issue: Issue): string {
    match issue
    case TitleRequired => "Title is required."
    case TitleTooLong => "Keep it under 80 characters."
    case DescriptionTooLong => "Keep it under 500 characters."
    case DueAtRequired => "Due date & time is required."
    case DueAtInvalid => "Invalid date/time."
    case PasswordTooShort => "Password must be at least 6 characters."
  }

  /** What the form hands to the schema; an absent description is None. */
  datatype TodoInput = TodoInput(title: string, description: Option<string>, dueAt: string)

  /** What a successful parse produces. */
  datatype TodoFormValues = TodoFormValues(title: string, description: Option<string>, dueAt: string)

  /** The regular expression `^\d{4}-\d{2}-\d{2}T\d{2}:\d{2}$`, position by position. */
  predicate MatchesDueAtPattern(s: string) {
    |s| == 16
    && AllDigits(s[0..4]) && s[4] == '-'
    && AllDigits(s[5..7]) && s[7] == '-'
    && AllDigits(s[8..10]) && s[10] == 'T'
    && AllDigits(s[11..13]) && s[13] == ':'
    && AllDigits(s[14..16])
  }

  /** Title: trimmed, then at least 1 and at most 80 characters. */
  function TitleIssues(title: string): (r: seq<Issue>)
    ensures r == [] <==> 1 <= |Trim(title)| <= TitleMax
    ensures TitleRequired in r <==> Trim(title) == []
    ensures TitleTooLong in r <==> |Trim(title)| > TitleMax
    ensures DescriptionTooLong !in r && DueAtRequired !in r && DueAtInvalid !in r
  {
    var t := Trim(title);
    (if |t| < 1 then [TitleRequired] else []) + (if |t| > TitleMax then [TitleTooLong] else [])
  }

  /** Description: absent, or trimmed to at most 500 characters (the empty string passes too). */
  function DescriptionIssues(description: Option<string>): (r: seq<Issue>)
    ensures r == [] <==> description.None? || |Trim(description.value)| <= DescriptionMax
    ensures DescriptionTooLong in r <==> r != []
    ensures TitleRequired !in r && TitleTooLong !in r && DueAtRequired !in r && DueAtInvalid !in r
  {
    match description
    case None => []
    case Some(d) => if |Trim(d)| > DescriptionMax then [DescriptionTooLong] else []
  }

  /** Due date-time: not empty, and of the shape `YYYY-MM-DDTHH:mm`; both checks run. */
  function DueAtIssues(dueAt: string): (r: seq<Issue>)
    ensures r == [] <==> MatchesDueAtPattern(dueAt)
    ensures DueAtRequired in r <==> dueAt == []
    ensures DueAtInvalid in r <==> !MatchesDueAtPattern(dueAt)
    ensures TitleRequired !in r && TitleTooLong !in r && DescriptionTooLong !in r
  {
    (if |dueAt| < 1 then [DueAtRequired] else []) + (if !MatchesDueAtPattern(dueAt) then [DueAtInvalid] else [])
  }

  /** `todoSchema.safeParse(input)`: the trimmed values, or every issue found, in field order. */
  function ParseTodo(input: TodoInput): (r: Result<TodoFormValues, seq<Issue>>)
    ensures r.Ok? <==>
      1 <= |Trim(input.title)| <= TitleMax
      && (input.description.Some? ==> |Trim(input.description.value)| <= DescriptionMax)
      && MatchesDueAtPattern(input.dueAt)
    ensures r.Ok? ==> r.value.title == Trim(input.title) && r.value.dueAt == input.dueAt
    ensures r.Ok? ==> r.value.description.Some? == input.description.Some?
    ensures r.Ok? && input.description.Some? ==> r.value.description.value == Trim(input.description.value)
    ensures r.Err? ==> r.error != []
    ensures r.Err? ==> (TitleRequired in r.error <==> Trim(input.title) == [])
    ensures r.Err? ==> (TitleTooLong in r.error <==> |Trim(input.title)| > TitleMax)
    ensures r.Err? ==> (DueAtRequired in r.error <==> input.dueAt == [])
    ensures r.Err? ==> (DueAtInvalid in r.error <==> !MatchesDueAtPattern(input.dueAt))
    ensures r.Err? ==> (DescriptionTooLong in r.error <==>
      input.description.Some? && |Trim(input.description.value)| > DescriptionMax)
  {
    var issues := TitleIssues(input.title) + DescriptionIssues(input.description) + DueAtIssues(input.dueAt);
    if issues == [] then
      Ok(TodoFormValues(Trim(input.title), match input.description case None => None case Some(d) => Some(Trim(d)), input.dueAt))
    else Err(issues)
  }

  /** `authSchema`'s password rule: at least six characters (the e-mail rule is not modelled). */
  function ValidatePassword(password: string): (r: Result<string, Issue>)
    ensures r.Ok? <==> |password| >= PasswordMin
    ensures r.Ok? ==> r.value == password
    ensures r.Err? ==> Message(r.error) == "Password must be at least 6 characters."
  {
    if |password| < PasswordMin then Err(PasswordTooShort) else Ok(password)
  }

  /** A string the due-date pattern accepts has sixteen characters and its only `T` at
      index 10, so splitting it into date and time parts and joining them back gives it. */
  lemma AcceptedDueAtShape(s: string)
    requires MatchesDueAtPattern(s)
    ensures |s| == 16 && s[10] == 'T'
    ensures GetDatePart(s) == s[..10] && GetTimePart(s) == s[11..]
    ensures GetDatePart(s) + "T" + GetTimePart(s) == s
  {
    NoTOutsideIndex10(s);
    PartsAroundFirstT(s, 10, 16);
    PartsRejoin(s, 10);
  }

  lemma NoTOutsideIndex10(s: string)
    requires MatchesDueAtPattern(s)
    ensures 'T' !in s[..10] && 'T' !in s[11..]
  {
    forall k | 0 <= k < 10 ensures s[..10][k] != 'T' {
      if k < 4 { assert s[0..4][k] == s[k]; }
      else if 5 <= k < 7 { assert s[5..7][k - 5] == s[k]; }
      else if 8 <= k { assert s[8..10][k - 8] == s[k]; }
    }
    forall k | 0 <= k < 5 ensures s[11..][k] != 'T' {
      if k < 2 { assert s[11..13][k] == s[11 + k]; }
      else if 3 <= k { assert s[14..16][k - 3] == s[11 + k]; }
    }
  }

  /** The pattern checks shape only: a month of 13 and a day of 45 pass it. */
  lemma PatternAcceptsOutOfRange()
    ensures MatchesDueAtPattern("2024-13-45T99:99")
    ensures DueAtIssues("2024-13-45T99:99") == []
  {
    var s := "2024-13-45T99:99";
    assert s[0..4] == "2024" && s[5..7] == "13" && s[8..10] == "45";
    assert s[11..13] == "99" && s[14..16] == "99";
  }

  /** The empty string fails both due-date checks, in that order. */
  lemma EmptyDueAtIssues()
    ensures DueAtIssues("") == [DueAtRequired, DueAtInvalid]
  {
  }

  /** A due date-time the form accepts parses to the local time it spells out: its year,
      month and day (overflow carrying as in the Date constructor) at its hour and minute;
      when hour and minute are on the clock the parsed value's hour is that hour. */
  lemma AcceptedDueAtParses(s: string)
    requires MatchesDueAtPattern(s)
    ensures var y, mo, d := DigitsValue(s[0..4]), DigitsValue(s[5..7]), DigitsValue(s[8..10]);
            var hh, mm := DigitsValue(s[11..13]), DigitsValue(s[14..16]);
            ParseLocalDateTime(s) == Some(LocalInstant(y, mo, d, hh, mm))
    ensures var hh, mm := DigitsValue(s[11..13]), DigitsValue(s[14..16]);
            hh < 24 && mm < 60 ==> GetHours(ParseLocalDateTime(s).value) == hh
  {
    var yy, mo, dd, hh, mm := s[0..4], s[5..7], s[8..10], s[11..13], s[14..16];
    assert s == yy + "-" + mo + "-" + dd + "T" + hh + ":" + mm;
    DateTimeWellFormed(yy, mo, dd, hh, mm);
    var h, m := DigitsValue(hh), DigitsValue(mm);
    if h < 24 && m < 60 {
      LocalInstantClock(DigitsValue(yy), DigitsValue(mo), DigitsValue(dd), h, m);
    }
  }
}
