/**
 * Date-time helpers, the daily-load analyser and the per-task status flags
 * of the to-do client.
 */
module Utils {
  import opened Wrappers
  import opened JsMath
  import opened JsString
  import opened JsArray
  import opened JsDate
  import opened TodoTypes

  /** `pad2(n)`: the decimal digits of n, left-padded with "0" to at least two characters;
      reading them back gives n. */
  function Pad2(n: nat): (s: string)
    ensures |s| >= 2 && (n < 100 ==> |s| == 2)
    ensures ToNumber(s) == Some(n)
  {
    var digits := NatToString(n);
    LeadingZero(digits);
    if |digits| < 2 then "0" + digits else digits
  }

  /** The text before the first `T` (the whole string when there is none). */
  function GetDatePart(dueAt: string): string {
    Split(dueAt, 'T')[0]
  }

  /** The text between the first and any second `T` ("" when there is no `T`). */
  function GetTimePart(dueAt: string): string {
    var parts := Split(dueAt, 'T');
    if |parts| >= 2 then parts[1] else ""
  }

  lemma PartsWithoutT(s: string)
    requires 'T' !in s
    ensures GetDatePart(s) == s && GetTimePart(s) == ""
  {
    SplitNoSeparator(s, 'T');
  }

  /** With the first `T` at k and the next one (or the end) at j, the date part is s[..k]
      and the time part is s[k + 1..j]. */
  lemma PartsAroundFirstT(s: string, k: nat, j: nat)
    requires k < |s| && s[k] == 'T' && 'T' !in s[..k]
    requires k < j <= |s| && 'T' !in s[k + 1..j] && (j == |s| || s[j] == 'T')
    ensures GetDatePart(s) == s[..k]
    ensures GetTimePart(s) == s[k + 1..j]
  {
    var rest := s[k + 1..];
    SplitHead(s, 'T', k);
    assert s == s[..k] + ['T'] + rest;
    SplitAtFirst(s[..k], 'T', rest);
    assert rest[..j - k - 1] == s[k + 1..j];
    SplitHead(rest, 'T', j - k - 1);
  }

  /** A string with exactly one `T` is its date part, "T" and its time part. */
  lemma PartsRejoin(s: string, k: nat)
    requires k < |s| && s[k] == 'T' && 'T' !in s[..k] && 'T' !in s[k + 1..]
    ensures GetDatePart(s) + "T" + GetTimePart(s) == s
  {
    PartsAroundFirstT(s, k, |s|);
    assert s == s[..k] + "T" + s[k + 1..];
  }

  /** Destructuring `[a, b, c] = parts.map(Number)`: a missing entry is undefined, so NaN. */
  function NumberAt(parts: seq<string>, i: nat): Option<int> {
    if i < |parts| then ToNumber(parts[i]) else None
  }

  /** `new Date(y, m - 1, d, hh, mm, 0, 0).getTime()`: the local instant named by a year, a
      1-based month, a day, an hour and a minute, each free to overflow. */
  function LocalInstant(y: int, m: int, d: int, hh: int, mm: int): int {
    MakeLocalDate(y, m - 1, d, hh, mm, 0, 0)
  }

  /** An hour and a minute on the clock land on the named day, at that hour. */
  lemma LocalInstantClock(y: int, m: int, d: int, hh: int, mm: int)
    requires 0 <= hh < 24 && 0 <= mm < 60
    ensures DayNumber(LocalInstant(y, m, d, hh, mm)) == MakeDay(if 0 <= y <= 99 then 1900 + y else y, m - 1, d)
    ensures GetHours(LocalInstant(y, m, d, hh, mm)) == hh
  {
    var day := MakeDay(if 0 <= y <= 99 then 1900 + y else y, m - 1, d);
    assert LocalInstant(y, m, d, hh, mm) == day * MsPerDay + hh * MsPerHour + mm * MsPerMinute;
    WallClock(day, hh, mm);
  }

  /** `parseLocalDateTime(value)`: `YYYY-MM-DDTHH:mm` read as local wall-clock time, in
      milliseconds; None stands for NaN. */
  function ParseLocalDateTime(value: string): Option<int> {
    var halves := Split(value, 'T');
    if |halves| < 2 then None
    else InstantOfPieces(Split(halves[0], '-'), Split(halves[1], ':'))
  }

  /** The instant named by the `-`-separated date pieces and the `:`-separated time pieces. */
  function InstantOfPieces(date: seq<string>, time: seq<string>): Option<int> {
    var y, m, d := NumberAt(date, 0), NumberAt(date, 1), NumberAt(date, 2);
    var hh, mm := NumberAt(time, 0), NumberAt(time, 1);
    if y.Some? && m.Some? && d.Some? && hh.Some? && mm.Some? then
      Some(LocalInstant(y.value, m.value, d.value, hh.value, mm.value))
    else None
  }

  /** `parseLocalDateOnly(value)`: local midnight of `YYYY-MM-DD`. */
  function ParseLocalDateOnly(value: string): Option<int> {
    var date := Split(value, '-');
    var y, m, d := NumberAt(date, 0), NumberAt(date, 1), NumberAt(date, 2);
    if y.Some? && m.Some? && d.Some? then Some(LocalInstant(y.value, m.value, d.value, 0, 0))
    else None
  }

  /** `parseLocalTimeToMinutes(value)`: `HH:mm` as minutes since midnight. */
  function ParseLocalTimeToMinutes(value: string): Option<int> {
    var time := Split(value, ':');
    var hh, mm := NumberAt(time, 0), NumberAt(time, 1);
    if hh.Some? && mm.Some? then Some(hh.value * 60 + mm.value) else None
  }

  /** Two-digit `HH:mm` gives HH * 60 + mm; a real clock time lands in [0, 1439]. */
  lemma TimeToMinutesWellFormed(hh: string, mm: string)
    requires |hh| == 2 && |mm| == 2 && AllDigits(hh) && AllDigits(mm)
    ensures ParseLocalTimeToMinutes(hh + ":" + mm) == Some(DigitsValue(hh) * 60 + DigitsValue(mm))
    ensures DigitsValue(hh) < 24 && DigitsValue(mm) < 60 ==> 0 <= DigitsValue(hh) * 60 + DigitsValue(mm) <= 1439
  {
    DigitsExclude(hh, ':');
    DigitsExclude(mm, ':');
    SplitTwo(hh, ':', mm);
  }

  /** `YYYY-MM-DDTHH:mm` of digit runs parses to the local date-time those runs spell. */
  lemma DateTimeWellFormed(yy: string, mo: string, dd: string, hh: string, mm: string)
    requires AllDigits(yy) && AllDigits(mo) && AllDigits(dd) && AllDigits(hh) && AllDigits(mm)
    ensures ParseLocalDateTime(yy + "-" + mo + "-" + dd + "T" + hh + ":" + mm)
         == Some(LocalInstant(DigitsValue(yy), DigitsValue(mo), DigitsValue(dd), DigitsValue(hh), DigitsValue(mm)))
  {
    var date, time := yy + ['-'] + mo + ['-'] + dd, hh + [':'] + mm;
    DigitsExclude(yy, '-');
    DigitsExclude(mo, '-');
    DigitsExclude(dd, '-');
    DigitsExclude(hh, ':');
    DigitsExclude(mm, ':');
    SplitThree(yy, '-', mo, dd);
    SplitTwo(hh, ':', mm);
    DigitsExclude(yy, 'T');
    DigitsExclude(mo, 'T');
    DigitsExclude(dd, 'T');
    DigitsExclude(hh, 'T');
    DigitsExclude(mm, 'T');
    assert 'T' !in date && 'T' !in time;
    SplitTwo(date, 'T', time);
    var value := yy + "-" + mo + "-" + dd + "T" + hh + ":" + mm;
    assert value == date + ['T'] + time;
    DateTimeOfPieces(value, date, time, yy, mo, dd, hh, mm);
  }

  /** A date-time string whose pieces are digit runs parses to the local date-time they spell. */
  lemma DateTimeOfPieces(value: string, date: string, time: string, yy: string, mo: string, dd: string, hh: string, mm: string)
    requires Split(value, 'T') == [date, time]
    requires Split(date, '-') == [yy, mo, dd] && Split(time, ':') == [hh, mm]
    requires AllDigits(yy) && AllDigits(mo) && AllDigits(dd) && AllDigits(hh) && AllDigits(mm)
    ensures ParseLocalDateTime(value)
         == Some(LocalInstant(DigitsValue(yy), DigitsValue(mo), DigitsValue(dd), DigitsValue(hh), DigitsValue(mm)))
  {
    HalvesAroundT(value, date, time);
    var dp, tp := Split(date, '-'), Split(time, ':');
    assert dp[0] == yy && dp[1] == mo && dp[2] == dd && tp[0] == hh && tp[1] == mm;
    InstantOfDigits(dp, tp);
  }

  /** Splitting at `T` into a date and a time hands their pieces to InstantOfPieces. */
  lemma HalvesAroundT(value: string, date: string, time: string)
    requires Split(value, 'T') == [date, time]
    ensures ParseLocalDateTime(value) == InstantOfPieces(Split(date, '-'), Split(time, ':'))
  {
  }

  lemma InstantOfDigits(date: seq<string>, time: seq<string>)
    requires |date| == 3 && |time| == 2
    requires AllDigits(date[0]) && AllDigits(date[1]) && AllDigits(date[2])
    requires AllDigits(time[0]) && AllDigits(time[1])
    ensures InstantOfPieces(date, time)
         == Some(LocalInstant(DigitsValue(date[0]), DigitsValue(date[1]), DigitsValue(date[2]),
                              DigitsValue(time[0]), DigitsValue(time[1])))
  {
  }

  /** `YYYY-MM-DD` of digit runs gives local midnight of that year, month and day. */
  lemma DateOnlyWellFormed(yy: string, mo: string, dd: string)
    requires AllDigits(yy) && AllDigits(mo) && AllDigits(dd)
    ensures ParseLocalDateOnly(yy + "-" + mo + "-" + dd)
         == Some(LocalInstant(DigitsValue(yy), DigitsValue(mo), DigitsValue(dd), 0, 0))
  {
    DigitsExclude(yy, '-');
    DigitsExclude(mo, '-');
    DigitsExclude(dd, '-');
    SplitThree(yy, '-', mo, dd);
    var value := yy + "-" + mo + "-" + dd;
    assert value == yy + ['-'] + mo + ['-'] + dd;
    DateOfPieces(value, yy, mo, dd);
  }

  /** A date string that splits into three digit runs parses to local midnight of that day. */
  lemma DateOfPieces(value: string, yy: string, mo: string, dd: string)
    requires Split(value, '-') == [yy, mo, dd]
    requires AllDigits(yy) && AllDigits(mo) && AllDigits(dd)
    ensures ParseLocalDateOnly(value)
         == Some(LocalInstant(DigitsValue(yy), DigitsValue(mo), DigitsValue(dd), 0, 0))
  {
    var parts := Split(value, '-');
    var y, m, d := NumberAt(parts, 0), NumberAt(parts, 1), NumberAt(parts, 2);
    assert y.value == DigitsValue(yy) && m.value == DigitsValue(mo) && d.value == DigitsValue(dd);
  }

  /** `startOfDay(date)`: local midnight of the same day. */
  function StartOfDay(t: int): (r: int)
    ensures r <= t && DayNumber(r) == DayNumber(t) && r % MsPerDay == 0
  {
    DivOfSum(DayNumber(t), MsPerDay, 0);
    DayNumber(t) * MsPerDay
  }

  /** `endOfDay(date)`: 23:59:59.999 of the same day. */
  function EndOfDay(t: int): (r: int)
    ensures t <= r && DayNumber(r) == DayNumber(t) && r == StartOfDay(t) + MsPerDay - 1
  {
    DivOfSum(DayNumber(t), MsPerDay, MsPerDay - 1);
    DayNumber(t) * MsPerDay + MsPerDay - 1
  }

  /** An instant lies between the start and the end of t's day exactly when it falls on t's day. */
  lemma WithinDayIff(t: int, u: int)
    ensures StartOfDay(t) <= u <= EndOfDay(t) <==> DayNumber(u) == DayNumber(t)
  {
    var q := DayNumber(t);
    if StartOfDay(t) <= u <= EndOfDay(t) {
      DivOfSum(q, MsPerDay, u - q * MsPerDay);
      assert q * MsPerDay + (u - q * MsPerDay) == u;
    }
    if DayNumber(u) == q {
      assert u == q * MsPerDay + u % MsPerDay;
    }
  }

  /** `addDays(date, days)`: the same wall-clock time, `days` days later. */
  function AddDays(t: int, days: int): (r: int)
    ensures DayNumber(r) == DayNumber(t) + days
    ensures r % MsPerDay == t % MsPerDay
  {
    DivOfSum(DayNumber(t) + days, MsPerDay, t % MsPerDay);
    assert t + days * MsPerDay == (DayNumber(t) + days) * MsPerDay + t % MsPerDay;
    t + days * MsPerDay
  }

  /** `minutesUntil(target, now)`: whole minutes from now to target, rounded up. */
  function MinutesUntil(targetMs: int, nowMs: int): (r: int)
    ensures (r - 1) * MsPerMinute < targetMs - nowMs <= r * MsPerMinute
  {
    CeilDiv(targetMs - nowMs, MsPerMinute)
  }

  /** A target not in the past is zero or more minutes away. */
  lemma MinutesUntilNonNegative(targetMs: int, nowMs: int)
    requires targetMs >= nowMs
    ensures MinutesUntil(targetMs, nowMs) >= 0
  {
    var r := MinutesUntil(targetMs, nowMs);
    MulAwayFromZero(r, MsPerMinute);
  }

  /** The target is at most w minutes away exactly when it is no more than w minutes ahead. */
  lemma MinutesUntilAtMost(targetMs: int, nowMs: int, w: int)
    ensures MinutesUntil(targetMs, nowMs) <= w <==> targetMs - nowMs <= w * MsPerMinute
  {
    var r := MinutesUntil(targetMs, nowMs);
    MulMonotone(r, w, MsPerMinute);
    MulMonotone(w, r - 1, MsPerMinute);
  }

  /** A target exactly k minutes ahead is k minutes away. */
  lemma MinutesUntilExact(nowMs: int, k: int)
    ensures MinutesUntil(nowMs + k * MsPerMinute, nowMs) == k
  {
    CeilDivUnique(k * MsPerMinute, MsPerMinute, k);
  }

  /** The six four-hour windows of the daily-load card. */
  const WindowLabels: seq<string> := [
    "00:00–04:00",
    "04:00–08:00",
    "08:00–12:00",
    "12:00–16:00",
    "16:00–20:00",
    "20:00–24:00"
  ]

  /** The label shown when no bucket holds the peak (`labels[0]`). */
  const FirstWindowLabel: string := WindowLabels[0]

  /** `Math.floor(hour / 4)` of a task's local due hour; None when the due time is NaN. */
  function DueWindow(t: Todo): (w: Option<int>)
    ensures w.Some? ==> 0 <= w.value < 6
  {
    match ParseLocalDateTime(t.dueAt)
    case None => None
    case Some(ms) => Some(GetHours(ms) / 4)
  }

  /** How many of ts fall in window w. */
  function CountInWindow(ts: seq<Todo>, w: int): nat
    decreases |ts|
  {
    if ts == [] then 0
    else CountInWindow(ts[..|ts| - 1], w) + (if DueWindow(ts[|ts| - 1]) == Some(w) then 1 else 0)
  }

  /** How many of ts have a due time that parses. */
  function CountParsed(ts: seq<Todo>): (n: nat)
    ensures n <= |ts|
    decreases |ts|
  {
    if ts == [] then 0
    else CountParsed(ts[..|ts| - 1]) + (if ParseLocalDateTime(ts[|ts| - 1].dueAt).Some? then 1 else 0)
  }

  /** When every due time parses, every task is counted. */
  lemma {:induction false} AllParsedCount(ts: seq<Todo>)
    requires forall t :: t in ts ==> ParseLocalDateTime(t.dueAt).Some?
    ensures CountParsed(ts) == |ts|
    decreases |ts|
  {
    if ts != [] {
      var init := ts[..|ts| - 1];
      assert forall t :: t in init ==> t in ts;
      assert ts[|ts| - 1] in ts;
      AllParsedCount(init);
    }
  }

  /** Every task whose due time parses lands in exactly one window. */
  lemma {:induction false} WindowsCoverParsed(ts: seq<Todo>)
    ensures CountInWindow(ts, 0) + CountInWindow(ts, 1) + CountInWindow(ts, 2)
          + CountInWindow(ts, 3) + CountInWindow(ts, 4) + CountInWindow(ts, 5) == CountParsed(ts)
    decreases |ts|
  {
    if ts != [] {
      WindowsCoverParsed(ts[..|ts| - 1]);
    }
  }

  /** The bucket loop of `getDailyLoad` (and of the summary card): count the tasks per window.
      A NaN hour indexes no bucket, so such a task is counted nowhere. */
  method CountByWindow(ts: seq<Todo>) returns (buckets: seq<nat>)
    ensures |buckets| == 6
    ensures forall w :: 0 <= w < 6 ==> buckets[w] == CountInWindow(ts, w)
  {
    var counts := new nat[6](_ => 0);
    for k := 0 to |ts|
      invariant forall w :: 0 <= w < 6 ==> counts[w] == CountInWindow(ts[..k], w)
    {
      assert ts[..k + 1][..k] == ts[..k];
      var ms := ParseLocalDateTime(ts[k].dueAt);
      if ms.Some? {
        var idx := GetHours(ms.value) / 4;
        counts[idx] := counts[idx] + 1;
      }
    }
    assert ts[..|ts|] == ts;
    buckets := counts[..];
  }

  function Sum(xs: seq<nat>): nat
    decreases |xs|
  {
    if xs == [] then 0 else xs[0] + Sum(xs[1..])
  }

  lemma SumOfSix(b: seq<nat>)
    requires |b| == 6
    ensures Sum(b) == b[0] + b[1] + b[2] + b[3] + b[4] + b[5]
  {
    assert Sum(b[5..]) == b[5] by { assert b[5..][1..] == []; }
    assert Sum(b[4..]) == b[4] + Sum(b[5..]) by { assert b[4..][1..] == b[5..]; }
    assert Sum(b[3..]) == b[3] + Sum(b[4..]) by { assert b[3..][1..] == b[4..]; }
    assert Sum(b[2..]) == b[2] + Sum(b[3..]) by { assert b[2..][1..] == b[3..]; }
    assert Sum(b[1..]) == b[1] + Sum(b[2..]) by { assert b[1..][1..] == b[2..]; }
  }

  predicate IsNonEmpty(count: nat) {
    count > 0
  }

  /** There are never more non-empty buckets than tasks in them. */
  lemma {:induction false} NonEmptyAtMostSum(b: seq<nat>)
    ensures |Filter(b, IsNonEmpty)| <= Sum(b)
    decreases |b|
  {
    if b != [] {
      NonEmptyAtMostSum(b[1..]);
    }
  }

  /** `total + peak * 1.5 + max(0, spread - 1) * 0.5`, exactly. */
  function Score(total: nat, peak: nat, spread: nat): real {
    total as real + peak as real * 1.5 + Max(0, spread - 1) as real * 0.5
  }

  function Classify(score: real): DailyLoad {
    if score <= 5.0 then Light else if score <= 10.0 then Balanced else Heavy
  }

  /** Twice the score, an integer. */
  function DoubledScore(total: nat, peak: nat, spread: nat): int {
    2 * total + 3 * peak + Max(0, spread - 1)
  }

  /** The load class read off the doubled integer score: light up to 10, balanced up to 20. */
  lemma ClassifyByDoubledScore(total: nat, peak: nat, spread: nat)
    ensures var load, d := Classify(Score(total, peak, spread)), DoubledScore(total, peak, spread);
      && (load == Light <==> d <= 10)
      && (load == Balanced <==> 10 < d <= 20)
      && (load == Heavy <==> 20 < d)
  {
  }

  function LoadRank(load: DailyLoad): nat {
    match load
    case Light => 0
    case Balanced => 1
    case Heavy => 2
  }

  /** More tasks never make a day lighter, peak and spread being equal. */
  lemma LoadMonotoneInTotal(total: nat, total': nat, peak: nat, spread: nat)
    requires total <= total'
    ensures LoadRank(Classify(Score(total, peak, spread))) <= LoadRank(Classify(Score(total', peak, spread)))
  {
    ClassifyByDoubledScore(total, peak, spread);
    ClassifyByDoubledScore(total', peak, spread);
  }

  /** The first bucket holding the peak: every bucket before it holds strictly less. */
  lemma FirstPeak(b: seq<nat>)
    requires b != []
    ensures var i := FindIndex(b, MaxOrZero(b));
      0 <= i < |b| && b[i] == MaxOrZero(b) && forall v :: 0 <= v < i ==> b[v] < MaxOrZero(b)
  {
    var peak := MaxOrZero(b);
    var i := FindIndex(b, peak);
    forall v | 0 <= v < i ensures b[v] < peak {
      FindIndexBefore(b, peak, v);
    }
  }

  datatype DailyLoadReport = DailyLoadReport(
    load: DailyLoad,
    total: nat,
    peak: nat,
    spread: nat,
    busiestWindow: string,
    labels: seq<string>,
    buckets: seq<nat>)

  /** The report `getDailyLoad` gives for `ts`: the task count, the six window labels, each
      window's count, the largest count, the number of non-empty windows, the first window
      holding the largest count, and the class of the score. */
  ghost predicate IsDailyLoadOf(r: DailyLoadReport, ts: seq<Todo>) {
    && r.total == |ts| && r.labels == WindowLabels && |r.buckets| == 6
    && (forall w :: 0 <= w < 6 ==> r.buckets[w] == CountInWindow(ts, w))
    && (forall w :: 0 <= w < 6 ==> r.buckets[w] <= r.peak)
    && r.peak in r.buckets
    && r.spread == |Filter(r.buckets, IsNonEmpty)|
    && (exists w :: 0 <= w < 6 && r.buckets[w] == r.peak && r.busiestWindow == WindowLabels[w]
                 && forall v :: 0 <= v < w ==> r.buckets[v] < r.peak)
    && r.load == Classify(Score(r.total, r.peak, r.spread))
  }

  /** Two first positions of the same value are the same position. */
  lemma FirstHitUnique(b: seq<nat>, p: nat, w: nat, w': nat)
    requires w < |b| && w' < |b| && b[w] == p && b[w'] == p
    requires forall v :: 0 <= v < w ==> b[v] < p
    requires forall v :: 0 <= v < w' ==> b[v] < p
    ensures w == w'
  {
  }

  /** The report is a function of the tasks: two reports of the same tasks are equal. */
  lemma DailyLoadUnique(r: DailyLoadReport, r': DailyLoadReport, ts: seq<Todo>)
    requires IsDailyLoadOf(r, ts) && IsDailyLoadOf(r', ts)
    ensures r == r'
  {
    assert r.buckets == r'.buckets;
    var b := r.buckets;
    var i :| 0 <= i < |b| && b[i] == r.peak;
    var i' :| 0 <= i' < |b| && b[i'] == r'.peak;
    assert r.peak == r'.peak by {
      assert b[i] <= r'.peak && b[i'] <= r.peak;
    }
    var w :| 0 <= w < 6 && b[w] == r.peak && r.busiestWindow == WindowLabels[w]
             && forall v :: 0 <= v < w ==> b[v] < r.peak;
    var w' :| 0 <= w' < 6 && b[w'] == r'.peak && r'.busiestWindow == WindowLabels[w']
              && forall v :: 0 <= v < w' ==> b[v] < r'.peak;
    FirstHitUnique(b, r.peak, w, w');
  }

  /** `getDailyLoad(todosForDay)`. */
  method GetDailyLoad(todosForDay: seq<Todo>) returns (r: DailyLoadReport)
    ensures IsDailyLoadOf(r, todosForDay)
    ensures Sum(r.buckets) == CountParsed(todosForDay) <= r.total
    ensures (forall t :: t in todosForDay ==> ParseLocalDateTime(t.dueAt).Some?) ==> Sum(r.buckets) == r.total
    ensures r.spread <= 6 && r.spread <= r.total
  {
    var buckets := CountByWindow(todosForDay);
    var total := |todosForDay|;
    var peak := MaxOrZero(buckets);
    var spread := |Filter(buckets, IsNonEmpty)|;
    var busiestIdx := FindIndex(buckets, peak);
    var busiestWindow := if busiestIdx >= 0 then WindowLabels[busiestIdx] else FirstWindowLabel;
    var load := Classify(Score(total, peak, spread));
    r := DailyLoadReport(load, total, peak, spread, busiestWindow, WindowLabels, buckets);

    WindowsCoverParsed(todosForDay);
    SumOfSix(buckets);
    assert Sum(buckets) == CountParsed(todosForDay);
    if forall t :: t in todosForDay ==> ParseLocalDateTime(t.dueAt).Some? {
      AllParsedCount(todosForDay);
    }
    NonEmptyAtMostSum(buckets);
    assert spread <= total;
    FirstPeak(buckets);
    assert 0 <= busiestIdx < 6 && busiestWindow == WindowLabels[busiestIdx];
  }

  datatype TaskFlags = TaskFlags(completed: bool, overdue: bool, inProgress: bool, planned: bool)

  /** `getTaskFlags(todo, nowMs, inProgressTaskId)`. */
  function GetTaskFlags(todo: Todo, nowMs: int, inProgressTaskId: Option<string>): (f: TaskFlags)
    ensures f.completed == todo.completed
    ensures f.overdue <==> !todo.completed && KeyLess(ParseLocalDateTime(todo.dueAt), Some(nowMs))
    ensures f.inProgress <==> !todo.completed && inProgressTaskId == Some(todo.id)
    ensures f.completed ==> !f.overdue && !f.inProgress && !f.planned
    ensures f.planned <==> !(f.completed || f.overdue || f.inProgress)
  {
    var completed := todo.completed;
    var dueMs := ParseLocalDateTime(todo.dueAt);
    var overdue := !completed && dueMs.Some? && dueMs.value < nowMs;
    var inProgress := !completed && inProgressTaskId == Some(todo.id);
    var planned := !completed && !overdue && !inProgress;
    TaskFlags(completed, overdue, inProgress, planned)
  }

  /** The flags are not exclusive: an open task past its due time that is also the one in
      progress is both overdue and in progress, and so not planned. */
  lemma OverdueWhileInProgress(todo: Todo, nowMs: int)
    requires !todo.completed
    requires ParseLocalDateTime(todo.dueAt).Some? && ParseLocalDateTime(todo.dueAt).value < nowMs
    ensures var f := GetTaskFlags(todo, nowMs, Some(todo.id)); f.overdue && f.inProgress && !f.planned
  {
  }
}
