/** The allocation scheduler: every task's remaining hours spread evenly over
    the days from today up to its due date, each day's share capped at the
    daily capacity. Tasks are allocated one at a time; no budget is shared
    between tasks. */
module Allocation {
  import opened StudyTask
  import opened DueOrder

  /** One line of the study plan: on day `date`, study `task` for `hours`. */
  datatype Entry = Entry(date: int, task: string, hours: real)

  /** The smaller of two amounts; `b` only when it is strictly smaller. */
  function Min(a: real, b: real): (m: real)
    ensures m <= a && m <= b && (m == a || m == b)
  {
    if b < a then b else a
  }

  /** The number of days the work of a task due on `due` is spread over,
      counting from `today`; a task due today or earlier gets one day. */
  function TotalDays(due: int, today: int): (n: int)
    ensures n >= 1
    ensures due >= today ==> n == due - today + 1
    ensures due < today ==> n == 1
  {
    var days := due - today + 1;
    if days <= 0 then 1 else days
  }

  /** The task's even share per day of its remaining hours. */
  function DailyAllocation(t: Task, today: int): (a: real)
    ensures a >= 0.0
  {
    Remaining(t) / TotalDays(t.due, today) as real
  }

  /** The shares of all the days of a task's window add up to its remaining hours. */
  lemma DailySharesAddUp(t: Task, today: int)
    ensures DailyAllocation(t, today) * TotalDays(t.due, today) as real == Remaining(t)
  {
  }

  /** The hours given to each entry of a task: its daily share, at most the capacity. */
  function EntryHours(t: Task, today: int, cap: real): (h: real)
    ensures h <= cap && h <= DailyAllocation(t, today)
    ensures h == cap || h == DailyAllocation(t, today)
    ensures cap >= 0.0 ==> h >= 0.0
  {
    Min(DailyAllocation(t, today), cap)
  }

  /** One entry of `h` hours for `name` on each day from `from` to `due`. */
  function EntriesFrom(name: string, from: int, due: int, h: real): (r: seq<Entry>)
    decreases due - from + 1
    ensures |r| == if from <= due then due - from + 1 else 0
    ensures forall i :: 0 <= i < |r| ==> r[i] == Entry(from + i, name, h)
  {
    if from > due then [] else [Entry(from, name, h)] + EntriesFrom(name, from + 1, due, h)
  }

  /** The entries emitted for one task. */
  function TaskEntries(t: Task, today: int, cap: real): (r: seq<Entry>)
    ensures t.due >= today ==> |r| == t.due - today + 1
    ensures t.due < today ==> r == []
    ensures forall i :: 0 <= i < |r| ==>
      r[i].date == today + i && r[i].task == t.name && r[i].hours == EntryHours(t, today, cap)
  {
    EntriesFrom(t.name, today, t.due, EntryHours(t, today, cap))
  }

  /** The entries of the tasks of `ts`, taken in the order of `ts`. */
  function EmitAll(ts: seq<Task>, today: int, cap: real): seq<Entry>
  {
    if |ts| == 0 then [] else EmitAll(ts[..|ts| - 1], today, cap) + TaskEntries(ts[|ts| - 1], today, cap)
  }

  /** The study plan: the tasks in due-date order, each contributing its entries. */
  function Schedule(tasks: seq<Task>, today: int, cap: real): seq<Entry>
  {
    EmitAll(SortByDue(tasks), today, cap)
  }

  /** The scheduling loop as the program runs it: walk the tasks in due-date
      order and, for each, step a date from today while it is not past the
      due date, emitting one entry per step. */
  method GenerateSchedule(tasks: seq<Task>, today: int, cap: real) returns (entries: seq<Entry>)
    ensures entries == Schedule(tasks, today, cap)
  {
    var sorted := SortByDue(tasks);
    entries := [];
    var i := 0;
    while i < |sorted|
      invariant 0 <= i <= |sorted|
      invariant entries == EmitAll(sorted[..i], today, cap)
    {
      var emitted := EmitTask(sorted[i], today, cap);
      assert sorted[..i + 1][..i] == sorted[..i];
      entries := entries + emitted;
      i := i + 1;
    }
    assert sorted[..|sorted|] == sorted;
  }

  /** The body of the scheduling loop for one task: the day count, clamped to
      at least one, the daily share, and one entry per day from today while
      the date is not past the due date. */
  method EmitTask(task: Task, today: int, cap: real) returns (emitted: seq<Entry>)
    ensures emitted == TaskEntries(task, today, cap)
  {
    var totalDays := task.due - today + 1;
    if totalDays <= 0 {
      totalDays := 1;
    }
    var dailyAllocation := Remaining(task) / totalDays as real;
    emitted := [];
    var current := today;
    while current <= task.due
      invariant today <= current
      invariant current <= task.due + 1 || current == today
      invariant |emitted| == current - today
      invariant forall j :: 0 <= j < |emitted| ==>
        emitted[j] == Entry(today + j, task.name, Min(dailyAllocation, cap))
      decreases task.due - current + 1
    {
      var hoursToday := Min(dailyAllocation, cap);
      emitted := emitted + [Entry(current, task.name, hoursToday)];
      current := current + 1;
    }
  }

  /** The total hours of a list of entries. */
  function SumHours(es: seq<Entry>): real
  {
    if |es| == 0 then 0.0 else SumHours(es[..|es| - 1]) + es[|es| - 1].hours
  }

  /** The total of two lists of entries put together. */
  lemma {:induction false} SumAppend(a: seq<Entry>, b: seq<Entry>)
    ensures SumHours(a + b) == SumHours(a) + SumHours(b)
    decreases |b|
  {
    if |b| == 0 {
      assert a + b == a;
    } else {
      assert (a + b)[..|a + b| - 1] == a + b[..|b| - 1];
      assert (a + b)[|a + b| - 1] == b[|b| - 1];
      SumAppend(a, b[..|b| - 1]);
    }
  }

  /** Entries that all carry `h` hours add up to their number times `h`. */
  lemma {:induction false} SumOfEqualEntries(es: seq<Entry>, h: real)
    requires forall i :: 0 <= i < |es| ==> es[i].hours == h
    ensures SumHours(es) == |es| as real * h
  {
    if |es| > 0 {
      SumOfEqualEntries(es[..|es| - 1], h);
    }
  }

  /** Scaling by a positive factor keeps the order. */
  lemma MulMonotone(n: real, a: real, b: real)
    requires n > 0.0 && a <= b
    ensures n * a <= n * b
  {
  }

  /** A task due `d >= 0` days from today receives, over its `d + 1` entries,
      its remaining hours or `d + 1` full days of capacity, whichever is less;
      a task already past due receives nothing. */
  lemma TaskHoursTotal(t: Task, today: int, cap: real)
    ensures t.due < today ==> SumHours(TaskEntries(t, today, cap)) == 0.0
    ensures t.due >= today ==>
      SumHours(TaskEntries(t, today, cap)) == Min(Remaining(t), (t.due - today + 1) as real * cap)
  {
    var es := TaskEntries(t, today, cap);
    if t.due >= today {
      DailySharesAddUp(t, today);
      CappedSharesTotal(es, DailyAllocation(t, today), cap, TotalDays(t.due, today), Remaining(t));
    }
  }

  /** `n` entries of `a` capped at `cap`, where `n` shares of `a` make `r`,
      add up to `r` or `n` capacities, whichever is less. */
  lemma CappedSharesTotal(es: seq<Entry>, a: real, cap: real, n: int, r: real)
    requires |es| == n > 0 && a * n as real == r
    requires forall i :: 0 <= i < |es| ==> es[i].hours == Min(a, cap)
    ensures SumHours(es) == Min(r, n as real * cap)
  {
    SumOfEqualEntries(es, Min(a, cap));
    CappedShares(n as real, a, cap, r);
  }

  /** `n` capped shares of `r / n` are `r` or `n` capacities, whichever is less. */
  lemma CappedShares(n: real, a: real, cap: real, r: real)
    requires n > 0.0 && n * a == r
    ensures n * Min(a, cap) == Min(r, n * cap)
  {
    if a <= cap {
      MulMonotone(n, a, cap);
    } else {
      MulMonotone(n, cap, a);
    }
  }

  /** When the capacity never binds, every entry of a task carries its even
      share and the entries add up to all its remaining hours. */
  lemma UnclippedTaskGetsAllHours(t: Task, today: int, cap: real)
    requires t.due >= today
    requires DailyAllocation(t, today) <= cap
    ensures forall e :: e in TaskEntries(t, today, cap) ==> e.hours == DailyAllocation(t, today)
    ensures SumHours(TaskEntries(t, today, cap)) == Remaining(t)
  {
    var a := DailyAllocation(t, today);
    var es := TaskEntries(t, today, cap);
    assert EntryHours(t, today, cap) == a;
    DailySharesAddUp(t, today);
    EqualSharesTotal(es, a, TotalDays(t.due, today), Remaining(t));
  }

  /** `n` entries of `a` hours each, where `n` shares of `a` make `r`, add up to `r`. */
  lemma EqualSharesTotal(es: seq<Entry>, a: real, n: int, r: real)
    requires |es| == n && a * n as real == r
    requires forall i :: 0 <= i < |es| ==> es[i].hours == a
    ensures SumHours(es) == r
  {
    SumOfEqualEntries(es, a);
  }

  /** Every entry of the tasks `ts` lies in the window of a task of `ts` with
      the same name, today or later, and carries that task's capped share. */
  lemma {:induction false} EmittedWithinWindows(ts: seq<Task>, today: int, cap: real)
    ensures forall e :: e in EmitAll(ts, today, cap) ==>
      today <= e.date && e.hours <= cap &&
      exists t :: t in ts && t.name == e.task && e.date <= t.due && e.hours == EntryHours(t, today, cap)
    decreases |ts|
  {
    if |ts| > 0 {
      var prefix := ts[..|ts| - 1];
      var last := ts[|ts| - 1];
      EmittedWithinWindows(prefix, today, cap);
      forall e | e in EmitAll(ts, today, cap)
        ensures today <= e.date && e.hours <= cap
        ensures exists t :: t in ts && t.name == e.task && e.date <= t.due && e.hours == EntryHours(t, today, cap)
      {
        if e in EmitAll(prefix, today, cap) {
          var t :| t in prefix && t.name == e.task && e.date <= t.due && e.hours == EntryHours(t, today, cap);
          assert t in ts;
        } else {
          var es := TaskEntries(last, today, cap);
          assert e in es;
          var j :| 0 <= j < |es| && es[j] == e;
          assert last in ts;
        }
      }
    }
  }

  /** Every entry of the plan is dated in the window of one of the tasks,
      today or later, and carries at most the daily capacity. */
  lemma ScheduleWithinWindows(tasks: seq<Task>, today: int, cap: real)
    ensures forall e :: e in Schedule(tasks, today, cap) ==>
      today <= e.date && e.hours <= cap &&
      exists t :: t in tasks && t.name == e.task && e.date <= t.due && e.hours == EntryHours(t, today, cap)
  {
    var sorted := SortByDue(tasks);
    EmittedWithinWindows(sorted, today, cap);
    forall t | t in sorted ensures t in tasks {
      assert t in multiset(sorted);
    }
  }
}
