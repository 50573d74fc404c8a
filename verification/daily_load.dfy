/** What the study plan puts on one date, and what that means for the daily
    capacity: each task is capped on its own, so a date shared by several
    tasks can carry more than the capacity in total. */
module DailyLoad {
  import opened StudyTask
  import opened DueOrder
  import opened Allocation
  import opened Grouping

  /** The entries one expects on day `k` from the tasks `ts`: one per task
      whose window `today..due` contains `k`, in the order of `ts`. */
  function DayEntries(ts: seq<Task>, today: int, cap: real, k: int): seq<Entry>
  {
    if |ts| == 0 then []
    else
      var t := ts[|ts| - 1];
      DayEntries(ts[..|ts| - 1], today, cap, k)
        + (if today <= k <= t.due then [Entry(k, t.name, EntryHours(t, today, cap))] else [])
  }

  /** A run of entries on consecutive days holds at most one entry for day `k`. */
  lemma {:induction false} OnDateOfRun(es: seq<Entry>, from: int, name: string, h: real, k: int)
    requires forall i :: 0 <= i < |es| ==> es[i] == Entry(from + i, name, h)
    ensures OnDate(es, k) == if from <= k < from + |es| then [Entry(k, name, h)] else []
    decreases |es|
  {
    if |es| > 0 {
      OnDateOfRun(es[..|es| - 1], from, name, h, k);
    }
  }

  /** The entries that the plan of `tasks` holds for day `k` are one per task
      active on `k`, in due-date order. */
  lemma {:induction false} ScheduleOnDay(ts: seq<Task>, today: int, cap: real, k: int)
    ensures OnDate(EmitAll(ts, today, cap), k) == DayEntries(ts, today, cap, k)
    decreases |ts|
  {
    if |ts| > 0 {
      var t := ts[|ts| - 1];
      ScheduleOnDay(ts[..|ts| - 1], today, cap, k);
      OnDateAppend(EmitAll(ts[..|ts| - 1], today, cap), TaskEntries(t, today, cap), k);
      OnDateOfRun(TaskEntries(t, today, cap), today, t.name, EntryHours(t, today, cap), k);
    }
  }

  /** Each display block of the plan lists, for its date, one entry per task
      whose window contains the date, in due-date order. */
  lemma PlanBlocks(tasks: seq<Task>, today: int, cap: real)
    ensures forall g :: g in GroupByDate(Schedule(tasks, today, cap)) ==>
      g.items == DayEntries(SortByDue(tasks), today, cap, g.date)
  {
    var gs := GroupByDate(Schedule(tasks, today, cap));
    forall g | g in gs ensures g.items == DayEntries(SortByDue(tasks), today, cap, g.date) {
      ScheduleOnDay(SortByDue(tasks), today, cap, g.date);
    }
  }

  /** The number of tasks of `ts` active on day `k`. */
  function ActiveOn(ts: seq<Task>, today: int, k: int): nat
  {
    if |ts| == 0 then 0
    else ActiveOn(ts[..|ts| - 1], today, k) + (if today <= k <= ts[|ts| - 1].due then 1 else 0)
  }

  /** The capacity bounds each task's share of a day, not the day: the hours
      planned on day `k` are at most the capacity times the number of tasks
      active that day. */
  lemma DayTotalBound(ts: seq<Task>, today: int, cap: real, k: int)
    ensures |DayEntries(ts, today, cap, k)| == ActiveOn(ts, today, k)
    ensures SumHours(DayEntries(ts, today, cap, k)) <= ActiveOn(ts, today, k) as real * cap
  {
    var n := ActiveOn(ts, today, k);
    DayTotalCapTimes(ts, today, cap, k);
    CapTimesIsProduct(n, cap);
    assert SumHours(DayEntries(ts, today, cap, k)) <= CapTimes(n, cap) == n as real * cap;
  }

  /** `n` times `cap`, as a sum. */
  function CapTimes(n: nat, cap: real): real
  {
    if n == 0 then 0.0 else CapTimes(n - 1, cap) + cap
  }

  /** The repeated sum is the product. */
  lemma {:induction false} CapTimesIsProduct(n: nat, cap: real)
    ensures CapTimes(n, cap) == n as real * cap
  {
    if n > 0 {
      CapTimesIsProduct(n - 1, cap);
    }
  }

  /** `DayTotalBound` with the product written as a repeated sum. */
  lemma {:induction false} DayTotalCapTimes(ts: seq<Task>, today: int, cap: real, k: int)
    ensures |DayEntries(ts, today, cap, k)| == ActiveOn(ts, today, k)
    ensures SumHours(DayEntries(ts, today, cap, k)) <= CapTimes(ActiveOn(ts, today, k), cap)
    decreases |ts|
  {
    if |ts| > 0 {
      var t := ts[|ts| - 1];
      var prefix := ts[..|ts| - 1];
      DayTotalCapTimes(prefix, today, cap, k);
      var before := DayEntries(prefix, today, cap, k);
      var extra := if today <= k <= t.due then [Entry(k, t.name, EntryHours(t, today, cap))] else [];
      assert DayEntries(ts, today, cap, k) == before + extra;
      SumAppend(before, extra);
      if today <= k <= t.due {
        assert extra[..0] == [];
        assert SumHours(extra) == EntryHours(t, today, cap);
      } else {
        assert SumHours(extra) == 0.0;
      }
    }
  }

  /** No budget is shared between tasks: two tasks due today, each with at
      least the capacity left, put twice the capacity on today. */
  lemma SharedDayExceedsCapacity(a: Task, b: Task, today: int, cap: real)
    requires cap > 0.0
    requires a.due == today && b.due == today
    requires Remaining(a) >= cap && Remaining(b) >= cap
    ensures SumHours(OnDate(Schedule([a, b], today, cap), today)) == 2.0 * cap
    ensures SumHours(OnDate(Schedule([a, b], today, cap), today)) > cap
  {
    TwoTaskPlan(a, b, today, cap);
    OneDayShare(a, today, cap);
    OneDayShare(b, today, cap);
    var plan := [Entry(today, a.name, cap), Entry(today, b.name, cap)];
    assert Schedule([a, b], today, cap) == plan;
    assert plan[..1] == [Entry(today, a.name, cap)] && plan[..1][..0] == [];
    assert OnDate(plan[..1], today) == plan[..1];
    assert OnDate(plan, today) == plan[..1] + [plan[1]] == plan;
    assert SumHours(plan[..1]) == cap;
  }

  /** Two tasks due in that order are planned one after the other. */
  lemma TwoTaskPlan(a: Task, b: Task, today: int, cap: real)
    requires a.due <= b.due
    ensures Schedule([a, b], today, cap) == TaskEntries(a, today, cap) + TaskEntries(b, today, cap)
  {
    StableSortIsSortByDue([a, b], [a, b]);
    assert [a, b][..1] == [a] && [a][..0] == [];
    assert EmitAll([a], today, cap) == TaskEntries(a, today, cap);
  }

  /** A task due today with at least the capacity left gets one full day. */
  lemma OneDayShare(t: Task, today: int, cap: real)
    requires t.due == today && Remaining(t) >= cap
    ensures TaskEntries(t, today, cap) == [Entry(today, t.name, cap)]
  {
    assert TotalDays(t.due, today) == 1;
    assert EntryHours(t, today, cap) == cap;
  }
}
