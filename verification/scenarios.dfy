/** Worked examples of the scheduler, with day 0 as today. */
module Scenarios {
  import opened StudyTask
  import opened DueOrder
  import opened Allocation

  /** An essay of 6 hours due in three days, with 2 hours a day available:
      four days of 1.5 hours, all six hours planned. */
  lemma EssayFits()
    ensures |Schedule([NewTask("Essay", 6.0, 3)], 0, 2.0)| == 4
    ensures forall i :: 0 <= i < 4 ==> Schedule([NewTask("Essay", 6.0, 3)], 0, 2.0)[i] == Entry(i, "Essay", 1.5)
    ensures SumHours(Schedule([NewTask("Essay", 6.0, 3)], 0, 2.0)) == 6.0
  {
    var t := NewTask("Essay", 6.0, 3);
    EssayShare(t);
    assert EntryHours(t, 0, 2.0) == 1.5;
    SingleTaskPlan(t, 0, 2.0);
    UnclippedTaskGetsAllHours(t, 0, 2.0);
  }

  /** The same essay with 1 hour a day: every day is capped at 1 hour and only
      four of the six hours are planned; nothing tops the days up. */
  lemma EssayUnderAllocated()
    ensures |Schedule([NewTask("Essay", 6.0, 3)], 0, 1.0)| == 4
    ensures forall i :: 0 <= i < 4 ==> Schedule([NewTask("Essay", 6.0, 3)], 0, 1.0)[i] == Entry(i, "Essay", 1.0)
    ensures SumHours(Schedule([NewTask("Essay", 6.0, 3)], 0, 1.0)) == 4.0
  {
    var t := NewTask("Essay", 6.0, 3);
    EssayShare(t);
    assert EntryHours(t, 0, 1.0) == 1.0;
    SingleTaskPlan(t, 0, 1.0);
    var plan := TaskEntries(t, 0, 1.0);
    SumOfEqualEntries(plan, 1.0);
    assert |plan| as real * 1.0 == 4.0;
  }

  /** A task already past due gets no entry at all: its window is counted as
      one day, but the day loop starts after the due date. */
  lemma PastDueGetsNothing(t: Task, today: int, cap: real)
    requires t.due < today
    ensures Schedule([t], today, cap) == []
    ensures TotalDays(t.due, today) == 1
  {
    SingleTaskPlan(t, today, cap);
  }

  /** The essay's even share: 6 hours over 4 days. */
  lemma EssayShare(t: Task)
    requires t == NewTask("Essay", 6.0, 3)
    ensures DailyAllocation(t, 0) == 1.5
  {
    assert Remaining(t) == 6.0;
    assert TotalDays(t.due, 0) == 4;
  }

  /** The plan of a single task is that task's entries. */
  lemma SingleTaskPlan(t: Task, today: int, cap: real)
    ensures Schedule([t], today, cap) == TaskEntries(t, today, cap)
  {
    StableSortIsSortByDue([t], [t]);
    assert SortByDue([t]) == [t];
    assert [t][..0] == [] && [t][|[t]| - 1] == t;
    assert EmitAll([t], today, cap) == EmitAll([], today, cap) + TaskEntries(t, today, cap);
  }
}
